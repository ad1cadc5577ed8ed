/** What the SI reader takes out of one parsed row, given the column layout: the class
    name, the start time, the number of controls, the cumulative times, the course details
    and the competitor's own fields. */
module SiRows {
  import opened Wrappers
  import opened Times
  import opened SiFormat

  /** The parsers the reader borrows from the rest of the program, and the model's
      `completed` test on a competitor's cumulative times. */
  datatype Helpers = Helpers(
    parseTime: string -> Option<int>,
    parseCourseLength: string -> Option<real>,
    parseCourseClimb: string -> Option<int>,
    completed: seq<Time> -> bool)

  /** What the reader keeps for one course: length, climb and control codes. */
  datatype CourseDetails = CourseDetails(length: Option<real>, climb: Option<int>, controls: seq<string>)

  /** One competitor as read from a row. */
  datatype CompetitorRecord = CompetitorRecord(
    order: nat, name: string, club: string, startTime: Option<int>,
    cumTimes: seq<Time>, completed: bool, nonCompetitive: bool)

  /** What the reader keeps for one class: the number of controls its first row gave
      (None when that did not parse) and its competitors in reading order. */
  datatype ClassEntry = ClassEntry(numControls: Option<int>, competitors: seq<CompetitorRecord>)

  /** Column `i` is there and empty: the source's `row[i] === ""`, which is false for a
      column past the end of the row (undefined there). */
  predicate BlankCell(row: seq<string>, i: nat) {
    i < |row| && row[i] == ""
  }

  /** The value of column `i`, or of column `fallback` when column `i` is there but blank
      and the layout has a fallback column. */
  function WithFallback(row: seq<string>, i: nat, fallback: Option<nat>): (v: string)
    ensures BlankCell(row, i) && fallback.Some? ==> v == Cell(row, fallback.value)
    ensures !BlankCell(row, i) || fallback.None? ==> v == Cell(row, i)
  {
    if BlankCell(row, i) && fallback.Some? then Cell(row, fallback.value) else Cell(row, i)
  }

  /** getAgeClassName. */
  function AgeClassName(ci: ColumnIndexes, row: seq<string>): (name: string)
    ensures name == Cell(row, ci.ageClass) ||
      (ci.ageClassFallback.Some? && BlankCell(row, ci.ageClass) && name == Cell(row, ci.ageClassFallback.value))
    ensures name == "" ==> Cell(row, ci.ageClass) == ""
  {
    WithFallback(row, ci.ageClass, ci.ageClassFallback)
  }

  /** getStartTime: the start column, or the start fallback column when that is there but
      blank. A start column past the end of the row takes no fallback. */
  function StartTime(h: Helpers, ci: ColumnIndexes, row: seq<string>): (t: Option<int>)
    ensures !BlankCell(row, ci.start) || ci.startFallback.None? ==> t == h.parseTime(Cell(row, ci.start))
    ensures BlankCell(row, ci.start) && ci.startFallback.Some? ==>
      t == h.parseTime(Cell(row, ci.startFallback.value))
  {
    h.parseTime(WithFallback(row, ci.start, ci.startFallback))
  }

  /** The course name of a row. A course column past the end of the row is undefined in
      the source, which d3.map keys, and so every later lookup, turn into "undefined". */
  function CourseName(ci: ColumnIndexes, row: seq<string>): (name: string)
    ensures ci.course < |row| ==> name == row[ci.course]
    ensures ci.course >= |row| ==> name == "undefined"
  {
    if ci.course < |row| then row[ci.course] else "undefined"
  }

  /** getNumControls: a row whose class name is blank is invalid; a class already seen
      keeps the number of controls of its first row; otherwise the control-count column is
      read with parseInt (None for NaN). */
  function NumControls(classes: map<string, ClassEntry>, ci: ColumnIndexes, row: seq<string>)
    : (r: Result<Option<int>>)
    ensures r.Failure? <==> AllWhitespace(AgeClassName(ci, row))
    ensures r.Failure? ==> r.error == InvalidData
    ensures r.Success? && AgeClassName(ci, row) in classes ==>
      r.value == classes[AgeClassName(ci, row)].numControls
    ensures r.Success? && AgeClassName(ci, row) !in classes ==>
      r.value == ParseInt(Cell(row, ci.controlCount))
  {
    var name := AgeClassName(ci, row);
    TrimBlank(name);
    if Trim(name) == "" then Failure(InvalidData)
    else if name in classes then Success(classes[name].numControls)
    else Success(ParseInt(Cell(row, ci.controlCount)))
  }

  /** How many controls a loop `for (i = 0; i < n; i++)` or `d3.range(0, n)` visits: none
      for NaN or a count below one. */
  function ControlCount(n: Option<int>): (k: nat)
    ensures n.Some? && n.value >= 0 ==> k == n.value
    ensures n.None? || n.value <= 0 ==> k == 0
  {
    if n.Some? && n.value > 0 then n.value else 0
  }

  function ToTime(t: Option<int>): Time {
    if t.Some? then Num(t.value) else Missing
  }

  /** The column holding the cumulative time at control `i` (0-based). */
  function ControlTimeColumn(ci: ColumnIndexes, i: nat): nat {
    ci.control1 + 1 + 2 * i
  }

  /** The column holding the code of control `i` (0-based). */
  function ControlCodeColumn(ci: ColumnIndexes, i: nat): nat {
    ci.control1 + 2 * i
  }

  /** The cumulative time at control `i`: missing when the row is too short. */
  function ControlTime(h: Helpers, ci: ColumnIndexes, row: seq<string>, i: nat): (t: Time)
    ensures ControlTimeColumn(ci, i) >= |row| ==> t == Missing
    ensures ControlTimeColumn(ci, i) < |row| ==> t == ToTime(h.parseTime(row[ControlTimeColumn(ci, i)]))
  {
    var k := ControlTimeColumn(ci, i);
    if k < |row| then ToTime(h.parseTime(row[k])) else Missing
  }

  /** The total time: the time column when it parses, else finish minus start when both
      parse, else missing. */
  function TotalTime(h: Helpers, ci: ColumnIndexes, row: seq<string>): (t: Time)
    ensures h.parseTime(Cell(row, ci.time)).Some? ==> t == Num(h.parseTime(Cell(row, ci.time)).value)
    ensures h.parseTime(Cell(row, ci.time)).None? ==>
      var start, finish := StartTime(h, ci, row), h.parseTime(Cell(row, ci.finish));
      t == if start.Some? && finish.Some? then Num(finish.value - start.value) else Missing
  {
    var total := h.parseTime(Cell(row, ci.time));
    if total.Some? then Num(total.value)
    else
      var start, finish := StartTime(h, ci, row), h.parseTime(Cell(row, ci.finish));
      if start.Some? && finish.Some? then Num(finish.value - start.value) else Missing
  }

  /** The cumulative times read from a row for `n` controls: zero, the control times and
      the total time. */
  function CumulativeTimes(h: Helpers, ci: ColumnIndexes, row: seq<string>, n: nat): (ts: seq<Time>)
    ensures |ts| == n + 2 && ts[0] == Num(0) && ts[n + 1] == TotalTime(h, ci, row)
  {
    [Num(0)] + seq(n, i requires 0 <= i < n => ControlTime(h, ci, row, i)) + [TotalTime(h, ci, row)]
  }

  /** The course details a row gives for `n` controls (createCourseIfNecessary). */
  function CourseDetailsOf(h: Helpers, ci: ColumnIndexes, row: seq<string>, n: nat): (cd: CourseDetails)
    ensures cd.length == h.parseCourseLength(Cell(row, ci.distance))
    ensures cd.climb == h.parseCourseClimb(Cell(row, ci.climb))
    ensures |cd.controls| == n
    ensures forall i :: 0 <= i < n ==> cd.controls[i] == Cell(row, ControlCodeColumn(ci, i))
  {
    CourseDetails(h.parseCourseLength(Cell(row, ci.distance)), h.parseCourseClimb(Cell(row, ci.climb)),
                  seq(n, i requires 0 <= i < n => Cell(row, ControlCodeColumn(ci, i))))
  }

  /** The club column, or the club fallback column when that is blank. */
  function Club(ci: ColumnIndexes, row: seq<string>): (club: string)
    ensures !BlankCell(row, ci.club) || ci.clubFallback.None? ==> club == Cell(row, ci.club)
    ensures BlankCell(row, ci.club) && ci.clubFallback.Some? ==> club == Cell(row, ci.clubFallback.value)
  {
    WithFallback(row, ci.club, ci.clubFallback)
  }

  /** A placing that is not blank and that parseInt reads as NaN ("mp", "n/c"). A placing
      past the end of the row is undefined, which is not "" and which parseInt reads as
      NaN, so it counts as non-numeric. */
  predicate PlacingNonNumeric(ci: ColumnIndexes, row: seq<string>) {
    !BlankCell(row, ci.placing) && ParseInt(Cell(row, ci.placing)).None?
  }

  /** addCompetitor takes the length of the placing when it is non-numeric and the layout
      has forename and surname columns: a placing past the end of the row is undefined
      there, and the source raises a TypeError. */
  predicate PlacingUndefined(ci: ColumnIndexes, row: seq<string>) {
    ci.forename.Some? && ci.surname.Some? && ci.placing >= |row|
  }

  /** The surname with a non-numeric placing removed from its end (and trimmed), when the
      placing is non-numeric and the surname ends with it. */
  function StripPlacing(surname: string, placing: string, nonNumeric: bool): string {
    if nonNumeric && Substring(surname, |surname| - |placing|, |surname|) == placing then
      Trim(Substring(surname, 0, |surname| - |placing|))
    else surname
  }

  /** The competitor's name: forename and surname joined by a space and trimmed, when the
      layout has both columns; the combined-name column when that gives nothing and the
      layout has one. */
  function CompetitorName(ci: ColumnIndexes, row: seq<string>): string {
    var name :=
      if ci.forename.Some? && ci.surname.Some? then
        var surname := StripPlacing(Cell(row, ci.surname.value), Cell(row, ci.placing), PlacingNonNumeric(ci, row));
        Trim(Cell(row, ci.forename.value) + " " + surname)
      else "";
    if name == "" && ci.combinedName.Some? then Cell(row, ci.combinedName.value) else name
  }

  /** The competitor a row describes, given its order within its class and its cumulative
      times (addCompetitor). */
  function CompetitorOf(h: Helpers, ci: ColumnIndexes, row: seq<string>, order: nat, cumTimes: seq<Time>)
    : (c: CompetitorRecord)
    ensures c.order == order && c.cumTimes == cumTimes && c.completed == h.completed(cumTimes)
    ensures c.nonCompetitive <==> PlacingNonNumeric(ci, row) && h.completed(cumTimes)
    ensures c.club == Club(ci, row) && c.startTime == StartTime(h, ci, row)
    ensures c.name == CompetitorName(ci, row)
  {
    var completed := h.completed(cumTimes);
    CompetitorRecord(order, CompetitorName(ci, row), Club(ci, row), StartTime(h, ci, row), cumTimes,
                     completed, PlacingNonNumeric(ci, row) && completed)
  }

  // ---------------------------------------------------------------------------------
  // Properties

  /** The cumulative times hold, between the zero and the total, the time of each control
      in turn, read from the column after that control's code. */
  lemma CumulativeTimesControls(h: Helpers, ci: ColumnIndexes, row: seq<string>, n: nat, i: nat)
    requires i < n
    ensures var ts := CumulativeTimes(h, ci, row, n);
      && (ControlTimeColumn(ci, i) < |row| ==> ts[i + 1] == ToTime(h.parseTime(row[ControlTimeColumn(ci, i)])))
      && (ControlTimeColumn(ci, i) >= |row| ==> ts[i + 1] == Missing)
      && ControlTimeColumn(ci, i) == ControlCodeColumn(ci, i) + 1
  {
    var ts := CumulativeTimes(h, ci, row, n);
    assert ts[i + 1] == ControlTime(h, ci, row, i);
  }

  /** A non-numeric placing at the end of the surname is removed from it before the name
      is put together. */
  lemma NameWithoutPlacing(ci: ColumnIndexes, row: seq<string>, base: string)
    requires ci.forename.Some? && ci.surname.Some?
    requires PlacingNonNumeric(ci, row)
    requires Cell(row, ci.surname.value) == base + Cell(row, ci.placing)
    requires Trim(Cell(row, ci.forename.value) + " " + Trim(base)) != ""
    ensures CompetitorName(ci, row) == Trim(Cell(row, ci.forename.value) + " " + Trim(base))
  {
    var surname, placing := Cell(row, ci.surname.value), Cell(row, ci.placing);
    assert Substring(surname, |surname| - |placing|, |surname|) == placing;
    assert Substring(surname, 0, |surname| - |placing|) == base;
  }

  /** A numeric or blank placing leaves the surname as it is. */
  lemma NameWithPlacing(ci: ColumnIndexes, row: seq<string>)
    requires ci.forename.Some? && ci.surname.Some?
    requires !PlacingNonNumeric(ci, row)
    requires Trim(Cell(row, ci.forename.value) + " " + Cell(row, ci.surname.value)) != ""
    ensures CompetitorName(ci, row) == Trim(Cell(row, ci.forename.value) + " " + Cell(row, ci.surname.value))
  {
  }
}
