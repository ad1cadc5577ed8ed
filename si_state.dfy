/** What the SI reader accumulates line by line, as a value: the classes with their
    competitors, the course details and the class-course pairs. ReadLine states what
    reading one line does to it; the lemmas say what that preserves. */
module SiState {
  import opened Wrappers
  import opened Times
  import opened SiFormat
  import opened SiRows

  datatype ReaderState = ReaderState(
    ageClasses: map<string, ClassEntry>,
    courseDetails: map<string, CourseDetails>,
    pairs: seq<(string, string)>,
    anyCompetitors: bool)

  const Initial := ReaderState(map[], map[], [], false)

  /** createAgeClassIfNecessary: a class not seen before is added with the given number of
      controls and no competitors. */
  function WithClass(classes: map<string, ClassEntry>, name: string, numControls: Option<int>)
    : (r: map<string, ClassEntry>)
    ensures r.Keys == classes.Keys + {name}
    ensures forall a :: a in classes ==> r[a] == classes[a]
    ensures name !in classes ==> r[name] == ClassEntry(numControls, [])
  {
    if name in classes then classes else classes[name := ClassEntry(numControls, [])]
  }

  /** createCourseIfNecessary: a course not seen before is added with the details of this
      row. */
  function WithCourse(details: map<string, CourseDetails>, name: string, cd: CourseDetails)
    : (r: map<string, CourseDetails>)
    ensures r.Keys == details.Keys + {name}
    ensures forall c :: c in details ==> r[c] == details[c]
    ensures name !in details ==> r[name] == cd
  {
    if name in details then details else details[name := cd]
  }

  /** createClassCoursePairIfNecessary: the pair is appended unless it is already there. */
  function WithPair(pairs: seq<(string, string)>, p: (string, string)): (r: seq<(string, string)>)
    ensures p in pairs ==> r == pairs
    ensures p !in pairs ==> r == pairs + [p]
  {
    if p in pairs then pairs else pairs + [p]
  }

  /** readLine on a line whose fields are separated by `d`, in layout `ci`. */
  function ReadLine(h: Helpers, ci: ColumnIndexes, d: char, st: ReaderState, line: string)
    : Result<ReaderState>
  {
    if Trim(line) == "" then Success(st)
    else
      var row := ParseRow(line, d);
      if |row| < MinControlsOffset then Failure(InvalidData)
      else
        var numControls :- NumControls(st.ageClasses, ci, row);
        var n := ControlCount(numControls);
        var name, course := AgeClassName(ci, row), CourseName(ci, row);
        if PlacingUndefined(ci, row) then Failure(TypeError)
        else
          var competitor := CompetitorOf(h, ci, row, NextOrder(st, name), CumulativeTimes(h, ci, row, n));
          Success(AddEntry(st, name, course, numControls, CourseDetailsOf(h, ci, row, n), competitor))
  }

  /** The state readLine leaves behind when addCompetitor raises its TypeError on `line`:
      the row's class, course and pair are recorded as for any row, and no competitor is
      added. */
  function Thrown(h: Helpers, ci: ColumnIndexes, d: char, st: ReaderState, line: string): ReaderState {
    var row := ParseRow(line, d);
    var read := NumControls(st.ageClasses, ci, row);
    var numControls := if read.Success? then read.value else None;
    var name, course := AgeClassName(ci, row), CourseName(ci, row);
    ReaderState(WithClass(st.ageClasses, name, numControls),
                WithCourse(st.courseDetails, course, CourseDetailsOf(h, ci, row, ControlCount(numControls))),
                WithPair(st.pairs, (name, course)), true)
  }

  /** The order of the next competitor of class `name`: one more than its competitors so
      far (the class is created, empty, first when it is new). */
  function NextOrder(st: ReaderState, name: string): nat {
    |WithClass(st.ageClasses, name, None)[name].competitors| + 1
  }

  /** What a row that passed the checks adds: its class, course and pair when new, and its
      competitor at the end of its class. */
  function AddEntry(st: ReaderState, name: string, course: string, numControls: Option<int>,
                    cd: CourseDetails, competitor: CompetitorRecord): ReaderState
  {
    var classes := WithClass(st.ageClasses, name, numControls);
    var entry := classes[name];
    ReaderState(classes[name := entry.(competitors := entry.competitors + [competitor])],
                WithCourse(st.courseDetails, course, cd), WithPair(st.pairs, (name, course)), true)
  }

  /** Reads the lines in order, stopping at the first error. */
  function ReadLines(h: Helpers, ci: ColumnIndexes, d: char, st: ReaderState, lines: seq<string>)
    : Result<ReaderState>
    decreases |lines|
  {
    if |lines| == 0 then Success(st)
    else
      var next :- ReadLine(h, ci, d, st, lines[0]);
      ReadLines(h, ci, d, next, lines[1..])
  }

  /** The invariant of the accumulated state: pairs are distinct and name known classes
      and courses, every class and course appears in a pair, competitors are numbered
      1, 2, ... within their class, and competitors have been read exactly when there is
      a pair. */
  ghost predicate Valid(st: ReaderState) {
    && Distinct(st.pairs)
    && st.ageClasses.Keys == ClassNames(st.pairs)
    && st.courseDetails.Keys == CourseNames(st.pairs)
    && (forall a :: a in st.ageClasses ==> Numbered(st.ageClasses[a].competitors))
    && (st.anyCompetitors <==> |st.pairs| > 0)
  }

  predicate Distinct<T(==)>(s: seq<T>) {
    forall i, j :: 0 <= i < j < |s| ==> s[i] != s[j]
  }

  /** The class names of the pairs. */
  function ClassNames(pairs: seq<(string, string)>): (r: set<string>)
    ensures forall p :: p in pairs ==> p.0 in r
  {
    if |pairs| == 0 then {} else ClassNames(pairs[..|pairs| - 1]) + {pairs[|pairs| - 1].0}
  }

  /** The course names of the pairs. */
  function CourseNames(pairs: seq<(string, string)>): (r: set<string>)
    ensures forall p :: p in pairs ==> p.1 in r
  {
    if |pairs| == 0 then {} else CourseNames(pairs[..|pairs| - 1]) + {pairs[|pairs| - 1].1}
  }

  predicate Numbered(cs: seq<CompetitorRecord>) {
    forall i :: 0 <= i < |cs| ==> cs[i].order == i + 1
  }

  /** `st2` extends `st1`: no class, course or pair is lost, the first number of controls of
      a class and the details of a course are kept, and competitors are only appended. */
  ghost predicate Extends(st1: ReaderState, st2: ReaderState) {
    && |st1.pairs| <= |st2.pairs| && st2.pairs[..|st1.pairs|] == st1.pairs
    && (forall c :: c in st1.courseDetails ==> c in st2.courseDetails && st2.courseDetails[c] == st1.courseDetails[c])
    && (forall a :: a in st1.ageClasses ==>
          && a in st2.ageClasses
          && st2.ageClasses[a].numControls == st1.ageClasses[a].numControls
          && |st1.ageClasses[a].competitors| <= |st2.ageClasses[a].competitors|
          && st2.ageClasses[a].competitors[..|st1.ageClasses[a].competitors|] == st1.ageClasses[a].competitors)
    && (st1.anyCompetitors ==> st2.anyCompetitors)
  }

  // ---------------------------------------------------------------------------------
  // Properties of one line

  /** A line fails exactly when it is not blank and either has fewer than 37 fields,
      resolves to a blank class name, or has a forename and surname but no placing column.
      The first two are InvalidData; the last is the TypeError. */
  lemma ReadLineFailure(h: Helpers, ci: ColumnIndexes, d: char, st: ReaderState, line: string)
    ensures var r, row := ReadLine(h, ci, d, st, line), ParseRow(line, d);
      var invalid := |row| < MinControlsOffset || AllWhitespace(AgeClassName(ci, row));
      && (r.Failure? <==> !AllWhitespace(line) && (invalid || PlacingUndefined(ci, row)))
      && (r.Failure? ==> (r.error == InvalidData <==> invalid))
      && (r.Failure? ==> r.error == InvalidData || r.error == TypeError)
  {
    TrimBlank(line);
  }

  /** A blank line changes nothing. */
  lemma ReadBlankLine(h: Helpers, ci: ColumnIndexes, d: char, st: ReaderState, line: string)
    requires AllWhitespace(line)
    ensures ReadLine(h, ci, d, st, line) == Success(st)
  {
    TrimBlank(line);
  }

  /** A line that is read adds one competitor, numbered one more than the class's
      competitors so far, to the end of its class; a class seen before keeps its number
      of controls, and the other classes are unchanged. */
  lemma ReadLineEffect(h: Helpers, ci: ColumnIndexes, d: char, st: ReaderState, line: string)
    requires ReadLine(h, ci, d, st, line).Success? && !AllWhitespace(line)
    ensures var st2, row := ReadLine(h, ci, d, st, line).value, ParseRow(line, d);
      var name := AgeClassName(ci, row);
      var before := if name in st.ageClasses then st.ageClasses[name].competitors else [];
      var numControls := if name in st.ageClasses then st.ageClasses[name].numControls
                         else ParseInt(Cell(row, ci.controlCount));
      && name in st2.ageClasses
      && st2.ageClasses[name].numControls == numControls
      && st2.ageClasses[name].competitors ==
           before + [CompetitorOf(h, ci, row, |before| + 1,
                                  CumulativeTimes(h, ci, row, ControlCount(numControls)))]
      && (forall a :: a in st.ageClasses && a != name ==> st2.ageClasses[a] == st.ageClasses[a])
  {
    ReadLineAdds(h, ci, d, st, line);
    var row := ParseRow(line, d);
    var numControls := NumControls(st.ageClasses, ci, row).value;
    var n := ControlCount(numControls);
    var name := AgeClassName(ci, row);
    var before := if name in st.ageClasses then st.ageClasses[name].competitors else [];
    assert NextOrder(st, name) == |before| + 1;
    var competitor := CompetitorOf(h, ci, row, |before| + 1, CumulativeTimes(h, ci, row, n));
    AddEntryEffect(st, name, CourseName(ci, row), numControls, CourseDetailsOf(h, ci, row, n), competitor);
  }

  /** A line that is read records its class, course and pair and that competitors were
      read; a course seen before keeps its details and a new one gets the row's. */
  lemma ReadLineRecords(h: Helpers, ci: ColumnIndexes, d: char, st: ReaderState, line: string)
    requires ReadLine(h, ci, d, st, line).Success? && !AllWhitespace(line)
    ensures var st2, row := ReadLine(h, ci, d, st, line).value, ParseRow(line, d);
      var name, course := AgeClassName(ci, row), CourseName(ci, row);
      var numControls := if name in st.ageClasses then st.ageClasses[name].numControls
                         else ParseInt(Cell(row, ci.controlCount));
      && name in st2.ageClasses && course in st2.courseDetails && (name, course) in st2.pairs
      && (course in st.courseDetails ==> st2.courseDetails[course] == st.courseDetails[course])
      && (course !in st.courseDetails ==>
            st2.courseDetails[course] == CourseDetailsOf(h, ci, row, ControlCount(numControls)))
      && st2.anyCompetitors
  {
    ReadLineAdds(h, ci, d, st, line);
    var row := ParseRow(line, d);
    var numControls := NumControls(st.ageClasses, ci, row).value;
    var n := ControlCount(numControls);
    var name := AgeClassName(ci, row);
    var competitor := CompetitorOf(h, ci, row, NextOrder(st, name), CumulativeTimes(h, ci, row, n));
    AddEntryEffect(st, name, CourseName(ci, row), numControls, CourseDetailsOf(h, ci, row, n), competitor);
  }

  /** A line that is read is AddEntry of its class, course, number of controls, course
      details and competitor. */
  lemma ReadLineAdds(h: Helpers, ci: ColumnIndexes, d: char, st: ReaderState, line: string)
    requires ReadLine(h, ci, d, st, line).Success? && !AllWhitespace(line)
    ensures var row := ParseRow(line, d);
      var read := NumControls(st.ageClasses, ci, row);
      var n := if read.Success? then ControlCount(read.value) else 0;
      var name := AgeClassName(ci, row);
      && read.Success?
      && ReadLine(h, ci, d, st, line) ==
           Success(AddEntry(st, name, CourseName(ci, row), read.value, CourseDetailsOf(h, ci, row, n),
                            CompetitorOf(h, ci, row, NextOrder(st, name), CumulativeTimes(h, ci, row, n))))
  {
    TrimBlank(line);
  }

  lemma AddEntryEffect(st: ReaderState, name: string, course: string, numControls: Option<int>,
                       cd: CourseDetails, competitor: CompetitorRecord)
    ensures var st2 := AddEntry(st, name, course, numControls, cd, competitor);
      && name in st2.ageClasses && course in st2.courseDetails && (name, course) in st2.pairs
      && st2.ageClasses[name].numControls ==
           (if name in st.ageClasses then st.ageClasses[name].numControls else numControls)
      && st2.ageClasses[name].competitors ==
           (if name in st.ageClasses then st.ageClasses[name].competitors else []) + [competitor]
      && st2.courseDetails[course] == (if course in st.courseDetails then st.courseDetails[course] else cd)
      && (forall a :: a in st.ageClasses && a != name ==> st2.ageClasses[a] == st.ageClasses[a])
      && st2.anyCompetitors
  {
  }

  /** Reading a line keeps the invariant and extends the state. */
  lemma ReadLinePreserves(h: Helpers, ci: ColumnIndexes, d: char, st: ReaderState, line: string)
    requires Valid(st) && ReadLine(h, ci, d, st, line).Success?
    ensures Valid(ReadLine(h, ci, d, st, line).value)
    ensures Extends(st, ReadLine(h, ci, d, st, line).value)
  {
    if Trim(line) != "" {
      var row := ParseRow(line, d);
      var numControls := NumControls(st.ageClasses, ci, row).value;
      var n := ControlCount(numControls);
      var name, course := AgeClassName(ci, row), CourseName(ci, row);
      var competitor := CompetitorOf(h, ci, row, NextOrder(st, name), CumulativeTimes(h, ci, row, n));
      AddEntryPreserves(st, name, course, numControls, CourseDetailsOf(h, ci, row, n), competitor);
    }
  }

  lemma AddEntryPreserves(st: ReaderState, name: string, course: string, numControls: Option<int>,
                          cd: CourseDetails, competitor: CompetitorRecord)
    requires Valid(st) && competitor.order == NextOrder(st, name)
    ensures Valid(AddEntry(st, name, course, numControls, cd, competitor))
    ensures Extends(st, AddEntry(st, name, course, numControls, cd, competitor))
  {
    var p := (name, course);
    var pairs := WithPair(st.pairs, p);
    if p !in st.pairs {
      assert pairs[..|st.pairs|] == st.pairs;
      assert ClassNames(pairs) == ClassNames(st.pairs) + {name};
      assert CourseNames(pairs) == CourseNames(st.pairs) + {course};
    } else {
      assert pairs[..|st.pairs|] == st.pairs;
      assert name in ClassNames(st.pairs) && course in CourseNames(st.pairs);
    }
    AddEntryValid(st, name, course, numControls, cd, competitor);
    AddEntryExtends(st, name, course, numControls, cd, competitor);
  }

  lemma AddEntryExtends(st: ReaderState, name: string, course: string, numControls: Option<int>,
                        cd: CourseDetails, competitor: CompetitorRecord)
    ensures Extends(st, AddEntry(st, name, course, numControls, cd, competitor))
  {
    var pairs := WithPair(st.pairs, (name, course));
    assert pairs[..|st.pairs|] == st.pairs;
    var st2 := AddEntry(st, name, course, numControls, cd, competitor);
    if name in st.ageClasses {
      var c1 := st.ageClasses[name].competitors;
      assert st2.ageClasses[name].competitors[..|c1|] == c1;
    }
  }

  lemma AddEntryValid(st: ReaderState, name: string, course: string, numControls: Option<int>,
                      cd: CourseDetails, competitor: CompetitorRecord)
    requires Valid(st) && competitor.order == NextOrder(st, name)
    requires var pairs := WithPair(st.pairs, (name, course));
      ClassNames(pairs) == ClassNames(st.pairs) + {name} && CourseNames(pairs) == CourseNames(st.pairs) + {course}
    ensures Valid(AddEntry(st, name, course, numControls, cd, competitor))
  {
    var st2 := AddEntry(st, name, course, numControls, cd, competitor);
    assert Numbered(st2.ageClasses[name].competitors);
  }

  /** Reading lines keeps the invariant and extends the state. */
  lemma {:induction false} ReadLinesPreserves(h: Helpers, ci: ColumnIndexes, d: char, st: ReaderState,
                                              lines: seq<string>)
    requires Valid(st) && ReadLines(h, ci, d, st, lines).Success?
    ensures Valid(ReadLines(h, ci, d, st, lines).value)
    ensures Extends(st, ReadLines(h, ci, d, st, lines).value)
    decreases |lines|
  {
    if |lines| > 0 {
      var next := ReadLine(h, ci, d, st, lines[0]).value;
      ReadLinePreserves(h, ci, d, st, lines[0]);
      ReadLinesPreserves(h, ci, d, next, lines[1..]);
      ExtendsTransitive(st, next, ReadLines(h, ci, d, next, lines[1..]).value);
    }
  }

  lemma ExtendsTransitive(st1: ReaderState, st2: ReaderState, st3: ReaderState)
    requires Extends(st1, st2) && Extends(st2, st3)
    ensures Extends(st1, st3)
  {
    assert st3.pairs[..|st1.pairs|] == st3.pairs[..|st2.pairs|][..|st1.pairs|];
    forall a | a in st1.ageClasses
      ensures st3.ageClasses[a].competitors[..|st1.ageClasses[a].competitors|] == st1.ageClasses[a].competitors
    {
      var c1, c2, c3 := st1.ageClasses[a].competitors, st2.ageClasses[a].competitors, st3.ageClasses[a].competitors;
      assert c3[..|c1|] == c3[..|c2|][..|c1|];
    }
  }

  /** Lines that are all blank leave the state as it is, so a file with no competitor rows
      has read no competitors. */
  lemma {:induction false} ReadBlankLines(h: Helpers, ci: ColumnIndexes, d: char, st: ReaderState,
                                          lines: seq<string>)
    requires forall i :: 0 <= i < |lines| ==> AllWhitespace(lines[i])
    ensures ReadLines(h, ci, d, st, lines) == Success(st)
    decreases |lines|
  {
    if |lines| > 0 {
      ReadBlankLine(h, ci, d, st, lines[0]);
      ReadBlankLines(h, ci, d, st, lines[1..]);
    }
  }

  /** Reading one more line after some lines. */
  lemma {:induction false} ReadLinesSnoc(h: Helpers, ci: ColumnIndexes, d: char, st: ReaderState,
                                         lines: seq<string>, line: string)
    ensures ReadLines(h, ci, d, st, lines + [line]) ==
      match ReadLines(h, ci, d, st, lines)
      case Success(st2) => ReadLine(h, ci, d, st2, line)
      case Failure(e) => Failure(e)
    decreases |lines|
  {
    if |lines| == 0 {
      assert [line][1..] == [];
    } else {
      assert (lines + [line])[0] == lines[0] && (lines + [line])[1..] == lines[1..] + [line];
      var next := ReadLine(h, ci, d, st, lines[0]);
      if next.Success? {
        ReadLinesSnoc(h, ci, d, next.value, lines[1..], line);
      }
    }
  }

  /** Reading stops at the first line that fails: what follows is not read. */
  lemma {:induction false} ReadLinesStops(h: Helpers, ci: ColumnIndexes, d: char, st: ReaderState,
                                          lines: seq<string>, rest: seq<string>)
    requires ReadLines(h, ci, d, st, lines).Failure?
    ensures ReadLines(h, ci, d, st, lines + rest) == ReadLines(h, ci, d, st, lines)
    decreases |lines|
  {
    assert (lines + rest)[0] == lines[0] && (lines + rest)[1..] == lines[1..] + rest;
    var next := ReadLine(h, ci, d, st, lines[0]);
    if next.Success? {
      ReadLinesStops(h, ci, d, next.value, lines[1..], rest);
    }
  }

  /** Reading lines never fails with WrongFileFormat: only with InvalidData or the
      TypeError of a line. */
  lemma {:induction false} ReadLinesFailure(h: Helpers, ci: ColumnIndexes, d: char, st: ReaderState,
                                            lines: seq<string>)
    ensures var r := ReadLines(h, ci, d, st, lines);
      r.Failure? ==> r.error == InvalidData || r.error == TypeError
    decreases |lines|
  {
    if |lines| > 0 {
      ReadLineFailure(h, ci, d, st, lines[0]);
      var next := ReadLine(h, ci, d, st, lines[0]);
      if next.Success? {
        ReadLinesFailure(h, ci, d, next.value, lines[1..]);
      }
    }
  }

  /** The initial state is valid. */
  lemma InitialValid()
    ensures Valid(Initial)
  {
  }
}
