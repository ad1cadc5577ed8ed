/** What the SI reader works out from the first data line before reading any competitor:
    the delimiter, and the column of the first control code, which fixes the layout. Each
    is a function here; the reader's methods compute them with loops. */
module SiDetect {
  import opened Wrappers
  import opened SiFormat

  /** A delimiter splits a line into more than MinControlsOffset fields. */
  predicate SplitsEnough(line: string, d: char) {
    |Split(line, d)| > MinControlsOffset
  }

  /** The first of the delimiters `ds` that splits `line` enough. */
  function DelimiterFrom(line: string, ds: seq<char>): Result<char>
  {
    if |ds| == 0 then Failure(WrongFileFormat)
    else if SplitsEnough(line, ds[0]) then Success(ds[0])
    else DelimiterFrom(line, ds[1..])
  }

  /** The delimiter of the data split into `lines`: there must be a data line after the
      header, and the delimiter is read from that first data line. */
  function Delimiter(lines: seq<string>): Result<char> {
    if |lines| <= 1 then Failure(WrongFileFormat) else DelimiterFrom(lines[1], Delimiters)
  }

  lemma {:induction false} DelimiterFromSpec(line: string, ds: seq<char>)
    ensures var r := DelimiterFrom(line, ds);
      && (r.Failure? ==> r.error == WrongFileFormat)
      && (r.Failure? <==> forall j :: 0 <= j < |ds| ==> !SplitsEnough(line, ds[j]))
      && (r.Success? ==>
            exists j :: 0 <= j < |ds| && r.value == ds[j] && SplitsEnough(line, ds[j])
              && forall i :: 0 <= i < j ==> !SplitsEnough(line, ds[i]))
    decreases |ds|
  {
    if |ds| > 0 && !SplitsEnough(line, ds[0]) {
      DelimiterFromSpec(line, ds[1..]);
      var r := DelimiterFrom(line, ds);
      if r.Success? {
        var j :| 0 <= j < |ds[1..]| && r.value == ds[1..][j] && SplitsEnough(line, ds[1..][j])
          && forall i :: 0 <= i < j ==> !SplitsEnough(line, ds[1..][i]);
        assert ds[j + 1] == ds[1..][j];
        forall i | 0 <= i < j + 1
          ensures !SplitsEnough(line, ds[i])
        {
          if i > 0 {
            assert ds[i] == ds[1..][i - 1];
          }
        }
      } else {
        forall j | 0 <= j < |ds|
          ensures !SplitsEnough(line, ds[j])
        {
          if j > 0 {
            assert ds[j] == ds[1..][j - 1];
          }
        }
      }
    }
  }

  /** Without a data line the format is wrong; otherwise the delimiter is the first of
      `;`, `,`, tab and backslash that splits the first data line into more than 37
      fields, and when none does the format is wrong. */
  lemma DelimiterSpec(lines: seq<string>)
    ensures var r := Delimiter(lines);
      && (r.Failure? ==> r.error == WrongFileFormat)
      && (|lines| <= 1 ==> r.Failure?)
      && (|lines| > 1 ==>
            && (r.Failure? <==>
                  forall j :: 0 <= j < |Delimiters| ==> |Split(lines[1], Delimiters[j])| <= MinControlsOffset)
            && (r.Success? ==>
                  exists j :: 0 <= j < |Delimiters| && r.value == Delimiters[j]
                    && |Split(lines[1], Delimiters[j])| > MinControlsOffset
                    && forall i :: 0 <= i < j ==> |Split(lines[1], Delimiters[i])| <= MinControlsOffset))
  {
    if |lines| > 1 {
      DelimiterFromSpec(lines[1], Delimiters);
    }
  }

  /** The end position after trailing blanks are skipped from field `e` back. */
  function EndPosition(fields: seq<string>, e: nat): nat
    requires e < |fields|
  {
    if e > 0 && Trim(fields[e]) == "" then EndPosition(fields, e - 1) else e
  }

  /** The end position is at or before `e`, on a field that does not trim to nothing
      unless it is field 0, and every field after it up to `e` trims to nothing. */
  lemma {:induction false} EndPositionSpec(fields: seq<string>, e: nat)
    requires e < |fields|
    ensures var r := EndPosition(fields, e);
      && r <= e && (r == 0 || Trim(fields[r]) != "")
      && forall j :: r < j <= e ==> Trim(fields[j]) == ""
  {
    if e > 0 && Trim(fields[e]) == "" {
      EndPositionSpec(fields, e - 1);
    }
  }

  /** Stepping back from the column `col` two columns at a time while the column two
      before holds a control code. */
  function StepBack(fields: seq<string>, col: int): int
    decreases col
  {
    if col >= 2 && ControlCodeAt(fields, col - 2) then StepBack(fields, col - 2) else col
  }

  /** Stepping back ends an even number of columns back, where the column two before
      holds no control code (or there is no column two before), after passing only
      control codes. */
  lemma {:induction false} StepBackSpec(fields: seq<string>, col: int)
    ensures var r := StepBack(fields, col);
      && r <= col && (col - r) % 2 == 0
      && !(r >= 2 && ControlCodeAt(fields, r - 2))
      && forall j :: r <= j < col && (col - j) % 2 == 0 ==> ControlCodeAt(fields, j)
    decreases col
  {
    if col >= 2 && ControlCodeAt(fields, col - 2) {
      StepBackSpec(fields, col - 2);
      var r := StepBack(fields, col);
      forall j | r <= j < col && (col - j) % 2 == 0
        ensures ControlCodeAt(fields, j)
      {
        if j < col - 2 {
          assert (col - 2 - j) % 2 == 0;
        }
      }
    }
  }

  /** The column of the first control code: the last control code is in the column before
      the end position or, when the last control has no split, in the end position itself;
      neither gives the wrong format. */
  function FirstControlColumn(fields: seq<string>): Result<int>
    requires |fields| > 0
  {
    var e := EndPosition(fields, |fields| - 1);
    if ControlCodeAt(fields, e - 1) then Success(StepBack(fields, e - 1))
    else if ControlCodeAt(fields, e) then Success(StepBack(fields, e))
    else Failure(WrongFileFormat)
  }

  /** The layout of the fields of the first data line: the one that puts control 1 in the
      first control-code column, which must be 44, 46 or 60. */
  function FormatVariation(fields: seq<string>): Result<ColumnIndexes>
    requires |fields| > 0
  {
    var col :- FirstControlColumn(fields);
    var ci := ColumnIndexesFor(col);
    if ci.Some? then Success(ci.value) else Failure(WrongFileFormat)
  }

  /** The column the last control code is looked for in: the one before the end position,
      or the end position itself. */
  function LastControlColumn(fields: seq<string>): int
    requires |fields| > 0
  {
    var e := EndPosition(fields, |fields| - 1);
    if ControlCodeAt(fields, e - 1) then e - 1 else e
  }

  /** The layout found puts control 1 in column 44, 46 or 60; that column and every second
      column from it up to the last control code hold control codes, and the column two
      before it does not; failures are always the wrong format. There is one exactly when
      neither of the last two columns holds a control code or the column reached by
      stepping back from the last control code is none of 44, 46 and 60; otherwise the
      layout is the one for that column. */
  lemma FormatVariationSpec(fields: seq<string>)
    requires |fields| > 0
    ensures var r, e, lc := FormatVariation(fields), EndPosition(fields, |fields| - 1), LastControlColumn(fields);
      var found := ControlCodeAt(fields, e - 1) || ControlCodeAt(fields, e);
      var ci := ColumnIndexesFor(StepBack(fields, lc));
      && (r.Failure? ==> r.error == WrongFileFormat)
      && (r.Failure? <==> !found || ci.None?)
      && (found && ci.Some? ==> r == Success(ci.value))
      && (r.Success? ==>
            var c := r.value.control1;
            && ColumnIndexesFor(c) == Some(r.value) && (c == 44 || c == 46 || c == 60)
            && c <= lc && (lc - c) % 2 == 0 && !ControlCodeAt(fields, c - 2)
            && forall j :: c <= j <= lc && (lc - j) % 2 == 0 ==> ControlCodeAt(fields, j))
  {
    FirstControlColumnIs(fields);
    if FormatVariation(fields).Success? {
      FormatVariationFound(fields);
    }
  }

  /** What a layout that is found says of the fields. */
  lemma FormatVariationFound(fields: seq<string>)
    requires |fields| > 0 && FormatVariation(fields).Success?
    ensures var ci, lc := FormatVariation(fields).value, LastControlColumn(fields);
      var c := ci.control1;
      && ColumnIndexesFor(c) == Some(ci) && (c == 44 || c == 46 || c == 60)
      && c <= lc && (lc - c) % 2 == 0 && !ControlCodeAt(fields, c - 2)
      && forall j :: c <= j <= lc && (lc - j) % 2 == 0 ==> ControlCodeAt(fields, j)
  {
    var lc := LastControlColumn(fields);
    FirstControlColumnIs(fields);
    var c := StepBack(fields, lc);
    StepBackSpec(fields, lc);
    assert ControlCodeAt(fields, lc);
    assert FormatVariation(fields) == Success(ColumnIndexesFor(c).value);
  }

  /** The first control-code column is found by stepping back from the last one, when
      either of the last two columns holds a control code. */
  lemma FirstControlColumnIs(fields: seq<string>)
    requires |fields| > 0
    ensures var e := EndPosition(fields, |fields| - 1);
      FirstControlColumn(fields) ==
        if ControlCodeAt(fields, e - 1) || ControlCodeAt(fields, e) then Success(StepBack(fields, LastControlColumn(fields)))
        else Failure(WrongFileFormat)
  {
  }
}
