/** Text handling of the SI reader: jQuery-style trimming, splitting on one character,
    de-quoting, JavaScript `parseInt` in base 10, the control-code test and the column
    layouts of the three supported variations of the SI CSV format. */
module SiFormat {
  import opened Wrappers

  /** The delimiters tried, in order of preference. */
  const Delimiters: seq<char> := [';', ',', '\t', '\\']

  /** A row must have at least this many fields, and the first data line must split into
      more than this many for a delimiter to be chosen. */
  const MinControlsOffset: nat := 37

  // ---------------------------------------------------------------------------------
  // Trimming

  /** JavaScript white space and line terminators: the characters `$.trim` and
      `parseInt` skip. */
  predicate IsWhitespace(c: char) {
    || c == '\t' || c == '\n' || c == '\U{000B}' || c == '\U{000C}' || c == '\r' || c == ' '
    || c == '\U{00A0}' || c == '\U{1680}' || ('\U{2000}' <= c <= '\U{200A}')
    || c == '\U{2028}' || c == '\U{2029}' || c == '\U{202F}' || c == '\U{205F}'
    || c == '\U{3000}' || c == '\U{FEFF}'
  }

  predicate AllWhitespace(s: string) {
    forall i :: 0 <= i < |s| ==> IsWhitespace(s[i])
  }

  /** `s` without its leading white space. */
  function TrimStart(s: string): (r: string)
    ensures |r| <= |s|
  {
    if |s| > 0 && IsWhitespace(s[0]) then TrimStart(s[1..]) else s
  }

  /** `s` without its trailing white space. */
  function TrimEnd(s: string): (r: string)
    ensures |r| <= |s|
  {
    if |s| > 0 && IsWhitespace(s[|s| - 1]) then TrimEnd(s[..|s| - 1]) else s
  }

  /** TrimStart removes exactly the leading white space. */
  lemma {:induction false} TrimStartSpec(s: string)
    ensures var r := TrimStart(s);
      && r == s[|s| - |r|..] && AllWhitespace(s[..|s| - |r|]) && (|r| > 0 ==> !IsWhitespace(r[0]))
  {
    if |s| > 0 && IsWhitespace(s[0]) {
      TrimStartSpec(s[1..]);
      var r := TrimStart(s);
      assert s[1..][|s| - 1 - |r|..] == s[|s| - |r|..];
      forall i | 0 <= i < |s| - |r|
        ensures IsWhitespace(s[i])
      {
        if i > 0 {
          assert s[i] == s[1..][..|s| - 1 - |r|][i - 1];
        }
      }
    }
  }

  /** TrimEnd removes exactly the trailing white space. */
  lemma {:induction false} TrimEndSpec(s: string)
    ensures var r := TrimEnd(s);
      && r == s[..|r|] && AllWhitespace(s[|r|..]) && (|r| > 0 ==> !IsWhitespace(r[|r| - 1]))
  {
    if |s| > 0 && IsWhitespace(s[|s| - 1]) {
      var t := s[..|s| - 1];
      TrimEndSpec(t);
      var r := TrimEnd(s);
      assert t[..|r|] == s[..|r|];
      forall i | |r| <= i < |s|
        ensures IsWhitespace(s[i])
      {
        if i < |s| - 1 {
          assert s[i] == t[|r|..][i - |r|];
        }
      }
    }
  }

  /** jQuery's `$.trim`. */
  function Trim(s: string): string {
    TrimEnd(TrimStart(s))
  }

  /** Trimming cuts `s` into white space, a middle part that neither starts nor ends
      with white space, and white space, and returns the middle part. */
  lemma TrimSpec(s: string)
    ensures var r, i := Trim(s), |s| - |TrimStart(s)|;
      && i + |r| <= |s| && r == s[i..i + |r|]
      && AllWhitespace(s[..i]) && AllWhitespace(s[i + |r|..])
      && (|r| > 0 ==> !IsWhitespace(r[0]) && !IsWhitespace(r[|r| - 1]))
  {
    var t := TrimStart(s);
    TrimStartSpec(s);
    TrimEndSpec(t);
    var r, i := Trim(s), |s| - |t|;
    assert t == s[i..];
    assert r == t[..|r|] == s[i..i + |r|];
    assert s[i + |r|..] == t[|r|..];
  }

  lemma {:induction false} TrimStartPadded(a: string, t: string)
    requires AllWhitespace(a) && (|t| > 0 ==> !IsWhitespace(t[0]))
    ensures TrimStart(a + t) == t
  {
    if |a| > 0 {
      assert (a + t)[1..] == a[1..] + t;
      TrimStartPadded(a[1..], t);
    } else {
      assert a + t == t;
    }
  }

  lemma {:induction false} TrimEndPadded(t: string, b: string)
    requires AllWhitespace(b) && (|t| > 0 ==> !IsWhitespace(t[|t| - 1]))
    ensures TrimEnd(t + b) == t
  {
    if |b| > 0 {
      assert (t + b)[..|t + b| - 1] == t + b[..|b| - 1];
      TrimEndPadded(t, b[..|b| - 1]);
    } else {
      assert t + b == t;
    }
  }

  /** The decomposition of TrimSpec is unique: padding a string that neither starts nor
      ends with white space by white space on both sides and trimming gives it back. */
  lemma TrimPadded(a: string, m: string, b: string)
    requires AllWhitespace(a) && AllWhitespace(b)
    requires |m| > 0 ==> !IsWhitespace(m[0]) && !IsWhitespace(m[|m| - 1])
    ensures Trim(a + m + b) == m
  {
    if |m| > 0 {
      assert a + m + b == a + (m + b);
      TrimStartPadded(a, m + b);
      TrimEndPadded(m, b);
    } else {
      assert a + m + b == a + b;
      assert AllWhitespace(a + b);
      TrimStartPadded(a + b, "");
      assert a + b + "" == a + b;
    }
  }

  lemma TrimIdempotent(s: string)
    ensures Trim(Trim(s)) == Trim(s)
  {
    var m := Trim(s);
    TrimSpec(s);
    TrimPadded("", m, "");
    assert "" + m + "" == m;
  }

  /** A string trims to nothing exactly when it is all white space. */
  lemma TrimBlank(s: string)
    ensures Trim(s) == "" <==> AllWhitespace(s)
  {
    TrimSpec(s);
    if AllWhitespace(s) {
      TrimPadded(s, "", "");
      assert s + "" + "" == s;
    }
    if Trim(s) == "" {
      var t := TrimStart(s);
      TrimStartSpec(s);
      TrimEndSpec(t);
      assert |t| == 0;
      assert s[..|s|] == s;
    }
  }

  // ---------------------------------------------------------------------------------
  // Splitting

  /** The number of occurrences of `d` in `s`. */
  function Occurrences(s: string, d: char): nat {
    if |s| == 0 then 0 else (if s[0] == d then 1 else 0) + Occurrences(s[1..], d)
  }

  /** JavaScript's `s.split(d)` for a one-character separator: the maximal pieces
      between occurrences of `d`, in order. */
  function Split(s: string, d: char): (r: seq<string>)
    ensures |r| == Occurrences(s, d) + 1
    ensures forall i :: 0 <= i < |r| ==> d !in r[i]
  {
    if |s| == 0 then [""]
    else
      var rest := Split(s[1..], d);
      if s[0] == d then [""] + rest else [[s[0]] + rest[0]] + rest[1..]
  }

  /** JavaScript's `parts.join(d)`. */
  function Join(parts: seq<string>, d: char): string
    requires |parts| > 0
  {
    if |parts| == 1 then parts[0] else parts[0] + [d] + Join(parts[1..], d)
  }

  /** The pieces of a string made only of white space are made only of white space. */
  lemma {:induction false} SplitAllWhitespace(s: string, d: char)
    ensures AllWhitespace(s) ==> forall i :: 0 <= i < |Split(s, d)| ==> AllWhitespace(Split(s, d)[i])
    decreases |s|
  {
    if |s| > 0 && AllWhitespace(s) {
      SplitAllWhitespace(s[1..], d);
      var rest := Split(s[1..], d);
      assert AllWhitespace(s[1..]) by {
        forall i | 0 <= i < |s| - 1 ensures IsWhitespace(s[1..][i]) {
          assert s[1..][i] == s[i + 1];
        }
      }
      if s[0] != d {
        var first := [s[0]] + rest[0];
        forall k | 0 <= k < |first| ensures IsWhitespace(first[k]) {
          if k > 0 {
            assert first[k] == rest[0][k - 1];
          }
        }
      }
    }
  }

  /** Joining the pieces gives back the string split. */
  lemma {:induction false} JoinSplit(s: string, d: char)
    ensures Join(Split(s, d), d) == s
  {
    if |s| > 0 {
      var rest := Split(s[1..], d);
      JoinSplit(s[1..], d);
      if s[0] == d {
        assert Split(s, d)[1..] == rest;
      } else {
        var r := Split(s, d);
        assert r[0] == [s[0]] + rest[0] && r[1..] == rest[1..];
        if |rest| > 1 {
          assert Join(rest, d) == rest[0] + [d] + Join(rest[1..], d);
        }
      }
    }
  }

  lemma {:induction false} SplitPrefix(p: string, t: string, d: char)
    requires d !in p
    ensures Split(p + t, d) == [p + Split(t, d)[0]] + Split(t, d)[1..]
  {
    if |p| > 0 {
      assert (p + t)[1..] == p[1..] + t;
      SplitPrefix(p[1..], t, d);
      assert [p[0]] + (p[1..] + Split(t, d)[0]) == p + Split(t, d)[0];
    } else {
      assert p + t == t;
      var r := Split(t, d);
      assert p + r[0] == r[0];
      assert r == [r[0]] + r[1..];
    }
  }

  /** Splitting a join of pieces free of the separator gives back the pieces. */
  lemma {:induction false} SplitJoin(parts: seq<string>, d: char)
    requires |parts| > 0 && forall i :: 0 <= i < |parts| ==> d !in parts[i]
    ensures Split(Join(parts, d), d) == parts
  {
    if |parts| == 1 {
      SplitPrefix(parts[0], "", d);
      assert parts[0] + "" == parts[0];
    } else {
      var tail := Join(parts[1..], d);
      SplitJoin(parts[1..], d);
      assert parts[0] + [d] + tail == parts[0] + ([d] + tail);
      SplitPrefix(parts[0], [d] + tail, d);
      assert ([d] + tail)[1..] == tail;
      assert parts[0] + "" == parts[0];
    }
  }

  // ---------------------------------------------------------------------------------
  // De-quoting

  /** JavaScript's `s.substring(start, end)`: both bounds are clamped to the string and
      swapped when the start is after the end. */
  function Substring(s: string, start: int, end: int): (r: string) {
    var a := if start < 0 then 0 else if start > |s| then |s| else start;
    var b := if end < 0 then 0 else if end > |s| then |s| else end;
    if a <= b then s[a..b] else s[b..a]
  }

  /** `s.replace(/""/g, '"')`: each pair of double quotes, scanning left to right,
      becomes one. */
  function CollapseQuotes(s: string): string {
    if |s| >= 2 && s[0] == '"' && s[1] == '"' then "\"" + CollapseQuotes(s[2..])
    else if |s| == 0 then ""
    else [s[0]] + CollapseQuotes(s[1..])
  }

  /** Doubles every double quote: the escaping that CollapseQuotes undoes. */
  function EscapeQuotes(s: string): string {
    if |s| == 0 then "" else (if s[0] == '"' then "\"\"" else [s[0]]) + EscapeQuotes(s[1..])
  }

  /** `s` in double quotes, with its own double quotes doubled. */
  function Quote(s: string): string {
    "\"" + EscapeQuotes(s) + "\""
  }

  lemma {:induction false} CollapseEscape(s: string)
    ensures CollapseQuotes(EscapeQuotes(s)) == s
  {
    if |s| > 0 {
      CollapseEscape(s[1..]);
      var e := EscapeQuotes(s[1..]);
      if s[0] == '"' {
        assert EscapeQuotes(s) == "\"\"" + e;
        assert (EscapeQuotes(s))[2..] == e;
      } else {
        assert EscapeQuotes(s) == [s[0]] + e;
        assert (EscapeQuotes(s))[1..] == e;
      }
    }
  }

  lemma {:induction false} EscapeAddsOnlyQuotes(s: string, c: char)
    requires c != '"' && c !in s
    ensures c !in EscapeQuotes(s)
  {
    if |s| > 0 {
      EscapeAddsOnlyQuotes(s[1..], c);
      assert s[0] != c;
    }
  }

  predicate Quoted(v: string) {
    |v| > 0 && v[0] == '"' && v[|v| - 1] == '"'
  }

  /** `dequote`: a value that starts and ends with a double quote loses those quotes, has
      its doubled quotes collapsed and is trimmed; any other value is returned as it is.
      A lone `"` is returned as it is as well, because `substring(1, 0)` is
      `substring(0, 1)`. */
  function Dequote(v: string): (r: string)
    ensures !Quoted(v) ==> r == v
  {
    if Quoted(v) then Trim(CollapseQuotes(Substring(v, 1, |v| - 1))) else v
  }

  /** A lone double quote is left as it is. */
  lemma DequoteLoneQuote()
    ensures Dequote("\"") == "\""
  {
    assert Substring("\"", 1, 0) == "\"";
    assert CollapseQuotes("\"") == "\"";
    TrimPadded("", "\"", "");
    assert "" + "\"" + "" == "\"";
  }

  /** Dequoting a quoted value gives back the value, trimmed. */
  lemma DequoteQuote(s: string)
    ensures Dequote(Quote(s)) == Trim(s)
  {
    var q := Quote(s);
    assert Substring(q, 1, |q| - 1) == EscapeQuotes(s);
    CollapseEscape(s);
  }

  /** The fields of a row: the pieces of the line, each trimmed and then dequoted. */
  function ParseRow(line: string, d: char): (row: seq<string>)
    ensures |row| == |Split(line, d)|
  {
    var parts := Split(line, d);
    seq(|parts|, i requires 0 <= i < |parts| => Dequote(Trim(parts[i])))
  }

  /** A line made of quoted fields joined by a delimiter other than the double quote, none
      of them holding the delimiter, reads back as those fields, trimmed. */
  lemma ParseRowOfQuoted(cells: seq<string>, d: char)
    requires |cells| > 0 && d != '"'
    requires forall i :: 0 <= i < |cells| ==> d !in cells[i]
    ensures var line := Join(seq(|cells|, i requires 0 <= i < |cells| => Quote(cells[i])), d);
      ParseRow(line, d) == seq(|cells|, i requires 0 <= i < |cells| => Trim(cells[i]))
  {
    var quoted := seq(|cells|, i requires 0 <= i < |cells| => Quote(cells[i]));
    forall i | 0 <= i < |cells|
      ensures d !in quoted[i] && Dequote(Trim(quoted[i])) == Trim(cells[i])
    {
      QuotedFieldReadsBack(cells[i], d);
    }
    SplitJoin(quoted, d);
  }

  lemma QuotedFieldReadsBack(c: string, d: char)
    requires d != '"' && d !in c
    ensures d !in Quote(c) && Dequote(Trim(Quote(c))) == Trim(c)
  {
    EscapeAddsOnlyQuotes(c, d);
    var q := Quote(c);
    TrimPadded("", q, "");
    assert "" + q + "" == q;
    DequoteQuote(c);
  }

  // ---------------------------------------------------------------------------------
  // parseInt(s, 10)

  predicate IsDigit(c: char) {
    '0' <= c <= '9'
  }

  predicate AllDigits(s: string) {
    forall i :: 0 <= i < |s| ==> IsDigit(s[i])
  }

  /** The longest prefix of `s` made of decimal digits. */
  function DigitPrefix(s: string): (r: string)
    ensures |r| <= |s| && r == s[..|r|] && AllDigits(r)
    ensures |r| < |s| ==> !IsDigit(s[|r|])
  {
    if |s| > 0 && IsDigit(s[0]) then [s[0]] + DigitPrefix(s[1..]) else ""
  }

  /** The value of a string of decimal digits. */
  function DigitsValue(ds: string): nat
    requires AllDigits(ds)
  {
    if |ds| == 0 then 0 else DigitsValue(ds[..|ds| - 1]) * 10 + (ds[|ds| - 1] as int - '0' as int)
  }

  /** JavaScript's `parseInt(s, 10)`, with None for NaN: leading white space is skipped, an
      optional sign is read, and then the longest run of digits; no digits is NaN. */
  function ParseInt(s: string): Option<int> {
    ParseSigned(TrimStart(s))
  }

  /** parseInt after the white space: an optional sign and then digits. */
  function ParseSigned(t: string): Option<int> {
    if |t| > 0 && t[0] == '-' then
      match ParseDigits(t[1..]) case None => None case Some(v) => Some(-(v as int))
    else if |t| > 0 && t[0] == '+' then
      match ParseDigits(t[1..]) case None => None case Some(v) => Some(v as int)
    else
      match ParseDigits(t) case None => None case Some(v) => Some(v as int)
  }

  /** The value of the leading digits of `u`, or None when it does not start with one. */
  function ParseDigits(u: string): (r: Option<nat>)
    ensures r.None? <==> |u| == 0 || !IsDigit(u[0])
  {
    var ds := DigitPrefix(u);
    if |ds| == 0 then None else Some(DigitsValue(ds))
  }

  /** The decimal digits of `n`, without leading zeros. */
  function NatToString(n: nat): (r: string)
    ensures |r| > 0 && AllDigits(r)
  {
    if n < 10 then [('0' as int + n) as char]
    else NatToString(n / 10) + [('0' as int + n % 10) as char]
  }

  /** `n` in decimal, with a minus sign when negative. */
  function IntToString(n: int): string {
    if n < 0 then "-" + NatToString(-n) else NatToString(n)
  }

  lemma {:induction false} NatToStringValue(n: nat)
    ensures DigitsValue(NatToString(n)) == n
  {
    if n >= 10 {
      NatToStringValue(n / 10);
      var s := NatToString(n);
      assert s[..|s| - 1] == NatToString(n / 10);
    }
  }

  lemma {:induction false} DigitPrefixOf(ds: string, rest: string)
    requires AllDigits(ds) && (|rest| > 0 ==> !IsDigit(rest[0]))
    ensures DigitPrefix(ds + rest) == ds
  {
    if |ds| > 0 {
      assert (ds + rest)[1..] == ds[1..] + rest;
      DigitPrefixOf(ds[1..], rest);
    } else {
      assert ds + rest == rest;
    }
  }

  /** parseInt reads back a number written in decimal, whatever non-digit text follows it
      ("12abc" is 12, "0x10" is 0). */
  lemma ParseIntOfDecimal(n: int, rest: string)
    requires |rest| > 0 ==> !IsDigit(rest[0])
    ensures ParseInt(IntToString(n) + rest) == Some(n)
  {
    var m: nat := if n < 0 then -n else n;
    var ds := NatToString(m);
    NatToStringValue(m);
    DigitPrefixOf(ds, rest);
    var u := ds + rest;
    assert ParseDigits(u) == Some(m);
    if n < 0 {
      assert IntToString(n) + rest == "-" + u;
      ParseIntNegativeDigits(u);
    } else {
      assert IntToString(n) + rest == u;
      ParseIntDigits(u);
    }
  }

  lemma ParseIntDigits(u: string)
    requires |u| > 0 && IsDigit(u[0])
    ensures ParseInt(u) == Some(ParseDigits(u).value as int)
  {
    assert TrimStart(u) == u;
    assert ParseSigned(u) == Some(ParseDigits(u).value as int);
  }

  lemma ParseIntNegativeDigits(u: string)
    requires |u| > 0 && IsDigit(u[0])
    ensures ParseInt("-" + u) == Some(-(ParseDigits(u).value as int))
  {
    var s := "-" + u;
    assert TrimStart(s) == s;
    assert s[1..] == u;
    assert ParseSigned(s) == Some(-(ParseDigits(u).value as int));
  }

  /** parseInt is NaN exactly when no digit follows the white space and the sign. */
  lemma ParseIntNaN(s: string)
    ensures ParseInt(s).None? <==>
      var t := TrimStart(s);
      var u := if |t| > 0 && (t[0] == '-' || t[0] == '+') then t[1..] else t;
      |u| == 0 || !IsDigit(u[0])
  {
  }

  // ---------------------------------------------------------------------------------
  // Control codes and column layouts

  predicate IsAsciiAlphanumeric(c: char) {
    ('A' <= c <= 'Z') || ('a' <= c <= 'z') || IsDigit(c)
  }

  /** `/^[A-Za-z0-9]+$/.test(s)`. */
  predicate IsControlCode(s: string) {
    |s| > 0 && forall i :: 0 <= i < |s| ==> IsAsciiAlphanumeric(s[i])
  }

  /** The control-code test on field `i` of `fields`. Outside the fields JavaScript tests
      `undefined`, whose text "undefined" passes. */
  predicate ControlCodeAt(fields: seq<string>, i: int) {
    if 0 <= i < |fields| then IsControlCode(fields[i]) else true
  }

  /** The columns of one variation of the format, each a field index. The optional ones
      exist only in some variations. */
  datatype ColumnIndexes = ColumnIndexes(
    course: nat, distance: nat, climb: nat, controlCount: nat, placing: nat,
    start: nat, finish: nat, control1: nat, time: nat, club: nat, ageClass: nat,
    forename: Option<nat>, surname: Option<nat>, combinedName: Option<nat>,
    startFallback: Option<nat>, ageClassFallback: Option<nat>, clubFallback: Option<nat>)

  /** The layout whose first control code is in column `offset`, if it is 44, 46 or 60. */
  function ColumnIndexesFor(offset: int): (r: Option<ColumnIndexes>)
    ensures r.Some? <==> offset == 44 || offset == 46 || offset == 60
    ensures r.Some? ==> r.value.control1 == offset
  {
    if offset == 44 || offset == 46 then
      Some(ColumnIndexes(
        offset - 7, offset - 6, offset - 5, offset - 4, offset - 3, offset - 2, offset - 1, offset,
        offset - 35, offset - 31, offset - 28,
        if offset == 46 then Some(4) else None, if offset == 46 then Some(3) else None,
        if offset == 44 then Some(3) else None,
        None, None, None))
    else if offset == 60 then
      Some(ColumnIndexes(53, 54, 55, 56, 57, 58, 59, 60, 13, 20, 26,
                         Some(6), Some(5), Some(3), Some(11), Some(53), Some(18)))
    else None
  }

  /** In every layout the course columns are the seven columns just before control 1, and
      start at or after column 37, so a row of the minimum length may lack them; all the
      competitor columns (time, club, class, names, fallbacks other than the course) are
      before column 37. Only the 60-column layout has fallbacks, and only the 44-column
      layout lacks separate forename and surname columns. */
  lemma ColumnLayout(offset: int)
    requires ColumnIndexesFor(offset).Some?
    ensures var ci := ColumnIndexesFor(offset).value;
      && ci.course + 7 == ci.control1 && ci.distance == ci.course + 1 && ci.climb == ci.course + 2
      && ci.controlCount == ci.course + 3 && ci.placing == ci.course + 4
      && ci.start == ci.course + 5 && ci.finish == ci.course + 6
      && MinControlsOffset <= ci.course
      && ci.time < MinControlsOffset && ci.club < MinControlsOffset && ci.ageClass < MinControlsOffset
      && (ci.forename.Some? ==> ci.forename.value < MinControlsOffset)
      && (ci.surname.Some? ==> ci.surname.value < MinControlsOffset)
      && (ci.combinedName.Some? ==> ci.combinedName.value < MinControlsOffset)
      && (ci.startFallback.Some? ==> ci.startFallback.value < MinControlsOffset)
      && (ci.clubFallback.Some? ==> ci.clubFallback.value < MinControlsOffset)
      && (ci.ageClassFallback.Some? ==> ci.ageClassFallback.value == ci.course)
      && (ci.startFallback.Some? || ci.ageClassFallback.Some? || ci.clubFallback.Some? <==> offset == 60)
      && (ci.forename.Some? && ci.surname.Some? <==> offset != 44)
      && (ci.combinedName.Some? <==> offset != 46)
  {
  }

  /** Field `i` of the row, or the empty string past its end (undefined in the source;
      see BlankCell and CourseName for where the two differ). */
  function Cell(row: seq<string>, i: nat): string {
    if i < |row| then row[i] else ""
  }
}
