/** The order in which the SI reader sorts class names: JavaScript's default `sort`, which
    compares strings character by character, a proper prefix first. */
module SiSort {

  predicate StrLess(a: string, b: string)
    decreases |a|
  {
    if |a| == 0 then |b| > 0
    else if |b| == 0 then false
    else if a[0] == b[0] then StrLess(a[1..], b[1..])
    else a[0] < b[0]
  }

  lemma {:induction false} StrLessIrreflexive(a: string)
    ensures !StrLess(a, a)
    decreases |a|
  {
    if |a| > 0 {
      StrLessIrreflexive(a[1..]);
    }
  }

  lemma {:induction false} StrLessTransitive(a: string, b: string, c: string)
    requires StrLess(a, b) && StrLess(b, c)
    ensures StrLess(a, c)
    decreases |a|
  {
    if |a| > 0 && a[0] == b[0] && b[0] == c[0] {
      StrLessTransitive(a[1..], b[1..], c[1..]);
    }
  }

  lemma {:induction false} StrLessTotal(a: string, b: string)
    requires a != b
    ensures StrLess(a, b) || StrLess(b, a)
    decreases |a|
  {
    if |a| > 0 && |b| > 0 && a[0] == b[0] {
      assert a == [a[0]] + a[1..] && b == [b[0]] + b[1..];
      StrLessTotal(a[1..], b[1..]);
    }
  }

  /** Each name is before every later one: sorted, and without repetitions. */
  predicate StrictlySorted(s: seq<string>) {
    forall i, j :: 0 <= i < j < |s| ==> StrLess(s[i], s[j])
  }

  lemma SortedPrepend(y: string, r: seq<string>)
    requires StrictlySorted(r) && forall z :: z in r ==> StrLess(y, z)
    ensures StrictlySorted([y] + r)
  {
    var s := [y] + r;
    forall i, j | 0 <= i < j < |s|
      ensures StrLess(s[i], s[j])
    {
      if i == 0 {
        assert s[j] == r[j - 1];
      } else {
        assert s[i] == r[i - 1] && s[j] == r[j - 1];
      }
    }
  }

  /** Inserts `x` at its place in a strictly sorted sequence that does not hold it. */
  function Insert(s: seq<string>, x: string): (r: seq<string>)
    requires StrictlySorted(s) && x !in s
    ensures StrictlySorted(r) && |r| == |s| + 1
    ensures forall y :: y in r <==> y == x || y in s
  {
    if |s| == 0 then [x]
    else if StrLess(x, s[0]) then
      var r := [x] + s;
      assert forall z :: z in s ==> StrLess(x, z) by {
        forall z | z in s
          ensures StrLess(x, z)
        {
          if z != s[0] {
            var j :| 0 <= j < |s| && s[j] == z;
            StrLessTransitive(x, s[0], z);
          }
        }
      }
      SortedPrepend(x, s);
      r
    else
      assert s == [s[0]] + s[1..];
      var rest := Insert(s[1..], x);
      StrLessTotal(x, s[0]);
      assert forall z :: z in rest ==> StrLess(s[0], z) by {
        forall z | z in rest
          ensures StrLess(s[0], z)
        {
          if z != x {
            var j :| 1 <= j < |s| && s[j] == z;
          }
        }
      }
      SortedPrepend(s[0], rest);
      [s[0]] + rest
  }

  /** There is one strictly sorted sequence of a given set of names. */
  lemma {:induction false} SortedUnique(s: seq<string>, t: seq<string>)
    requires StrictlySorted(s) && StrictlySorted(t)
    requires forall x :: x in s <==> x in t
    ensures s == t
    decreases |s|
  {
    SameMembersEmpty(s, t);
    if |s| > 0 {
      SortedHeads(s, t);
      forall x | x in s[1..]
        ensures x in t[1..]
      {
        var i :| 1 <= i < |s| && s[i] == x;
        assert x in t;
        var k :| 0 <= k < |t| && t[k] == x;
        if k == 0 {
          StrLessIrreflexive(s[0]);
          assert false;
        }
        assert t[1..][k - 1] == x;
      }
      forall x | x in t[1..]
        ensures x in s[1..]
      {
        var i :| 1 <= i < |t| && t[i] == x;
        assert x in s;
        var k :| 0 <= k < |s| && s[k] == x;
        if k == 0 {
          StrLessIrreflexive(t[0]);
          assert false;
        }
        assert s[1..][k - 1] == x;
      }
      SortedUnique(s[1..], t[1..]);
      assert s == [s[0]] + s[1..] && t == [t[0]] + t[1..];
    }
  }

  lemma SameMembersEmpty(s: seq<string>, t: seq<string>)
    requires forall x :: x in s <==> x in t
    ensures |s| == 0 <==> |t| == 0
  {
    if |s| > 0 {
      assert s[0] in t;
    }
    if |t| > 0 {
      assert t[0] in s;
    }
  }

  lemma SortedHeads(s: seq<string>, t: seq<string>)
    requires StrictlySorted(s) && StrictlySorted(t) && |s| > 0 && |t| > 0
    requires forall x :: x in s <==> x in t
    ensures s[0] == t[0]
  {
    if s[0] != t[0] {
      assert s[0] in s && t[0] in t;
      var i :| 0 <= i < |t| && t[i] == s[0];
      var j :| 0 <= j < |s| && s[j] == t[0];
      StrLessTransitive(s[0], t[0], s[0]);
      StrLessIrreflexive(s[0]);
      assert false;
    }
  }
}
