/** The cumulative-time sequence shared by the reader and the repairer.
    Index 0 is the start (the value zero), the middle entries are the controls and the
    last entry is the finish. */
module Times {

  /** One cumulative time: a number of seconds, missing (JavaScript `null`) or
      invalidated by repair (JavaScript `NaN`). */
  datatype Time = Num(value: int) | Missing | Invalid

  /** The present (numeric) entries of `s` below index `n` are strictly ascending. */
  predicate AscendingBelow(s: seq<Time>, n: int) {
    forall i, j :: 0 <= i < j < |s| && j < n && s[i].Num? && s[j].Num? ==> s[i].value < s[j].value
  }

  /** The present (numeric) entries of `s` are strictly ascending. */
  predicate StrictlyAscending(s: seq<Time>) {
    AscendingBelow(s, |s|)
  }

  /** `r` arises from `s` by invalidating some present entries and changing nothing else. */
  predicate OnlyInvalidates(s: seq<Time>, r: seq<Time>) {
    |r| == |s| && forall i :: 0 <= i < |s| ==> r[i] == s[i] || (s[i].Num? && r[i] == Invalid)
  }

  lemma OnlyInvalidatesTransitive(s: seq<Time>, r: seq<Time>, t: seq<Time>)
    requires OnlyInvalidates(s, r) && OnlyInvalidates(r, t)
    ensures OnlyInvalidates(s, t)
  {
  }

  /** Invalidation is never undone: after two rounds of invalidation the sequence is back
      to the original exactly when neither round changed anything. */
  lemma OnlyInvalidatesChanges(s: seq<Time>, r: seq<Time>, t: seq<Time>)
    requires OnlyInvalidates(s, r) && OnlyInvalidates(r, t)
    ensures t == s <==> (r == s && t == r)
  {
    if r != s {
      var i :| 0 <= i < |s| && r[i] != s[i];
      assert t[i] != s[i];
    }
  }
}
