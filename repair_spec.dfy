/** What the repairer computes, as functions of the cumulative times it is given.
    The methods of DataRepair are proved equal to these functions; the lemmas here say
    what the functions mean. */
module RepairSpec {
  import opened Wrappers
  import opened Times

  /** Minutes by which a non-finisher's finish may precede the last control before the
      finish time is taken to be absurd. */
  const MaxFinishSplitMinsAdded: int := 5

  /** Indexes of a pair of present times that are not in ascending order. */
  datatype Pair = Pair(first: nat, second: nat)

  /** `p` is a non-ascending pair of `s`: both entries are present, no present entry lies
      between them and the second is not later than the first. */
  predicate NonAscendingAt(s: seq<Time>, p: Pair) {
    && p.first < p.second < |s|
    && s[p.first].Num? && s[p.second].Num?
    && s[p.second].value <= s[p.first].value
    && forall k :: p.first < k < p.second ==> !s[k].Num?
  }

  // ---------------------------------------------------------------------------
  // getFirstNonAscendingIndexes
  // ---------------------------------------------------------------------------

  /** The scan from `index` on, `last` being the most recent present index. */
  function ScanFrom(s: seq<Time>, index: nat, last: nat): (r: Option<Pair>)
    requires last < index <= |s| && s[last].Num?
    requires AscendingBelow(s, index)
    requires forall k :: last < k < index ==> !s[k].Num?
    ensures r.None? ==> StrictlyAscending(s)
    ensures r.Some? ==> NonAscendingAt(s, r.value) && AscendingBelow(s, r.value.second)
    decreases |s| - index
  {
    if index == |s| then None
    else if s[index].Num? then
      if s[index].value <= s[last].value then Some(Pair(last, index))
      else
        assert forall i :: 0 <= i < index && s[i].Num? ==> s[i].value <= s[last].value;
        ScanFrom(s, index + 1, index)
    else ScanFrom(s, index + 1, last)
  }

  /** The first non-ascending pair of `s`, None when the present entries ascend strictly,
      and InvalidData when `s` does not start with a zero time. */
  function FirstNonAscending(s: seq<Time>): (r: Result<Option<Pair>>)
    ensures r.Failure? <==> |s| == 0 || s[0] != Num(0)
    ensures r.Failure? ==> r.error == InvalidData
    ensures r.Success? ==> (r.value.None? <==> StrictlyAscending(s))
    ensures r.Success? && r.value.Some? ==>
              NonAscendingAt(s, r.value.value) && AscendingBelow(s, r.value.value.second)
  {
    if |s| == 0 || s[0] != Num(0) then Failure(InvalidData)
    else
      var p := ScanFrom(s, 1, 0);
      assert p.Some? ==> !StrictlyAscending(s) by {
        if p.Some? {
          var q := p.value;
          assert s[q.first].Num? && s[q.second].Num? && s[q.second].value <= s[q.first].value;
        }
      }
      Success(p)
  }

  // ---------------------------------------------------------------------------
  // removeCumulativeTimesEqualToPrevious
  // ---------------------------------------------------------------------------

  /** The duplicate-removal loop from `index` on; `last` is the most recent time not replaced.
      A time is replaced only when it is present and equal to `last` (NaN is never equal). */
  function CollapseFrom(s: seq<Time>, index: nat, last: Time): (r: seq<Time>)
    decreases |s| - index
  {
    if index + 1 >= |s| then s
    else if s[index].Num? && s[index] == last then CollapseFrom(s[index := Invalid], index + 1, last)
    else CollapseFrom(s, index + 1, s[index])
  }

  function EqualToPreviousRemoved(s: seq<Time>): seq<Time> {
    if |s| == 0 then s else CollapseFrom(s, 1, s[0])
  }

  /** The greatest index below `i` that the replacement `r` of `s` kept as it was. */
  ghost function LastKept(s: seq<Time>, r: seq<Time>, i: nat): (j: nat)
    requires 0 < i <= |s| && |r| == |s| && r[0] == s[0]
    ensures j < i && r[j] == s[j]
    ensures forall k :: j < k < i ==> r[k] != s[k]
  {
    if r[i - 1] == s[i - 1] then i - 1 else LastKept(s, r, i - 1)
  }

  /** What duplicate removal does at interior index `i` of `s`, given its result `r`. */
  ghost function DuplicateStep(s: seq<Time>, r: seq<Time>, i: nat): Time
    requires 0 < i < |s| && |r| == |s| && r[0] == s[0]
  {
    if s[i].Num? && s[i] == s[LastKept(s, r, i)] then Invalid else s[i]
  }

  lemma {:induction false} LastKeptPrefix(s: seq<Time>, r: seq<Time>, t: seq<Time>, i: nat)
    requires 0 < i <= |s| && |r| == |s| && |t| == |s| && r[0] == s[0] && t[0] == s[0]
    requires forall k :: 0 <= k < i ==> r[k] == t[k]
    ensures LastKept(s, r, i) == LastKept(s, t, i)
  {
    if r[i - 1] != s[i - 1] {
      LastKeptPrefix(s, r, t, i - 1);
    }
  }

  /** The facts CollapseFromSpec carries from one index to the next. */
  ghost predicate CollapseInvariant(s: seq<Time>, t: seq<Time>, index: nat, last: Time) {
    && 1 <= index <= |s| && (index == |s| ==> index == 1) && |t| == |s| && t[0] == s[0]
    && (forall k :: index <= k < |s| ==> t[k] == s[k])
    && (index < |s| ==> last == s[LastKept(s, t, index)])
    && (forall i {:trigger DuplicateStep(s, t, i)} :: 0 < i < index && i < |s| - 1 ==> t[i] == DuplicateStep(s, t, i))
  }

  /** One step of duplicate removal keeps the invariant. */
  lemma CollapseStep(s: seq<Time>, t: seq<Time>, index: nat, last: Time)
    requires CollapseInvariant(s, t, index, last) && index + 1 < |s|
    ensures var drop := t[index].Num? && t[index] == last;
      CollapseInvariant(s, if drop then t[index := Invalid] else t, index + 1, if drop then last else t[index])
  {
    var drop := t[index].Num? && t[index] == last;
    var t' := if drop then t[index := Invalid] else t;
    forall i | 0 < i <= index
      ensures LastKept(s, t', i) == LastKept(s, t, i)
    {
      LastKeptPrefix(s, t', t, i);
    }
    assert LastKept(s, t', index + 1) == if t'[index] == s[index] then index else LastKept(s, t, index);
    forall i | 0 < i < index + 1 && i < |s| - 1
      ensures t'[i] == DuplicateStep(s, t', i)
    {
      if i < index {
        assert t'[i] == t[i] && DuplicateStep(s, t', i) == DuplicateStep(s, t, i);
      } else {
        assert t[index] == s[index] && LastKept(s, t', index) == LastKept(s, t, index);
      }
    }
  }

  lemma {:induction false} CollapseFromSpec(s: seq<Time>, t: seq<Time>, index: nat, last: Time)
    requires CollapseInvariant(s, t, index, last)
    ensures var r := CollapseFrom(t, index, last);
      && |r| == |s| && r[0] == s[0] && r[|s| - 1] == s[|s| - 1]
      && forall i {:trigger DuplicateStep(s, r, i)} :: 0 < i < |s| - 1 ==> r[i] == DuplicateStep(s, r, i)
    decreases |s| - index
  {
    if index + 1 < |s| {
      var drop := t[index].Num? && t[index] == last;
      var t', last' := if drop then t[index := Invalid] else t, if drop then last else t[index];
      assert CollapseFrom(t, index, last) == CollapseFrom(t', index + 1, last');
      CollapseStep(s, t, index, last);
      CollapseFromSpec(s, t', index + 1, last');
    } else {
      assert CollapseFrom(t, index, last) == t;
    }
  }

  /** Duplicate removal leaves the length, the start and the finish alone; at every other
      index it puts NaN exactly when the time there is present and equal to the most recent
      time it did not replace. */
  lemma EqualToPreviousRemovedSpec(s: seq<Time>)
    ensures var r := EqualToPreviousRemoved(s);
      && |r| == |s|
      && (|s| > 0 ==> r[0] == s[0] && r[|s| - 1] == s[|s| - 1])
      && (|s| > 0 ==> forall i :: 0 < i < |s| - 1 ==> r[i] == DuplicateStep(s, r, i))
  {
    if |s| > 0 {
      CollapseFromSpec(s, s, 1, s[0]);
    }
  }

  /** Duplicate removal only replaces present times by NaN, and never the last one. */
  lemma EqualToPreviousRemovedOnlyInvalidates(s: seq<Time>)
    ensures OnlyInvalidates(s, EqualToPreviousRemoved(s))
    ensures |s| > 0 ==> EqualToPreviousRemoved(s)[0] == s[0]
    ensures |s| > 0 ==> EqualToPreviousRemoved(s)[|s| - 1] == s[|s| - 1]
  {
    var r := EqualToPreviousRemoved(s);
    EqualToPreviousRemovedSpec(s);
    if |s| > 0 {
      forall i | 0 < i < |s| - 1
        ensures r[i] == s[i] || (s[i].Num? && r[i] == Invalid)
      {
        assert r[i] == DuplicateStep(s, r, i);
      }
    }
  }

  lemma {:induction false} CollapseFromAscending(s: seq<Time>, index: nat)
    requires 1 <= index <= |s| && StrictlyAscending(s)
    ensures CollapseFrom(s, index, s[index - 1]) == s
    decreases |s| - index
  {
    if index + 1 < |s| {
      assert !(s[index].Num? && s[index] == s[index - 1]);
      CollapseFromAscending(s, index + 1);
    }
  }

  // ---------------------------------------------------------------------------
  // removeCumulativeTimesCausingNegativeSplits
  // ---------------------------------------------------------------------------

  /** Trial 3 (invalidate `first` and the time before it) is skipped when `first` is 1 or the
      time before it is not present. With `first` equal to 0 the source looks up index -1,
      which is not present either; trial 3 is never reached then because trial 2 has
      already failed. */
  predicate Attemptable(s: seq<Time>, p: Pair, attempt: nat)
    requires p.first < |s|
  {
    attempt != 3 || (p.first > 1 && s[p.first - 1].Num?)
  }

  /** The copy of `s` that trial `attempt` re-scans: 1 invalidates `second`, 2 invalidates
      `first`, 3 invalidates `first` and the time before it. */
  function Adjusted(s: seq<Time>, p: Pair, attempt: nat): (r: seq<Time>)
    requires p.first < p.second < |s| && 1 <= attempt <= 3 && Attemptable(s, p, attempt)
  {
    if attempt == 1 then s[p.second := Invalid]
    else if attempt == 2 then s[p.first := Invalid]
    else s[p.first := Invalid][p.first - 1 := Invalid]
  }

  /** A trial is accepted when its re-scan finds no pair, or a pair starting after `second`. */
  predicate Progresses(p: Pair, next: Option<Pair>) {
    next.None? || next.value.first > p.second
  }

  datatype Trial = NoProgress | Accepted(times: seq<Time>, next: Option<Pair>)

  /** Trials `attempt`, ..., 3 in order: the first accepted one, or NoProgress. */
  function TryAttempts(s: seq<Time>, p: Pair, attempt: nat): (r: Result<Trial>)
    requires NonAscendingAt(s, p) && 1 <= attempt <= 4
    ensures r.Success? && r.value.Accepted? ==>
              && |r.value.times| == |s|
              && FirstNonAscending(r.value.times) == Success(r.value.next)
              && Progresses(p, r.value.next)
    decreases 4 - attempt
  {
    if attempt == 4 then Success(NoProgress)
    else if !Attemptable(s, p, attempt) then TryAttempts(s, p, attempt + 1)
    else
      var adjusted := Adjusted(s, p, attempt);
      match FirstNonAscending(adjusted)
      case Failure(e) => Failure(e)
      case Success(next) =>
        if Progresses(p, next) then Success(Accepted(adjusted, next))
        else TryAttempts(s, p, attempt + 1)
  }

  /** The search loop from the pair `nonAsc` found in `s`. It stops when no pair remains,
      when the pair ends at the finish, or when no trial makes progress. Every accepted
      trial moves the pair's `second` strictly forward, which is the termination measure. */
  function SearchFrom(s: seq<Time>, nonAsc: Option<Pair>): (r: Result<seq<Time>>)
    requires FirstNonAscending(s) == Success(nonAsc)
    decreases if nonAsc.Some? then |s| - nonAsc.value.second else 0
  {
    if nonAsc.None? || nonAsc.value.second + 1 >= |s| then Success(s)
    else match TryAttempts(s, nonAsc.value, 1)
      case Failure(e) => Failure(e)
      case Success(NoProgress) => Success(s)
      case Success(Accepted(adjusted, next)) =>
        assert next.Some? ==> next.value.second > nonAsc.value.second;
        SearchFrom(adjusted, next)
  }

  function NegativeSplitsRemoved(s: seq<Time>): Result<seq<Time>> {
    match FirstNonAscending(s)
    case Failure(e) => Failure(e)
    case Success(nonAsc) => SearchFrom(s, nonAsc)
  }

  /** The loop stops with a pair that does not end at the finish. */
  predicate Stuck(s: seq<Time>) {
    var r := FirstNonAscending(s);
    r.Success? && r.value.Some? && r.value.value.second + 1 < |s|
  }

  /** An accepted trial only replaces present times by NaN and leaves the finish alone. */
  lemma {:induction false} TrialOnlyInvalidates(s: seq<Time>, p: Pair, attempt: nat)
    requires NonAscendingAt(s, p) && 1 <= attempt <= 4 && p.second + 1 < |s|
    ensures var r := TryAttempts(s, p, attempt);
      r.Success? && r.value.Accepted? ==>
        OnlyInvalidates(s, r.value.times) && r.value.times[|s| - 1] == s[|s| - 1]
    decreases 4 - attempt
  {
    if attempt < 4 {
      TrialOnlyInvalidates(s, p, attempt + 1);
    }
  }

  /** Which trial was accepted: the first of `attempt`, ..., 3 that can be made and whose
      re-scan progresses; every trial before it could not be made or failed to progress. */
  lemma {:induction false} AcceptedTrialIsFirstProgressing(s: seq<Time>, p: Pair, attempt: nat)
    requires NonAscendingAt(s, p) && 1 <= attempt <= 4
    ensures var r := TryAttempts(s, p, attempt);
      r.Success? && r.value.Accepted? ==>
        exists k :: attempt <= k <= 3 && Attemptable(s, p, k)
          && r.value.times == Adjusted(s, p, k)
          && (forall j :: attempt <= j < k && Attemptable(s, p, j) ==>
                FirstNonAscending(Adjusted(s, p, j)).Success? &&
                !Progresses(p, FirstNonAscending(Adjusted(s, p, j)).value))
    decreases 4 - attempt
  {
    if attempt < 4 {
      AcceptedTrialIsFirstProgressing(s, p, attempt + 1);
      var r := TryAttempts(s, p, attempt);
      if r.Success? && r.value.Accepted? {
        if Attemptable(s, p, attempt) && Progresses(p, FirstNonAscending(Adjusted(s, p, attempt)).value) {
          assert r.value.times == Adjusted(s, p, attempt);
        } else {
          var k :| attempt + 1 <= k <= 3 && Attemptable(s, p, k)
            && r.value.times == Adjusted(s, p, k)
            && (forall j :: attempt + 1 <= j < k && Attemptable(s, p, j) ==>
                  FirstNonAscending(Adjusted(s, p, j)).Success? &&
                  !Progresses(p, FirstNonAscending(Adjusted(s, p, j)).value));
          assert attempt <= k;
        }
      }
    }
  }

  /** No trial is accepted exactly when every trial of `attempt`, ..., 3 that can be made
      re-scans without an error and fails to progress. */
  lemma {:induction false} NoProgressIsNoTrialProgressing(s: seq<Time>, p: Pair, attempt: nat)
    requires NonAscendingAt(s, p) && 1 <= attempt <= 4
    ensures TryAttempts(s, p, attempt) == Success(NoProgress) <==>
      forall k :: attempt <= k <= 3 && Attemptable(s, p, k) ==>
        FirstNonAscending(Adjusted(s, p, k)).Success? &&
        !Progresses(p, FirstNonAscending(Adjusted(s, p, k)).value)
    decreases 4 - attempt
  {
    if attempt < 4 {
      NoProgressIsNoTrialProgressing(s, p, attempt + 1);
    }
  }

  lemma {:induction false} SearchFromOnlyInvalidates(s: seq<Time>, nonAsc: Option<Pair>)
    requires FirstNonAscending(s) == Success(nonAsc)
    ensures var r := SearchFrom(s, nonAsc);
      r.Success? ==> OnlyInvalidates(s, r.value)
    decreases if nonAsc.Some? then |s| - nonAsc.value.second else 0
  {
    if nonAsc.Some? && nonAsc.value.second + 1 < |s| {
      var t := TryAttempts(s, nonAsc.value, 1);
      if t.Success? && t.value.Accepted? {
        TrialOnlyInvalidates(s, nonAsc.value, 1);
        var adjusted, next := t.value.times, t.value.next;
        assert SearchFrom(s, nonAsc) == SearchFrom(adjusted, next);
        SearchFromOnlyInvalidates(adjusted, next);
        var r := SearchFrom(adjusted, next);
        if r.Success? {
          OnlyInvalidatesTransitive(s, adjusted, r.value);
        }
      }
    }
  }

  lemma {:induction false} SearchFromKeepsFinish(s: seq<Time>, nonAsc: Option<Pair>)
    requires FirstNonAscending(s) == Success(nonAsc)
    ensures var r := SearchFrom(s, nonAsc);
      r.Success? ==> |r.value| == |s| && r.value[|s| - 1] == s[|s| - 1]
    decreases if nonAsc.Some? then |s| - nonAsc.value.second else 0
  {
    if nonAsc.Some? && nonAsc.value.second + 1 < |s| {
      var t := TryAttempts(s, nonAsc.value, 1);
      if t.Success? && t.value.Accepted? {
        TrialOnlyInvalidates(s, nonAsc.value, 1);
        var adjusted, next := t.value.times, t.value.next;
        assert SearchFrom(s, nonAsc) == SearchFrom(adjusted, next);
        SearchFromKeepsFinish(adjusted, next);
        var r := SearchFrom(adjusted, next);
        if r.Success? {
          assert |adjusted| == |s| && adjusted[|s| - 1] == s[|s| - 1];
          assert r.value[|s| - 1] == adjusted[|adjusted| - 1];
        }
      }
    }
  }

  lemma {:induction false} SearchFromFailsWithInvalidData(s: seq<Time>, nonAsc: Option<Pair>)
    requires FirstNonAscending(s) == Success(nonAsc)
    ensures SearchFrom(s, nonAsc).Failure? ==> SearchFrom(s, nonAsc).error == InvalidData
    decreases if nonAsc.Some? then |s| - nonAsc.value.second else 0
  {
    if nonAsc.Some? && nonAsc.value.second + 1 < |s| {
      var t := TryAttempts(s, nonAsc.value, 1);
      FailuresAreInvalidData(s, nonAsc.value, 1);
      if t.Success? && t.value.Accepted? {
        var adjusted, next := t.value.times, t.value.next;
        assert SearchFrom(s, nonAsc) == SearchFrom(adjusted, next);
        SearchFromFailsWithInvalidData(adjusted, next);
      }
    }
  }

  lemma {:induction false} SearchFromStops(s: seq<Time>, nonAsc: Option<Pair>)
    requires FirstNonAscending(s) == Success(nonAsc)
    ensures var r := SearchFrom(s, nonAsc);
      r.Success? ==>
        && FirstNonAscending(r.value).Success?
        && (Stuck(r.value) ==>
              TryAttempts(r.value, FirstNonAscending(r.value).value.value, 1) == Success(NoProgress))
    decreases if nonAsc.Some? then |s| - nonAsc.value.second else 0
  {
    if nonAsc.Some? && nonAsc.value.second + 1 < |s| {
      var t := TryAttempts(s, nonAsc.value, 1);
      if t.Success? && t.value.Accepted? {
        var adjusted, next := t.value.times, t.value.next;
        assert SearchFrom(s, nonAsc) == SearchFrom(adjusted, next);
        SearchFromStops(adjusted, next);
      }
    }
  }

  lemma {:induction false} FailuresAreInvalidData(s: seq<Time>, p: Pair, attempt: nat)
    requires NonAscendingAt(s, p) && 1 <= attempt <= 4
    ensures TryAttempts(s, p, attempt).Failure? ==> TryAttempts(s, p, attempt).error == InvalidData
    decreases 4 - attempt
  {
    if attempt < 4 {
      FailuresAreInvalidData(s, p, attempt + 1);
    }
  }

  /** The search pass: only present times are replaced, by NaN; the length, the start and
      the finish are unchanged; it can only fail with InvalidData; and if it leaves a pair
      before the finish, no trial makes progress on it. */
  lemma NegativeSplitsRemovedSpec(s: seq<Time>)
    ensures var r := NegativeSplitsRemoved(s);
      && (r.Failure? ==> r.error == InvalidData)
      && (|s| == 0 || s[0] != Num(0) ==> r.Failure?)
      && (r.Success? ==>
            && OnlyInvalidates(s, r.value) && r.value[0] == Num(0)
            && r.value[|s| - 1] == s[|s| - 1]
            && (Stuck(r.value) ==>
                  TryAttempts(r.value, FirstNonAscending(r.value).value.value, 1) == Success(NoProgress)))
  {
    if FirstNonAscending(s).Success? {
      SearchFromOnlyInvalidates(s, FirstNonAscending(s).value);
      SearchFromFailsWithInvalidData(s, FirstNonAscending(s).value);
      SearchFromKeepsFinish(s, FirstNonAscending(s).value);
      SearchFromStops(s, FirstNonAscending(s).value);
    }
  }

  /** The search pass accepts at least one trial: its first pair does not end at the
      finish and one of the trials on that pair is accepted. */
  predicate SearchMakesProgress(s: seq<Time>) {
    match FirstNonAscending(s)
    case Success(Some(p)) =>
      p.second + 1 < |s| && TryAttempts(s, p, 1).Success? && TryAttempts(s, p, 1).value.Accepted?
    case _ => false
  }

  /** An accepted trial always changes the times: it invalidates a present time. */
  lemma AcceptedTrialChanges(s: seq<Time>, p: Pair)
    requires NonAscendingAt(s, p)
    requires TryAttempts(s, p, 1).Success? && TryAttempts(s, p, 1).value.Accepted?
    ensures TryAttempts(s, p, 1).value.times != s
  {
    AcceptedTrialIsFirstProgressing(s, p, 1);
    var k :| 1 <= k <= 3 && Attemptable(s, p, k) && TryAttempts(s, p, 1).value.times == Adjusted(s, p, k);
    if k == 1 {
      assert Adjusted(s, p, k)[p.second] != s[p.second];
    } else {
      assert Adjusted(s, p, k)[p.first] != s[p.first];
    }
  }

  /** The search pass, when it succeeds, has changed the times exactly when it made
      progress. */
  lemma SearchMakesProgressSpec(s: seq<Time>)
    requires NegativeSplitsRemoved(s).Success?
    ensures SearchMakesProgress(s) <==> NegativeSplitsRemoved(s).value != s
  {
    var nonAsc := FirstNonAscending(s).value;
    if SearchMakesProgress(s) {
      var p := nonAsc.value;
      var t := TryAttempts(s, p, 1).value;
      AcceptedTrialChanges(s, p);
      TrialOnlyInvalidates(s, p, 1);
      assert NegativeSplitsRemoved(s) == SearchFrom(t.times, t.next);
      SearchFromOnlyInvalidates(t.times, t.next);
      OnlyInvalidatesChanges(s, t.times, NegativeSplitsRemoved(s).value);
    }
  }

  /** When the search is not stuck, every present time before the finish ascends strictly. */
  lemma NegativeSplitsRemovedAscending(s: seq<Time>)
    requires NegativeSplitsRemoved(s).Success? && !Stuck(NegativeSplitsRemoved(s).value)
    ensures AscendingBelow(NegativeSplitsRemoved(s).value, |s| - 1)
  {
    NegativeSplitsRemovedSpec(s);
    var r := NegativeSplitsRemoved(s).value;
    var q := FirstNonAscending(r).value;
    if q.Some? {
      assert q.value.second == |r| - 1;
    }
  }

  /** The search changes nothing when the present times already ascend strictly. */
  lemma NegativeSplitsRemovedAscendingUnchanged(s: seq<Time>)
    requires |s| > 0 && s[0] == Num(0) && StrictlyAscending(s)
    ensures NegativeSplitsRemoved(s) == Success(s)
  {
  }

  /** Trial 2 may invalidate the zero start itself; the re-scan then throws, and the whole
      pass fails, here on the times 0, -, 0, -, 0, 10. */
  lemma NegativeSplitsRemovedCanFail()
    ensures NegativeSplitsRemoved([Num(0), Missing, Num(0), Missing, Num(0), Num(10)]) == Failure(InvalidData)
  {
    var s := [Num(0), Missing, Num(0), Missing, Num(0), Num(10)];
    var p := Pair(0, 2);
    assert ScanFrom(s, 1, 0) == Some(p);
    var t1 := s[2 := Invalid];
    assert ScanFrom(t1, 4, 0) == Some(Pair(0, 4));
    assert ScanFrom(t1, 3, 0) == Some(Pair(0, 4));
    assert ScanFrom(t1, 2, 0) == Some(Pair(0, 4));
    assert ScanFrom(t1, 1, 0) == Some(Pair(0, 4));
    assert TryAttempts(s, p, 2) == Failure(InvalidData);
  }

  // ---------------------------------------------------------------------------
  // removeFinishTimeIfAbsurd
  // ---------------------------------------------------------------------------

  /** The finish and the time before it are present and the finish is at least the maximum
      finish split (in seconds) before it. */
  predicate AbsurdFinish(s: seq<Time>) {
    && |s| >= 2
    && s[|s| - 1].Num? && s[|s| - 2].Num?
    && s[|s| - 1].value <= s[|s| - 2].value - MaxFinishSplitMinsAdded * 60
  }

  function FinishDroppedIfAbsurd(s: seq<Time>): seq<Time> {
    if AbsurdFinish(s) then s[|s| - 1 := Invalid] else s
  }

  /** Dropping an absurd finish only touches the finish, only turns a present finish into
      NaN, and leaves no absurd finish behind. */
  lemma FinishDroppedIfAbsurdSpec(s: seq<Time>)
    ensures var r := FinishDroppedIfAbsurd(s);
      && OnlyInvalidates(s, r)
      && (forall i :: 0 <= i < |s| - 1 ==> r[i] == s[i])
      && (r != s <==> AbsurdFinish(s))
      && !AbsurdFinish(r)
      && FinishDroppedIfAbsurd(r) == r
  {
  }

  // ---------------------------------------------------------------------------
  // repairCompetitor
  // ---------------------------------------------------------------------------

  /** The three passes in order; only a competitor who did not complete gets the third. */
  function RepairedCumTimes(original: seq<Time>, completed: bool): Result<seq<Time>> {
    AfterPasses(original, completed, 3)
  }

  /** Pass `k` (1, 2 or 3) of the repair; only a competitor who did not complete gets the
      third. */
  function ApplyPass(k: nat, t: seq<Time>, completed: bool): Result<seq<Time>>
    requires 1 <= k <= 3
  {
    if k == 1 then Success(EqualToPreviousRemoved(t))
    else if k == 2 then NegativeSplitsRemoved(t)
    else Success(if completed then t else FinishDroppedIfAbsurd(t))
  }

  /** The times after the first `n` passes, or the failure of one of them. */
  function AfterPasses(original: seq<Time>, completed: bool, n: nat): Result<seq<Time>>
    requires n <= 3
  {
    if n == 0 then Success(original)
    else match AfterPasses(original, completed, n - 1)
      case Failure(e) => Failure(e)
      case Success(t) => ApplyPass(n, t, completed)
  }

  /** The repair is the three passes in order, stopping at a failure. */
  lemma RepairedCumTimesPasses(original: seq<Time>, completed: bool)
    ensures RepairedCumTimes(original, completed) ==
      match NegativeSplitsRemoved(EqualToPreviousRemoved(original))
      case Failure(e) => Failure(e)
      case Success(t) => Success(if completed then t else FinishDroppedIfAbsurd(t))
  {
    assert AfterPasses(original, completed, 1) == Success(EqualToPreviousRemoved(original));
    assert AfterPasses(original, completed, 2) == NegativeSplitsRemoved(EqualToPreviousRemoved(original));
  }

  /** Repair fails, with InvalidData, at least when the times do not start with zero; when
      it succeeds it has only replaced present times by NaN, kept the zero start, and kept
      the finish of a competitor who completed. */
  lemma RepairedCumTimesSpec(original: seq<Time>, completed: bool)
    ensures var r := RepairedCumTimes(original, completed);
      && (r.Failure? ==> r.error == InvalidData)
      && (|original| == 0 || original[0] != Num(0) ==> r.Failure?)
      && (r.Success? ==>
            && OnlyInvalidates(original, r.value) && r.value[0] == Num(0)
            && (completed ==> r.value[|original| - 1] == original[|original| - 1]))
  {
    RepairedCumTimesPasses(original, completed);
    var d := EqualToPreviousRemoved(original);
    EqualToPreviousRemovedOnlyInvalidates(original);
    NegativeSplitsRemovedSpec(d);
    var n := NegativeSplitsRemoved(d);
    if n.Success? {
      FinishDroppedIfAbsurdSpec(n.value);
      OnlyInvalidatesTransitive(original, d, n.value);
      OnlyInvalidatesTransitive(original, n.value, FinishDroppedIfAbsurd(n.value));
    }
  }

  /** What the repairer's change flag records for one competitor: duplicate removal
      changed something, the search made progress, or (for a non-finisher) the finish was
      absurd. When the search fails part way, the passes completed before it still count. */
  predicate RepairReportsChange(original: seq<Time>, completed: bool) {
    var d := EqualToPreviousRemoved(original);
    || d != original
    || SearchMakesProgress(d)
    || (!completed && NegativeSplitsRemoved(d).Success? && AbsurdFinish(NegativeSplitsRemoved(d).value))
  }

  /** A successful repair reports a change exactly when the repaired times differ from the
      original ones. */
  lemma RepairReportsChangeSpec(original: seq<Time>, completed: bool)
    requires RepairedCumTimes(original, completed).Success?
    ensures RepairReportsChange(original, completed) <==> RepairedCumTimes(original, completed).value != original
  {
    RepairedCumTimesPasses(original, completed);
    var d := EqualToPreviousRemoved(original);
    var n := NegativeSplitsRemoved(d).value;
    var f := if completed then n else FinishDroppedIfAbsurd(n);
    EqualToPreviousRemovedOnlyInvalidates(original);
    NegativeSplitsRemovedSpec(d);
    SearchMakesProgressSpec(d);
    FinishDroppedIfAbsurdSpec(n);
    assert OnlyInvalidates(n, f);
    OnlyInvalidatesChanges(d, n, f);
    OnlyInvalidatesTransitive(d, n, f);
    OnlyInvalidatesChanges(original, d, f);
  }

  /** Repairing a sequence whose present times already ascend strictly changes nothing. */
  lemma RepairedCumTimesAscendingUnchanged(original: seq<Time>, completed: bool)
    requires |original| > 0 && original[0] == Num(0) && StrictlyAscending(original)
    ensures RepairedCumTimes(original, completed) == Success(original)
  {
    RepairedCumTimesPasses(original, completed);
    CollapseFromAscending(original, 1);
    NegativeSplitsRemovedAscendingUnchanged(original);
  }

  /** A non-finisher whose finish is 400 seconds before the last control loses the finish;
      one whose finish is 200 seconds before it keeps it. */
  lemma AbsurdFinishScenarios()
    ensures RepairedCumTimes([Num(0), Num(65), Num(1000), Num(600)], false)
              == Success([Num(0), Num(65), Num(1000), Invalid])
    ensures RepairedCumTimes([Num(0), Num(65), Num(1000), Num(800)], false)
              == Success([Num(0), Num(65), Num(1000), Num(800)])
  {
    RepairedCumTimesPasses([Num(0), Num(65), Num(1000), Num(600)], false);
    RepairedCumTimesPasses([Num(0), Num(65), Num(1000), Num(800)], false);
    var s1 := [Num(0), Num(65), Num(1000), Num(600)];
    assert EqualToPreviousRemoved(s1) == s1;
    assert ScanFrom(s1, 1, 0) == Some(Pair(2, 3));
    assert NegativeSplitsRemoved(s1) == Success(s1);
    assert AbsurdFinish(s1);
    assert FinishDroppedIfAbsurd(s1) == [Num(0), Num(65), Num(1000), Invalid];
    var s2 := [Num(0), Num(65), Num(1000), Num(800)];
    assert EqualToPreviousRemoved(s2) == s2;
    assert ScanFrom(s2, 1, 0) == Some(Pair(2, 3));
    assert NegativeSplitsRemoved(s2) == Success(s2);
    assert !AbsurdFinish(s2);
  }
}
