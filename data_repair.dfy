/** The repairer: three passes over one competitor's cumulative times, the per-class and
    per-event drivers, and the pass-through used when no repair is wanted. Every pass is
    proved to compute the matching function of RepairSpec. */
module DataRepair {
  import opened Wrappers
  import opened Times
  import opened RepairSpec
  import opened Model

  /** The first pair of present times that are not in ascending order. */
  method GetFirstNonAscendingIndexes(a: array<Time>) returns (r: Result<Option<Pair>>)
    ensures r == FirstNonAscending(a[..])
  {
    if a.Length == 0 || a[0] != Num(0) {
      return Failure(InvalidData);
    }
    var lastNumericTimeIndex := 0;
    var index := 1;
    while index < a.Length
      invariant 1 <= index <= a.Length && lastNumericTimeIndex < index
      invariant a[lastNumericTimeIndex].Num?
      invariant AscendingBelow(a[..], index)
      invariant forall k :: lastNumericTimeIndex < k < index ==> !a[k].Num?
      invariant ScanFrom(a[..], index, lastNumericTimeIndex) == ScanFrom(a[..], 1, 0)
    {
      var time := a[index];
      if time.Num? {
        if time.value <= a[lastNumericTimeIndex].value {
          return Success(Some(Pair(lastNumericTimeIndex, index)));
        }
        lastNumericTimeIndex := index;
      }
      index := index + 1;
    }
    return Success(None);
  }

  /** Predicates on one competitor, over its (unchanging) original times. */
  predicate Repairable(c: Competitor) {
    RepairedCumTimes(c.originalCumTimes, c.completed).Success?
  }

  /** The competitor can be repaired and holds its repaired times. */
  predicate HoldsRepairedTimes(c: Competitor)
    reads c
  {
    Repairable(c) && c.repairedCumTimes == Some(RepairedCumTimes(c.originalCumTimes, c.completed).value)
  }

  predicate ReportsChange(c: Competitor) {
    RepairReportsChange(c.originalCumTimes, c.completed)
  }

  /** The index of the first competitor whose repair fails, or the number of competitors. */
  function FirstUnrepairable(cs: seq<Competitor>): (k: nat)
    ensures k <= |cs|
    ensures forall j {:trigger Repairable(cs[j])} :: 0 <= j < k ==> Repairable(cs[j])
    ensures k < |cs| ==> !Repairable(cs[k])
  {
    if |cs| == 0 then 0
    else if !Repairable(cs[0]) then 0
    else 1 + FirstUnrepairable(cs[1..])
  }

  /** A competitor before the first failing one that can be repaired is not the first
      failing one either. */
  lemma FirstUnrepairableNext(cs: seq<Competitor>, i: nat)
    requires i < |cs| && i <= FirstUnrepairable(cs) && Repairable(cs[i])
    ensures i + 1 <= FirstUnrepairable(cs)
  {
  }

  /** Some competitor's repair reports a change (stated on the last competitor so that
      a growing prefix unfolds one step at a time). */
  predicate AnyReportsChange(cs: seq<Competitor>) {
    |cs| > 0 && (AnyReportsChange(cs[..|cs| - 1]) || ReportsChange(cs[|cs| - 1]))
  }

  lemma {:induction false} AnyReportsChangeSpec(cs: seq<Competitor>)
    ensures AnyReportsChange(cs) <==> exists c :: c in cs && ReportsChange(c)
  {
    if |cs| > 0 {
      var init := cs[..|cs| - 1];
      AnyReportsChangeSpec(init);
      assert cs == init + [cs[|cs| - 1]];
      if exists c :: c in cs && ReportsChange(c) {
        var c :| c in cs && ReportsChange(c);
        assert c in init || c == cs[|cs| - 1];
      }
    }
  }

  /** Every competitor of every class can be repaired. */
  predicate AllRepairable(classes: seq<AgeClass>) {
    forall a, c :: a in classes && c in a.competitors ==> Repairable(c)
  }

  /** The index of the first class with a competitor whose repair fails, or the number of
      classes. */
  function FirstUnrepairableClass(classes: seq<AgeClass>): (k: nat)
    ensures k <= |classes|
    ensures forall j {:trigger FirstUnrepairable(classes[j].competitors)} :: 0 <= j < k ==>
              FirstUnrepairable(classes[j].competitors) == |classes[j].competitors|
    ensures k < |classes| ==> FirstUnrepairable(classes[k].competitors) < |classes[k].competitors|
  {
    if |classes| == 0 then 0
    else if FirstUnrepairable(classes[0].competitors) < |classes[0].competitors| then 0
    else 1 + FirstUnrepairableClass(classes[1..])
  }

  class Repairer {
    /** Whether any pass has replaced a time since the flag was last reset. */
    var madeAnyChanges: bool

    constructor ()
      ensures !madeAnyChanges
    {
      madeAnyChanges := false;
    }

    /** Replaces by NaN every present interior time equal to the most recent time kept. */
    method RemoveCumulativeTimesEqualToPrevious(a: array<Time>)
      modifies this, a
      ensures a[..] == EqualToPreviousRemoved(old(a[..]))
      ensures madeAnyChanges == (old(madeAnyChanges) || a[..] != old(a[..]))
    {
      if a.Length == 0 {
        // The loop below does not run on an empty array.
        return;
      }
      var lastCumTime := a[0];
      var index := 1;
      while index + 1 < a.Length
        invariant 1 <= index <= a.Length
        invariant a[index..] == old(a[..])[index..]
        invariant CollapseFrom(a[..], index, lastCumTime) == EqualToPreviousRemoved(old(a[..]))
        invariant madeAnyChanges == (old(madeAnyChanges) || a[..] != old(a[..]))
      {
        if a[index].Num? && a[index] == lastCumTime {
          assert a[index] == old(a[..])[index];
          a[index] := Invalid;
          assert a[..][index] != old(a[..])[index];
          madeAnyChanges := true;
        } else {
          lastCumTime := a[index];
        }
        index := index + 1;
      }
    }

    /** The search pass. It never writes to `a`: every trial works on a copy, and the
        result is `a` itself or a fresh array. */
    method RemoveCumulativeTimesCausingNegativeSplits(a: array<Time>) returns (r: Result<array<Time>>)
      modifies this
      ensures r.Failure? ==> NegativeSplitsRemoved(a[..]) == Failure(r.error)
      ensures r.Success? ==> NegativeSplitsRemoved(a[..]) == Success(r.value[..])
      ensures r.Success? ==> r.value == a || fresh(r.value)
      ensures madeAnyChanges == (old(madeAnyChanges) || SearchMakesProgress(a[..]))
    {
      var found := GetFirstNonAscendingIndexes(a);
      if found.Failure? {
        return Failure(found.error);
      }
      var nonAscIndexes := found.value;
      var cumTimes := a;
      while nonAscIndexes.Some? && nonAscIndexes.value.second + 1 < cumTimes.Length
        invariant cumTimes.Length == a.Length
        invariant cumTimes == a || fresh(cumTimes)
        invariant FirstNonAscending(cumTimes[..]) == Success(nonAscIndexes)
        invariant SearchFrom(cumTimes[..], nonAscIndexes) == NegativeSplitsRemoved(a[..])
        invariant madeAnyChanges == (old(madeAnyChanges) || cumTimes != a)
        invariant cumTimes != a ==> SearchMakesProgress(a[..])
        decreases if nonAscIndexes.Some? then a.Length - nonAscIndexes.value.second else 0
      {
        var trial, adjustedCumTimes := RunTrials(cumTimes, nonAscIndexes.value);
        if trial.Failure? {
          return Failure(trial.error);
        }
        if trial.value.NoProgress? {
          break;
        }
        cumTimes := adjustedCumTimes;
        madeAnyChanges := true;
        nonAscIndexes := trial.value.next;
      }
      return Success(cumTimes);
    }

    /** Trials 1, 2 and 3 on the pair `p` of `cumTimes`, each on a fresh copy; stops at the
        first accepted one and returns that copy. */
    static method RunTrials(cumTimes: array<Time>, p: Pair) returns (r: Result<Trial>, adjusted: array<Time>)
      requires NonAscendingAt(cumTimes[..], p)
      ensures r == TryAttempts(cumTimes[..], p, 1)
      ensures r.Success? && r.value.Accepted? ==> fresh(adjusted) && adjusted[..] == r.value.times
    {
      var first, second := p.first, p.second;
      adjusted := cumTimes;
      var attempt := 1;
      while attempt <= 3
        invariant 1 <= attempt <= 4
        invariant TryAttempts(cumTimes[..], p, 1) == TryAttempts(cumTimes[..], p, attempt)
      {
        var adjustedCumTimes := new Time[cumTimes.Length](i requires 0 <= i < cumTimes.Length reads cumTimes => cumTimes[i]);
        assert adjustedCumTimes[..] == cumTimes[..];
        // With `first` equal to 0 the time before it is JavaScript's `undefined`, which is
        // not present either.
        if attempt == 3 && (first <= 1 || !cumTimes[first - 1].Num?) {
        } else {
          if attempt == 1 {
            adjustedCumTimes[second] := Invalid;
          } else if attempt == 2 {
            adjustedCumTimes[first] := Invalid;
          } else {
            adjustedCumTimes[first] := Invalid;
            adjustedCumTimes[first - 1] := Invalid;
          }
          assert adjustedCumTimes[..] == Adjusted(cumTimes[..], p, attempt);
          var nextNonAscIndexes := GetFirstNonAscendingIndexes(adjustedCumTimes);
          if nextNonAscIndexes.Failure? {
            return Failure(nextNonAscIndexes.error), adjusted;
          }
          var next := nextNonAscIndexes.value;
          if next.None? || next.value.first > second {
            return Success(Accepted(adjustedCumTimes[..], next)), adjustedCumTimes;
          }
        }
        attempt := attempt + 1;
      }
      return Success(NoProgress), adjusted;
    }

    /** Invalidates the finish of a sequence whose finish is absurdly before the last
        control. */
    method RemoveFinishTimeIfAbsurd(a: array<Time>)
      modifies this, a
      ensures a[..] == FinishDroppedIfAbsurd(old(a[..]))
      ensures madeAnyChanges == (old(madeAnyChanges) || AbsurdFinish(old(a[..])))
    {
      // With fewer than two times one of the two lookups is JavaScript's `undefined`,
      // which is not present.
      if a.Length >= 2 {
        var finishTime := a[a.Length - 1];
        var lastControlTime := a[a.Length - 2];
        if finishTime.Num? && lastControlTime.Num?
           && finishTime.value <= lastControlTime.value - MaxFinishSplitMinsAdded * 60 {
          a[a.Length - 1] := Invalid;
          madeAnyChanges := true;
        }
      }
    }

    /** Repairs a copy of the competitor's original times and stores the result as the
        repaired times; a failing pass leaves the competitor as it was. */
    method RepairCompetitor(c: Competitor) returns (o: Outcome)
      modifies this, c`repairedCumTimes
      ensures var r := RepairedCumTimes(c.originalCumTimes, c.completed);
        && (o.Pass? <==> r.Success?)
        && (r.Failure? ==> o == Fail(r.error))
        && (o.Fail? ==> o.error == InvalidData)
        && c.repairedCumTimes == (if r.Success? then Some(r.value) else old(c.repairedCumTimes))
      ensures madeAnyChanges == (old(madeAnyChanges) || ReportsChange(c))
    {
      var original := c.originalCumTimes;
      RepairedCumTimesSpec(original, c.completed);
      RepairedCumTimesPasses(original, c.completed);
      var cumTimes := new Time[|original|](i requires 0 <= i < |original| => original[i]);
      assert cumTimes[..] == original;
      RemoveCumulativeTimesEqualToPrevious(cumTimes);
      var searched := RemoveCumulativeTimesCausingNegativeSplits(cumTimes);
      if searched.Failure? {
        return Fail(searched.error);
      }
      var t := searched.value;
      if !c.completed {
        RemoveFinishTimeIfAbsurd(t);
      }
      c.repairedCumTimes := Some(t[..]);
      return Pass;
    }

    /** Repairs every competitor of the class in order, stopping at the first failure.
        The flag is reset first, and the class is marked as having dubious data when the
        whole class was repaired and some repair changed something. */
    method RepairAgeClass(ageClass: AgeClass) returns (o: Outcome)
      modifies this, ageClass`hasDubiousData, set c | c in ageClass.competitors :: c`repairedCumTimes
      ensures var cs, k := ageClass.competitors, FirstUnrepairable(ageClass.competitors);
        && (o.Pass? <==> k == |cs|)
        && (o.Fail? ==> o.error == InvalidData)
        && (forall j {:trigger HoldsRepairedTimes(cs[j])} :: 0 <= j < k ==> HoldsRepairedTimes(cs[j]))
        && (forall c :: c in cs && c !in cs[..k] ==> c.repairedCumTimes == old(c.repairedCumTimes))
        && madeAnyChanges == AnyReportsChange(cs[..if k < |cs| then k + 1 else k])
        && ageClass.hasDubiousData == (old(ageClass.hasDubiousData) || (o.Pass? && madeAnyChanges))
    {
      var cs := ageClass.competitors;
      ghost var before := map c | c in cs :: c.repairedCumTimes;
      madeAnyChanges := false;
      var i := 0;
      while i < |cs|
        invariant 0 <= i <= |cs| && i <= FirstUnrepairable(cs)
        invariant CompetitorsRepaired(cs, i, before)
        invariant madeAnyChanges == AnyReportsChange(cs[..i])
        invariant ageClass.hasDubiousData == old(ageClass.hasDubiousData)
      {
        assert cs[i] in ageClass.competitors;
        o := RepairCompetitorAt(cs, i, cs[i], before);
        assert cs[..i + 1][..i] == cs[..i];
        if o.Fail? {
          assert FirstUnrepairable(cs) == i;
          return;
        }
        FirstUnrepairableNext(cs, i);
        i := i + 1;
      }
      assert cs[..i] == cs;
      if madeAnyChanges {
        ageClass.hasDubiousData := true;
      }
      return Pass;
    }

    /** Repairs every class of the event in order, stopping at the first failure. The
        classes before the failing one are repaired and marked; the failing class has its
        competitors before the failing one repaired and keeps its mark; every other
        competitor keeps its repaired times and every other class its mark. */
    method RepairEventData(eventData: Event) returns (o: Outcome)
      modifies this
      modifies set a | a in eventData.classes :: a`hasDubiousData
      modifies set a, c | a in eventData.classes && c in a.competitors :: c`repairedCumTimes
      ensures var classes, k := eventData.classes, FirstUnrepairableClass(eventData.classes);
        && (o.Pass? <==> k == |classes|)
        && (o.Fail? ==> o.error == InvalidData)
        && (forall a :: a in classes[..k] ==> ClassRepaired(a))
        && (forall a :: a in classes[..k] ==>
              a.hasDubiousData == (old(a.hasDubiousData) || AnyReportsChange(a.competitors)))
        && (forall a :: a in classes && a !in classes[..k] ==> a.hasDubiousData == old(a.hasDubiousData))
        && (o.Fail? ==>
              var cs := classes[k].competitors;
              forall j {:trigger HoldsRepairedTimes(cs[j])} :: 0 <= j < FirstUnrepairable(cs) ==> HoldsRepairedTimes(cs[j]))
        && (forall c :: c in Competitors(classes) && c !in Reached(classes, k) ==>
              c.repairedCumTimes == old(c.repairedCumTimes))
        && (o.Pass? && |classes| > 0 ==>
              madeAnyChanges == AnyReportsChange(classes[|classes| - 1].competitors))
        && (o.Pass? && |classes| == 0 ==> madeAnyChanges == old(madeAnyChanges))
    {
      var classes := eventData.classes;
      ghost var wasDubious := map a | a in classes :: a.hasDubiousData;
      ghost var all := Competitors(classes);
      ghost var before := map c | c in all :: c.repairedCumTimes;
      var i := 0;
      while i < |classes|
        invariant 0 <= i <= |classes| && i <= FirstUnrepairableClass(classes)
        invariant ClassesRepaired(classes, i, wasDubious)
        invariant Untouched(all, Done(classes, i), before)
        invariant i > 0 ==> madeAnyChanges == AnyReportsChange(classes[i - 1].competitors)
        invariant i == 0 ==> madeAnyChanges == old(madeAnyChanges)
      {
        assert classes[i] in classes;
        o := RepairClassAt(classes, i, classes[i], wasDubious, all, before);
        if o.Fail? {
          assert FirstUnrepairableClass(classes) == i;
          return;
        }
        FirstUnrepairableClassNext(classes, i);
        i := i + 1;
      }
      o := Pass;
    }

    /** One step of the class loop: repairs competitor `i` and, when that succeeds,
        extends the repaired prefix by one competitor. */
    method RepairCompetitorAt(cs: seq<Competitor>, i: nat, c: Competitor,
                              ghost before: map<Competitor, Option<seq<Time>>>) returns (o: Outcome)
      requires i < |cs| && cs[i] == c
      requires CompetitorsRepaired(cs, i, before)
      modifies this, c`repairedCumTimes
      ensures (o.Pass? <==> Repairable(c)) && (o.Fail? ==> o.error == InvalidData)
      ensures o.Pass? ==> CompetitorsRepaired(cs, i + 1, before)
      ensures o.Fail? ==> CompetitorsRepaired(cs, i, before)
      ensures madeAnyChanges == (old(madeAnyChanges) || ReportsChange(c))
    {
      label Before:
      o := RepairCompetitor(c);
      forall d | d in cs && d !in cs[..if o.Pass? then i + 1 else i]
        ensures d.repairedCumTimes == before[d]
      {
        if d != c {
          assert d.repairedCumTimes == old@Before(d.repairedCumTimes);
        }
      }
    }

    /** One step of the event loop: repairs class `i` and extends the repaired prefix by
        one class; on failure, the competitors reached are those of the classes before it
        and those of class `i` before its failing one. */
    method RepairClassAt(classes: seq<AgeClass>, i: nat, ageClass: AgeClass, ghost wasDubious: map<AgeClass, bool>,
                         ghost all: set<Competitor>, ghost before: map<Competitor, Option<seq<Time>>>)
      returns (o: Outcome)
      requires i < |classes| && classes[i] == ageClass
      requires ClassesRepaired(classes, i, wasDubious)
      requires Untouched(all, Done(classes, i), before)
      modifies this, ageClass`hasDubiousData
      modifies set c | c in ageClass.competitors :: c`repairedCumTimes
      ensures var cs := ageClass.competitors;
        && (o.Pass? <==> FirstUnrepairable(cs) == |cs|)
        && (o.Fail? ==> o.error == InvalidData)
        && (o.Pass? ==> ClassesRepaired(classes, i + 1, wasDubious))
        && (o.Fail? ==> ClassesRepaired(classes, i, wasDubious))
        && (o.Pass? ==> madeAnyChanges == AnyReportsChange(cs))
      ensures o.Pass? ==> Untouched(all, Done(classes, i + 1), before)
      ensures o.Fail? ==> Untouched(all, Reached(classes, i), before)
      ensures var cs := ageClass.competitors;
        forall j {:trigger HoldsRepairedTimes(cs[j])} :: 0 <= j < FirstUnrepairable(cs) ==> HoldsRepairedTimes(cs[j])
    {
      o := RepairClassMarks(classes, i, ageClass, wasDubious);
      var cs, k := ageClass.competitors, FirstUnrepairable(ageClass.competitors);
      ghost var reached := if o.Pass? then Done(classes, i + 1) else Reached(classes, i);
      assert ageClass in classes[..i + 1];
      assert o.Pass? ==> cs[..k] == cs;
      forall c | c in all && c !in reached
        ensures c in before && c.repairedCumTimes == before[c]
      {
        assert c !in Done(classes, i);
        if c in cs {
          assert c !in cs[..k];
        }
      }
    }

    /** Repairs class `i` and extends the repaired and marked prefix by one class, or
        leaves the marks as they were when the class fails. */
    method RepairClassMarks(classes: seq<AgeClass>, i: nat, ageClass: AgeClass, ghost wasDubious: map<AgeClass, bool>)
      returns (o: Outcome)
      requires i < |classes| && classes[i] == ageClass
      requires ClassesRepaired(classes, i, wasDubious)
      modifies this, ageClass`hasDubiousData
      modifies set c | c in ageClass.competitors :: c`repairedCumTimes
      ensures var cs := ageClass.competitors;
        && (o.Pass? <==> FirstUnrepairable(cs) == |cs|)
        && (o.Fail? ==> o.error == InvalidData)
        && (o.Pass? ==> ClassesRepaired(classes, i + 1, wasDubious))
        && (o.Fail? ==> ClassesRepaired(classes, i, wasDubious))
        && (o.Pass? ==> madeAnyChanges == AnyReportsChange(cs))
      ensures var cs := ageClass.competitors;
        && (forall j {:trigger HoldsRepairedTimes(cs[j])} :: 0 <= j < FirstUnrepairable(cs) ==> HoldsRepairedTimes(cs[j]))
        && (forall c :: c in cs && c !in cs[..FirstUnrepairable(cs)] ==> c.repairedCumTimes == old(c.repairedCumTimes))
    {
      assert ageClass in classes;
      label Before:
      o := RepairAgeClass(ageClass);
      var cs, k := ageClass.competitors, FirstUnrepairable(ageClass.competitors);
      var n := if o.Pass? then i + 1 else i;
      assert o.Pass? ==> cs[..k] == cs;
      assert classes[..i + 1] == classes[..i] + [ageClass];
      forall a, c | a in classes[..n] && c in a.competitors
        ensures HoldsRepairedTimes(c)
      {
        if c in cs[..k] {
          var m :| 0 <= m < k && cs[m] == c;
        } else {
          assert old@Before(HoldsRepairedTimes(c));
        }
      }
      forall a | a in classes[..n]
        ensures a.hasDubiousData == (wasDubious[a] || AnyReportsChange(a.competitors))
      {
        if a != ageClass {
          assert a.hasDubiousData == old@Before(a.hasDubiousData);
        }
      }
      forall a | a in classes && a !in classes[..n]
        ensures a.hasDubiousData == wasDubious[a]
      {
        assert a !in classes[..i];
        assert a.hasDubiousData == old@Before(a.hasDubiousData);
      }
    }
  }

  /** The competitors of the classes. */
  ghost function Competitors(classes: seq<AgeClass>): set<Competitor> {
    set a, c | a in classes && c in a.competitors :: c
  }

  /** The competitors of the first `n` classes. */
  ghost function Done(classes: seq<AgeClass>, n: nat): set<Competitor>
    requires n <= |classes|
  {
    set a, c | a in classes[..n] && c in a.competitors :: c
  }

  /** The competitors a repair that stops at class `k` has reached: those of the classes
      before it and, when `k` is a class, those of class `k` before its first failing
      competitor. */
  ghost function Reached(classes: seq<AgeClass>, k: nat): set<Competitor>
    requires k <= |classes|
  {
    Done(classes, k) +
      if k < |classes| then set c | c in classes[k].competitors[..FirstUnrepairable(classes[k].competitors)]
      else {}
  }

  /** Every competitor of `all` outside `reached` still holds the repaired times it held
      `before`. */
  ghost predicate Untouched(all: set<Competitor>, reached: set<Competitor>,
                            before: map<Competitor, Option<seq<Time>>>)
    reads all
  {
    forall c :: c in all && c !in reached ==> c in before && c.repairedCumTimes == before[c]
  }

  /** The first `n` competitors hold their repaired times and the others still hold the
      times they held `before`. */
  ghost predicate CompetitorsRepaired(cs: seq<Competitor>, n: nat, before: map<Competitor, Option<seq<Time>>>)
    reads cs
  {
    && n <= |cs|
    && (forall c :: c in cs ==> c in before)
    && (forall j {:trigger HoldsRepairedTimes(cs[j])} :: 0 <= j < n ==> HoldsRepairedTimes(cs[j]))
    && (forall c :: c in cs && c !in cs[..n] ==> c.repairedCumTimes == before[c])
  }

  /** The first `n` classes are repaired and each is marked dubious exactly when it was
      before or some repair in it reported a change; the other classes keep their marks. */
  ghost predicate ClassesRepaired(classes: seq<AgeClass>, n: nat, wasDubious: map<AgeClass, bool>)
    reads classes, set a, c | a in classes && c in a.competitors :: c
  {
    && n <= |classes|
    && (forall a :: a in classes ==> a in wasDubious)
    && (forall a, c :: a in classes[..n] && c in a.competitors ==> HoldsRepairedTimes(c))
    && (forall a :: a in classes[..n] ==>
          a.hasDubiousData == (wasDubious[a] || AnyReportsChange(a.competitors)))
    && (forall a :: a in classes && a !in classes[..n] ==> a.hasDubiousData == wasDubious[a])
  }

  /** A class before the first failing one that can be repaired is not the first failing
      one either. */
  lemma FirstUnrepairableClassNext(classes: seq<AgeClass>, i: nat)
    requires i < |classes| && i <= FirstUnrepairableClass(classes)
    requires FirstUnrepairable(classes[i].competitors) == |classes[i].competitors|
    ensures i + 1 <= FirstUnrepairableClass(classes)
  {
  }

  /** Every competitor of the class holds its repaired times. */
  predicate ClassRepaired(a: AgeClass)
    reads a.competitors
  {
    forall c :: c in a.competitors ==> HoldsRepairedTimes(c)
  }

  /** Every competitor of every class can be repaired exactly when no class has a first
      failing competitor. */
  lemma AllRepairableFirst(classes: seq<AgeClass>)
    ensures AllRepairable(classes) <==> FirstUnrepairableClass(classes) == |classes|
  {
    var k := FirstUnrepairableClass(classes);
    if k < |classes| {
      var cs := classes[k].competitors;
      assert !Repairable(cs[FirstUnrepairable(cs)]);
    } else {
      forall a, c | a in classes && c in a.competitors
        ensures Repairable(c)
      {
        var j :| 0 <= j < |classes| && classes[j] == a;
        var m :| 0 <= m < |a.competitors| && a.competitors[m] == c;
      }
    }
  }

  /** Repairs the event with a new repairer: when every competitor can be repaired, every
      competitor holds its repaired times and exactly the classes with a competitor whose
      repair changed something are marked as having dubious data. When a repair fails, the
      classes before the failing one are repaired and marked, the failing class has its
      competitors before the failing one repaired, and nothing else has changed. */
  method RepairEvent(eventData: Event) returns (o: Outcome)
    modifies set a | a in eventData.classes :: a`hasDubiousData
    modifies set a, c | a in eventData.classes && c in a.competitors :: c`repairedCumTimes
    ensures o.Pass? <==> AllRepairable(eventData.classes)
    ensures o.Fail? ==> o.error == InvalidData
    ensures forall a, c :: o.Pass? && a in eventData.classes && c in a.competitors ==> HoldsRepairedTimes(c)
    ensures forall a :: o.Pass? && a in eventData.classes ==>
              a.hasDubiousData == (old(a.hasDubiousData) || exists c :: c in a.competitors && ReportsChange(c))
    ensures var classes, k := eventData.classes, FirstUnrepairableClass(eventData.classes);
      && (forall a :: a in classes[..k] ==> ClassRepaired(a))
      && (forall a :: a in classes[..k] ==>
            a.hasDubiousData == (old(a.hasDubiousData) || AnyReportsChange(a.competitors)))
      && (forall a :: a in classes && a !in classes[..k] ==> a.hasDubiousData == old(a.hasDubiousData))
      && (o.Fail? && k < |classes| ==>
            var cs := classes[k].competitors;
            forall j {:trigger HoldsRepairedTimes(cs[j])} :: 0 <= j < FirstUnrepairable(cs) ==> HoldsRepairedTimes(cs[j]))
      && (forall c :: c in Competitors(classes) && c !in Reached(classes, k) ==>
            c.repairedCumTimes == old(c.repairedCumTimes))
  {
    var repairer := new Repairer();
    o := repairer.RepairEventData(eventData);
    AllRepairableFirst(eventData.classes);
    if o.Pass? {
      assert eventData.classes[..|eventData.classes|] == eventData.classes;
      forall a | a in eventData.classes
        ensures a.hasDubiousData == (old(a.hasDubiousData) || exists c :: c in a.competitors && ReportsChange(c))
      {
        AnyReportsChangeSpec(a.competitors);
      }
    }
  }

  /** Makes every competitor's repaired times a copy of its original times. */
  method TransferCompetitorData(eventData: Event)
    modifies set a, c | a in eventData.classes && c in a.competitors :: c`repairedCumTimes
    ensures forall a, c :: a in eventData.classes && c in a.competitors ==>
              c.repairedCumTimes == Some(c.originalCumTimes)
  {
    var classes := eventData.classes;
    var i := 0;
    while i < |classes|
      invariant 0 <= i <= |classes|
      invariant forall j, c :: 0 <= j < i && c in classes[j].competitors ==>
                  c.repairedCumTimes == Some(c.originalCumTimes)
    {
      var cs := classes[i].competitors;
      var n := 0;
      while n < |cs|
        invariant 0 <= n <= |cs|
        invariant forall j, c :: 0 <= j < i && c in classes[j].competitors ==>
                    c.repairedCumTimes == Some(c.originalCumTimes)
        invariant forall m :: 0 <= m < n ==> cs[m].repairedCumTimes == Some(cs[m].originalCumTimes)
      {
        assert classes[i] in classes && cs[n] in classes[i].competitors;
        cs[n].repairedCumTimes := Some(cs[n].originalCumTimes);
        n := n + 1;
      }
      forall j, c | 0 <= j < i + 1 && c in classes[j].competitors
        ensures c.repairedCumTimes == Some(c.originalCumTimes)
      {
        if j == i {
          var m :| 0 <= m < |cs| && cs[m] == c;
        }
      }
      i := i + 1;
    }
    forall a, c | a in classes && c in a.competitors
      ensures c.repairedCumTimes == Some(c.originalCumTimes)
    {
      var j :| 0 <= j < |classes| && classes[j] == a;
    }
  }
}
