/** The search of createCourseFromLinkedClassesAndCourses: starting from one course, it
    collects the courses and classes connected to it through the two maps, alternately
    emptying the queue of courses and the queue of classes. */
module SiLinking {
  import opened SiState
  import opened SiCourses

  /** The inner `for` loop: appends to `todo` each of `names` that is neither
      queued in `todo` nor already in `related`. */
  method PushNew(names: seq<string>, todo: seq<string>, related: seq<string>) returns (r: seq<string>)
    ensures |r| >= |todo| && r[..|todo|] == todo
    ensures forall y :: y in todo ==> y in r
    ensures forall y :: y in names ==> y in r || y in related
    ensures forall y :: y in r ==> y in todo || y in names
    ensures Distinct(related + todo) ==> Distinct(related + r)
  {
    r := todo;
    for i := 0 to |names|
      invariant |r| >= |todo| && r[..|todo|] == todo
      invariant forall y :: y in todo ==> y in r
      invariant forall j :: 0 <= j < i ==> names[j] in r || names[j] in related
      invariant forall y :: y in r ==> y in todo || y in names
      invariant Distinct(related + todo) ==> Distinct(related + r)
    {
      if names[i] !in r && names[i] !in related {
        assert (r + [names[i]])[..|todo|] == r[..|todo|];
        ghost var before := related + r;
        assert related + (r + [names[i]]) == before + [names[i]];
        r := r + [names[i]];
      }
    }
    forall y | y in names
      ensures y in r || y in related
    {
      var j :| 0 <= j < |names| && names[j] == y;
    }
  }

  /** One inner `while` loop: takes each name off the front of `todoA` in turn, queues on
      `todoB` the names `m` gives it that are neither queued nor related on that side, and
      appends it to `relA`. `sb` is a set the names of `m` are known to stay within. */
  method Drain(m: map<string, seq<string>>, todoA: seq<string>, relA: seq<string>,
               todoB: seq<string>, relB: seq<string>, ghost sb: set<string>)
    returns (relA2: seq<string>, todoB2: seq<string>)
    requires forall x :: x in todoA ==> x in m
    requires forall x, y :: x in todoA && y in m[x] ==> y in sb
    ensures relA2 == relA + todoA
    ensures |todoB2| >= |todoB| && todoB2[..|todoB|] == todoB
    ensures forall y :: y in todoB ==> y in todoB2
    ensures forall x, y :: x in todoA && y in m[x] ==> y in todoB2 || y in relB
    ensures forall y :: y in todoB2 ==> y in todoB || y in sb
    ensures Distinct(relB + todoB) ==> Distinct(relB + todoB2)
  {
    relA2, todoB2 := relA, todoB;
    var queue := todoA;
    ghost var k := 0;
    while |queue| > 0
      invariant 0 <= k <= |todoA| && queue == todoA[k..] && relA2 == relA + todoA[..k]
      invariant |todoB2| >= |todoB| && todoB2[..|todoB|] == todoB
      invariant forall y :: y in todoB ==> y in todoB2
      invariant forall x, y :: x in todoA[..k] && y in m[x] ==> y in todoB2 || y in relB
      invariant forall y :: y in todoB2 ==> y in todoB || y in sb
      invariant Distinct(relB + todoB) ==> Distinct(relB + todoB2)
      decreases |queue|
    {
      var x := queue[0];
      assert x == todoA[k];
      queue := queue[1..];
      ghost var prev := todoB2;
      todoB2 := PushNew(m[x], todoB2, relB);
      assert todoB2[..|todoB|] == todoB2[..|prev|][..|todoB|];
      relA2 := relA2 + [x];
      assert todoA[..k + 1] == todoA[..k] + [x];
      k := k + 1;
    }
    assert todoA[..k] == todoA;
  }

  /** A sequence without repetitions drawn from a set is no longer than the set. */
  lemma {:induction false} DistinctBound(s: seq<string>, bound: set<string>)
    requires Distinct(s) && forall x :: x in s ==> x in bound
    ensures |s| <= |bound|
    decreases |s|
  {
    if |s| > 0 {
      var last := s[|s| - 1];
      var init := s[..|s| - 1];
      forall x | x in init
        ensures x in bound - {last}
      {
        var j :| 0 <= j < |init| && init[j] == x;
        assert s[j] == x;
      }
      DistinctBound(init, bound - {last});
    }
  }

  /** The component of `init` is closed, holds `init` and lies within the keys of the
      maps. */
  lemma ComponentClosed(ct: map<string, seq<string>>, kt: map<string, seq<string>>, init: string)
    requires Linked(ct, kt) && init in ct
    ensures var cs, ks := ComponentCourses(ct, kt, init), ComponentClasses(ct, kt, init);
      && init in cs && Closed(ct, kt, cs, ks)
      && (forall c :: c in cs ==> c in ct) && (forall a :: a in ks ==> a in kt)
  {
    ComponentExists(ct, kt, init);
  }

  /** The two nested loops: the courses and the classes connected to `init`, each once,
      `init` first. */
  method LinkedNames(init: string, ct: map<string, seq<string>>, kt: map<string, seq<string>>)
    returns (courses: seq<string>, classes: seq<string>)
    requires Linked(ct, kt) && init in ct
    ensures Distinct(courses) && Distinct(classes)
    ensures |courses| > 0 && courses[0] == init
    ensures forall c :: c in courses <==> c in ComponentCourses(ct, kt, init)
    ensures forall a :: a in classes <==> a in ComponentClasses(ct, kt, init)
  {
    ghost var cs, ks := ComponentCourses(ct, kt, init), ComponentClasses(ct, kt, init);
    ComponentClosed(ct, kt, init);
    var courseTodo, classTodo := [init], [];
    courses, classes := [], [];
    while |courseTodo| > 0 || |classTodo| > 0
      invariant Distinct(courses + courseTodo) && Distinct(classes + classTodo)
      invariant forall c :: c in courses + courseTodo ==> c in cs
      invariant forall a :: a in classes + classTodo ==> a in ks
      invariant forall c, a :: c in courses && a in ct[c] ==> a in classes + classTodo
      invariant forall a, c :: a in classes && c in kt[a] ==> c in courses + courseTodo
      invariant |courses + courseTodo| > 0 && (courses + courseTodo)[0] == init
      invariant |courses| + |classes| <= |ct.Keys| + |kt.Keys|
      decreases |ct.Keys| + |kt.Keys| - |courses| - |classes|
    {
      ghost var size := |courses| + |classes|;
      ghost var whole := courses + courseTodo;
      ghost var courses0, classes0, classTodo0 := courses, classes, classTodo;
      courses, classTodo := Drain(ct, courseTodo, courses, classTodo, classes, ks);
      assert courses == whole;
      courseTodo := [];
      assert courses + courseTodo == courses;
      ghost var classWhole := classes + classTodo;
      classes, courseTodo := Drain(kt, classTodo, classes, courseTodo, courses, cs);
      classTodo := [];
      assert classes == classWhole && classes + classTodo == classes;
      forall c, a | c in courses && a in ct[c]
        ensures a in classes
      {
        if c in courses0 {
          assert a in classes0 + classTodo0;
        } else {
          assert c in whole;
        }
      }
      assert (courses + courseTodo)[0] == courses[0];
      DistinctBound(courses, ct.Keys);
      DistinctBound(classes, kt.Keys);
      assert |courses| + |classes| > size;
    }
    assert courses + courseTodo == courses && classes + classTodo == classes;
    ComponentExists(ct, kt, init);
    var c2, k2 := set c | c in courses, set a | a in classes;
    assert ClosedFrom(ct, kt, init, c2, k2);
  }
}
