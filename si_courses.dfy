/** Resolving classes and courses: the two maps between class names and course names that
    the class-course pairs define, and the connected components of the bipartite graph
    they form, which become the courses of the event. */
module SiCourses {
  import opened SiState

  /** The pairs with their components swapped. */
  function Swap(ps: seq<(string, string)>): (r: seq<(string, string)>)
    ensures |r| == |ps|
  {
    seq(|ps|, i requires 0 <= i < |ps| => (ps[i].1, ps[i].0))
  }

  lemma SwapMember(ps: seq<(string, string)>, x: string, y: string)
    ensures (x, y) in Swap(ps) <==> (y, x) in ps
  {
    if (y, x) in ps {
      var i :| 0 <= i < |ps| && ps[i] == (y, x);
      assert Swap(ps)[i] == (x, y);
    }
  }

  lemma SwapPrefix(ps: seq<(string, string)>, n: nat)
    requires n <= |ps|
    ensures Swap(ps)[..n] == Swap(ps[..n])
  {
  }

  /** The pairs grouped by their first component: for each first component, the second
      components paired with it, in pair order, as the `forEach` over the pairs builds
      them. */
  function Group(ps: seq<(string, string)>): map<string, seq<string>>
  {
    if |ps| == 0 then map[]
    else
      var m, p := Group(ps[..|ps| - 1]), ps[|ps| - 1];
      m[p.0 := (if p.0 in m then m[p.0] else []) + [p.1]]
  }

  /** The first components in order of first appearance: the order of the keys of Group. */
  function KeyOrder(ps: seq<(string, string)>): seq<string>
  {
    if |ps| == 0 then []
    else
      var o, p := KeyOrder(ps[..|ps| - 1]), ps[|ps| - 1];
      if p.0 in o then o else o + [p.0]
  }

  /** classesToCourses of getMapsBetweenClassesAndCourses. */
  function ClassesToCourses(pairs: seq<(string, string)>): map<string, seq<string>> {
    Group(pairs)
  }

  /** coursesToClasses of getMapsBetweenClassesAndCourses. */
  function CoursesToClasses(pairs: seq<(string, string)>): map<string, seq<string>> {
    Group(Swap(pairs))
  }

  /** The order of the keys of coursesToClasses: the course names in order of first
      appearance among the pairs. */
  function CourseOrder(pairs: seq<(string, string)>): seq<string> {
    KeyOrder(Swap(pairs))
  }

  /** The group of `k` holds exactly the values paired with `k`, each once when the pairs
      are distinct, and the keys are exactly the first components. */
  lemma {:induction false} GroupSpec(ps: seq<(string, string)>)
    ensures forall p :: p in ps ==> p.0 in Group(ps) && p.1 in Group(ps)[p.0]
    ensures forall k, v :: k in Group(ps) && v in Group(ps)[k] ==> (k, v) in ps
    ensures forall k :: k in Group(ps) ==> |Group(ps)[k]| > 0
    ensures Distinct(ps) ==> forall k :: k in Group(ps) ==> Distinct(Group(ps)[k])
    decreases |ps|
  {
    if |ps| > 0 {
      var init, p := ps[..|ps| - 1], ps[|ps| - 1];
      GroupSpec(init);
      assert ps == init + [p];
      forall q | q in ps
        ensures q.0 in Group(ps) && q.1 in Group(ps)[q.0]
      {
        if q != p {
          assert q in init;
        }
      }
      if Distinct(ps) {
        assert Distinct(init);
        assert p !in init;
        var m := Group(init);
        if p.0 in m {
          assert p.1 !in m[p.0];
        }
      }
    }
  }

  lemma {:induction false} KeyOrderSpec(ps: seq<(string, string)>)
    ensures Distinct(KeyOrder(ps))
    ensures forall k :: k in KeyOrder(ps) <==> k in Group(ps)
    decreases |ps|
  {
    if |ps| > 0 {
      KeyOrderSpec(ps[..|ps| - 1]);
    }
  }

  /** Every class a course lists lists the course, and the other way round. */
  ghost predicate Linked(ct: map<string, seq<string>>, kt: map<string, seq<string>>) {
    && (forall c, a :: c in ct && a in ct[c] ==> a in kt && c in kt[a])
    && (forall a, c :: a in kt && c in kt[a] ==> c in ct && a in ct[c])
  }

  /** The two maps of the pairs are linked, each course lists exactly the classes paired
      with it and each class exactly the courses paired with it. */
  lemma MapsSpec(pairs: seq<(string, string)>)
    ensures var ct, kt := CoursesToClasses(pairs), ClassesToCourses(pairs);
      && Linked(ct, kt)
      && (forall a, c :: c in ct && a in ct[c] <==> (a, c) in pairs)
      && (forall a, c :: a in kt && c in kt[a] <==> (a, c) in pairs)
      && (forall c :: c in ct ==> |ct[c]| > 0) && (forall a :: a in kt ==> |kt[a]| > 0)
  {
    GroupSpec(pairs);
    GroupSpec(Swap(pairs));
    forall a, c
      ensures (c, a) in Swap(pairs) <==> (a, c) in pairs
    {
      SwapMember(pairs, c, a);
    }
  }

  /** A set of courses and a set of classes that the maps do not lead out of. */
  ghost predicate Closed(ct: map<string, seq<string>>, kt: map<string, seq<string>>,
                         courses: set<string>, classes: set<string>) {
    && (forall c, a :: c in courses && c in ct && a in ct[c] ==> a in classes)
    && (forall a, c :: a in classes && a in kt && c in kt[a] ==> c in courses)
  }

  /** In terms of the pairs: every pair has both its names inside or both outside. */
  lemma ClosedPairs(pairs: seq<(string, string)>, courses: set<string>, classes: set<string>)
    ensures Closed(CoursesToClasses(pairs), ClassesToCourses(pairs), courses, classes) <==>
      forall p :: p in pairs ==> (p.1 in courses <==> p.0 in classes)
  {
    MapsSpec(pairs);
  }

  /** Closed sets holding `init`. */
  ghost predicate ClosedFrom(ct: map<string, seq<string>>, kt: map<string, seq<string>>, init: string,
                             courses: set<string>, classes: set<string>) {
    init in courses && Closed(ct, kt, courses, classes)
  }

  /** The courses and classes connected to `init`: the least closed sets holding it. */
  ghost predicate IsComponent(ct: map<string, seq<string>>, kt: map<string, seq<string>>, init: string,
                              courses: set<string>, classes: set<string>) {
    && ClosedFrom(ct, kt, init, courses, classes)
    && forall c2, k2 :: ClosedFrom(ct, kt, init, c2, k2) ==> courses <= c2 && classes <= k2
  }

  ghost function ComponentCourses(ct: map<string, seq<string>>, kt: map<string, seq<string>>, init: string)
    : set<string>
  {
    set c | c in ct.Keys + {init} && forall c2, k2 :: ClosedFrom(ct, kt, init, c2, k2) ==> c in c2
  }

  ghost function ComponentClasses(ct: map<string, seq<string>>, kt: map<string, seq<string>>, init: string)
    : set<string>
  {
    set a | a in kt.Keys && forall c2, k2 :: ClosedFrom(ct, kt, init, c2, k2) ==> a in k2
  }

  /** The component of `init` exists; it is the pair of sets above. */
  lemma ComponentExists(ct: map<string, seq<string>>, kt: map<string, seq<string>>, init: string)
    requires Linked(ct, kt)
    ensures IsComponent(ct, kt, init, ComponentCourses(ct, kt, init), ComponentClasses(ct, kt, init))
  {
    var cs, ks := ComponentCourses(ct, kt, init), ComponentClasses(ct, kt, init);
    forall c, a | c in cs && c in ct && a in ct[c]
      ensures a in ks
    {
      assert a in kt;
    }
    forall a, c | a in ks && a in kt && c in kt[a]
      ensures c in cs
    {
      assert c in ct;
    }
  }

  /** The component of `init` is unique. */
  lemma ComponentUnique(ct: map<string, seq<string>>, kt: map<string, seq<string>>, init: string,
                        courses: set<string>, classes: set<string>)
    requires Linked(ct, kt) && IsComponent(ct, kt, init, courses, classes)
    ensures courses == ComponentCourses(ct, kt, init) && classes == ComponentClasses(ct, kt, init)
  {
    ComponentExists(ct, kt, init);
  }

  /** Removing a closed set from another leaves a closed set. */
  lemma ClosedDifference(ct: map<string, seq<string>>, kt: map<string, seq<string>>,
                         c1: set<string>, k1: set<string>, c2: set<string>, k2: set<string>)
    requires Linked(ct, kt) && Closed(ct, kt, c1, k1) && Closed(ct, kt, c2, k2)
    ensures Closed(ct, kt, c2 - c1, k2 - k1)
  {
    forall c, a | c in c2 - c1 && c in ct && a in ct[c]
      ensures a in k2 - k1
    {
      assert a in kt && c in kt[a];
    }
    forall a, c | a in k2 - k1 && a in kt && c in kt[a]
      ensures c in c2 - c1
    {
      assert c in ct && a in ct[c];
    }
  }

  /** The components of two courses are the same or share nothing: when the second course
      is outside the first component, they share no course and no class. */
  lemma ComponentsDisjoint(ct: map<string, seq<string>>, kt: map<string, seq<string>>, i1: string, i2: string)
    requires Linked(ct, kt) && i2 !in ComponentCourses(ct, kt, i1)
    ensures ComponentCourses(ct, kt, i1) !! ComponentCourses(ct, kt, i2)
    ensures ComponentClasses(ct, kt, i1) !! ComponentClasses(ct, kt, i2)
  {
    var c1, k1 := ComponentCourses(ct, kt, i1), ComponentClasses(ct, kt, i1);
    var c2, k2 := ComponentCourses(ct, kt, i2), ComponentClasses(ct, kt, i2);
    ComponentExists(ct, kt, i1);
    ComponentExists(ct, kt, i2);
    ClosedDifference(ct, kt, c1, k1, c2, k2);
    assert ClosedFrom(ct, kt, i2, c2 - c1, k2 - k1);
  }

  /** A course in the component of another has the same component. */
  lemma ComponentOfMember(ct: map<string, seq<string>>, kt: map<string, seq<string>>, i1: string, i2: string)
    requires Linked(ct, kt) && i2 in ComponentCourses(ct, kt, i1)
    ensures ComponentCourses(ct, kt, i2) == ComponentCourses(ct, kt, i1)
    ensures ComponentClasses(ct, kt, i2) == ComponentClasses(ct, kt, i1)
  {
    var c1, k1 := ComponentCourses(ct, kt, i1), ComponentClasses(ct, kt, i1);
    var c2, k2 := ComponentCourses(ct, kt, i2), ComponentClasses(ct, kt, i2);
    ComponentExists(ct, kt, i1);
    ComponentExists(ct, kt, i2);
    if i1 !in c2 {
      ClosedDifference(ct, kt, c2, k2, c1, k1);
      assert ClosedFrom(ct, kt, i1, c1 - c2, k1 - k2);
      assert false;
    }
    assert ClosedFrom(ct, kt, i1, c2, k2) && ClosedFrom(ct, kt, i2, c1, k1);
  }
}
