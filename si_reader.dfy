/** The SI CSV reader: an object that splits the data into lines, identifies the delimiter
    and the column layout from the first data line, reads every line after the header into
    its maps, and then builds the age classes and the courses of the event. Each method is
    proved against the functions of the modules it imports; ReadEventData says what the
    whole read accumulates. */
module SiReader {
  import opened Wrappers
  import opened Times
  import opened Model
  import opened SiFormat
  import opened SiRows
  import opened SiState
  import opened SiSort
  import opened SiCourses
  import opened SiLinking
  import opened SiDetect

  /** What reading `data` accumulates: the state after every line after the header has
      been read, with the delimiter and the layout taken from the first data line. A file
      in which no competitor was read is invalid. */
  function ReadEventData(h: Helpers, data: string): Result<ReaderState> {
    var lines := Split(data, '\n');
    var d :- Delimiter(lines);
    var ci :- FormatVariation(Split(lines[1], d));
    var st :- ReadLines(h, ci, d, Initial, lines[1..]);
    if st.anyCompetitors then Success(st) else Failure(InvalidData)
  }

  /** The format is wrong exactly when no delimiter or no layout can be identified; what
      is read keeps the state invariant and has at least one class-course pair. */
  lemma ReadEventDataSpec(h: Helpers, data: string)
    ensures var r, lines := ReadEventData(h, data), Split(data, '\n');
      && (r.Failure? && r.error == WrongFileFormat <==>
            Delimiter(lines).Failure? || FormatVariation(Split(lines[1], Delimiter(lines).value)).Failure?)
      && (r.Success? ==> Valid(r.value) && r.value.anyCompetitors && |r.value.pairs| > 0)
  {
    var lines := Split(data, '\n');
    DelimiterSpec(lines);
    var d := Delimiter(lines);
    if d.Success? {
      var fields := Split(lines[1], d.value);
      FormatVariationSpec(fields);
      var ci := FormatVariation(fields);
      if ci.Success? {
        ReadLinesFailure(h, ci.value, d.value, Initial, lines[1..]);
        var st := ReadLines(h, ci.value, d.value, Initial, lines[1..]);
        if st.Success? {
          InitialValid();
          ReadLinesPreserves(h, ci.value, d.value, Initial, lines[1..]);
        }
      }
    }
  }

  /** A line in which a layout is identified holds a control code, so it is not blank. */
  lemma LaidOutNotBlank(line: string, d: char)
    ensures FormatVariation(Split(line, d)).Success? ==> !AllWhitespace(line)
  {
    var fields := Split(line, d);
    var ci := FormatVariation(fields);
    if ci.Success? {
      FormatVariationSpec(fields);
      EndPositionSpec(fields, |fields| - 1);
      var c := ci.value.control1;
      assert ControlCodeAt(fields, c);
      SplitAllWhitespace(line, d);
      assert !IsWhitespace(fields[c][0]);
    }
  }

  /** Once the delimiter and the layout are identified, reading every line either fails
      or reads a competitor: the first data line holds control codes, so it is not blank,
      and a non-blank line that is read adds a competitor. The final check for no
      competitors therefore never fails by itself. */
  lemma DetectedLinesReadCompetitors(h: Helpers, data: string)
    ensures var lines := Split(data, '\n');
      var d := Delimiter(lines);
      d.Success? ==>
        var ci := FormatVariation(Split(lines[1], d.value));
        ci.Success? ==>
          var st := ReadLines(h, ci.value, d.value, Initial, lines[1..]);
          st.Success? ==> st.value.anyCompetitors && ReadEventData(h, data) == st
  {
    var lines := Split(data, '\n');
    var d := Delimiter(lines);
    if d.Success? {
      var fields := Split(lines[1], d.value);
      var ci := FormatVariation(fields);
      if ci.Success? {
        LaidOutNotBlank(lines[1], d.value);
        var rest := lines[1..];
        var st := ReadLines(h, ci.value, d.value, Initial, rest);
        if st.Success? {
          assert rest[0] == lines[1];
          var next := ReadLine(h, ci.value, d.value, Initial, rest[0]).value;
          ReadLineRecords(h, ci.value, d.value, Initial, rest[0]);
          InitialValid();
          ReadLinePreserves(h, ci.value, d.value, Initial, rest[0]);
          ReadLinesPreserves(h, ci.value, d.value, next, rest[1..]);
        }
      }
    }
  }

  // ---------------------------------------------------------------------------------
  // What the built event is, against the accumulated state

  /** The names of some classes, in order. */
  function Names(classes: seq<AgeClass>): (r: seq<string>)
    ensures |r| == |classes| && forall i :: 0 <= i < |classes| ==> r[i] == classes[i].name
  {
    seq(|classes|, i requires 0 <= i < |classes| => classes[i].name)
  }

  /** The competitor objects of some classes. */
  ghost function CompetitorObjects(classes: seq<AgeClass>): set<Competitor> {
    set i, j | 0 <= i < |classes| && 0 <= j < |classes[i].competitors| :: classes[i].competitors[j]
  }

  /** A competitor object carries the fields of the record it was made from, and has not
      been repaired. */
  ghost predicate MadeFrom(c: Competitor, rec: CompetitorRecord)
    reads c
  {
    && c.order == rec.order && c.name == rec.name && c.club == rec.club && c.startTime == rec.startTime
    && c.originalCumTimes == rec.cumTimes && c.completed == rec.completed
    && c.isNonCompetitive == rec.nonCompetitive && c.repairedCumTimes == None
  }

  /** The classes are those of the entries, one per name, sorted by name; each carries the
      number of controls and, in order, the competitors of its entry. */
  ghost predicate ClassesMadeFrom(classes: seq<AgeClass>, entries: map<string, ClassEntry>)
    reads CompetitorObjects(classes)
  {
    && StrictlySorted(Names(classes))
    && (forall n :: n in Names(classes) <==> n in entries)
    && (forall i :: 0 <= i < |classes| ==>
          && classes[i].name in entries
          && classes[i].numControls == entries[classes[i].name].numControls
          && |classes[i].competitors| == |entries[classes[i].name].competitors|)
    && forall i, j :: 0 <= i < |classes| && 0 <= j < |classes[i].competitors| ==>
         classes[i].name in entries && |classes[i].competitors| == |entries[classes[i].name].competitors| &&
         MadeFrom(classes[i].competitors[j], entries[classes[i].name].competitors[j])
  }

  /** A course stands for the component of the course it is named after: it holds the
      classes of that component, each once, and the details recorded for its name. */
  ghost predicate CourseResolved(course: Course, ct: map<string, seq<string>>, kt: map<string, seq<string>>,
                                 details: map<string, CourseDetails>)
  {
    && course.name in ct && course.name in details
    && Distinct(Names(course.classes))
    && (forall n :: n in Names(course.classes) <==> n in ComponentClasses(ct, kt, course.name))
    && course.length == details[course.name].length && course.climb == details[course.name].climb
    && course.controls == details[course.name].controls
  }

  /** The course names the components of some courses hold. */
  ghost function Covered(ct: map<string, seq<string>>, kt: map<string, seq<string>>, courses: seq<Course>)
    : set<string>
  {
    if |courses| == 0 then {}
    else Covered(ct, kt, courses[..|courses| - 1]) + ComponentCourses(ct, kt, courses[|courses| - 1].name)
  }

  /** The class names the components of some courses hold. */
  ghost function CoveredClasses(ct: map<string, seq<string>>, kt: map<string, seq<string>>, courses: seq<Course>)
    : set<string>
  {
    if |courses| == 0 then {}
    else CoveredClasses(ct, kt, courses[..|courses| - 1]) + ComponentClasses(ct, kt, courses[|courses| - 1].name)
  }

  /** The courses are one per component of the class-course graph: each resolved, no two
      sharing a course name, and every course name of the pairs covered. Each is named
      after the first course name of its component in the key order of the course map, and
      the courses come in that order. */
  ghost predicate CoursesResolved(courses: seq<Course>, st: ReaderState) {
    var ct, kt, keys := CoursesToClasses(st.pairs), ClassesToCourses(st.pairs), CourseOrder(st.pairs);
    && EachResolved(courses, ct, kt, st.courseDetails)
    && ct.Keys <= Covered(ct, kt, courses)
    && Keyed(courses, keys, ct, kt, |keys|)
  }

  /** The first of `keys` that is in `s`, if any. */
  function FirstIn(keys: seq<string>, s: set<string>): (r: Option<string>)
    ensures r.Some? ==> r.value in keys && r.value in s
  {
    if |keys| == 0 then None else if keys[0] in s then Some(keys[0]) else FirstIn(keys[1..], s)
  }

  /** The position of the first occurrence of `n` in `keys`. */
  function IndexOf(keys: seq<string>, n: string): (r: nat)
    requires n in keys
    ensures r < |keys| && keys[r] == n
  {
    if keys[0] == n then 0 else 1 + IndexOf(keys[1..], n)
  }

  /** A position holding `n` after positions that do not is the position of `n`. */
  lemma {:induction false} IndexOfAt(keys: seq<string>, n: string, i: nat)
    requires i < |keys| && keys[i] == n && forall j :: 0 <= j < i ==> keys[j] != n
    ensures IndexOf(keys, n) == i
  {
    if i > 0 {
      assert forall j :: 0 <= j < i - 1 ==> keys[1..][j] == keys[j + 1];
      IndexOfAt(keys[1..], n, i - 1);
    }
  }

  /** The progress of the `forEach` of determineCourses after the keys before position
      `i`: the names done are those the courses cover, the keys so far are among them, each
      course is resolved, and the courses are named after first keys, in key order. */
  ghost predicate Progress(courses: seq<Course>, done: set<string>, keys: seq<string>, i: nat,
                           ct: map<string, seq<string>>, kt: map<string, seq<string>>,
                           details: map<string, CourseDetails>) {
    && done == Covered(ct, kt, courses)
    && (forall j :: 0 <= j < i && j < |keys| ==> keys[j] in done)
    && EachResolved(courses, ct, kt, details)
    && Keyed(courses, keys, ct, kt, i)
  }

  /** Each course is named after the first of `keys` in its component. */
  ghost predicate NamedFirst(courses: seq<Course>, keys: seq<string>,
                             ct: map<string, seq<string>>, kt: map<string, seq<string>>) {
    forall k :: 0 <= k < |courses| ==>
      FirstIn(keys, ComponentCourses(ct, kt, courses[k].name)) == Some(courses[k].name)
  }

  /** The courses' names are among `keys`, and the courses come in the order of `keys`. */
  ghost predicate InKeyOrder(courses: seq<Course>, keys: seq<string>) {
    && (forall k :: 0 <= k < |courses| ==> courses[k].name in keys)
    && forall k1, k2 :: 0 <= k1 < k2 < |courses| ==>
         IndexOf(keys, courses[k1].name) < IndexOf(keys, courses[k2].name)
  }

  /** The courses are named after first keys of their components, in key order, all before
      position `i` of `keys`: the last course is named by a key before `i`, and the others
      by keys before that one. */
  ghost predicate Keyed(courses: seq<Course>, keys: seq<string>,
                        ct: map<string, seq<string>>, kt: map<string, seq<string>>, i: nat)
    decreases |courses|
  {
    |courses| == 0 ||
      var last := courses[|courses| - 1].name;
      && last in keys && IndexOf(keys, last) < i
      && FirstIn(keys, ComponentCourses(ct, kt, last)) == Some(last)
      && Keyed(courses[..|courses| - 1], keys, ct, kt, IndexOf(keys, last))
  }




  /** Each course resolved, and no two sharing a course name. */
  ghost predicate EachResolved(courses: seq<Course>, ct: map<string, seq<string>>, kt: map<string, seq<string>>,
                               details: map<string, CourseDetails>) {
    && (forall k :: 0 <= k < |courses| ==> CourseResolved(courses[k], ct, kt, details))
    && (forall k1, k2 :: 0 <= k1 < k2 < |courses| ==>
          ComponentCourses(ct, kt, courses[k1].name) !! ComponentCourses(ct, kt, courses[k2].name))
  }

  /** Each class of a course points back at that course and is one of `classes`, and each
      of `classes` points at one of the courses. */
  ghost predicate OnCourses(classes: seq<AgeClass>, courses: seq<Course>)
    reads set a | a in classes
  {
    && (forall k, a :: 0 <= k < |courses| && a in courses[k].classes ==> a in classes && a.course == courses[k])
    && (forall a :: a in classes ==> a.course in courses)
  }

  /** The event built from a state: its classes made from the state's classes, its
      courses resolved against the state's pairs, each class of a course pointing back at
      that course, and every class on a course and not marked dubious. */
  ghost predicate EventBuilt(ev: Event, st: ReaderState)
    reads (set a | a in ev.classes), CompetitorObjects(ev.classes)
  {
    && ClassesMadeFrom(ev.classes, st.ageClasses)
    && CoursesResolved(ev.courses, st)
    && OnCourses(ev.classes, ev.courses)
    && (forall a :: a in ev.classes ==> !a.hasDubiousData)
  }

  // ---------------------------------------------------------------------------------
  // Lemmas the methods use

  lemma {:induction false} CoveredSpec(ct: map<string, seq<string>>, kt: map<string, seq<string>>,
                                       courses: seq<Course>)
    ensures forall k :: 0 <= k < |courses| ==>
      ComponentCourses(ct, kt, courses[k].name) <= Covered(ct, kt, courses)
      && ComponentClasses(ct, kt, courses[k].name) <= CoveredClasses(ct, kt, courses)
    decreases |courses|
  {
    if |courses| > 0 {
      CoveredSpec(ct, kt, courses[..|courses| - 1]);
    }
  }

  lemma {:induction false} CoveredMember(ct: map<string, seq<string>>, kt: map<string, seq<string>>,
                                         courses: seq<Course>, c: string)
    requires c in Covered(ct, kt, courses)
    ensures exists k :: 0 <= k < |courses| && c in ComponentCourses(ct, kt, courses[k].name)
    decreases |courses|
  {
    var init := courses[..|courses| - 1];
    if c !in ComponentCourses(ct, kt, courses[|courses| - 1].name) {
      CoveredMember(ct, kt, init, c);
      var k :| 0 <= k < |init| && c in ComponentCourses(ct, kt, init[k].name);
      assert courses[k] == init[k];
    }
  }

  /** Adding the course of a component not yet covered: the covered names grow by that
      component, which shares nothing with the components already covered. */
  lemma CoverNew(ct: map<string, seq<string>>, kt: map<string, seq<string>>, courses: seq<Course>,
                 course: Course)
    requires Linked(ct, kt) && course.name !in Covered(ct, kt, courses)
    ensures Covered(ct, kt, courses + [course]) == Covered(ct, kt, courses) + ComponentCourses(ct, kt, course.name)
    ensures forall k :: 0 <= k < |courses| ==>
      && ComponentCourses(ct, kt, courses[k].name) !! ComponentCourses(ct, kt, course.name)
      && ComponentClasses(ct, kt, courses[k].name) !! ComponentClasses(ct, kt, course.name)
  {
    assert (courses + [course])[..|courses|] == courses;
    CoveredSpec(ct, kt, courses);
    forall k | 0 <= k < |courses|
      ensures && ComponentCourses(ct, kt, courses[k].name) !! ComponentCourses(ct, kt, course.name)
              && ComponentClasses(ct, kt, courses[k].name) !! ComponentClasses(ct, kt, course.name)
    {
      ComponentsDisjoint(ct, kt, courses[k].name, course.name);
    }
  }

  /** Appending the course of a component not yet covered keeps the courses resolved and
      disjoint, grows the covered names by that component, and none of the classes of the
      courses before it is in its component. */
  lemma AppendResolved(ct: map<string, seq<string>>, kt: map<string, seq<string>>,
                       details: map<string, CourseDetails>, courses: seq<Course>, course: Course)
    requires Linked(ct, kt) && course.name !in Covered(ct, kt, courses)
    requires EachResolved(courses, ct, kt, details) && CourseResolved(course, ct, kt, details)
    ensures Covered(ct, kt, courses + [course]) == Covered(ct, kt, courses) + ComponentCourses(ct, kt, course.name)
    ensures EachResolved(courses + [course], ct, kt, details)
    ensures forall k, a :: 0 <= k < |courses| && a in courses[k].classes ==>
      a.name !in ComponentClasses(ct, kt, course.name)
  {
    CoverNew(ct, kt, courses, course);
    forall k, a | 0 <= k < |courses| && a in courses[k].classes
      ensures a.name !in ComponentClasses(ct, kt, course.name)
    {
      NameIn(courses[k].classes, a);
    }
  }

  /** A class of a sequence has its name among their names. */
  lemma NameIn(classes: seq<AgeClass>, a: AgeClass)
    requires a in classes
    ensures a.name in Names(classes)
  {
    var i :| 0 <= i < |classes| && classes[i] == a;
    assert Names(classes)[i] == a.name;
  }

  /** Classes whose names are distinct are told apart by name. */
  lemma SameName(classes: seq<AgeClass>, a: AgeClass, b: AgeClass)
    requires Distinct(Names(classes)) && a in classes && b in classes && a.name == b.name
    ensures a == b
  {
    var i :| 0 <= i < |classes| && classes[i] == a;
    var j :| 0 <= j < |classes| && classes[j] == b;
    assert Names(classes)[i] == Names(classes)[j];
  }

  /** In a valid state, each class name of the maps has an entry and each course name
      its details. */
  lemma PairKeys(st: ReaderState)
    requires Valid(st)
    ensures var ct, kt := CoursesToClasses(st.pairs), ClassesToCourses(st.pairs);
      && Linked(ct, kt)
      && (forall a :: a in kt ==> a in st.ageClasses) && (forall c :: c in ct ==> c in st.courseDetails)
  {
    var ct, kt := CoursesToClasses(st.pairs), ClassesToCourses(st.pairs);
    MapsSpec(st.pairs);
    forall a | a in kt
      ensures a in st.ageClasses
    {
      assert (a, kt[a][0]) in st.pairs;
    }
    forall c | c in ct
      ensures c in st.courseDetails
    {
      assert (ct[c][0], c) in st.pairs;
    }
  }

  /** What creating the courses needs of the pairs of a state and of the map of its
      classes by name: every course name in order is a course of the pairs with details,
      and every class name of the pairs names a class. */
  /** A key in `s` after only keys outside `s` is the first of `keys` in `s`. */
  lemma {:induction false} FirstInAt(keys: seq<string>, s: set<string>, i: nat)
    requires i < |keys| && keys[i] in s && forall j :: 0 <= j < i ==> keys[j] !in s
    ensures FirstIn(keys, s) == Some(keys[i])
  {
    if i > 0 {
      assert forall j :: 0 <= j < i - 1 ==> keys[1..][j] == keys[j + 1];
      FirstInAt(keys[1..], s, i - 1);
    }
  }

  /** A course name not yet covered, after only covered ones, is the first key of its
      component: a key of that component covered earlier would have covered it too. */
  lemma NewCourseFirst(ct: map<string, seq<string>>, kt: map<string, seq<string>>, keys: seq<string>,
                       i: nat, courses: seq<Course>)
    requires Linked(ct, kt) && i < |keys| && keys[i] in ct && keys[i] !in Covered(ct, kt, courses)
    requires forall j :: 0 <= j < i ==> keys[j] in Covered(ct, kt, courses)
    ensures FirstIn(keys, ComponentCourses(ct, kt, keys[i])) == Some(keys[i])
    ensures IndexOf(keys, keys[i]) == i
  {
    var c := keys[i];
    ComponentClosed(ct, kt, c);
    CoveredSpec(ct, kt, courses);
    forall j | 0 <= j < i
      ensures keys[j] !in ComponentCourses(ct, kt, c)
    {
      if keys[j] in ComponentCourses(ct, kt, c) {
        CoveredMember(ct, kt, courses, keys[j]);
        var k :| 0 <= k < |courses| && keys[j] in ComponentCourses(ct, kt, courses[k].name);
        ComponentOfMember(ct, kt, c, keys[j]);
        ComponentOfMember(ct, kt, courses[k].name, keys[j]);
      }
    }
    FirstInAt(keys, ComponentCourses(ct, kt, c), i);
    IndexOfAt(keys, c, i);
  }

  /** One step of the `forEach` of determineCourses keeps the courses named after first
      keys of their components, in key order, before the next key: either no course is
      added, or one named after key `i`, the first key of its component. */
  lemma KeyStep(ct: map<string, seq<string>>, kt: map<string, seq<string>>, keys: seq<string>, i: nat,
                courses: seq<Course>, courses2: seq<Course>)
    requires i < |keys| && Keyed(courses, keys, ct, kt, i)
    requires courses2 == courses ||
      (&& |courses2| == |courses| + 1 && courses2[..|courses|] == courses && courses2[|courses|].name == keys[i]
       && FirstIn(keys, ComponentCourses(ct, kt, keys[i])) == Some(keys[i]) && IndexOf(keys, keys[i]) == i)
    ensures Keyed(courses2, keys, ct, kt, i + 1)
  {
  }

  /** Keyed, stated outright: each course is named after the first of `keys` in its
      component, the courses come in the order of `keys`, and all are named by keys before
      position `i`. */
  lemma {:induction false} KeyedMeans(courses: seq<Course>, keys: seq<string>,
                                      ct: map<string, seq<string>>, kt: map<string, seq<string>>, i: nat)
    requires Keyed(courses, keys, ct, kt, i)
    ensures NamedFirst(courses, keys, ct, kt) && InKeyOrder(courses, keys)
    ensures forall k :: 0 <= k < |courses| ==> courses[k].name in keys && IndexOf(keys, courses[k].name) < i
    decreases |courses|
  {
    if |courses| > 0 {
      var n := |courses| - 1;
      var init := courses[..n];
      KeyedMeans(init, keys, ct, kt, IndexOf(keys, courses[n].name));
      assert forall k :: 0 <= k < n ==> courses[k] == init[k];
    }
  }

  /** Resolved courses, stated outright: each course is named after the first course name
      of its component in the key order of the course map, so it carries that course's
      details, and the courses come in that order. */
  lemma ResolvedCoursesNamedFirst(courses: seq<Course>, st: ReaderState)
    requires CoursesResolved(courses, st)
    ensures var ct, kt, keys := CoursesToClasses(st.pairs), ClassesToCourses(st.pairs), CourseOrder(st.pairs);
      && NamedFirst(courses, keys, ct, kt) && InKeyOrder(courses, keys)
      && forall k :: 0 <= k < |courses| ==>
           var d := st.courseDetails[courses[k].name];
           courses[k].length == d.length && courses[k].climb == d.climb && courses[k].controls == d.controls
  {
    var ct, kt, keys := CoursesToClasses(st.pairs), ClassesToCourses(st.pairs), CourseOrder(st.pairs);
    KeyedMeans(courses, keys, ct, kt, |keys|);
  }

  /** Appending the course of key `i`, not yet covered after keys that all are, keeps the
      courses named after first keys of their components, in key order, before the next
      key. */
  lemma AppendKeyed(ct: map<string, seq<string>>, kt: map<string, seq<string>>, keys: seq<string>, i: nat,
                    courses: seq<Course>, course: Course)
    requires Linked(ct, kt) && i < |keys| && keys[i] in ct && course.name == keys[i]
    requires keys[i] !in Covered(ct, kt, courses) && forall j :: 0 <= j < i ==> keys[j] in Covered(ct, kt, courses)
    requires Keyed(courses, keys, ct, kt, i)
    ensures Keyed(courses + [course], keys, ct, kt, i + 1)
  {
    NewCourseFirst(ct, kt, keys, i, courses);
    assert (courses + [course])[..|courses|] == courses;
    KeyStep(ct, kt, keys, i, courses, courses + [course]);
  }

  lemma CoursesReady(st: ReaderState, classes: seq<AgeClass>, classesMap: map<string, AgeClass>,
                     ct: map<string, seq<string>>, kt: map<string, seq<string>>, keys: seq<string>)
    requires ct == CoursesToClasses(st.pairs) && kt == ClassesToCourses(st.pairs) && keys == CourseOrder(st.pairs)
    requires (forall c :: c in ct ==> c in st.courseDetails) && (forall a :: a in kt ==> a in Names(classes))
    requires forall n :: n in classesMap <==> n in Names(classes)
    requires forall n :: n in classesMap ==> classesMap[n].name == n
    ensures forall c :: c in keys ==> c in ct && c in st.courseDetails
    ensures forall a :: a in kt ==> a in classesMap && classesMap[a].name == a
  {
    KeyOrderSpec(Swap(st.pairs));
  }

  /** A class name of a valid state is among the classes of one of the courses that cover
      its course names. */
  lemma ClassInComponent(st: ReaderState, courses: seq<Course>, n: string) returns (k: nat)
    requires Valid(st) && n in st.ageClasses && CoursesResolved(courses, st)
    ensures k < |courses| && n in Names(courses[k].classes)
  {
    var ct, kt := CoursesToClasses(st.pairs), ClassesToCourses(st.pairs);
    MapsSpec(st.pairs);
    ClassNamesMember(st.pairs, n);
    var c :| (n, c) in st.pairs;
    CoveredMember(ct, kt, courses, c);
    k :| 0 <= k < |courses| && c in ComponentCourses(ct, kt, courses[k].name);
    ComponentClosed(ct, kt, courses[k].name);
  }

  /** A class named among the classes of a course that links back from its classes points
      at that course, when class names are distinct. */
  lemma LinkedBack(classes: seq<AgeClass>, course: Course, a: AgeClass)
    requires Distinct(Names(classes)) && a in classes && a.name in Names(course.classes)
    requires forall b :: b in course.classes ==> b in classes && b.course == course
    ensures a.course == course
  {
    var j :| 0 <= j < |course.classes| && Names(course.classes)[j] == a.name;
    var b := course.classes[j];
    SameName(classes, a, b);
  }

  /** Courses, each resolved and no two sharing a course name, that cover every course name
      of the pairs are resolved against the state. */
  lemma CoursesCover(st: ReaderState, courses: seq<Course>, ct: map<string, seq<string>>,
                     kt: map<string, seq<string>>, keys: seq<string>)
    requires ct == CoursesToClasses(st.pairs) && kt == ClassesToCourses(st.pairs) && keys == CourseOrder(st.pairs)
    requires EachResolved(courses, ct, kt, st.courseDetails)
    requires forall j :: 0 <= j < |keys| ==> keys[j] in Covered(ct, kt, courses)
    requires Keyed(courses, keys, ct, kt, |keys|)
    ensures CoursesResolved(courses, st)
  {
    KeyOrderSpec(Swap(st.pairs));
    forall c | c in ct
      ensures c in Covered(ct, kt, courses)
    {
      var j :| 0 <= j < |keys| && keys[j] == c;
    }
  }

  /** Once the courses are resolved against the state and link back from their classes,
      every class, each of which has a pair, is on one of them. */
  lemma EveryClassOnCourse(st: ReaderState, classes: seq<AgeClass>, courses: seq<Course>)
    requires Valid(st) && Distinct(Names(classes))
    requires forall n :: n in Names(classes) <==> n in st.ageClasses
    requires CoursesResolved(courses, st)
    requires forall k, a :: 0 <= k < |courses| && a in courses[k].classes ==> a in classes && a.course == courses[k]
    ensures OnCourses(classes, courses)
  {
    forall a | a in classes
      ensures a.course in courses
    {
      NameIn(classes, a);
      var k := ClassInComponent(st, courses, a.name);
      LinkedBack(classes, courses[k], a);
    }
  }

  lemma SortedDistinct(s: seq<string>)
    requires StrictlySorted(s)
    ensures Distinct(s)
  {
    forall i, j | 0 <= i < j < |s|
      ensures s[i] != s[j]
    {
      if s[i] == s[j] {
        StrLessIrreflexive(s[i]);
      }
    }
  }

  lemma {:induction false} ClassNamesMember(pairs: seq<(string, string)>, n: string)
    requires n in ClassNames(pairs)
    ensures exists c :: (n, c) in pairs
    decreases |pairs|
  {
    var init, last := pairs[..|pairs| - 1], pairs[|pairs| - 1];
    if n == last.0 {
      assert (n, last.1) in pairs;
    } else {
      ClassNamesMember(init, n);
      var c :| (n, c) in init;
      assert (n, c) in pairs;
    }
  }

  lemma GroupSnoc(ps: seq<(string, string)>, p: (string, string))
    ensures p.0 in Group(ps) ==> Group(ps + [p]) == Group(ps)[p.0 := Group(ps)[p.0] + [p.1]]
    ensures p.0 !in Group(ps) ==> Group(ps + [p]) == Group(ps)[p.0 := [p.1]]
    ensures KeyOrder(ps + [p]) == if p.0 in KeyOrder(ps) then KeyOrder(ps) else KeyOrder(ps) + [p.0]
  {
    assert (ps + [p])[..|ps|] == ps;
    assert [] + [p.1] == [p.1];
  }

  lemma SwapSnoc(ps: seq<(string, string)>, p: (string, string))
    ensures Swap(ps + [p]) == Swap(ps) + [(p.1, p.0)]
  {
  }

  /** Adds each of `names` to the set `done` (a `forEach` of `add`). */
  method AddAll(done: set<string>, names: seq<string>) returns (r: set<string>)
    ensures forall c :: c in r <==> c in done || c in names
  {
    r := done;
    for i := 0 to |names|
      invariant forall c :: c in r <==> c in done || c in names[..i]
    {
      assert names[..i + 1] == names[..i] + [names[i]];
      r := r + {names[i]};
    }
    assert names[..|names|] == names;
  }

  /** The names of a set, sorted: `keys()` followed by `sort()`. */
  method SortNames(keys: set<string>) returns (names: seq<string>)
    ensures StrictlySorted(names) && forall n :: n in names <==> n in keys
  {
    names := [];
    var remaining := keys;
    while remaining != {}
      invariant remaining <= keys
      invariant StrictlySorted(names)
      invariant forall n :: n in names <==> n in keys && n !in remaining
      decreases |remaining|
    {
      var n :| n in remaining;
      names := Insert(names, n);
      remaining := remaining - {n};
    }
  }

  /** Makes the competitor objects of a class from its records. */
  method MakeCompetitors(recs: seq<CompetitorRecord>) returns (cs: seq<Competitor>)
    ensures |cs| == |recs|
    ensures forall i :: 0 <= i < |cs| ==> fresh(cs[i]) && MadeFrom(cs[i], recs[i])
  {
    cs := [];
    for i := 0 to |recs|
      invariant |cs| == i
      invariant forall j :: 0 <= j < i ==> fresh(cs[j]) && MadeFrom(cs[j], recs[j])
    {
      var rec := recs[i];
      var c := new Competitor(rec.order, rec.name, rec.club, rec.startTime, rec.cumTimes, rec.completed);
      if rec.nonCompetitive {
        c.isNonCompetitive := true;
      }
      cs := cs + [c];
    }
  }

  /** The classes by name (`classesMap` of determineCourses). */
  method MapOfClasses(classes: seq<AgeClass>) returns (m: map<string, AgeClass>)
    ensures forall n :: n in m <==> n in Names(classes)
    ensures forall n :: n in m ==> m[n].name == n
    ensures forall a :: a in m.Values ==> a in classes
  {
    m := map[];
    for i := 0 to |classes|
      invariant forall n :: n in m <==> n in Names(classes)[..i]
      invariant forall n :: n in m ==> m[n].name == n && m[n] in classes
    {
      assert Names(classes)[..i + 1] == Names(classes)[..i] + [classes[i].name];
      m := m[classes[i].name := classes[i]];
    }
    assert Names(classes)[..|classes|] == Names(classes);
    forall a | a in m.Values
      ensures a in classes
    {
      var n :| n in m && m[n] == a;
    }
  }

  /** Makes the age class of an entry, with its competitor objects. */
  method MakeAgeClass(name: string, entry: ClassEntry) returns (a: AgeClass)
    ensures fresh(a) && a.name == name && a.course == null && !a.hasDubiousData
    ensures a.numControls == entry.numControls && |a.competitors| == |entry.competitors|
    ensures forall k :: 0 <= k < |a.competitors| ==> fresh(a.competitors[k]) && MadeFrom(a.competitors[k], entry.competitors[k])
  {
    var competitors := MakeCompetitors(entry.competitors);
    a := new AgeClass(name, entry.numControls, competitors);
  }

  /** The loop of createAgeClasses: a new age class for each of `classNames`, in order, made
      from its entry. */
  method MakeAgeClasses(classNames: seq<string>, entries: map<string, ClassEntry>) returns (classes: seq<AgeClass>)
    requires forall j :: 0 <= j < |classNames| ==> classNames[j] in entries
    ensures |classes| == |classNames|
    ensures forall j :: 0 <= j < |classes| ==> classes[j].name == classNames[j]
    ensures forall j :: 0 <= j < |classes| ==>
      classes[j].numControls == entries[classNames[j]].numControls &&
      |classes[j].competitors| == |entries[classNames[j]].competitors|
    ensures forall j, k :: 0 <= j < |classes| && 0 <= k < |classes[j].competitors| ==>
      MadeFrom(classes[j].competitors[k], entries[classNames[j]].competitors[k])
    ensures forall j :: 0 <= j < |classes| ==>
      fresh(classes[j]) && classes[j].course == null && !classes[j].hasDubiousData
    ensures forall j, k :: 0 <= j < |classes| && 0 <= k < |classes[j].competitors| ==> fresh(classes[j].competitors[k])
  {
    classes := [];
    for i := 0 to |classNames|
      invariant |classes| == i
      invariant forall j :: 0 <= j < i ==> classes[j].name == classNames[j]
      invariant forall j :: 0 <= j < i ==>
        classes[j].numControls == entries[classNames[j]].numControls &&
        |classes[j].competitors| == |entries[classNames[j]].competitors|
      invariant forall j, k :: 0 <= j < i && 0 <= k < |classes[j].competitors| ==>
        MadeFrom(classes[j].competitors[k], entries[classNames[j]].competitors[k])
      invariant forall j :: 0 <= j < i ==>
        fresh(classes[j]) && classes[j].course == null && !classes[j].hasDubiousData
      invariant forall j, k :: 0 <= j < i && 0 <= k < |classes[j].competitors| ==> fresh(classes[j].competitors[k])
    {
      var ageClass := MakeAgeClass(classNames[i], entries[classNames[i]]);
      classes := classes + [ageClass];
    }
  }

  /** Points each of `classes` at `course` (a `forEach` of `setCourse`). */
  method SetCourses(classes: seq<AgeClass>, course: Course)
    modifies set a | a in classes :: a`course
    ensures forall a :: a in classes ==> a.course == course
  {
    for i := 0 to |classes|
      invariant forall j :: 0 <= j < i ==> classes[j].course == course
    {
      assert classes[i] in classes;
      classes[i].course := course;
    }
  }

  class Reader {
    const data: string
    const helpers: Helpers
    var lines: seq<string>
    var ageClasses: map<string, ClassEntry>
    var courseDetails: map<string, CourseDetails>
    var classCoursePairs: seq<(string, string)>
    var anyCompetitors: bool
    var columnIndexes: Option<ColumnIndexes>

    /** The accumulated state, as a value. */
    function State(): ReaderState
      reads this
    {
      ReaderState(ageClasses, courseDetails, classCoursePairs, anyCompetitors)
    }

    constructor (data: string, helpers: Helpers)
      ensures this.data == data && this.helpers == helpers
      ensures lines == [] && State() == Initial && columnIndexes == None
    {
      this.data := data;
      this.helpers := helpers;
      lines := [];
      ageClasses := map[];
      courseDetails := map[];
      classCoursePairs := [];
      anyCompetitors := false;
      columnIndexes := None;
    }

    method IdentifyDelimiter() returns (r: Result<char>)
      ensures r == Delimiter(lines)
    {
      if |lines| <= 1 {
        return Failure(WrongFileFormat);
      }
      var firstDataLine := lines[1];
      var i := 0;
      while i < |Delimiters|
        invariant 0 <= i <= |Delimiters|
        invariant DelimiterFrom(firstDataLine, Delimiters[i..]) == DelimiterFrom(firstDataLine, Delimiters)
      {
        var delimiter := Delimiters[i];
        if |Split(firstDataLine, delimiter)| > MinControlsOffset {
          return Success(delimiter);
        }
        i := i + 1;
      }
      return Failure(WrongFileFormat);
    }

    method IdentifyFormatVariation(delimiter: char) returns (o: Outcome)
      requires |lines| > 1
      modifies this`columnIndexes
      ensures var f := FormatVariation(Split(lines[1], delimiter));
        && (f.Success? ==> o == Pass && columnIndexes == Some(f.value))
        && (f.Failure? ==> o == Fail(f.error) && columnIndexes == old(columnIndexes))
    {
      var firstLine := Split(lines[1], delimiter);
      var endPos: int := SkipTrailingBlanks(firstLine);
      var controlCodeColumn: int;
      if ControlCodeAt(firstLine, endPos - 1) {
        controlCodeColumn := endPos - 1;
      } else if ControlCodeAt(firstLine, endPos) {
        controlCodeColumn := endPos;
      } else {
        assert FirstControlColumn(firstLine) == Failure(WrongFileFormat);
        return Fail(WrongFileFormat);
      }
      assert controlCodeColumn == LastControlColumn(firstLine);
      controlCodeColumn := StepBackToFirstControl(firstLine, controlCodeColumn);
      assert FirstControlColumn(firstLine) == Success(controlCodeColumn);
      var indexes := ColumnIndexesFor(controlCodeColumn);
      if indexes.None? {
        assert FormatVariation(firstLine) == Failure(WrongFileFormat);
        return Fail(WrongFileFormat);
      }
      assert FormatVariation(firstLine) == Success(indexes.value);
      columnIndexes := indexes;
      return Pass;
    }

    /** The first loop of identifyFormatVariation: ignores trailing blank fields. */
    static method SkipTrailingBlanks(firstLine: seq<string>) returns (endPos: nat)
      requires |firstLine| > 0
      ensures endPos == EndPosition(firstLine, |firstLine| - 1)
    {
      endPos := |firstLine| - 1;
      while endPos > 0 && Trim(firstLine[endPos]) == ""
        invariant 0 <= endPos < |firstLine|
        invariant EndPosition(firstLine, endPos) == EndPosition(firstLine, |firstLine| - 1)
      {
        endPos := endPos - 1;
      }
    }

    /** The second loop of identifyFormatVariation: steps back over earlier control codes. */
    static method StepBackToFirstControl(firstLine: seq<string>, last: int) returns (controlCodeColumn: int)
      ensures controlCodeColumn == StepBack(firstLine, last)
    {
      controlCodeColumn := last;
      while controlCodeColumn >= 2 && ControlCodeAt(firstLine, controlCodeColumn - 2)
        invariant StepBack(firstLine, controlCodeColumn) == StepBack(firstLine, last)
        decreases controlCodeColumn
      {
        controlCodeColumn := controlCodeColumn - 2;
      }
    }

    method ReadCumulativeTimes(row: seq<string>, numControls: Option<int>) returns (cumTimes: seq<Time>)
      requires columnIndexes.Some?
      ensures cumTimes == CumulativeTimes(helpers, columnIndexes.value, row, ControlCount(numControls))
    {
      var ci := columnIndexes.value;
      cumTimes := [Num(0)];
      var controlIdx := 0;
      while numControls.Some? && controlIdx < numControls.value
        invariant 0 <= controlIdx <= ControlCount(numControls)
        invariant cumTimes == [Num(0)] + seq(controlIdx, i requires 0 <= i < controlIdx => ControlTime(helpers, ci, row, i))
      {
        var cellIndex := ci.control1 + 1 + 2 * controlIdx;
        var cumTime := if cellIndex < |row| then ToTime(helpers.parseTime(row[cellIndex])) else Missing;
        cumTimes := cumTimes + [cumTime];
        controlIdx := controlIdx + 1;
      }
      var totalTime := helpers.parseTime(Cell(row, ci.time));
      var total := if totalTime.Some? then Num(totalTime.value) else Missing;
      if totalTime.None? {
        var startTime := StartTime(helpers, ci, row);
        var finishTime := helpers.parseTime(Cell(row, ci.finish));
        if startTime.Some? && finishTime.Some? {
          total := Num(finishTime.value - startTime.value);
        }
      }
      cumTimes := cumTimes + [total];
    }

    method CreateAgeClassIfNecessary(row: seq<string>, numControls: Option<int>)
      requires columnIndexes.Some?
      modifies this`ageClasses
      ensures ageClasses == WithClass(old(ageClasses), AgeClassName(columnIndexes.value, row), numControls)
    {
      var className := AgeClassName(columnIndexes.value, row);
      if className !in ageClasses {
        ageClasses := ageClasses[className := ClassEntry(numControls, [])];
      }
    }

    method CreateCourseIfNecessary(row: seq<string>, numControls: Option<int>)
      requires columnIndexes.Some?
      modifies this`courseDetails
      ensures var ci := columnIndexes.value;
        courseDetails == WithCourse(old(courseDetails), CourseName(ci, row),
                                    CourseDetailsOf(helpers, ci, row, ControlCount(numControls)))
    {
      var ci := columnIndexes.value;
      var courseName := CourseName(ci, row);
      if courseName !in courseDetails {
        var n := ControlCount(numControls);
        var controlNums := seq(n, i requires 0 <= i < n => Cell(row, ci.control1 + 2 * i));
        assert controlNums == CourseDetailsOf(helpers, ci, row, n).controls;
        courseDetails := courseDetails[courseName := CourseDetails(
          helpers.parseCourseLength(Cell(row, ci.distance)), helpers.parseCourseClimb(Cell(row, ci.climb)),
          controlNums)];
      }
    }

    method CreateClassCoursePairIfNecessary(row: seq<string>)
      requires columnIndexes.Some?
      modifies this`classCoursePairs
      ensures var ci := columnIndexes.value;
        classCoursePairs == WithPair(old(classCoursePairs), (AgeClassName(ci, row), CourseName(ci, row)))
    {
      var ci := columnIndexes.value;
      var className := AgeClassName(ci, row);
      var courseName := CourseName(ci, row);
      if (className, courseName) !in classCoursePairs {
        classCoursePairs := classCoursePairs + [(className, courseName)];
      }
    }

    /** addCompetitor: appends the competitor read from the row to its class, numbered one
        more than the competitors of the class so far; raises the TypeError, changing
        nothing, when the row has a forename and surname but no placing column. */
    method AddCompetitor(row: seq<string>, cumTimes: seq<Time>) returns (o: Outcome)
      requires columnIndexes.Some? && AgeClassName(columnIndexes.value, row) in ageClasses
      modifies this`ageClasses
      ensures var ci := columnIndexes.value;
        && (o.Fail? <==> PlacingUndefined(ci, row))
        && (o.Fail? ==> o.error == TypeError && ageClasses == old(ageClasses))
      ensures var ci := columnIndexes.value;
        var name := AgeClassName(ci, row);
        var entry := old(ageClasses)[name];
        o.Pass? ==>
          ageClasses == old(ageClasses)[name := entry.(competitors := entry.competitors +
                                          [CompetitorOf(helpers, ci, row, |entry.competitors| + 1, cumTimes)])]
    {
      var ci := columnIndexes.value;
      var className := AgeClassName(ci, row);
      var entry := ageClasses[className];
      var competitor := ReadCompetitor(helpers, ci, row, |entry.competitors| + 1, cumTimes);
      if competitor.Failure? {
        return Fail(competitor.error);
      }
      ageClasses := ageClasses[className := entry.(competitors := entry.competitors + [competitor.value])];
      return Pass;
    }

    /** The competitor addCompetitor builds from a row: its placing, club (falling back to
        the second club column when blank), start time, name and cumulative times. */
    static method ReadCompetitor(helpers: Helpers, ci: ColumnIndexes, row: seq<string>, order: nat,
                                 cumTimes: seq<Time>)
      returns (r: Result<CompetitorRecord>)
      ensures r.Failure? <==> PlacingUndefined(ci, row)
      ensures r.Failure? ==> r.error == TypeError
      ensures r.Success? ==> r.value == CompetitorOf(helpers, ci, row, order, cumTimes)
    {
      var placing := Cell(row, ci.placing);
      var club := Cell(row, ci.club);
      if BlankCell(row, ci.club) && ci.clubFallback.Some? {
        club := Cell(row, ci.clubFallback.value);
      }
      var startTime := StartTime(helpers, ci, row);
      var isPlacingNonNumeric := !BlankCell(row, ci.placing) && ParseInt(placing).None?;
      var name :- ReadName(ci, row, placing, isPlacingNonNumeric);
      var completed := helpers.completed(cumTimes);
      r := Success(CompetitorRecord(order, name, club, startTime, cumTimes, completed,
                                    isPlacingNonNumeric && completed));
      assert club == Club(ci, row);
    }

    /** The name part of addCompetitor: forename and surname, with a non-numeric placing
        stripped from the end of the surname, else the combined name. Taking the length of
        a placing past the end of the row is the TypeError. */
    static method ReadName(ci: ColumnIndexes, row: seq<string>, placing: string, isPlacingNonNumeric: bool)
      returns (r: Result<string>)
      requires placing == Cell(row, ci.placing) && isPlacingNonNumeric == PlacingNonNumeric(ci, row)
      ensures r.Failure? <==> PlacingUndefined(ci, row)
      ensures r.Failure? ==> r.error == TypeError
      ensures r.Success? ==> r.value == CompetitorName(ci, row)
    {
      var name := "";
      if ci.forename.Some? && ci.surname.Some? {
        var forename := Cell(row, ci.forename.value);
        var surname := Cell(row, ci.surname.value);
        if isPlacingNonNumeric && ci.placing >= |row| {
          return Failure(TypeError);
        }
        if isPlacingNonNumeric && Substring(surname, |surname| - |placing|, |surname|) == placing {
          surname := Trim(Substring(surname, 0, |surname| - |placing|));
        }
        name := Trim(forename + " " + surname);
      }
      if name == "" && ci.combinedName.Some? {
        name := Cell(row, ci.combinedName.value);
      }
      return Success(name);
    }

    method ReadLine(line: string, delimiter: char) returns (o: Outcome)
      requires columnIndexes.Some?
      modifies this`ageClasses, this`courseDetails, this`classCoursePairs, this`anyCompetitors
      ensures var r := SiState.ReadLine(helpers, columnIndexes.value, delimiter, old(State()), line);
        && (r.Success? ==> o == Pass && State() == r.value)
        && (r.Failure? ==> o == Fail(r.error))
        && (r.Failure? && r.error == InvalidData ==> State() == old(State()))
        && (r.Failure? && r.error == TypeError ==>
              State() == Thrown(helpers, columnIndexes.value, delimiter, old(State()), line))
    {
      if Trim(line) == "" {
        return Pass;
      }
      var ci := columnIndexes.value;
      var row := ParseRow(line, delimiter);
      if |row| < MinControlsOffset {
        return Fail(InvalidData);
      }
      var numControlsRead := NumControls(ageClasses, ci, row);
      if numControlsRead.Failure? {
        return Fail(numControlsRead.error);
      }
      var numControls := numControlsRead.value;
      ghost var st := State();
      ghost var name, course := AgeClassName(ci, row), CourseName(ci, row);
      var cumTimes := ReadCumulativeTimes(row, numControls);
      anyCompetitors := true;
      CreateAgeClassIfNecessary(row, numControls);
      CreateCourseIfNecessary(row, numControls);
      CreateClassCoursePairIfNecessary(row);
      assert |ageClasses[name].competitors| + 1 == NextOrder(st, name);
      o := AddCompetitor(row, cumTimes);
    }

    method GetMapsBetweenClassesAndCourses()
      returns (classesToCourses: map<string, seq<string>>, coursesToClasses: map<string, seq<string>>,
               courseKeys: seq<string>)
      ensures classesToCourses == ClassesToCourses(classCoursePairs)
      ensures coursesToClasses == CoursesToClasses(classCoursePairs)
      ensures courseKeys == CourseOrder(classCoursePairs)
    {
      var pairs := classCoursePairs;
      classesToCourses, coursesToClasses, courseKeys := map[], map[], [];
      for i := 0 to |pairs|
        invariant classesToCourses == Group(pairs[..i])
        invariant coursesToClasses == Group(Swap(pairs[..i]))
        invariant courseKeys == KeyOrder(Swap(pairs[..i]))
      {
        var className, courseName := pairs[i].0, pairs[i].1;
        assert pairs[..i + 1] == pairs[..i] + [(className, courseName)];
        SwapSnoc(pairs[..i], (className, courseName));
        GroupSnoc(pairs[..i], (className, courseName));
        GroupSnoc(Swap(pairs[..i]), (courseName, className));
        KeyOrderSpec(Swap(pairs[..i]));
        if className in classesToCourses {
          classesToCourses := classesToCourses[className := classesToCourses[className] + [courseName]];
        } else {
          classesToCourses := classesToCourses[className := [courseName]];
        }
        if courseName in coursesToClasses {
          coursesToClasses := coursesToClasses[courseName := coursesToClasses[courseName] + [className]];
        } else {
          coursesToClasses := coursesToClasses[courseName := [className]];
          courseKeys := courseKeys + [courseName];
        }
      }
      assert pairs[..|pairs|] == pairs;
    }

    /** createAgeClasses: one age class for each class name read, in name order, holding
        new competitors made from the records read. */
    method CreateAgeClasses() returns (classes: seq<AgeClass>)
      ensures ClassesMadeFrom(classes, ageClasses)
      ensures forall a :: a in classes ==> fresh(a) && a.course == null && !a.hasDubiousData
      ensures forall j, k :: 0 <= j < |classes| && 0 <= k < |classes[j].competitors| ==> fresh(classes[j].competitors[k])
    {
      var classNames := SortNames(ageClasses.Keys);
      classes := MakeAgeClasses(classNames, ageClasses);
      assert Names(classes) == classNames;
    }

    method CreateCourseFromLinkedClassesAndCourses(
      initCourseName: string, coursesToClasses: map<string, seq<string>>,
      classesToCourses: map<string, seq<string>>, doneCourseNames: set<string>,
      classesMap: map<string, AgeClass>)
      returns (course: Course, done: set<string>)
      requires Linked(coursesToClasses, classesToCourses) && initCourseName in coursesToClasses
      requires initCourseName in courseDetails
      requires forall a :: a in classesToCourses ==> a in classesMap && classesMap[a].name == a
      modifies set a | a in classesMap.Values :: a`course
      ensures var ct, kt := coursesToClasses, classesToCourses;
        && done == doneCourseNames + ComponentCourses(ct, kt, initCourseName)
        && course.name == initCourseName && CourseResolved(course, ct, kt, courseDetails)
        && (forall a :: a in course.classes ==> a in classesMap.Values && a.course == course)
        && (forall a :: a in classesMap.Values && a.name !in ComponentClasses(ct, kt, initCourseName) ==>
              a.course == old(a.course))
      ensures fresh(course)
    {
      ghost var ct, kt := coursesToClasses, classesToCourses;
      var relatedCourseNames, relatedClassNames := LinkedNames(initCourseName, coursesToClasses, classesToCourses);
      done := AddAll(doneCourseNames, relatedCourseNames);
      forall i | 0 <= i < |relatedClassNames|
        ensures relatedClassNames[i] in classesToCourses
      {
        assert relatedClassNames[i] in relatedClassNames;
      }
      var courseClasses := seq(|relatedClassNames|, i requires 0 <= i < |relatedClassNames| =>
                                 classesMap[relatedClassNames[i]]);
      assert Names(courseClasses) == relatedClassNames;
      assert forall i :: 0 <= i < |courseClasses| ==> courseClasses[i] in classesMap.Values;
      var details := courseDetails[initCourseName];
      course := new Course(initCourseName, courseClasses, details.length, details.climb, details.controls);
      SetCourses(courseClasses, course);
    }

    /** The body of the `forEach` of determineCourses: a course name not yet done starts a
        new course, made from its component; the courses so far stay resolved, disjoint and
        linked back from their classes. */
    method VisitCourse(courseName: string, coursesToClasses: map<string, seq<string>>,
                       classesToCourses: map<string, seq<string>>, doneCourseNames: set<string>,
                       classesMap: map<string, AgeClass>, courses: seq<Course>, ghost classes: seq<AgeClass>,
                       ghost keys: seq<string>, ghost i: nat)
      returns (courses2: seq<Course>, done2: set<string>)
      requires Linked(coursesToClasses, classesToCourses) && courseName in coursesToClasses
      requires i < |keys| && keys[i] == courseName
      requires Progress(courses, doneCourseNames, keys, i, coursesToClasses, classesToCourses, courseDetails)
      requires courseName in courseDetails
      requires forall a :: a in classesToCourses ==> a in classesMap && classesMap[a].name == a
      requires forall a :: a in classesMap.Values ==> a in classes
      requires forall k, a :: 0 <= k < |courses| && a in courses[k].classes ==> a in classes && a.course == courses[k]
      modifies set a | a in classesMap.Values :: a`course
      ensures Progress(courses2, done2, keys, i + 1, coursesToClasses, classesToCourses, courseDetails)
      ensures forall k, a :: 0 <= k < |courses2| && a in courses2[k].classes ==> a in classes && a.course == courses2[k]
      ensures courseName in doneCourseNames ==> courses2 == courses && done2 == doneCourseNames
      ensures courseName !in doneCourseNames ==>
        |courses2| == |courses| + 1 && courses2 == courses + [courses2[|courses|]] && courses2[|courses|].name == courseName
    {
      ghost var ct, kt := coursesToClasses, classesToCourses;
      ComponentClosed(ct, kt, courseName);
      if courseName in doneCourseNames {
        KeyStep(ct, kt, keys, i, courses, courses);
        return courses, doneCourseNames;
      }
      var course;
      course, done2 := CreateCourseFromLinkedClassesAndCourses(
        courseName, coursesToClasses, classesToCourses, doneCourseNames, classesMap);
      AppendResolved(ct, kt, courseDetails, courses, course);
      courses2 := courses + [course];
      AppendKeyed(ct, kt, keys, i, courses, course);
    }

    /** The `forEach` over the course names of determineCourses: one course for each
        component of the class-course graph, in the order of the course names given. */
    method CreateCourses(courseKeys: seq<string>, coursesToClasses: map<string, seq<string>>,
                         classesToCourses: map<string, seq<string>>, classesMap: map<string, AgeClass>,
                         ghost classes: seq<AgeClass>)
      returns (courses: seq<Course>)
      requires Linked(coursesToClasses, classesToCourses)
      requires forall c :: c in courseKeys ==> c in coursesToClasses && c in courseDetails
      requires forall a :: a in classesToCourses ==> a in classesMap && classesMap[a].name == a
      requires forall a :: a in classesMap.Values ==> a in classes
      modifies set a | a in classesMap.Values :: a`course
      ensures var ct, kt := coursesToClasses, classesToCourses;
        && (forall j :: 0 <= j < |courseKeys| ==> courseKeys[j] in Covered(ct, kt, courses))
        && EachResolved(courses, ct, kt, courseDetails)
        && (forall k, a :: 0 <= k < |courses| && a in courses[k].classes ==> a in classes && a.course == courses[k])
        && Keyed(courses, courseKeys, ct, kt, |courseKeys|)
    {
      ghost var ct, kt := coursesToClasses, classesToCourses;
      var doneCourseNames: set<string> := {};
      courses := [];
      for i := 0 to |courseKeys|
        invariant Progress(courses, doneCourseNames, courseKeys, i, ct, kt, courseDetails)
        invariant forall k, a :: 0 <= k < |courses| && a in courses[k].classes ==>
          a in classes && a.course == courses[k]
      {
        courses, doneCourseNames := VisitCourse(courseKeys[i], coursesToClasses, classesToCourses,
                                                doneCourseNames, classesMap, courses, classes, courseKeys, i);
      }
    }

    method DetermineCourses(classes: seq<AgeClass>) returns (courses: seq<Course>)
      requires Valid(State()) && Distinct(Names(classes))
      requires forall n :: n in Names(classes) <==> n in ageClasses
      modifies set a | a in classes :: a`course
      ensures CoursesResolved(courses, State()) && OnCourses(classes, courses)
    {
      PairKeys(State());
      courses := ResolveCourses(classes);
      EveryClassOnCourse(State(), classes, courses);
    }

    /** The courses of determineCourses, resolved against the state, each of their classes
        one of `classes` and pointing back at its course. */
    method ResolveCourses(classes: seq<AgeClass>) returns (courses: seq<Course>)
      requires var ct, kt := CoursesToClasses(classCoursePairs), ClassesToCourses(classCoursePairs);
        && Linked(ct, kt) && (forall c :: c in ct ==> c in courseDetails)
        && (forall a :: a in kt ==> a in Names(classes))
      modifies set a | a in classes :: a`course
      ensures CoursesResolved(courses, State())
      ensures forall k, a :: 0 <= k < |courses| && a in courses[k].classes ==> a in classes && a.course == courses[k]
    {
      ghost var st := State();
      var classesToCourses, coursesToClasses, courseKeys := GetMapsBetweenClassesAndCourses();
      var classesMap := MapOfClasses(classes);
      CoursesReady(st, classes, classesMap, coursesToClasses, classesToCourses, courseKeys);
      courses := CreateCourses(courseKeys, coursesToClasses, classesToCourses, classesMap, classes);
      CoursesCover(st, courses, coursesToClasses, classesToCourses, courseKeys);
    }

    /** The `forEach` of parseEventData over the lines after the header: reads each line in
        turn, stopping at the first that fails. */
    method ReadLines(delimiter: char) returns (o: Outcome)
      requires columnIndexes.Some?
      modifies this`ageClasses, this`courseDetails, this`classCoursePairs, this`anyCompetitors
      ensures var spec := SiState.ReadLines(helpers, columnIndexes.value, delimiter, old(State()), lines);
        && (spec.Success? ==> o == Pass && State() == spec.value)
        && (spec.Failure? ==> o == Fail(spec.error))
    {
      ghost var st := State();
      var ci := columnIndexes.value;
      var rest := lines;
      for i := 0 to |rest|
        invariant columnIndexes == Some(ci)
        invariant SiState.ReadLines(helpers, ci, delimiter, st, rest[..i]) == Success(State())
      {
        o := ReadNextLine(rest, i, delimiter, st);
        if o.Fail? {
          return;
        }
      }
      assert rest[..|rest|] == rest;
      return Pass;
    }

    /** One step of the `forEach`: reads line `i` after lines before it were read from
        `st`; a failure is the failure of reading all the lines. */
    method ReadNextLine(rest: seq<string>, i: nat, delimiter: char, ghost st: ReaderState) returns (o: Outcome)
      requires i < |rest| && columnIndexes.Some?
      requires SiState.ReadLines(helpers, columnIndexes.value, delimiter, st, rest[..i]) == Success(State())
      modifies this`ageClasses, this`courseDetails, this`classCoursePairs, this`anyCompetitors
      ensures var ci := columnIndexes.value;
        && (o.Pass? ==> SiState.ReadLines(helpers, ci, delimiter, st, rest[..i + 1]) == Success(State()))
        && (o.Fail? ==> SiState.ReadLines(helpers, ci, delimiter, st, rest) == Failure(o.error))
    {
      var ci := columnIndexes.value;
      ReadLinesSnoc(helpers, ci, delimiter, st, rest[..i], rest[i]);
      assert rest[..i + 1] == rest[..i] + [rest[i]];
      o := ReadLine(rest[i], delimiter);
      if o.Fail? {
        ReadLinesStops(helpers, ci, delimiter, st, rest[..i + 1], rest[i + 1..]);
        assert rest[..i + 1] + rest[i + 1..] == rest;
      }
    }

    /** The reading part of parseEventData: the lines, the delimiter, the layout, every
        line after the header, and the check that some competitor was read. */
    method ReadData() returns (o: Outcome)
      requires State() == Initial
      modifies this
      ensures var spec := ReadEventData(helpers, data);
        && (spec.Failure? ==> o == Fail(spec.error))
        && (spec.Success? ==> o == Pass && State() == spec.value)
    {
      lines := Split(data, '\n');
      var delimiterRead := IdentifyDelimiter();
      if delimiterRead.Failure? {
        return Fail(delimiterRead.error);
      }
      var delimiter := delimiterRead.value;
      var formatRead := IdentifyFormatVariation(delimiter);
      if formatRead.Fail? {
        return formatRead;
      }
      lines := lines[1..];
      o := ReadLines(delimiter);
      if o.Fail? {
        return;
      }
      if !anyCompetitors {
        return Fail(InvalidData);
      }
    }

    /** The building part of parseEventData: the classes, then the courses over them. */
    method BuildEvent() returns (ev: Event)
      requires Valid(State())
      ensures EventBuilt(ev, State())
      ensures forall a :: a in ev.classes ==> fresh(a)
    {
      var classes := CreateAgeClasses();
      SortedDistinct(Names(classes));
      var courses := DetermineCourses(classes);
      assert ClassesMadeFrom(classes, ageClasses);
      ev := Event(classes, courses);
    }

    /** parseEventData: what it reads is ReadEventData, and the event is built from that. */
    method ParseEventData() returns (r: Result<Event>)
      requires State() == Initial
      modifies this
      ensures var spec := ReadEventData(helpers, data);
        && (spec.Failure? ==> r == Failure(spec.error))
        && (spec.Success? ==> r.Success? && State() == spec.value && EventBuilt(r.value, spec.value))
      ensures r.Success? ==> forall a :: a in r.value.classes ==> fresh(a)
    {
      var o := ReadData();
      if o.Fail? {
        return Failure(o.error);
      }
      ReadEventDataSpec(helpers, data);
      var ev := BuildEvent();
      r := Success(ev);
    }
  }

  /** SI.parseEventData: a reader over the data, which it parses. */
  method ParseSiEventData(data: string, helpers: Helpers) returns (r: Result<Event>)
    ensures var spec := ReadEventData(helpers, data);
      && (spec.Failure? ==> r == Failure(spec.error))
      && (spec.Success? ==> r.Success? && EventBuilt(r.value, spec.value))
  {
    var reader := new Reader(data, helpers);
    r := reader.ParseEventData();
  }
}