/** The selection logic of the students tab: the reschedule options for a
    lesson, the grouping of a student's enrollment by course, the search
    over the listed students, the labels of the profile fields and when the
    missing lessons are shown. */
module StudentsTab {
  import opened Strings
  import opened Seqs
  import opened Calendar
  import opened Records
  import opened Courses
  import opened Sync
  import opened Steps
  import Missing

  // ---- The students listed on each tab ----

  datatype Tab = EnrolledTab | PotentialTab

  /** A student as the tab lists it. */
  datatype StudentRow = StudentRow(id: string, name: string, enrollment: seq<StudentLesson>)

  /** A potential student as the tab receives it. */
  datatype PotentialRow = PotentialRow(id: string, name: string, enrollment: seq<StudentLesson>)

  /** `currentTabStudents`: the enrolled students, or the potential ones under the student shape. */
  function CurrentTabStudents(tab: Tab, all: seq<StudentRow>, potentials: seq<PotentialRow>): (r: seq<StudentRow>)
    ensures tab == EnrolledTab ==> r == all
    ensures tab == PotentialTab ==> |r| == |potentials|
    ensures tab == PotentialTab ==>
              forall k :: 0 <= k < |r| ==> r[k].id == potentials[k].id && r[k].enrollment == potentials[k].enrollment
  {
    match tab
    case EnrolledTab => all
    case PotentialTab =>
      seq(|potentials|, k requires 0 <= k < |potentials| =>
        StudentRow(potentials[k].id, potentials[k].name, potentials[k].enrollment))
  }

  // ---- filteredStudents ----

  /** The name or the id, lowercased, contains the lowercased query. */
  predicate RowMatches(s: StudentRow, q: string) {
    Contains(ToLower(s.name), q) || Contains(ToLower(s.id), q)
  }

  function MatchesQuery(q: string): StudentRow -> bool {
    (s: StudentRow) => RowMatches(s, q)
  }

  /** The search query as the filter uses it: trimmed and lowercased. */
  function Query(search: string): string {
    ToLower(Trim(search))
  }

  /** `filteredStudents`: everyone for an empty query, otherwise the students
      whose name or id contains it, in their listed order. */
  function FilteredStudents(students: seq<StudentRow>, search: string): (r: seq<StudentRow>)
    ensures Query(search) == [] ==> r == students
    ensures Query(search) != [] ==> forall s :: s in r <==> s in students && MatchesQuery(Query(search))(s)
    ensures |r| <= |students|
  {
    var q := Query(search);
    if q == [] then students else Filter(students, MatchesQuery(q))
  }

  /** Searching the result again with the same text changes nothing. */
  lemma FilteredStudentsIdempotent(students: seq<StudentRow>, search: string)
    ensures FilteredStudents(FilteredStudents(students, search), search) == FilteredStudents(students, search)
  {
    if Query(search) != [] {
      FilterFilter(students, MatchesQuery(Query(search)));
    }
  }

  // ---- formatLabel ----

  predicate IsUpper(c: char) { 'A' <= c <= 'Z' }

  /** `key.replace(/([A-Z])/g, " $1")`: a space before every capital letter. */
  function SpaceBeforeCapitals(key: string): (r: string)
    ensures |r| >= |key|
  {
    if key == [] then []
    else (if IsUpper(key[0]) then [' ', key[0]] else [key[0]]) + SpaceBeforeCapitals(key[1..])
  }

  /** The inverse edit: a space right before a capital letter is dropped. */
  function DropSpaceBeforeCapitals(s: string): (r: string)
  {
    if s == [] then []
    else if |s| >= 2 && s[0] == ' ' && IsUpper(s[1]) then [s[1]] + DropSpaceBeforeCapitals(s[2..])
    else [s[0]] + DropSpaceBeforeCapitals(s[1..])
  }

  /** The spaces `formatLabel` inserts are exactly the ones dropping takes out again. */
  lemma {:induction false} SpaceBeforeCapitalsRoundTrip(key: string)
    ensures DropSpaceBeforeCapitals(SpaceBeforeCapitals(key)) == key
  {
    if key != [] {
      var rest := SpaceBeforeCapitals(key[1..]);
      SpaceBeforeCapitalsRoundTrip(key[1..]);
      if IsUpper(key[0]) {
        var s := [' ', key[0]] + rest;
        assert s[2..] == rest;
      } else {
        var s := [key[0]] + rest;
        assert s[1..] == rest;
        if key[0] == ' ' && |s| >= 2 {
          assert s[1] == rest[0];
          assert !IsUpper(rest[0]) by {
            if IsUpper(key[1..][0]) {
              assert rest[0] == ' ';
            } else {
              assert rest[0] == key[1..][0];
            }
          }
        }
      }
    }
  }

  /** `formatLabel(key)`: a space before every capital, then the first character uppercased. */
  function FormatLabel(key: string): (r: string)
    ensures |r| == |SpaceBeforeCapitals(key)|
    ensures r != [] ==> r[0] == UpperChar(SpaceBeforeCapitals(key)[0]) && r[1..] == SpaceBeforeCapitals(key)[1..]
  {
    var s := SpaceBeforeCapitals(key);
    if s == [] then [] else [UpperChar(s[0])] + s[1..]
  }

  /** Without capitals nothing is inserted. */
  lemma {:induction false} SpaceBeforeNoCapitals(s: string)
    requires forall k :: 0 <= k < |s| ==> !IsUpper(s[k])
    ensures SpaceBeforeCapitals(s) == s
  {
    if s != [] {
      SpaceBeforeNoCapitals(s[1..]);
    }
  }

  /** Two camel-case words become the words with a space between and a capital first letter. */
  lemma FormatLabelCamelCase(a: string, c: char, b: string)
    requires a != [] && IsUpper(c)
    requires forall k :: 0 <= k < |a| ==> !IsUpper(a[k])
    requires forall k :: 0 <= k < |b| ==> !IsUpper(b[k])
    ensures FormatLabel(a + [c] + b) == [UpperChar(a[0])] + a[1..] + " " + [c] + b
  {
    var cb := [c] + b;
    assert cb[1..] == b;
    assert SpaceBeforeCapitals(cb) == [' ', c] + SpaceBeforeCapitals(b);
    SpaceBeforeNoCapitals(b);
    assert a + [c] + b == a + cb;
    SpaceBeforeAppend(a, cb);
    SpaceBeforeNoCapitals(a);
    var s := a + ([' ', c] + b);
    assert SpaceBeforeCapitals(a + [c] + b) == s;
    assert s[0] == a[0];
    assert s[1..] == a[1..] + " " + [c] + b;
  }

  /** Inserting spaces works piecewise. */
  lemma {:induction false} SpaceBeforeAppend(a: string, b: string)
    ensures SpaceBeforeCapitals(a + b) == SpaceBeforeCapitals(a) + SpaceBeforeCapitals(b)
  {
    if a != [] {
      assert (a + b)[1..] == a[1..] + b;
      SpaceBeforeAppend(a[1..], b);
    } else {
      assert a + b == b;
    }
  }

  // ---- handleOpenReschedule ----

  /** An option of the reschedule dialog. */
  datatype RescheduleOption = RescheduleOption(
    courseId: string, round: string, lessonId: string, name: string,
    dateStr: Day, timeSlot: string, labelText: string)

  /** The option a course offers with its lesson. */
  function OptionOf(c: Course, l: Lesson): RescheduleOption {
    RescheduleOption(c.id, c.path.round, l.id, l.name, l.dateStr, c.timeSlot,
                     ReplaceFirst(c.id + " (" + c.path.round + ")", "round", " Round "))
  }

  /** The course has a lesson with that id. */
  function HasLesson(lessonId: string): Course -> bool {
    (c: Course) => FindLesson(c, lessonId).Some?
  }

  /** The option a course offers for a lesson id: built from its first lesson with that id. */
  function OfferOf(c: Course, lessonId: string): (r: Option<RescheduleOption>)
    ensures r.Some? <==> FindLesson(c, lessonId).Some?
    ensures r.Some? ==> r.value.lessonId == lessonId && r.value.courseId == c.id
  {
    match FindLesson(c, lessonId)
    case None => None
    case Some(l) => Some(OptionOf(c, l))
  }

  /** The options in course order: one for every course with a lesson of that id. */
  function OptionsFor(cs: seq<Course>, lessonId: string): (r: seq<RescheduleOption>)
    ensures |r| <= |cs|
    decreases |cs|
  {
    if cs == [] then []
    else
      var prior := OptionsFor(cs[..|cs| - 1], lessonId);
      match OfferOf(cs[|cs| - 1], lessonId)
      case None => prior
      case Some(o) => prior + [o]
  }

  /** `a.dateStr.localeCompare(b.dateStr)` on dates, as an order. */
  predicate ByOptionDate(a: RescheduleOption, b: RescheduleOption) {
    a.dateStr <= b.dateStr
  }

  /** The options of the dialog, earliest first (ties keep course order). */
  function RescheduleOptions(cs: seq<Course>, lessonId: string): (r: seq<RescheduleOption>)
    ensures multiset(r) == multiset(OptionsFor(cs, lessonId)) && SortedBy(r, ByOptionDate)
  {
    assert TotalPreorder(ByOptionDate);
    SortBySorted(OptionsFor(cs, lessonId), ByOptionDate);
    SortBy(OptionsFor(cs, lessonId), ByOptionDate)
  }

  /** The loop of `handleOpenReschedule`: push an option per matching course, then sort. */
  method BuildRescheduleOptions(allCourses: seq<Course>, currentLesson: StudentLesson) returns (options: seq<RescheduleOption>)
    ensures options == RescheduleOptions(allCourses, currentLesson.lessonId)
  {
    options := [];
    var i := 0;
    while i < |allCourses|
      invariant 0 <= i <= |allCourses|
      invariant options == OptionsFor(allCourses[..i], currentLesson.lessonId)
    {
      assert allCourses[..i + 1][..i] == allCourses[..i];
      var c := allCourses[i];
      var matchingLesson := FindLesson(c, currentLesson.lessonId);
      if matchingLesson.Some? {
        options := options + [OptionOf(c, matchingLesson.value)];
      }
      i := i + 1;
    }
    assert allCourses[..|allCourses|] == allCourses;
    options := SortBy(options, ByOptionDate);
  }

  /** There is one option per course that has a lesson with the id, in course order. */
  lemma {:induction false} OptionsForCount(cs: seq<Course>, lessonId: string)
    ensures |OptionsFor(cs, lessonId)| == |Filter(cs, HasLesson(lessonId))|
    decreases |cs|
  {
    if cs != [] {
      var init := cs[..|cs| - 1];
      var last := cs[|cs| - 1];
      OptionsForCount(init, lessonId);
      assert cs == init + [last];
      FilterAppend(init, [last], HasLesson(lessonId));
      assert [last][1..] == [];
      assert |Filter([last], HasLesson(lessonId))| == if FindLesson(last, lessonId).Some? then 1 else 0;
    }
  }

  /** An option is offered exactly when some course offers it. */
  lemma OptionsForExact(cs: seq<Course>, lessonId: string, o: RescheduleOption)
    ensures o in OptionsFor(cs, lessonId) <==> exists i :: 0 <= i < |cs| && OfferOf(cs[i], lessonId) == Some(o)
  {
    OptionsForSome(cs, lessonId, o);
    OffersSome(cs, lessonId, o);
  }

  /** The test "this course offers o". */
  function Offers(lessonId: string, o: RescheduleOption): Course -> bool {
    c => OfferOf(c, lessonId) == Some(o)
  }

  lemma OffersSome(cs: seq<Course>, lessonId: string, o: RescheduleOption)
    ensures SomeOf(cs, Offers(lessonId, o)) <==> exists i :: 0 <= i < |cs| && OfferOf(cs[i], lessonId) == Some(o)
  {
  }

  lemma {:induction false} OptionsForSome(cs: seq<Course>, lessonId: string, o: RescheduleOption)
    ensures o in OptionsFor(cs, lessonId) <==> SomeOf(cs, Offers(lessonId, o))
    decreases |cs|
  {
    if cs != [] {
      OptionsForSome(cs[..|cs| - 1], lessonId, o);
      OptionsForLast(cs, lessonId, o);
      SomeOfLast(cs, Offers(lessonId, o));
    }
  }

  /** The options of a non-empty list: those of all but the last course, and the last course's. */
  lemma OptionsForLast(cs: seq<Course>, lessonId: string, o: RescheduleOption)
    requires cs != []
    ensures o in OptionsFor(cs, lessonId) <==>
              o in OptionsFor(cs[..|cs| - 1], lessonId) || OfferOf(cs[|cs| - 1], lessonId) == Some(o)
  {
  }

  /** Every option keeps the lesson id, and the student's current course is
      among the options when it has that lesson. */
  lemma RescheduleOptionsOffer(cs: seq<Course>, current: StudentLesson)
    ensures forall o :: o in RescheduleOptions(cs, current.lessonId) ==>
              o.lessonId == current.lessonId && exists i :: 0 <= i < |cs| && o.courseId == cs[i].id
    ensures (FindCourse(cs, current.courseId).Some? && FindLesson(FindCourse(cs, current.courseId).value, current.lessonId).Some?) ==>
              exists o :: o in RescheduleOptions(cs, current.lessonId) && o.courseId == current.courseId
  {
    var r := RescheduleOptions(cs, current.lessonId);
    forall o | o in r ensures o.lessonId == current.lessonId && exists i :: 0 <= i < |cs| && o.courseId == cs[i].id {
      assert o in multiset(OptionsFor(cs, current.lessonId));
      OptionsForExact(cs, current.lessonId, o);
    }
    var fc := FindCourse(cs, current.courseId);
    if fc.Some? && FindLesson(fc.value, current.lessonId).Some? {
      var i := CourseIndex(cs, current.courseId).value;
      var o := OfferOf(cs[i], current.lessonId).value;
      OptionsForExact(cs, current.lessonId, o);
      assert o in multiset(r);
    }
  }

  // ---- viewingStudentEnrollmentGroups ----

  /** The entries of one course in a student's enrollment. */
  datatype EnrollmentGroup = EnrollmentGroup(courseId: string, courseName: string, round: string, lessons: seq<StudentLesson>)

  function GroupKey(g: EnrollmentGroup): string { g.courseId }

  /** The entry belongs to that course. */
  function OfCourse(key: string): StudentLesson -> bool {
    (e: StudentLesson) => e.courseId == key
  }

  /** The course ids of the entries, in order. */
  function CourseIdsOf(es: seq<StudentLesson>): (r: seq<string>)
    ensures |r| == |es| && forall k :: 0 <= k < |es| ==> r[k] == es[k].courseId
  {
    seq(|es|, k requires 0 <= k < |es| => es[k].courseId)
  }

  /** The course name of the first entry of the course, "" when there is none. */
  function FirstName(es: seq<StudentLesson>, key: string): (r: string)
    ensures key !in CourseIdsOf(es) ==> r == []
    decreases |es|
  {
    if es == [] then []
    else
      var init := es[..|es| - 1];
      assert CourseIdsOf(es) == CourseIdsOf(init) + [es[|es| - 1].courseId];
      if key in CourseIdsOf(init) then FirstName(init, key)
      else if es[|es| - 1].courseId == key then es[|es| - 1].courseName
      else []
  }

  /** A group's name: the catalog name, else the first entry's course name, else the key. */
  function GroupName(cs: seq<Course>, es: seq<StudentLesson>, key: string): string {
    match FindCourse(cs, key)
    case Some(c) => c.name
    case None => Or(FirstName(es, key), key)
  }

  /** A group's round: the catalog round, "" for a course not in the catalog. */
  function GroupRound(cs: seq<Course>, key: string): string {
    match FindCourse(cs, key)
    case Some(c) => c.path.round
    case None => ""
  }

  /** The group of one course id. */
  function GroupFor(cs: seq<Course>, es: seq<StudentLesson>, key: string): EnrollmentGroup {
    EnrollmentGroup(key, GroupName(cs, es, key), GroupRound(cs, key), Filter(es, OfCourse(key)))
  }

  /** The groups in the order their courses first appear (`Object.values(groups)`). */
  function Grouped(cs: seq<Course>, es: seq<StudentLesson>): (r: seq<EnrollmentGroup>)
    ensures |r| == |Dedup(CourseIdsOf(es))| && forall k :: 0 <= k < |r| ==> r[k] == GroupFor(cs, es, Dedup(CourseIdsOf(es))[k])
  {
    var keys := Dedup(CourseIdsOf(es));
    seq(|keys|, k requires 0 <= k < |keys| => GroupFor(cs, es, keys[k]))
  }

  /** `a.courseName.localeCompare(b.courseName)`, as an order. */
  predicate ByGroupName(a: EnrollmentGroup, b: EnrollmentGroup) {
    LexLe(a.courseName, b.courseName)
  }

  lemma ByGroupNameIsTotalPreorder()
    ensures TotalPreorder(ByGroupName)
  {
    forall a, b ensures ByGroupName(a, b) || ByGroupName(b, a) {
      LexLeTotal(a.courseName, b.courseName);
    }
    forall a, b, c | ByGroupName(a, b) && ByGroupName(b, c) ensures ByGroupName(a, c) {
      LexLeTrans(a.courseName, b.courseName, c.courseName);
    }
  }

  /** The groups the tab shows, by course name. */
  function EnrollmentGroups(cs: seq<Course>, es: seq<StudentLesson>): seq<EnrollmentGroup> {
    SortBy(Grouped(cs, es), ByGroupName)
  }

  /** The name a group gets when its first entry opens it. */
  function NameAtOpen(cs: seq<Course>, e: StudentLesson): string {
    match FindCourse(cs, e.courseId)
    case Some(c) => c.name
    case None => Or(e.courseName, e.courseId)
  }

  /** What the loop holds after the first i entries: the keys in first-appearance
      order, and under each key the group of that course so far. */
  ghost predicate GroupsSoFar(cs: seq<Course>, es: seq<StudentLesson>, i: nat,
                        groups: map<string, EnrollmentGroup>, order: seq<string>)
    requires i <= |es|
  {
    && order == Dedup(CourseIdsOf(es[..i]))
    && (forall k :: k in groups <==> k in order)
    && (forall k :: k in groups ==> groups[k] == GroupFor(cs, es[..i], k))
  }

  /** One entry more: keys other than its course keep their group. */
  lemma GroupStepOther(cs: seq<Course>, es: seq<StudentLesson>, i: nat, k: string)
    requires i < |es| && k != es[i].courseId
    ensures GroupFor(cs, es[..i + 1], k) == GroupFor(cs, es[..i], k)
  {
    var s := es[..i + 1];
    assert s == es[..i] + [es[i]];
    assert s[..i] == es[..i];
    FilterAppend(es[..i], [es[i]], OfCourse(k));
    assert Filter([es[i]], OfCourse(k)) == [];
  }

  /** One entry more: its course's group gains it at the end, and keeps its name when it was open. */
  lemma GroupStepOwn(cs: seq<Course>, es: seq<StudentLesson>, i: nat)
    requires i < |es|
    ensures var key := es[i].courseId;
            Filter(es[..i + 1], OfCourse(key)) == Filter(es[..i], OfCourse(key)) + [es[i]]
    ensures var key := es[i].courseId;
            GroupName(cs, es[..i + 1], key) ==
              if key in CourseIdsOf(es[..i]) then GroupName(cs, es[..i], key) else NameAtOpen(cs, es[i])
    ensures Dedup(CourseIdsOf(es[..i + 1])) ==
              var d := Dedup(CourseIdsOf(es[..i])); if es[i].courseId in d then d else d + [es[i].courseId]
  {
    var s := es[..i + 1];
    var key := es[i].courseId;
    assert s == es[..i] + [es[i]];
    assert s[..i] == es[..i];
    FilterAppend(es[..i], [es[i]], OfCourse(key));
    assert Filter([es[i]], OfCourse(key)) == [es[i]];
    assert CourseIdsOf(s) == CourseIdsOf(es[..i]) + [key];
    assert CourseIdsOf(s)[..i] == CourseIdsOf(es[..i]);
  }

  /** The group an entry is added to: its course's group, or a new empty one named at opening. */
  function OpenGroup(cs: seq<Course>, groups: map<string, EnrollmentGroup>, e: StudentLesson): EnrollmentGroup {
    if e.courseId in groups then groups[e.courseId]
    else EnrollmentGroup(e.courseId, NameAtOpen(cs, e), GroupRound(cs, e.courseId), [])
  }

  /** The loop step keeps what the loop holds. */
  lemma GroupStepKeeps(cs: seq<Course>, es: seq<StudentLesson>, i: nat,
                       groups: map<string, EnrollmentGroup>, order: seq<string>,
                       groups': map<string, EnrollmentGroup>, order': seq<string>)
    requires i < |es| && GroupsSoFar(cs, es, i, groups, order)
    requires order' == (if es[i].courseId in groups then order else order + [es[i].courseId])
    requires var g := OpenGroup(cs, groups, es[i]);
             groups' == groups[es[i].courseId := g.(lessons := g.lessons + [es[i]])]
    ensures GroupsSoFar(cs, es, i + 1, groups', order')
  {
    GroupStepKeys(cs, es, i, groups, order, groups', order');
    GroupStepValues(cs, es, i, groups, order, groups');
  }

  /** The loop step keeps the keys and their order. */
  lemma GroupStepKeys(cs: seq<Course>, es: seq<StudentLesson>, i: nat,
                      groups: map<string, EnrollmentGroup>, order: seq<string>,
                      groups': map<string, EnrollmentGroup>, order': seq<string>)
    requires i < |es| && order == Dedup(CourseIdsOf(es[..i])) && forall k :: k in groups <==> k in order
    requires order' == (if es[i].courseId in groups then order else order + [es[i].courseId])
    requires forall k :: k in groups' <==> k in groups || k == es[i].courseId
    ensures order' == Dedup(CourseIdsOf(es[..i + 1])) && forall k :: k in groups' <==> k in order'
  {
    GroupStepOwn(cs, es, i);
    GroupStepOrder(cs, es, i, es[i].courseId in groups, order, order');
  }

  /** The loop step keeps every key's group. */
  lemma GroupStepValues(cs: seq<Course>, es: seq<StudentLesson>, i: nat,
                        groups: map<string, EnrollmentGroup>, order: seq<string>,
                        groups': map<string, EnrollmentGroup>)
    requires i < |es| && GroupsSoFar(cs, es, i, groups, order)
    requires var g := OpenGroup(cs, groups, es[i]);
             groups' == groups[es[i].courseId := g.(lessons := g.lessons + [es[i]])]
    ensures forall k :: k in groups' ==> groups'[k] == GroupFor(cs, es[..i + 1], k)
  {
    var key := es[i].courseId;
    assert key in groups <==> key in CourseIdsOf(es[..i]);
    assert groups'[key] == GroupFor(cs, es[..i + 1], key) by {
      GroupStepOwn(cs, es, i);
      GroupStepOpened(cs, es, i, key in groups, OpenGroup(cs, groups, es[i]));
    }
    forall k | k in groups' && k != key ensures groups'[k] == GroupFor(cs, es[..i + 1], k) {
      GroupStepOther(cs, es, i, k);
    }
  }

  /** The key order after one entry more is the de-duplicated course ids so far. */
  lemma GroupStepOrder(cs: seq<Course>, es: seq<StudentLesson>, i: nat, known: bool,
                       order: seq<string>, order': seq<string>)
    requires i < |es| && order == Dedup(CourseIdsOf(es[..i]))
    requires known <==> es[i].courseId in CourseIdsOf(es[..i])
    requires order' == (if known then order else order + [es[i].courseId])
    requires Dedup(CourseIdsOf(es[..i + 1])) ==
               var d := Dedup(CourseIdsOf(es[..i])); if es[i].courseId in d then d else d + [es[i].courseId]
    ensures order' == Dedup(CourseIdsOf(es[..i + 1]))
  {
  }

  /** The group the entry is added to becomes the group of its course after one entry more. */
  lemma GroupStepOpened(cs: seq<Course>, es: seq<StudentLesson>, i: nat, known: bool, g: EnrollmentGroup)
    requires i < |es|
    requires known <==> es[i].courseId in CourseIdsOf(es[..i])
    requires known ==> g == GroupFor(cs, es[..i], es[i].courseId)
    requires !known ==> g == EnrollmentGroup(es[i].courseId, NameAtOpen(cs, es[i]), GroupRound(cs, es[i].courseId), [])
    requires Filter(es[..i + 1], OfCourse(es[i].courseId)) == Filter(es[..i], OfCourse(es[i].courseId)) + [es[i]]
    requires GroupName(cs, es[..i + 1], es[i].courseId) ==
               if known then GroupName(cs, es[..i], es[i].courseId) else NameAtOpen(cs, es[i])
    ensures g.(lessons := g.lessons + [es[i]]) == GroupFor(cs, es[..i + 1], es[i].courseId)
  {
    if !known {
      var key := es[i].courseId;
      forall x | x in es[..i] ensures !OfCourse(key)(x) {
        var j :| 0 <= j < i && es[..i][j] == x;
        assert CourseIdsOf(es[..i])[j] == x.courseId;
      }
      FilterNone(es[..i], OfCourse(key));
    }
  }

  /** The loop of `viewingStudentEnrollmentGroups`: a record of groups keyed
      by course id, the keys in insertion order, then the values sorted. */
  method GroupEnrollment(allCourses: seq<Course>, enrollment: seq<StudentLesson>) returns (gs: seq<EnrollmentGroup>)
    ensures gs == EnrollmentGroups(allCourses, enrollment)
  {
    var groups: map<string, EnrollmentGroup> := map[];
    var order: seq<string> := [];
    var i := 0;
    while i < |enrollment|
      invariant 0 <= i <= |enrollment|
      invariant GroupsSoFar(allCourses, enrollment, i, groups, order)
    {
      ghost var groups0, order0 := groups, order;
      var lesson := enrollment[i];
      var key := lesson.courseId;
      var group: EnrollmentGroup;
      if key !in groups {
        var courseDetails := FindCourse(allCourses, key);
        var name := if courseDetails.Some? then courseDetails.value.name else Or(lesson.courseName, key);
        var round := if courseDetails.Some? then courseDetails.value.path.round else "";
        group := EnrollmentGroup(key, name, round, []);
        order := order + [key];
      } else {
        group := groups[key];
      }
      assert group == OpenGroup(allCourses, groups0, lesson);
      groups := groups[key := group.(lessons := group.lessons + [lesson])];
      GroupStepKeeps(allCourses, enrollment, i, groups0, order0, groups, order);
      i := i + 1;
    }
    GroupsDone(allCourses, enrollment, groups, order);
    var values := seq(|order|, k requires 0 <= k < |order| => groups[order[k]]);
    GroupsDoneValues(allCourses, enrollment, groups, order, values);
    gs := SortBy(values, ByGroupName);
  }

  /** When the loop ends every key has its group and the keys are the de-duplicated course ids. */
  lemma GroupsDone(cs: seq<Course>, es: seq<StudentLesson>, groups: map<string, EnrollmentGroup>, order: seq<string>)
    requires GroupsSoFar(cs, es, |es|, groups, order)
    ensures order == Dedup(CourseIdsOf(es))
    ensures forall k :: k in order ==> k in groups && groups[k] == GroupFor(cs, es, k)
  {
    assert es[..|es|] == es;
  }

  /** The values of the record in key order are the groups before sorting. */
  lemma GroupsDoneValues(cs: seq<Course>, es: seq<StudentLesson>, groups: map<string, EnrollmentGroup>,
                         order: seq<string>, values: seq<EnrollmentGroup>)
    requires order == Dedup(CourseIdsOf(es))
    requires forall k :: k in order ==> k in groups && groups[k] == GroupFor(cs, es, k)
    requires |values| == |order| && forall j :: 0 <= j < |order| ==> values[j] == groups[order[j]]
    ensures values == Grouped(cs, es)
  {
  }

  /** Before sorting: one group per course id, holding that course's entries. */
  lemma GroupedShape(cs: seq<Course>, es: seq<StudentLesson>)
    ensures var grouped := Grouped(cs, es);
            UniqueBy(grouped, GroupKey) &&
            (forall e :: e in es ==> exists g :: g in grouped && g.courseId == e.courseId) &&
            (forall g :: g in grouped ==> g == GroupFor(cs, es, g.courseId) && g.courseId in CourseIdsOf(es))
  {
    var keys := Dedup(CourseIdsOf(es));
    var grouped := Grouped(cs, es);
    forall i, j | 0 <= i < j < |grouped| ensures GroupKey(grouped[i]) != GroupKey(grouped[j]) {
      assert GroupKey(grouped[i]) == keys[i] && GroupKey(grouped[j]) == keys[j];
    }
    forall e | e in es ensures exists g :: g in grouped && g.courseId == e.courseId {
      var j :| 0 <= j < |es| && es[j] == e;
      assert CourseIdsOf(es)[j] == e.courseId;
      assert e.courseId in CourseIdsOf(es);
      assert e.courseId in keys;
      var k :| 0 <= k < |keys| && keys[k] == e.courseId;
      assert grouped[k].courseId == e.courseId;
    }
  }

  /** A group of a course that occurs holds at least one entry. */
  lemma GroupNotEmpty(cs: seq<Course>, es: seq<StudentLesson>, key: string)
    requires key in CourseIdsOf(es)
    ensures Filter(es, OfCourse(key)) != []
  {
    var j :| 0 <= j < |es| && CourseIdsOf(es)[j] == key;
    assert es[j] in Filter(es, OfCourse(key));
  }

  /** Every entry falls into exactly one group, the one of its course; a
      group holds all entries of its course in their order; groups are by
      name and have the catalog name, else the entry's, else the key. */
  lemma GroupsPartition(cs: seq<Course>, es: seq<StudentLesson>)
    ensures var gs := EnrollmentGroups(cs, es);
            SortedBy(gs, ByGroupName) && UniqueBy(gs, GroupKey) &&
            (forall e :: e in es ==> exists g :: g in gs && g.courseId == e.courseId && e in g.lessons) &&
            (forall g :: g in gs ==>
               g.lessons == Filter(es, OfCourse(g.courseId)) && g.lessons != [] &&
               g.courseName == GroupName(cs, es, g.courseId))
  {
    var grouped := Grouped(cs, es);
    var gs := EnrollmentGroups(cs, es);
    ByGroupNameIsTotalPreorder();
    SortBySorted(grouped, ByGroupName);
    GroupedShape(cs, es);
    UniqueByPermutation(grouped, gs, GroupKey);
    forall g | g in gs ensures g in grouped {
      assert g in multiset(grouped);
    }
    forall e | e in es ensures exists g :: g in gs && g.courseId == e.courseId && e in g.lessons {
      var g :| g in grouped && g.courseId == e.courseId;
      assert g in multiset(gs);
      assert e in Filter(es, OfCourse(e.courseId));
    }
    forall g | g in gs ensures g.lessons != [] {
      GroupNotEmpty(cs, es, g.courseId);
    }
  }

  // ---- missingLessons ----

  /** `missingLessons`: nothing without a viewed student or on the potential
      tab; otherwise `findMissingLessons` for the viewed student, which reads
      the dashboard's student list. */
  function MissingLessonsShown(tab: Tab, viewing: Option<string>, st: State): (r: seq<Missing.MissingLesson>)
    ensures tab == PotentialTab || viewing.None? ==> r == []
    ensures tab == EnrolledTab && viewing.Some? && viewing.value in st.listed ==>
              r == Missing.FindMissing(st.courses, st.listed[viewing.value])
    ensures tab == EnrolledTab && viewing.Some? && viewing.value !in st.listed ==> r == []
  {
    if viewing.None? || tab == PotentialTab then []
    else if viewing.value in st.listed then Missing.FindMissing(st.courses, st.listed[viewing.value])
    else []
  }
}
