/** The selection logic of the timetable tab: which courses are displayed
    for the category, round and search filters, the data of one cell of the
    grid, the completion toggle and the create form, whose round option is
    stripped of its "round" word before the engine puts it back. */
module TimetableTab {
  import opened Strings
  import opened Seqs
  import opened Calendar
  import opened Records
  import opened AdminConstants
  import opened Courses
  import opened Steps

  // ---- displayedCourses ----

  /** `c.path?.category || "Uncategorized"`. */
  function CategoryOf(c: Course): string {
    Or(c.path.category, "Uncategorized")
  }

  /** `c.path?.round || "round001"`. */
  function RoundOf(c: Course): string {
    Or(c.path.round, "round001")
  }

  /** The category and round filters, where "ALL" lets everything through. */
  predicate InFilters(c: Course, filterCategory: string, filterRound: string) {
    (filterCategory == "ALL" || CategoryOf(c) == filterCategory) &&
    (filterRound == "ALL" || RoundOf(c) == filterRound)
  }

  function PassesFilters(filterCategory: string, filterRound: string): Course -> bool {
    (c: Course) => InFilters(c, filterCategory, filterRound)
  }

  /** The name, id or time slot, lowercased, contains the query. */
  predicate CourseMatches(c: Course, q: string) {
    Contains(ToLower(c.name), q) || Contains(ToLower(c.id), q) || Contains(ToLower(c.timeSlot), q)
  }

  function MatchesSearch(q: string): Course -> bool {
    (c: Course) => CourseMatches(c, q)
  }

  /** `displayedCourses`: the filters first, then the search (kept whole when empty). */
  function DisplayedCourses(allCourses: seq<Course>, filterCategory: string, filterRound: string, courseSearch: string): (r: seq<Course>)
    ensures |r| <= |allCourses|
  {
    var q := ToLower(Trim(courseSearch));
    var filtered := Filter(allCourses, PassesFilters(filterCategory, filterRound));
    if q == [] then filtered else Filter(filtered, MatchesSearch(q))
  }

  /** A course is displayed exactly when it is in the list, its category and
      round (with their defaults) match the filters or the filters are
      "ALL", and the search is empty or found in its name, id or time slot. */
  lemma DisplayedExactly(allCourses: seq<Course>, filterCategory: string, filterRound: string, courseSearch: string, c: Course)
    ensures var q := ToLower(Trim(courseSearch));
            c in DisplayedCourses(allCourses, filterCategory, filterRound, courseSearch) <==>
              c in allCourses &&
              (filterCategory == "ALL" || CategoryOf(c) == filterCategory) &&
              (filterRound == "ALL" || RoundOf(c) == filterRound) &&
              (q == [] || MatchesSearch(q)(c))
  {
  }

  /** With both filters at "ALL" and no search every course is displayed, in order. */
  lemma DisplayedAll(allCourses: seq<Course>)
    ensures DisplayedCourses(allCourses, "ALL", "ALL", "") == allCourses
  {
    assert Trim("") == "";
    FilterAll(allCourses, PassesFilters("ALL", "ALL"));
  }

  // ---- getCellData ----

  /** The data of a grid cell: the lesson, its roster size and the full flag. */
  datatype CellData = CellData(lesson: Lesson, count: nat, isFull: bool)

  /** `getCellData(course, lessonId)`: None without a lesson of that id. */
  function GetCellData(course: Course, lessonId: string): (r: Option<CellData>)
    ensures r.None? <==> FindLesson(course, lessonId).None?
    ensures r.Some? ==> r.value.lesson == FindLesson(course, lessonId).value && r.value.count == |r.value.lesson.students|
    ensures r.Some? ==> (r.value.isFull <==> r.value.count >= MaxStudents)
  {
    match FindLesson(course, lessonId)
    case None => None
    case Some(l) => Some(CellData(l, |l.students|, |l.students| >= MaxStudents))
  }

  /** A cell is shown full exactly when adding a known student to that lesson
      is refused with "Class full". */
  lemma FullCellRefusesAdd(st: State, course: Course, lessonId: string, sid: string)
    requires course in st.courses && FindCourse(st.courses, course.id) == Some(course)
    requires sid in st.students && GetCellData(course, lessonId).Some?
    ensures GetCellData(course, lessonId).value.isFull <==> AddStep(st, course.id, lessonId, sid).1 == Failure("Class full")
  {
  }

  // ---- onToggleCompletion ----

  /** `onToggleCompletion`: the engine is asked for the opposite of the
      lesson's flag; nothing happens for a course or lesson not listed. */
  function OnToggleCompletion(st: State, courseId: string, lessonId: string): (r: State)
    ensures FindCourse(st.courses, courseId).None? ==> r == st
    ensures r.students == st.students
  {
    match FindCourse(st.courses, courseId)
    case None => st
    case Some(course) =>
      match FindLesson(course, lessonId)
      case None => st
      case Some(lesson) => ToggleStep(st, courseId, lessonId, !lesson.completed)
  }

  function CourseId(c: Course): string { c.id }

  function LessonId(l: Lesson): string { l.id }

  /** A toggle flips the flag the grid shows for that lesson. */
  lemma ToggleFlips(st: State, courseId: string, lessonId: string)
    requires FindCourse(st.courses, courseId).Some? && FindLesson(FindCourse(st.courses, courseId).value, lessonId).Some?
    ensures var after := FindCourse(OnToggleCompletion(st, courseId, lessonId).courses, courseId);
            after.Some? && FindLesson(after.value, lessonId).Some? &&
            FindLesson(after.value, lessonId).value.completed == !FindLesson(FindCourse(st.courses, courseId).value, lessonId).value.completed
  {
    var c := FindCourse(st.courses, courseId).value;
    var l := FindLesson(c, lessonId).value;
    var d := SetCompleted(c, lessonId, !l.completed);
    FindAfterReplace(st.courses, d, courseId);
    FindLessonInEdited(c, d, lessonId);
  }

  /** Two toggles of the same lesson give back the state, when course ids and
      that course's lesson ids are unique. */
  lemma ToggleTwiceRestores(st: State, courseId: string, lessonId: string)
    requires UniqueBy(st.courses, CourseId)
    requires FindCourse(st.courses, courseId).Some? ==> UniqueBy(FindCourse(st.courses, courseId).value.lessons, LessonId)
    ensures OnToggleCompletion(OnToggleCompletion(st, courseId, lessonId), courseId, lessonId) == st
  {
    var fc := FindCourse(st.courses, courseId);
    if fc.Some? && FindLesson(fc.value, lessonId).Some? {
      var c := fc.value;
      var i := CourseIndex(st.courses, courseId).value;
      assert st.courses[i] == c;
      var l := FindLesson(c, lessonId).value;
      var d := SetCompleted(c, lessonId, !l.completed);
      var mid := st.(courses := ReplaceCourse(st.courses, d));
      OnToggleAt(st, courseId, lessonId, c, l);
      FindAfterReplace(st.courses, d, courseId);
      FindLessonInEdited(c, d, lessonId);
      var l' := FindLesson(d, lessonId).value;
      OnToggleAt(mid, courseId, lessonId, d, l');
      ToggleBack(c, lessonId, l, l');
      RestoreCourse(st.courses, i, d);
    }
  }

  /** A toggle of a lesson the course has asks for the opposite of its flag. */
  lemma OnToggleAt(st: State, courseId: string, lessonId: string, c: Course, l: Lesson)
    requires FindCourse(st.courses, courseId) == Some(c) && FindLesson(c, lessonId) == Some(l)
    ensures OnToggleCompletion(st, courseId, lessonId) ==
            st.(courses := ReplaceCourse(st.courses, SetCompleted(c, lessonId, !l.completed)))
  {
  }

  /** Setting a lesson's flag to its opposite and then back gives the course
      back, when its lesson ids are unique. */
  lemma ToggleBack(c: Course, lessonId: string, l: Lesson, l': Lesson)
    requires UniqueBy(c.lessons, LessonId) && FindLesson(c, lessonId) == Some(l)
    requires FindLesson(SetCompleted(c, lessonId, !l.completed), lessonId) == Some(l')
    requires l'.completed == !l.completed
    ensures SetCompleted(SetCompleted(c, lessonId, !l.completed), lessonId, !l'.completed) == c
  {
    var j := LessonIndex(c.lessons, lessonId).value;
    var e := SetCompleted(SetCompleted(c, lessonId, !l.completed), lessonId, !l'.completed);
    forall k | 0 <= k < |c.lessons| ensures e.lessons[k] == c.lessons[k] {
      if c.lessons[k].id == lessonId {
        assert LessonId(c.lessons[k]) == LessonId(c.lessons[j]);
      }
    }
  }

  /** Replacing a course and then putting the first one back gives the list
      back, when course ids are unique. */
  lemma RestoreCourse(cs: seq<Course>, i: nat, d: Course)
    requires UniqueBy(cs, CourseId) && i < |cs| && d.id == cs[i].id
    ensures ReplaceCourse(ReplaceCourse(cs, d), cs[i]) == cs
  {
    var r := ReplaceCourse(ReplaceCourse(cs, d), cs[i]);
    forall k | 0 <= k < |cs| ensures r[k] == cs[k] {
      if cs[k].id == d.id {
        assert CourseId(cs[k]) == CourseId(cs[i]);
      }
    }
  }

  // ---- handleCreate ----

  /** The create form. */
  datatype CreateForm = CreateForm(name: string, time: string, date: string, round: string)

  /** The filters the tab shows. */
  datatype Filters = Filters(category: string, round: string)

  /** `createForm.round.replace("round", "")`: the round number handed to `createCourse`. */
  function RoundNumber(round: string): string {
    ReplaceFirst(round, "round", "")
  }

  /** A round option `round` followed by a three-character number comes back
      from `createCourse`'s normalisation as the same round name. */
  lemma RoundNumberRoundTrip(digits: string)
    requires |digits| == 3 && AllDigits(digits)
    ensures RoundName(RoundNumber("round" + digits)) == "round" + digits
  {
    var s := "round" + digits;
    assert s[..5] == "round";
    assert IndexOf(s, "round") == Some(0);
    assert s[5..] == digits;
    assert RoundNumber(s) == digits;
    assert !StartsWith(digits, "round");
    assert PadStart(digits, 3, '0') == digits;
  }

  /** `onCreateCourse`'s category: the name up to its first '-'. */
  function SplitCategory(name: string): string {
    Split(name, '-')[0]
  }

  /** `handleCreate` as written: nothing without all four fields; otherwise
      the course is created and the filters move to the name's text before
      its first '-' and to the round option. A date the engine cannot read
      makes `createCourse` throw, and nothing further happens. */
  function HandleCreateAsWritten(st: State, form: CreateForm, filters: Filters): (r: (State, Filters))
    ensures form.name == [] || form.time == [] || form.date == [] || form.round == [] ==> r == (st, filters)
  {
    if form.name == [] || form.time == [] || form.date == [] || form.round == [] then (st, filters)
    else
      var created := CreateStep(st, form.name, form.time, form.date, RoundNumber(form.round));
      if created.1.None? then (st, filters)
      else (created.0, Filters(SplitCategory(form.name), form.round))
  }

  /** The course `handleCreate` asks for. */
  function FormCourse(form: CreateForm): Course
    requires DayOfText(form.date).Some?
  {
    NewCourse(form.name, form.time, DayOfText(form.date).value, RoundNumber(form.round))
  }

  /** The two categories of the name "Robotics-A". */
  lemma RoboticsCategories()
    ensures SplitCategory("Robotics-A") == "Robotics" && CategoryFromId("Robotics-A") == "ROBO"
  {
    RoboticsSplit();
    RoboticsId();
  }

  lemma RoboticsSplit()
    ensures SplitCategory("Robotics-A") == "Robotics"
  {
    SplitOneSep("Robotics", "A", '-');
    assert "Robotics-A" == "Robotics" + ['-'] + "A";
  }

  lemma RoboticsId()
    ensures CategoryFromId("Robotics-A") == "ROBO"
  {
    assert "Robotics-A"[..4] == "Robo";
    assert ToUpper("Robo") == "ROBO";
  }

  /** With a name such as "Robotics-A" the filters the tab moves to hide the
      course it has just created: the engine files it under "ROBO". */
  lemma CreatedCourseHidden(st: State, time: string, date: string)
    requires time != [] && date != []
    requires CreateStep(st, "Robotics-A", time, date, RoundNumber("round001")).1.Some?
    ensures var form := CreateForm("Robotics-A", time, date, "round001");
            var r := HandleCreateAsWritten(st, form, Filters("ALL", "ALL"));
            FormCourse(form) in r.0.courses &&
            FormCourse(form) !in DisplayedCourses(r.0.courses, r.1.category, r.1.round, "")
  {
    RoboticsCategories();
    CreatedCourseHiddenWhen(st, CreateForm("Robotics-A", time, date, "round001"));
  }

  /** Any name whose text before the first "-" differs from the category the
      engine derives from it gives filters that hide the created course. */
  lemma CreatedCourseHiddenWhen(st: State, form: CreateForm)
    requires form.name != [] && form.time != [] && form.date != [] && form.round != []
    requires CreateStep(st, form.name, form.time, form.date, RoundNumber(form.round)).1.Some?
    requires SplitCategory(form.name) != "ALL" && SplitCategory(form.name) != CategoryFromId(form.name)
    ensures var r := HandleCreateAsWritten(st, form, Filters("ALL", "ALL"));
            FormCourse(form) in r.0.courses &&
            FormCourse(form) !in DisplayedCourses(r.0.courses, r.1.category, r.1.round, "")
  {
    var r := HandleCreateAsWritten(st, form, Filters("ALL", "ALL"));
    var c := FormCourse(form);
    HandleCreateAsWrittenSucceeds(st, form, Filters("ALL", "ALL"));
    assert c in r.0.courses;
    assert c.path.category == CategoryFromId(form.name);
    assert CategoryOf(c) == CategoryFromId(form.name);
    DisplayedExactly(r.0.courses, r.1.category, r.1.round, "", c);
  }

  /** The as-written `handleCreate` after a successful create: the course is
      appended and the category filter is the text before the first "-". */
  lemma HandleCreateAsWrittenSucceeds(st: State, form: CreateForm, filters: Filters)
    requires form.name != [] && form.time != [] && form.date != [] && form.round != []
    requires CreateStep(st, form.name, form.time, form.date, RoundNumber(form.round)).1.Some?
    ensures var r := HandleCreateAsWritten(st, form, filters);
            && r.0.courses == st.courses + [FormCourse(form)]
            && r.1 == Filters(SplitCategory(form.name), form.round)
  {
  }

  /** `handleCreate` moving the filters to the category and round the engine
      gave the new course. */
  function HandleCreate(st: State, form: CreateForm, filters: Filters): (r: (State, Filters))
    ensures form.name == [] || form.time == [] || form.date == [] || form.round == [] ==> r == (st, filters)
  {
    if form.name == [] || form.time == [] || form.date == [] || form.round == [] then (st, filters)
    else
      var created := CreateStep(st, form.name, form.time, form.date, RoundNumber(form.round));
      match created.1
      case None => (st, filters)
      case Some(category) => (created.0, Filters(category, RoundName(RoundNumber(form.round))))
  }

  /** After a create that succeeds the new course is displayed (with no search),
      whatever its name and round; for the round options `roundNNN` the round
      filter is the option itself. */
  lemma CreatedCourseShown(st: State, form: CreateForm, filters: Filters)
    requires form.name != [] && form.time != [] && form.date != [] && form.round != []
    requires CreateStep(st, form.name, form.time, form.date, RoundNumber(form.round)).1.Some?
    ensures var r := HandleCreate(st, form, filters);
            FormCourse(form) in r.0.courses && FormCourse(form) in DisplayedCourses(r.0.courses, r.1.category, r.1.round, "")
    ensures |form.round| == 8 && StartsWith(form.round, "round") && AllDigits(form.round[5..]) ==>
              HandleCreate(st, form, filters).1.round == form.round
  {
    CreatedCourseListed(st, form, filters);
    if |form.round| == 8 && StartsWith(form.round, "round") && AllDigits(form.round[5..]) {
      HandleCreateSucceeds(st, form, filters);
      RoundOptionRoundTrip(form.round);
    }
  }

  /** A round option `roundNNN` comes back from `createCourse`'s normalisation unchanged. */
  lemma RoundOptionRoundTrip(round: string)
    requires |round| == 8 && StartsWith(round, "round") && AllDigits(round[5..])
    ensures RoundName(RoundNumber(round)) == round
  {
    assert round == "round" + round[5..];
    RoundNumberRoundTrip(round[5..]);
  }

  /** A create that succeeds adds the form's course and moves the filters to its category and round. */
  lemma HandleCreateSucceeds(st: State, form: CreateForm, filters: Filters)
    requires form.name != [] && form.time != [] && form.date != [] && form.round != []
    requires CreateStep(st, form.name, form.time, form.date, RoundNumber(form.round)).1.Some?
    ensures var r := HandleCreate(st, form, filters);
            && r.0.courses == st.courses + [FormCourse(form)]
            && r.1 == Filters(FormCourse(form).path.category, FormCourse(form).path.round)
  {
  }

  /** The new course is in the list and passes the filters the tab moves to. */
  lemma CreatedCourseListed(st: State, form: CreateForm, filters: Filters)
    requires form.name != [] && form.time != [] && form.date != [] && form.round != []
    requires CreateStep(st, form.name, form.time, form.date, RoundNumber(form.round)).1.Some?
    ensures var r := HandleCreate(st, form, filters);
            FormCourse(form) in r.0.courses && FormCourse(form) in DisplayedCourses(r.0.courses, r.1.category, r.1.round, "")
  {
    var r := HandleCreate(st, form, filters);
    var c := FormCourse(form);
    HandleCreateSucceeds(st, form, filters);
    assert c in r.0.courses;
    DisplayedWithoutSearch(r.0.courses, r.1.category, r.1.round, c);
  }

  /** With no search a listed course shows under its own category and round. */
  lemma DisplayedWithoutSearch(allCourses: seq<Course>, filterCategory: string, filterRound: string, c: Course)
    requires c in allCourses && c.path.category != "" && c.path.round != []
    requires filterCategory == c.path.category && filterRound == c.path.round
    ensures c in DisplayedCourses(allCourses, filterCategory, filterRound, "")
  {
    assert Trim("") == "";
    DisplayedExactly(allCourses, filterCategory, filterRound, "", c);
  }
}
