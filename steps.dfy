/** The dashboard's operations as functions of its whole state. The store
    and the in-memory copy are one state here: a course list, the student
    documents, the potential-student documents and the lesson-change
    requests, plus the category and round filter lists. The in-memory
    student list is kept apart, because it is filled at load time by its
    own reading of the documents. Each function gives
    the state after the operation and, where the operation reports one, its
    result. */
module Steps {
  import opened Strings
  import opened Seqs
  import opened Calendar
  import opened Records
  import opened AdminConstants
  import opened Sync
  import opened Courses

  /** The dashboard's store and its in-memory lists. `listed` is the
      student list the dashboard keeps beside the store (`allStudents`): for
      each listed student, the `String(lessonId)` of each of their entries,
      which is all of it that the engine reads. */
  datatype State = State(
    courses: seq<Course>,
    students: map<string, StudentDoc>,
    potentials: map<string, PotentialDoc>,
    requests: map<string, Request>,
    categories: seq<string>,
    rounds: seq<string>,
    listed: map<string, seq<string>>)

  /** `{ success: true }`, `{ success: false, msg }`, or a rejected promise
      (an exception nothing catches). */
  datatype Outcome = Success | Failure(msg: string) | Throws

  // ---- syncStudentProfile ----

  /** The state after a sync of one student's document (nothing happens when
      the document does not exist). */
  function Synced(st: State, sid: string, a: Action): (r: State)
    ensures sid !in st.students ==> r == st
    ensures r.courses == st.courses && r.potentials == st.potentials && r.requests == st.requests
    ensures r.categories == st.categories && r.rounds == st.rounds
    ensures r.students.Keys == st.students.Keys
    ensures forall s :: s in st.students && s != sid ==> r.students[s] == st.students[s]
    ensures r.listed.Keys == st.listed.Keys
    ensures forall s :: s in st.listed && s != sid ==> r.listed[s] == st.listed[s]
    ensures sid in st.students && sid in st.listed ==> r.listed[sid] == LessonIds(SyncEntries(st.students[sid], a))
  {
    if sid !in st.students then st
    else
      var listed := if sid in st.listed then st.listed[sid := LessonIds(SyncEntries(st.students[sid], a))] else st.listed;
      st.(students := st.students[sid := SyncDoc(st.students[sid], a)], listed := listed)
  }

  /** The student list after `[...prev, newStudent]` for a new student with
      no entries, as `find` by id reads it: an id already listed keeps its
      earlier entry. */
  function ListedWith(listed: map<string, seq<string>>, sid: string): (r: map<string, seq<string>>)
    ensures r.Keys == listed.Keys + {sid}
    ensures sid !in listed ==> r[sid] == []
    ensures forall s :: s in listed ==> r[s] == listed[s]
  {
    if sid in listed then listed else listed[sid := []]
  }

  /** The entry written for a lesson of a course: not completed, with the
      course's id, name and time slot and the lesson's id, name and date. */
  function LessonEntry(c: Course, l: Lesson): (e: StudentLesson)
    ensures e.courseId == c.id && e.lessonId == l.id && e.dateStr == l.dateStr && !e.completed
  {
    StudentLesson(c.id, l.id, c.name, l.name, l.dateStr, c.timeSlot, false)
  }

  // ---- addStudentToLesson ----

  /** A stored item with that lesson id in some other course (an item with
      no course id is in another course too). */
  predicate Conflicts(item: RawItem, courseId: string, lessonId: string) {
    IdString(item.lessonId) == lessonId && (item.courseId == "" || item.courseId != courseId)
  }

  /** The position of the first conflicting item. */
  function ConflictIndex(items: seq<RawItem>, courseId: string, lessonId: string): (r: Option<nat>)
    ensures r.Some? ==> r.value < |items| && Conflicts(items[r.value], courseId, lessonId)
    ensures r.Some? ==> forall j :: 0 <= j < r.value ==> !Conflicts(items[j], courseId, lessonId)
    ensures r.None? ==> forall j :: 0 <= j < |items| ==> !Conflicts(items[j], courseId, lessonId)
  {
    if items == [] then None
    else if Conflicts(items[0], courseId, lessonId) then Some(0)
    else match ConflictIndex(items[1..], courseId, lessonId)
      case None => None
      case Some(k) => Some(k + 1)
  }

  /** The course the student is moved out of: the course named by the first
      conflicting item, when there is one and it exists. */
  function OldCourse(cs: seq<Course>, items: seq<RawItem>, courseId: string, lessonId: string): (r: Option<Course>)
    ensures r.Some? ==> r.value in cs && r.value.id != courseId
    ensures r.Some? ==> r == FindCourse(cs, r.value.id)
  {
    match ConflictIndex(items, courseId, lessonId)
    case None => None
    case Some(k) => if items[k].courseId == "" then None else FindCourse(cs, items[k].courseId)
  }

  /** Every course with the new course's id becomes it, and every course with
      the old course's id becomes the old one. */
  function ReplaceForAdd(cs: seq<Course>, nc: Course, oc: Option<Course>): (r: seq<Course>)
    ensures |r| == |cs|
    ensures forall i :: 0 <= i < |cs| ==>
              r[i] == (if cs[i].id == nc.id then nc else if oc.Some? && cs[i].id == oc.value.id then oc.value else cs[i])
  {
    seq(|cs|, i requires 0 <= i < |cs| =>
      if cs[i].id == nc.id then nc else if oc.Some? && cs[i].id == oc.value.id then oc.value else cs[i])
  }

  /** `addStudentToLesson`: the guards in their order, then the move out of a
      conflicting course, the sync and the roster update. */
  function AddStep(st: State, courseId: string, lessonId: string, sid: string): (r: (State, Outcome))
    ensures sid !in st.students ==> r == (st, Failure("Student not found"))
    ensures sid in st.students && FindCourse(st.courses, courseId).None? ==> r == (st, Failure("Course not found"))
    ensures sid in st.students && FindCourse(st.courses, courseId).Some? && Roster(st.courses, courseId, lessonId).None?
            ==> r == (st, Failure("Lesson not found"))
    ensures sid in st.students && Roster(st.courses, courseId, lessonId).Some?
            && |Roster(st.courses, courseId, lessonId).value| >= MaxStudents
            ==> r == (st, Failure("Class full"))
    ensures sid in st.students && Roster(st.courses, courseId, lessonId).Some?
            && |Roster(st.courses, courseId, lessonId).value| < MaxStudents
            && sid in Roster(st.courses, courseId, lessonId).value
            ==> r == (st, Failure("Already in lesson"))
    ensures r.1 == Success <==>
            sid in st.students && Roster(st.courses, courseId, lessonId).Some?
            && |Roster(st.courses, courseId, lessonId).value| < MaxStudents
            && sid !in Roster(st.courses, courseId, lessonId).value
    ensures r.1 != Success ==> r.1.Failure? && r.0 == st
    ensures r.0.potentials == st.potentials && r.0.requests == st.requests && r.0.students.Keys == st.students.Keys
  {
    if sid !in st.students then (st, Failure("Student not found"))
    else match FindCourse(st.courses, courseId)
      case None => (st, Failure("Course not found"))
      case Some(c) =>
        match FindLesson(c, lessonId)
        case None => (st, Failure("Lesson not found"))
        case Some(l) =>
          if |l.students| >= MaxStudents then (st, Failure("Class full"))
          else if sid in l.students then (st, Failure("Already in lesson"))
          else (Added(st, c, l, sid), Success)
  }

  /** The course the student leaves, with the student off its roster of the lesson. */
  function MovedOut(st: State, courseId: string, lessonId: string, sid: string): (r: Option<Course>)
    requires sid in st.students
  {
    match OldCourse(st.courses, ItemsOf(st.students[sid].enrollment), courseId, lessonId)
    case None => None
    case Some(o) => Some(DropFromRoster(o, lessonId, sid))
  }

  /** The state after the add passed its guards: the sync with the new entry,
      the student on the roster of the lesson and off the roster of the same
      lesson in the course they move out of. */
  function Added(st: State, c: Course, l: Lesson, sid: string): (r: State)
    requires sid in st.students
  {
    Synced(st, sid, AddLesson(LessonEntry(c, l))).(
      courses := ReplaceForAdd(st.courses, AddToRoster(c, l.id, sid), MovedOut(st, c.id, l.id, sid)))
  }

  // ---- removeStudentFromLesson ----

  /** `removeStudentFromLesson`: nothing for an unknown course, otherwise the
      sync and the roster update. */
  function RemoveStep(st: State, courseId: string, lessonId: string, sid: string): (r: State)
    ensures FindCourse(st.courses, courseId).None? ==> r == st
    ensures r.potentials == st.potentials && r.requests == st.requests && r.students.Keys == st.students.Keys
  {
    match FindCourse(st.courses, courseId)
    case None => st
    case Some(c) =>
      Synced(st, sid, RemoveLesson(c.id, lessonId)).(courses := ReplaceCourse(st.courses, DropFromRoster(c, lessonId, sid)))
  }

  // ---- enrollStudentToCourse ----

  /** One entry per lesson of the course, in lesson order. */
  function CourseEntries(c: Course): (r: seq<StudentLesson>)
    ensures |r| == |c.lessons| && forall i :: 0 <= i < |c.lessons| ==> r[i] == LessonEntry(c, c.lessons[i])
  {
    seq(|c.lessons|, i requires 0 <= i < |c.lessons| => LessonEntry(c, c.lessons[i]))
  }

  /** `enrollStudentToCourse`: "Course not found", or the sync and every roster of the course updated. */
  function EnrollStep(st: State, courseId: string, sid: string): (r: (State, Outcome))
    ensures FindCourse(st.courses, courseId).None? ==> r == (st, Failure("Course not found"))
    ensures FindCourse(st.courses, courseId).Some? ==> r.1 == Success
    ensures r.0.potentials == st.potentials && r.0.requests == st.requests && r.0.students.Keys == st.students.Keys
  {
    match FindCourse(st.courses, courseId)
    case None => (st, Failure("Course not found"))
    case Some(c) => (Enrolled(st, c, sid), Success)
  }

  /** The state after enrolling in a course that exists. */
  function Enrolled(st: State, c: Course, sid: string): State {
    Synced(st, sid, EnrollCourse(CourseEntries(c))).(courses := ReplaceCourse(st.courses, AddToEveryRoster(c, sid)))
  }

  // ---- promotePotentialStudent ----

  /** `promotePotentialStudent`: create the student document if there is
      none, enroll, and on success delete the potential-student document. A
      failed enrollment keeps the created document. */
  function PromoteStep(st: State, potentialId: string, sid: string, name: string, courseId: string): (r: (State, Outcome))
    ensures sid in r.0.students
    ensures sid !in st.students ==> r.0.students[sid].name == name
    ensures FindCourse(st.courses, courseId).None? ==> r.1 == Failure("Course not found") && r.0.potentials == st.potentials
    ensures FindCourse(st.courses, courseId).Some? ==> r.1 == Success && r.0.potentials == st.potentials - {potentialId}
  {
    var created := if sid in st.students then st
                   else st.(students := st.students[sid := StudentDoc(name, Flat([]))], listed := ListedWith(st.listed, sid));
    var (enrolled, o) := EnrollStep(created, courseId, sid);
    if o != Success then (enrolled, Failure(Or(o.msg, "Enrollment failed")))
    else (enrolled.(potentials := enrolled.potentials - {potentialId}), Success)
  }

  // ---- addPotentialStudent / removePotentialStudent ----

  /** The stored item for one lesson of the course a potential student is
      interested in. */
  function PotentialItem(c: Course, l: Lesson): RawItem {
    RawItem(TextId(l.id), TextId(l.id), c.id, "", Some(c.name), None, l.name, l.dateStr, c.timeSlot, false, None)
  }

  /** The enrollment saved with a new potential student: every lesson of the
      course when it is listed, else the trial lesson's information when
      given, else nothing. */
  function PotentialEnrollment(courses: seq<Course>, courseId: string, trial: Option<RawItem>): (r: seq<RawItem>)
    ensures FindCourse(courses, courseId).Some? ==>
      var c := FindCourse(courses, courseId).value;
      |r| == |c.lessons| &&
      forall i :: 0 <= i < |r| ==>
        r[i].id == TextId(c.lessons[i].id) && r[i].lessonId == TextId(c.lessons[i].id) &&
        r[i].courseId == c.id && r[i].courseName == Some(c.name) && r[i].name == c.lessons[i].name &&
        r[i].dateStr == c.lessons[i].dateStr && r[i].timeSlot == c.timeSlot && !r[i].completed
    ensures FindCourse(courses, courseId).None? ==> r == if trial.Some? then [trial.value] else []
  {
    match FindCourse(courses, courseId)
    case Some(c) => seq(|c.lessons|, i requires 0 <= i < |c.lessons| => PotentialItem(c, c.lessons[i]))
    case None => if trial.Some? then [trial.value] else []
  }

  /** `addPotentialStudent`: a new potential-student document under the id
      the store hands out (`newId`), naming the course asked for. Nothing
      else changes. */
  function AddPotentialStep(st: State, newId: string, name: string, courseId: string, trial: Option<RawItem>): (r: (State, Outcome))
    ensures r.1 == Success
    ensures r.0.potentials.Keys == st.potentials.Keys + {newId}
    ensures r.0.potentials[newId] == PotentialDoc(name, courseId, PotentialEnrollment(st.courses, courseId, trial))
    ensures forall p :: p in st.potentials && p != newId ==> r.0.potentials[p] == st.potentials[p]
    ensures r.0.courses == st.courses && r.0.students == st.students && r.0.requests == st.requests
    ensures r.0.categories == st.categories && r.0.rounds == st.rounds
  {
    var doc := PotentialDoc(name, courseId, PotentialEnrollment(st.courses, courseId, trial));
    (st.(potentials := st.potentials[newId := doc]), Success)
  }

  /** `removePotentialStudent`: the document with that id is gone (deleting
      a missing one succeeds too); nothing else changes. */
  function RemovePotentialStep(st: State, id: string): (r: (State, Outcome))
    ensures r.1 == Success
    ensures r.0.potentials.Keys == st.potentials.Keys - {id}
    ensures forall p :: p in r.0.potentials ==> r.0.potentials[p] == st.potentials[p]
    ensures r.0.courses == st.courses && r.0.students == st.students && r.0.requests == st.requests
    ensures r.0.categories == st.categories && r.0.rounds == st.rounds
  {
    (st.(potentials := st.potentials - {id}), Success)
  }

  // ---- reschedulePotentialStudent ----

  /** An item of a potential student with the new course, date and time slot,
      and the new course's name when it has one. */
  function MovedPotentialItem(item: RawItem, courseId: string, courseName: string, date: Day, timeSlot: string): (r: RawItem)
    ensures r.courseId == courseId && r.dateStr == date && r.timeSlot == timeSlot
    ensures r.id == item.id && r.lessonId == item.lessonId && r.completed == item.completed
    ensures r.courseName == if courseName != "" then Some(courseName) else item.courseName
  {
    item.(courseId := courseId, courseName := if courseName != "" then Some(courseName) else item.courseName,
          dateStr := date, timeSlot := timeSlot)
  }

  /** The name of the course with that id, or "" when there is none. */
  function CourseNameOf(cs: seq<Course>, courseId: string): (r: string)
    ensures FindCourse(cs, courseId).None? ==> r == ""
    ensures FindCourse(cs, courseId).Some? ==> r == FindCourse(cs, courseId).value.name
  {
    match FindCourse(cs, courseId) case None => "" case Some(c) => c.name
  }

  /** `reschedulePotentialStudent`: every item whose `String(id)` is the old
      lesson id moves to the new course, date and time slot; its lesson id
      stays. */
  function ReschedulePotentialStep(st: State, pid: string, oldLessonId: string,
                                   newCourseId: string, date: Day, timeSlot: string): (r: (State, Outcome))
    ensures pid !in st.potentials ==> r == (st, Failure("Potential student not found"))
    ensures pid in st.potentials ==> r.1 == Success && r.0.potentials.Keys == st.potentials.Keys
    ensures pid in st.potentials ==>
              var p := st.potentials[pid];
              var q := r.0.potentials[pid];
              && q.name == p.name && q.possibleCourseId == p.possibleCourseId
              && |q.enrollment| == |p.enrollment|
              && forall i :: 0 <= i < |p.enrollment| ==>
                   q.enrollment[i] == if IdString(p.enrollment[i].id) == oldLessonId
                                      then MovedPotentialItem(p.enrollment[i], newCourseId, CourseNameOf(st.courses, newCourseId), date, timeSlot)
                                      else p.enrollment[i]
    ensures forall p :: p in st.potentials && p != pid ==> r.0.potentials[p] == st.potentials[p]
    ensures r.0.courses == st.courses && r.0.students == st.students && r.0.requests == st.requests
    ensures r.0.categories == st.categories && r.0.rounds == st.rounds && r.0.listed == st.listed
  {
    if pid !in st.potentials then (st, Failure("Potential student not found"))
    else
      var p := st.potentials[pid];
      var newName := CourseNameOf(st.courses, newCourseId);
      var items := seq(|p.enrollment|, i requires 0 <= i < |p.enrollment| =>
        if IdString(p.enrollment[i].id) == oldLessonId
        then MovedPotentialItem(p.enrollment[i], newCourseId, newName, date, timeSlot)
        else p.enrollment[i]);
      (st.(potentials := st.potentials[pid := p.(enrollment := items)]), Success)
  }

  // ---- rescheduleStudent ----

  /** `enr.courseId || enr.courseName + enr.round`; None stands for NaN (both
      parts missing), and a missing part alone reads "undefined". */
  function RescheduleCourseId(item: RawItem): Option<string> {
    if item.courseId != "" then Some(item.courseId)
    else match (item.courseName, item.round)
      case (None, None) => None
      case (Some(a), None) => Some(a + "undefined")
      case (None, Some(b)) => Some("undefined" + b)
      case (Some(a), Some(b)) => Some(a + b)
  }

  /** The items rescheduleStudent moves: those of the old course with the old lesson id. */
  predicate Rescheduled(item: RawItem, oldCourseId: string, oldLessonId: string) {
    RescheduleCourseId(item) == Some(oldCourseId) && IdString(item.id) == oldLessonId
  }

  function RescheduleItems(items: seq<RawItem>, oldCourseId: string, oldLessonId: string,
                           newCourseId: string, date: Day, timeSlot: string): (r: seq<RawItem>)
    ensures |r| == |items|
    ensures forall i :: 0 <= i < |items| ==>
              r[i] == (if Rescheduled(items[i], oldCourseId, oldLessonId)
                       then items[i].(dateStr := date, timeSlot := timeSlot, courseId := newCourseId)
                       else items[i])
  {
    seq(|items|, i requires 0 <= i < |items| =>
      if Rescheduled(items[i], oldCourseId, oldLessonId)
      then items[i].(dateStr := date, timeSlot := timeSlot, courseId := newCourseId)
      else items[i])
  }

  /** A course after the move: off the old lesson's roster if it is the old
      course, then onto the new lesson's roster if it is the new course. */
  function RescheduleCourse(c: Course, sid: string, oldCourseId: string, oldLessonId: string,
                            newCourseId: string, newLessonId: string): (r: Course)
    ensures SameCourse(c, r)
  {
    var off := if c.id == oldCourseId then DropFromRoster(c, oldLessonId, sid) else c;
    if c.id == newCourseId then AddToRoster(off, newLessonId, sid) else off
  }

  /** Every course after the move; each keeps its place and id. */
  function RescheduleCourses(cs: seq<Course>, sid: string, oldCourseId: string, oldLessonId: string,
                             newCourseId: string, newLessonId: string): (r: seq<Course>)
    ensures |r| == |cs|
    ensures forall i :: 0 <= i < |cs| ==>
              r[i] == RescheduleCourse(cs[i], sid, oldCourseId, oldLessonId, newCourseId, newLessonId)
  {
    seq(|cs|, i requires 0 <= i < |cs| => RescheduleCourse(cs[i], sid, oldCourseId, oldLessonId, newCourseId, newLessonId))
  }

  /** `rescheduleStudent`. The stored enrollment must be an array or missing:
      for an object `.map` does not exist and the call throws before writing.
      The listed student gets the rewritten stored items as they are, so
      their lesson ids are the items' `lessonId` fields, which the move keeps. */
  function RescheduleStep(st: State, sid: string, oldCourseId: string, oldLessonId: string,
                          newCourseId: string, newLessonId: string, date: Day, timeSlot: string): (r: (State, Outcome))
    ensures sid !in st.students ==> r == (st, Failure("Student not found"))
    ensures sid in st.students && st.students[sid].enrollment.Keyed? ==> r == (st, Throws)
    ensures sid in st.students && !st.students[sid].enrollment.Keyed? ==> r.1 == Success
    ensures r.0.potentials == st.potentials && r.0.requests == st.requests && r.0.students.Keys == st.students.Keys
    ensures r.0.listed.Keys == st.listed.Keys
    ensures forall s :: s in st.listed && s != sid ==> r.0.listed[s] == st.listed[s]
    ensures sid in st.students && !st.students[sid].enrollment.Keyed? && sid in st.listed ==>
              r.0.listed[sid] == RawLessonIds(ItemsOf(st.students[sid].enrollment))
  {
    if sid !in st.students then (st, Failure("Student not found"))
    else
      var doc := st.students[sid];
      if doc.enrollment.Keyed? then (st, Throws)
      else
        var items := RescheduleItems(ItemsOf(doc.enrollment), oldCourseId, oldLessonId, newCourseId, date, timeSlot);
        var cs := RescheduleCourses(st.courses, sid, oldCourseId, oldLessonId, newCourseId, newLessonId);
        var listed := if sid in st.listed then st.listed[sid := RawLessonIds(items)] else st.listed;
        (st.(students := st.students[sid := doc.(enrollment := Flat(items))], courses := cs, listed := listed), Success)
  }

  // ---- toggleLessonCompletion and shiftCourseDates ----

  /** `toggleLessonCompletion`: the lessons with that id get the flag. */
  function ToggleStep(st: State, courseId: string, lessonId: string, done: bool): (r: State)
    ensures FindCourse(st.courses, courseId).None? ==> r == st
    ensures r.students == st.students && r.potentials == st.potentials && r.requests == st.requests && |r.courses| == |st.courses|
  {
    match FindCourse(st.courses, courseId)
    case None => st
    case Some(c) => st.(courses := ReplaceCourse(st.courses, SetCompleted(c, lessonId, done)))
  }

  /** `shiftCourseDates`: the start lesson and every later lesson move by
      `7 * direction` days; nothing happens for an unknown course or lesson. */
  function ShiftStep(st: State, courseId: string, startLessonId: string, direction: int): (r: State)
    ensures FindCourse(st.courses, courseId).None? ==> r == st
    ensures FindCourse(st.courses, courseId).Some? && FindLesson(FindCourse(st.courses, courseId).value, startLessonId).None? ==> r == st
    ensures r.students == st.students && r.potentials == st.potentials && r.requests == st.requests && |r.courses| == |st.courses|
  {
    match FindCourse(st.courses, courseId)
    case None => st
    case Some(c) =>
      match LessonIndex(c.lessons, startLessonId)
      case None => st
      case Some(k) => st.(courses := ReplaceCourse(st.courses, ShiftFrom(c, k, 7 * direction)))
  }

  // ---- createCourse and deleteCourse ----

  /** The twelve lessons of a new course: lesson i + 1 has the i-th standard
      name, the date `i` weeks after the start and an empty roster. */
  function NewLessons(start: Day): (r: seq<Lesson>)
    ensures |r| == |DefaultLessonNames| == 12
  {
    seq(12, i requires 0 <= i < 12 => Lesson(NatToString(i + 1), DefaultLessonNames[i], start + 7 * i, false, []))
  }

  /** The round name: kept when it starts with "round", else "round" and the
      number padded to three digits. */
  function RoundName(roundNumber: string): (r: string)
    ensures StartsWith(r, "round")
  {
    if StartsWith(roundNumber, "round") then roundNumber else "round" + PadStart(roundNumber, 3, '0')
  }

  /** The new course: id `name_round`, the category of the name. */
  function NewCourse(name: string, timeSlot: string, start: Day, roundNumber: string): (c: Course)
    ensures c.id == name + "_" + RoundName(roundNumber) && c.name == name && c.timeSlot == timeSlot
    ensures c.path == CoursePath(CategoryFromId(name), RoundName(roundNumber))
  {
    Course(name + "_" + RoundName(roundNumber), name, timeSlot,
           CoursePath(CategoryFromId(name), RoundName(roundNumber)), NewLessons(start))
  }

  /** `[...prev, x].sort()` when x is new, else prev. */
  function AddSortedIfNew(xs: seq<string>, x: string): (r: seq<string>)
    ensures forall y :: y in r <==> y in xs || y == x
  {
    if x in xs then xs
    else
      SortByMembers(xs + [x], LexLe);
      SortBy(xs + [x], LexLe)
  }

  /** `createCourse`, with the start date as text. When the text is not a
      `YYYY-MM-DD` date the call throws before changing anything (the model
      reads every such text as an invalid date, on which `toISOString`
      throws); otherwise the result is the new course's category. Lesson
      dates are day numbers, so they may run past the year 9999. */
  function CreateStep(st: State, name: string, timeSlot: string, date: string, roundNumber: string): (r: (State, Option<string>))
    ensures r.1.None? ==> r.0 == st
    ensures r.1.Some? <==> DayOfText(date).Some?
    ensures r.1.Some? ==> r.1.value == CategoryFromId(name)
    ensures r.1.Some? ==> r.0.courses == st.courses + [NewCourse(name, timeSlot, DayOfText(date).value, roundNumber)]
    ensures r.0.students == st.students && r.0.potentials == st.potentials && r.0.requests == st.requests
  {
    match DayOfText(date)
    case None => (st, None)
    case Some(z) =>
      var c := NewCourse(name, timeSlot, z, roundNumber);
      (st.(courses := st.courses + [c],
           categories := AddSortedIfNew(st.categories, c.path.category),
           rounds := AddSortedIfNew(st.rounds, c.path.round)),
       Some(c.path.category))
  }

  /** `deleteCourse`: the course goes, the student documents stay as they are. */
  function DeleteStep(st: State, courseId: string): (r: State)
    ensures FindCourse(r.courses, courseId).None?
    ensures forall c :: c in r.courses <==> c in st.courses && c.id != courseId
    ensures r.students == st.students && r.potentials == st.potentials && r.requests == st.requests
  {
    st.(courses := RemoveCourse(st.courses, courseId))
  }

  // ---- handleRequest ----

  /** The stored request gets the status; a missing request document makes
      `updateDoc` throw, which handleRequest catches. */
  function SetStatus(st: State, requestId: string, status: RequestStatus): (r: State)
    ensures r.courses == st.courses && r.students == st.students && r.potentials == st.potentials
    ensures r.requests.Keys == st.requests.Keys
    ensures requestId in st.requests ==> r.requests[requestId] == st.requests[requestId].(status := status)
    ensures forall q :: q in st.requests && q != requestId ==> r.requests[q] == st.requests[q]
  {
    if requestId in st.requests then st.(requests := st.requests[requestId := st.requests[requestId].(status := status)])
    else st
  }

  /** `handleRequest`. Approving moves the student out of the request's lesson
      and into the chosen slot, whatever the add returns, and then marks the
      request approved. A student the dashboard does not list does nothing;
      a request lesson without an id makes `.toString()` throw (caught)
      before any change. */
  function HandleRequestStep(st: State, requestId: string, req: Request, approve: bool): (r: State)
    ensures !approve ==> r == SetStatus(st, requestId, Rejected)
    ensures approve && (req.studentId !in st.listed || req.lessonId.NoId?) ==> r == st
    ensures r.potentials == st.potentials
  {
    if !approve then SetStatus(st, requestId, Rejected)
    else if req.studentId !in st.listed || req.lessonId.NoId? then st
    else
      var removed := RemoveStep(st, req.lessonCourseId, IdString(req.lessonId), req.studentId);
      var (added, _) := AddStep(removed, req.slotCourseId, req.slotLessonId, req.studentId);
      SetStatus(added, requestId, Approved)
  }
}
