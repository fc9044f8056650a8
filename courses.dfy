/** The course side of the engine: finding a course or lesson by id (the
    first match, as `find` and `findIndex` do) and the edits that rebuild a
    course with changed lessons. */
module Courses {
  import opened Strings
  import opened Seqs
  import opened Calendar
  import opened Records

  // ---- Lookups ----

  /** `cs.findIndex(c => c.id === id)`, None for -1. */
  function CourseIndex(cs: seq<Course>, id: string): (r: Option<nat>)
    ensures r.Some? ==> r.value < |cs| && cs[r.value].id == id
    ensures r.Some? ==> forall j :: 0 <= j < r.value ==> cs[j].id != id
    ensures r.None? ==> forall j :: 0 <= j < |cs| ==> cs[j].id != id
  {
    if cs == [] then None
    else if cs[0].id == id then Some(0)
    else match CourseIndex(cs[1..], id)
      case None => None
      case Some(k) => Some(k + 1)
  }

  /** `cs.find(c => c.id === id)`. */
  function FindCourse(cs: seq<Course>, id: string): (r: Option<Course>)
    ensures r.Some? ==> r.value in cs && r.value.id == id
    ensures r.None? ==> forall c :: c in cs ==> c.id != id
  {
    match CourseIndex(cs, id)
    case None => None
    case Some(i) => Some(cs[i])
  }

  /** `ls.findIndex(l => l.id === id)`, None for -1. */
  function LessonIndex(ls: seq<Lesson>, id: string): (r: Option<nat>)
    ensures r.Some? ==> r.value < |ls| && ls[r.value].id == id
    ensures r.Some? ==> forall j :: 0 <= j < r.value ==> ls[j].id != id
    ensures r.None? ==> forall j :: 0 <= j < |ls| ==> ls[j].id != id
  {
    if ls == [] then None
    else if ls[0].id == id then Some(0)
    else match LessonIndex(ls[1..], id)
      case None => None
      case Some(k) => Some(k + 1)
  }

  /** `course.lessons.find(l => l.id === id)`. */
  function FindLesson(c: Course, id: string): (r: Option<Lesson>)
    ensures r.Some? ==> r.value in c.lessons && r.value.id == id
    ensures r.None? ==> forall l :: l in c.lessons ==> l.id != id
  {
    match LessonIndex(c.lessons, id)
    case None => None
    case Some(i) => Some(c.lessons[i])
  }

  /** The roster the dashboard shows for a course id and a lesson id. */
  function Roster(cs: seq<Course>, courseId: string, lessonId: string): Option<seq<string>> {
    match FindCourse(cs, courseId)
    case None => None
    case Some(c) =>
      match FindLesson(c, lessonId)
      case None => None
      case Some(l) => Some(l.students)
  }

  /** The student is on the roster shown for that course and lesson. */
  predicate InRoster(cs: seq<Course>, courseId: string, lessonId: string, sid: string) {
    Roster(cs, courseId, lessonId).Some? && sid in Roster(cs, courseId, lessonId).value
  }

  /** Two course lists with the same ids at the same places have the same lookups by index. */
  lemma {:induction false} CourseIndexSameIds(cs: seq<Course>, ds: seq<Course>, id: string)
    requires |cs| == |ds| && forall i :: 0 <= i < |cs| ==> cs[i].id == ds[i].id
    ensures CourseIndex(cs, id) == CourseIndex(ds, id)
  {
    if cs != [] {
      CourseIndexSameIds(cs[1..], ds[1..], id);
    }
  }

  lemma {:induction false} LessonIndexSameIds(ls: seq<Lesson>, ms: seq<Lesson>, id: string)
    requires |ls| == |ms| && forall i :: 0 <= i < |ls| ==> ls[i].id == ms[i].id
    ensures LessonIndex(ls, id) == LessonIndex(ms, id)
  {
    if ls != [] {
      LessonIndexSameIds(ls[1..], ms[1..], id);
    }
  }

  // ---- Edits of one course ----

  /** The course with the same id, name, time slot and path and these lessons
      in place of its own (`{ ...course, lessons }`). */
  predicate SameCourse(c: Course, d: Course) {
    d.id == c.id && d.name == c.name && d.timeSlot == c.timeSlot && d.path == c.path
    && |d.lessons| == |c.lessons|
    && forall i :: 0 <= i < |c.lessons| ==> d.lessons[i].id == c.lessons[i].id
  }

  /** Every lesson with that id gets the student added, once (`[...new Set([...students, sid])]`). */
  function AddToRoster(c: Course, lessonId: string, sid: string): (r: Course)
    ensures SameCourse(c, r)
    ensures forall i :: 0 <= i < |c.lessons| ==> (r.lessons[i] ==
      if c.lessons[i].id == lessonId then c.lessons[i].(students := Dedup(c.lessons[i].students + [sid]))
       else c.lessons[i])
  {
    c.(lessons := seq(|c.lessons|, i requires 0 <= i < |c.lessons| =>
      if c.lessons[i].id == lessonId then c.lessons[i].(students := Dedup(c.lessons[i].students + [sid]))
      else c.lessons[i]))
  }

  /** Every lesson with that id loses the student. */
  function DropFromRoster(c: Course, lessonId: string, sid: string): (r: Course)
    ensures SameCourse(c, r)
    ensures forall i :: 0 <= i < |c.lessons| ==> (r.lessons[i] ==
      if c.lessons[i].id == lessonId then c.lessons[i].(students := Filter(c.lessons[i].students, (s: string) => s != sid))
       else c.lessons[i])
  {
    c.(lessons := seq(|c.lessons|, i requires 0 <= i < |c.lessons| =>
      if c.lessons[i].id == lessonId then c.lessons[i].(students := Filter(c.lessons[i].students, (s: string) => s != sid))
      else c.lessons[i]))
  }

  /** Every lesson of the course gets the student added, once. */
  function AddToEveryRoster(c: Course, sid: string): (r: Course)
    ensures SameCourse(c, r)
    ensures forall i :: 0 <= i < |c.lessons| ==> r.lessons[i] == c.lessons[i].(students := Dedup(c.lessons[i].students + [sid]))
  {
    c.(lessons := seq(|c.lessons|, i requires 0 <= i < |c.lessons| =>
      c.lessons[i].(students := Dedup(c.lessons[i].students + [sid]))))
  }

  /** Every lesson with that id gets the completion flag. */
  function SetCompleted(c: Course, lessonId: string, done: bool): (r: Course)
    ensures SameCourse(c, r)
    ensures forall i :: 0 <= i < |c.lessons| ==> (r.lessons[i] ==
      if c.lessons[i].id == lessonId then c.lessons[i].(completed := done) else c.lessons[i])
  {
    c.(lessons := seq(|c.lessons|, i requires 0 <= i < |c.lessons| =>
      if c.lessons[i].id == lessonId then c.lessons[i].(completed := done) else c.lessons[i]))
  }

  /** The lessons from position `start` on move by `days` days. */
  function ShiftFrom(c: Course, start: nat, days: int): (r: Course)
    ensures SameCourse(c, r)
    ensures forall i :: 0 <= i < |c.lessons| ==> (r.lessons[i] ==
      if i >= start then c.lessons[i].(dateStr := c.lessons[i].dateStr + days) else c.lessons[i])
  {
    c.(lessons := seq(|c.lessons|, i requires 0 <= i < |c.lessons| =>
      if i >= start then c.lessons[i].(dateStr := c.lessons[i].dateStr + days) else c.lessons[i]))
  }

  // ---- Edits of the course list ----

  /** Every course with the id of `d` becomes `d` (`prev.map(c => c.id === d.id ? d : c)`). */
  function ReplaceCourse(cs: seq<Course>, d: Course): (r: seq<Course>)
    ensures |r| == |cs| && forall i :: 0 <= i < |cs| ==> r[i] == if cs[i].id == d.id then d else cs[i]
  {
    seq(|cs|, i requires 0 <= i < |cs| => if cs[i].id == d.id then d else cs[i])
  }

  /** Replaced courses keep their place and id, so every course id finds the same position. */
  lemma ReplaceCourseIndex(cs: seq<Course>, d: Course, id: string)
    ensures CourseIndex(ReplaceCourse(cs, d), id) == CourseIndex(cs, id)
  {
    CourseIndexSameIds(cs, ReplaceCourse(cs, d), id);
  }

  /** Replacing a course that is there: its id now finds `d`, other ids find what they found. */
  lemma FindAfterReplace(cs: seq<Course>, d: Course, id: string)
    requires FindCourse(cs, d.id).Some?
    ensures FindCourse(ReplaceCourse(cs, d), id) == if id == d.id then Some(d) else FindCourse(cs, id)
  {
    ReplaceCourseIndex(cs, d, id);
  }

  /** Edited lessons keep their place and id, so every lesson id finds the same position. */
  lemma FindLessonInEdited(c: Course, d: Course, id: string)
    requires SameCourse(c, d)
    ensures LessonIndex(d.lessons, id) == LessonIndex(c.lessons, id)
    ensures FindLesson(d, id).Some? <==> FindLesson(c, id).Some?
    ensures FindLesson(d, id).Some? ==> FindLesson(d, id).value == d.lessons[LessonIndex(c.lessons, id).value]
  {
    LessonIndexSameIds(c.lessons, d.lessons, id);
  }

  /** An edit that leaves every lesson of other ids as it was leaves their lookups as they were. */
  lemma FindLessonUntouched(c: Course, d: Course, edited: string, id: string)
    requires SameCourse(c, d) && id != edited
    requires forall i :: 0 <= i < |c.lessons| && c.lessons[i].id != edited ==> d.lessons[i] == c.lessons[i]
    ensures FindLesson(d, id) == FindLesson(c, id)
  {
    FindLessonInEdited(c, d, id);
  }

  /** `prev.filter(c => c.id !== id)`. */
  function RemoveCourse(cs: seq<Course>, id: string): (r: seq<Course>)
    ensures forall c :: c in r <==> c in cs && c.id != id
    ensures FindCourse(r, id).None?
  {
    Filter(cs, (c: Course) => c.id != id)
  }
}
