/** The records the dashboard keeps: courses with their lessons and rosters,
    the enrollment entries of a student, and the loosely shaped items that
    stored student documents may hold. Optional text fields use "" for a
    missing value unless a missing value behaves differently from "" (then
    they are an Option). Dates are day numbers (Calendar.Day). */
module Records {
  import opened Strings
  import opened Calendar

  // ---- JavaScript values that are not plain strings ----

  /** A stored lesson id: missing, a string or a (non-negative integer) number. */
  datatype RawId = NoId | TextId(text: string) | NumId(num: nat)

  /** `String(x)`. */
  function IdString(x: RawId): string {
    match x
    case NoId => "undefined"
    case TextId(s) => s
    case NumId(n) => NatToString(n)
  }

  /** Whether `x` is truthy: a missing id, "" and 0 are not. */
  predicate Truthy(x: RawId) {
    match x
    case NoId => false
    case TextId(s) => s != ""
    case NumId(n) => n != 0
  }

  /** `a || b` on ids. */
  function OrId(a: RawId, b: RawId): (r: RawId)
    ensures Truthy(a) ==> r == a
    ensures !Truthy(a) ==> r == b
  {
    if Truthy(a) then a else b
  }

  /** `a || b` on strings, where "" stands for a missing value as well. */
  function Or(a: string, b: string): (r: string)
    ensures a != "" ==> r == a
    ensures a == "" ==> r == b
  {
    if a != "" then a else b
  }

  /** `a || b` on an optional string. */
  function OrOpt(a: Option<string>, b: string): (r: string)
    ensures a.Some? && a.value != "" ==> r == a.value
    ensures !(a.Some? && a.value != "") ==> r == b
  {
    if a.Some? && a.value != "" then a.value else b
  }

  // ---- Courses ----

  datatype Lesson = Lesson(id: string, name: string, dateStr: Day, completed: bool, students: seq<string>)

  datatype CoursePath = CoursePath(category: string, round: string)

  datatype Course = Course(id: string, name: string, timeSlot: string, path: CoursePath, lessons: seq<Lesson>)

  // ---- Student enrollment ----

  /** An entry of a student's flat enrollment. Its `id` and `lessonId` are
      always the same text, so one field holds both. */
  datatype StudentLesson = StudentLesson(
    courseId: string, lessonId: string, courseName: string, name: string,
    dateStr: Day, timeSlot: string, completed: bool)

  /** An item of a stored enrollment, in any of the shapes older versions
      wrote: a flat entry, a flat entry without a course id (identified by
      `actualCourseId` or by course name plus round) or a group whose
      `lessons` array holds the entries. */
  datatype RawItem = RawItem(
    id: RawId, lessonId: RawId, courseId: string, actualCourseId: string,
    courseName: Option<string>, round: Option<string>, name: string,
    dateStr: Day, timeSlot: string, completed: bool,
    lessons: Option<seq<RawItem>>)

  /** The `enrollment` field of a student document: missing, an array, or an
      object whose values (in order) are the items. */
  datatype EnrollmentField = Absent | Flat(items: seq<RawItem>) | Keyed(values: seq<RawItem>)

  /** `Array.isArray(e) ? e : Object.values(e || [])`. */
  function ItemsOf(e: EnrollmentField): (r: seq<RawItem>)
    ensures e.Absent? ==> r == []
  {
    match e
    case Absent => []
    case Flat(items) => items
    case Keyed(values) => values
  }

  /** A stored student document: the name in its personal information and its enrollment. */
  datatype StudentDoc = StudentDoc(name: string, enrollment: EnrollmentField)

  /** The stored form of an entry of a flat enrollment. */
  function ToRaw(e: StudentLesson): (r: RawItem)
    ensures r.lessons.None? && IdString(r.id) == e.lessonId && IdString(r.lessonId) == e.lessonId
  {
    RawItem(TextId(e.lessonId), TextId(e.lessonId), e.courseId, "", Some(e.courseName), None,
            e.name, e.dateStr, e.timeSlot, e.completed, None)
  }

  function ToRaws(es: seq<StudentLesson>): (r: seq<RawItem>)
    ensures |r| == |es| && forall i :: 0 <= i < |es| ==> r[i] == ToRaw(es[i])
  {
    seq(|es|, i requires 0 <= i < |es| => ToRaw(es[i]))
  }

  /** The lesson ids of entries, in order (`enrollment.map(e => String(e.lessonId))`). */
  function LessonIds(es: seq<StudentLesson>): (r: seq<string>)
    ensures |r| == |es| && forall k :: 0 <= k < |r| ==> r[k] == es[k].lessonId
  {
    seq(|es|, k requires 0 <= k < |es| => es[k].lessonId)
  }

  /** The same for stored items, whose `lessonId` field is read as stored. */
  function RawLessonIds(items: seq<RawItem>): (r: seq<string>)
    ensures |r| == |items| && forall k :: 0 <= k < |r| ==> r[k] == IdString(items[k].lessonId)
  {
    seq(|items|, k requires 0 <= k < |items| => IdString(items[k].lessonId))
  }

  // ---- Potential students and lesson-change requests ----

  /** A stored potential-student document. */
  datatype PotentialDoc = PotentialDoc(name: string, possibleCourseId: string, enrollment: seq<RawItem>)

  datatype RequestStatus = Pending | Approved | Rejected

  /** A lesson-change request: the lesson a student leaves and the slot they asked for. */
  datatype Request = Request(
    studentId: string, status: RequestStatus,
    lessonCourseId: string, lessonId: RawId,
    slotCourseId: string, slotLessonId: string)
}
