/** `findMissingLessons`: for each of the twelve standard lessons a student
    has no entry for, the lessons with that id in any course that still
    have room, earliest first. */
module Missing {
  import opened Strings
  import opened Seqs
  import opened Calendar
  import opened Records
  import opened Courses
  import opened AdminConstants

  /** A place the student could take the missing lesson. */
  datatype Slot = Slot(courseId: string, courseName: string, dateStr: Day, timeSlot: string, lessonId: string)

  /** A missing lesson and the places it can be taken. */
  datatype MissingLesson = MissingLesson(lessonId: string, lessonName: string, slots: seq<Slot>)

  /** The slot a course offers for its first lesson with that id when it has room. */
  function SlotOf(c: Course, targetId: string): (r: Option<Slot>)
    ensures r.Some? <==> FindLesson(c, targetId).Some? && |FindLesson(c, targetId).value.students| < MaxStudents
    ensures r.Some? ==> r.value == Slot(c.id, c.name, FindLesson(c, targetId).value.dateStr, c.timeSlot, targetId)
  {
    match FindLesson(c, targetId)
    case None => None
    case Some(l) => if |l.students| >= MaxStudents then None else Some(Slot(c.id, c.name, l.dateStr, c.timeSlot, targetId))
  }

  /** The slots of the courses for one lesson id, in course order. */
  function SlotsFor(cs: seq<Course>, targetId: string): (r: seq<Slot>)
    ensures |r| <= |cs|
    decreases |cs|
  {
    if cs == [] then []
    else
      var prior := SlotsFor(cs[..|cs| - 1], targetId);
      match SlotOf(cs[|cs| - 1], targetId)
      case None => prior
      case Some(s) => prior + [s]
  }

  /** A slot comes from a course that has a lesson with that id and room on it,
      and every such course gives one. */
  lemma SlotsForExact(cs: seq<Course>, targetId: string, s: Slot)
    ensures s in SlotsFor(cs, targetId) <==> exists i :: 0 <= i < |cs| && SlotOf(cs[i], targetId) == Some(s)
  {
    SlotsForSome(cs, targetId, s);
    GivesSlotSome(cs, targetId, s);
  }

  /** The test "this course gives slot s". */
  function GivesSlot(targetId: string, s: Slot): Course -> bool {
    c => SlotOf(c, targetId) == Some(s)
  }

  lemma GivesSlotSome(cs: seq<Course>, targetId: string, s: Slot)
    ensures SomeOf(cs, GivesSlot(targetId, s)) <==> exists i :: 0 <= i < |cs| && SlotOf(cs[i], targetId) == Some(s)
  {
  }

  lemma {:induction false} SlotsForSome(cs: seq<Course>, targetId: string, s: Slot)
    ensures s in SlotsFor(cs, targetId) <==> SomeOf(cs, GivesSlot(targetId, s))
    decreases |cs|
  {
    if cs != [] {
      SlotsForSome(cs[..|cs| - 1], targetId, s);
      SomeOfLast(cs, GivesSlot(targetId, s));
    }
  }

  /** `new Date(a.dateStr).getTime() - new Date(b.dateStr).getTime()`, as an order. */
  predicate BySlotDate(a: Slot, b: Slot) {
    a.dateStr <= b.dateStr
  }

  /** The slots for a lesson id, earliest first (ties keep course order). */
  function SortedSlots(cs: seq<Course>, targetId: string): (r: seq<Slot>)
    ensures multiset(r) == multiset(SlotsFor(cs, targetId)) && SortedBy(r, BySlotDate)
  {
    assert TotalPreorder(BySlotDate);
    SortBySorted(SlotsFor(cs, targetId), BySlotDate);
    SortBy(SlotsFor(cs, targetId), BySlotDate)
  }

  /** The lesson with ordinal m (1 to 12) is missing and can be taken somewhere. */
  predicate Wanted(cs: seq<Course>, enrolled: seq<string>, m: nat) {
    NatToString(m) !in enrolled && SlotsFor(cs, NatToString(m)) != []
  }

  /** The entry `findMissingLessons` lists for ordinal m. */
  function MissingFor(cs: seq<Course>, m: nat): MissingLesson
    requires 1 <= m <= |DefaultLessonNames|
  {
    MissingLesson(NatToString(m), DefaultLessonNames[m - 1], SortedSlots(cs, NatToString(m)))
  }

  /** The ordinals from 1 to n that are wanted, in increasing order. */
  function MissingOrdinals(cs: seq<Course>, enrolled: seq<string>, n: nat): (r: seq<nat>)
    requires n <= |DefaultLessonNames|
    ensures forall k :: 0 <= k < |r| ==> 1 <= r[k] <= n && Wanted(cs, enrolled, r[k])
    ensures forall k, k' :: 0 <= k < k' < |r| ==> r[k] < r[k']
  {
    if n == 0 then []
    else MissingOrdinals(cs, enrolled, n - 1) + (if Wanted(cs, enrolled, n) then [n] else [])
  }

  /** Every wanted ordinal up to n is among them. */
  lemma {:induction false} MissingOrdinalsComplete(cs: seq<Course>, enrolled: seq<string>, n: nat, m: nat)
    requires n <= |DefaultLessonNames| && 1 <= m <= n && Wanted(cs, enrolled, m)
    ensures m in MissingOrdinals(cs, enrolled, n)
  {
    if m < n {
      MissingOrdinalsComplete(cs, enrolled, n - 1, m);
    }
  }

  /** The entries for ordinals 1 to n. */
  function MissingUpTo(cs: seq<Course>, enrolled: seq<string>, n: nat): (r: seq<MissingLesson>)
    requires n <= |DefaultLessonNames|
  {
    var ords := MissingOrdinals(cs, enrolled, n);
    seq(|ords|, k requires 0 <= k < |ords| => MissingFor(cs, ords[k]))
  }

  /** `findMissingLessons` for a student whose listed entries have these
      lesson ids (`String(e.lessonId)` of each). */
  function FindMissing(cs: seq<Course>, enrolled: seq<string>): seq<MissingLesson> {
    MissingUpTo(cs, enrolled, |DefaultLessonNames|)
  }

  /** `findMissingLessons` lists a lesson exactly when the student has no
      entry with its id and some course has a lesson with that id with room. */
  lemma FindMissingExact(cs: seq<Course>, enrolled: seq<string>, m: nat)
    requires 1 <= m <= |DefaultLessonNames|
    ensures MissingFor(cs, m) in FindMissing(cs, enrolled) <==> Wanted(cs, enrolled, m)
  {
    var ords := MissingOrdinals(cs, enrolled, |DefaultLessonNames|);
    var r := FindMissing(cs, enrolled);
    if Wanted(cs, enrolled, m) {
      MissingOrdinalsComplete(cs, enrolled, |DefaultLessonNames|, m);
      var k :| 0 <= k < |ords| && ords[k] == m;
      assert r[k] == MissingFor(cs, m);
    }
    if MissingFor(cs, m) in r {
      var k :| 0 <= k < |r| && r[k] == MissingFor(cs, m);
      assert r[k].lessonId == NatToString(ords[k]);
      NatToStringInjective(ords[k], m);
    }
  }

  /** The lessons are listed in order of their ids' numbers. */
  lemma FindMissingInOrder(cs: seq<Course>, enrolled: seq<string>)
    ensures var r := FindMissing(cs, enrolled);
            forall k, k' :: 0 <= k < k' < |r| ==> DigitsValue(r[k].lessonId) < DigitsValue(r[k'].lessonId)
  {
    var ords := MissingOrdinals(cs, enrolled, |DefaultLessonNames|);
    var r := FindMissing(cs, enrolled);
    forall k, k' | 0 <= k < k' < |r| ensures DigitsValue(r[k].lessonId) < DigitsValue(r[k'].lessonId) {
      assert r[k].lessonId == NatToString(ords[k]) && r[k'].lessonId == NatToString(ords[k']);
      NatToStringValue(ords[k]);
      NatToStringValue(ords[k']);
    }
  }

  /** An ordinal the student already has an entry for is never listed. */
  lemma EnrolledNeverMissing(cs: seq<Course>, enrolled: seq<string>, o: MissingLesson)
    requires o in FindMissing(cs, enrolled)
    ensures o.lessonId !in enrolled
    ensures o.slots != [] && SortedBy(o.slots, BySlotDate)
    ensures forall s :: s in o.slots ==>
              s.lessonId == o.lessonId && exists i :: 0 <= i < |cs| && SlotOf(cs[i], o.lessonId) == Some(s)
  {
    var ords := MissingOrdinals(cs, enrolled, |DefaultLessonNames|);
    var r := FindMissing(cs, enrolled);
    var k :| 0 <= k < |r| && r[k] == o;
    var m := ords[k];
    assert o == MissingFor(cs, m);
    assert multiset(o.slots) == multiset(SlotsFor(cs, o.lessonId));
    forall s | s in o.slots ensures s.lessonId == o.lessonId && exists i :: 0 <= i < |cs| && SlotOf(cs[i], o.lessonId) == Some(s) {
      assert s in multiset(SlotsFor(cs, o.lessonId));
      SlotsForExact(cs, o.lessonId, s);
    }
  }
}
