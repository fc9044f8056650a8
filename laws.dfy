/** What each operation does to the rosters and to the stored enrollments,
    proved about the functions of module Steps. */
module Laws {
  import opened Strings
  import opened Seqs
  import opened Calendar
  import opened Records
  import opened AdminConstants
  import opened Sync
  import opened Courses
  import opened Steps

  // ---- Lookups in an edited course list ----

  lemma ReplaceForAddFinds(cs: seq<Course>, nc: Course, oc: Option<Course>, id: string)
    ensures CourseIndex(ReplaceForAdd(cs, nc, oc), id) == CourseIndex(cs, id)
    ensures FindCourse(ReplaceForAdd(cs, nc, oc), id) ==
      match FindCourse(cs, id)
      case None => None
      case Some(c) => Some(if id == nc.id then nc else if oc.Some? && id == oc.value.id then oc.value else c)
  {
    CourseIndexSameIds(cs, ReplaceForAdd(cs, nc, oc), id);
  }

  /** The roster of a lesson of an edited course: the edited lesson at the
      place the lesson id found in the original course. */
  lemma RosterInEdited(c: Course, d: Course, lessonId: string)
    requires SameCourse(c, d)
    ensures FindLesson(d, lessonId).Some? <==> FindLesson(c, lessonId).Some?
    ensures FindLesson(c, lessonId).Some? ==>
      exists j :: 0 <= j < |c.lessons| && c.lessons[j] == FindLesson(c, lessonId).value
                  && FindLesson(d, lessonId).value == d.lessons[j]
  {
    FindLessonInEdited(c, d, lessonId);
  }

  // ---- addStudentToLesson ----

  /** A successful add is the state `Added` computes. */
  lemma AddStepSucceeds(st: State, courseId: string, lessonId: string, sid: string)
    requires AddStep(st, courseId, lessonId, sid).1 == Success
    ensures sid in st.students && Roster(st.courses, courseId, lessonId).Some?
    ensures var c := FindCourse(st.courses, courseId).value;
            var l := FindLesson(c, lessonId).value;
            c.id == courseId && l.id == lessonId && AddStep(st, courseId, lessonId, sid).0 == Added(st, c, l, sid)
  {
  }

  lemma AddedRosterOfTarget(st: State, c: Course, l: Lesson, sid: string)
    requires sid in st.students && FindCourse(st.courses, c.id) == Some(c) && FindLesson(c, l.id) == Some(l)
    requires |l.students| < MaxStudents && sid !in l.students
    ensures var after := Roster(Added(st, c, l, sid).courses, c.id, l.id);
            && after.Some?
            && NoDup(after.value) && sid in after.value
            && (forall s :: s in after.value <==> s in l.students || s == sid)
            && |after.value| <= MaxStudents
            && (NoDup(l.students) ==> after.value == l.students + [sid])
  {
    var nc := AddToRoster(c, l.id, sid);
    ReplaceForAddFinds(st.courses, nc, MovedOut(st, c.id, l.id, sid), c.id);
    FindLessonInEdited(c, nc, l.id);
    assert Roster(Added(st, c, l, sid).courses, c.id, l.id) == Some(Dedup(l.students + [sid]));
    assert |Dedup(l.students + [sid])| <= |l.students| + 1;
    if NoDup(l.students) {
      DedupAppendFresh(l.students, sid);
    }
  }

  /** After a successful add the target roster holds the student exactly once,
      it holds what it held plus the student (grown by one when it had no
      repeats) and it is within the capacity. */
  lemma AddPutsStudentOnRoster(st: State, courseId: string, lessonId: string, sid: string)
    requires AddStep(st, courseId, lessonId, sid).1 == Success
    ensures var before := Roster(st.courses, courseId, lessonId).value;
            var after := Roster(AddStep(st, courseId, lessonId, sid).0.courses, courseId, lessonId);
            && after.Some?
            && NoDup(after.value) && sid in after.value && sid !in before
            && (forall s :: s in after.value <==> s in before || s == sid)
            && |after.value| <= MaxStudents
            && (NoDup(before) ==> after.value == before + [sid])
  {
    AddStepSucceeds(st, courseId, lessonId, sid);
    var c := FindCourse(st.courses, courseId).value;
    var l := FindLesson(c, lessonId).value;
    AddedRosterOfTarget(st, c, l, sid);
  }

  /** After a successful add that found the student in the same lesson of
      another course, that course's roster of the lesson no longer holds them
      and keeps everyone else. */
  lemma AddMovesOutOfOldCourse(st: State, courseId: string, lessonId: string, sid: string)
    requires AddStep(st, courseId, lessonId, sid).1 == Success
    requires OldCourse(st.courses, ItemsOf(st.students[sid].enrollment), courseId, lessonId).Some?
    ensures var prior := OldCourse(st.courses, ItemsOf(st.students[sid].enrollment), courseId, lessonId).value;
            var before := Roster(st.courses, prior.id, lessonId);
            var after := Roster(AddStep(st, courseId, lessonId, sid).0.courses, prior.id, lessonId);
            && (after.Some? <==> before.Some?)
            && (after.Some? ==> forall s :: s in after.value <==> s in before.value && s != sid)
  {
    AddStepSucceeds(st, courseId, lessonId, sid);
    var c := FindCourse(st.courses, courseId).value;
    var l := FindLesson(c, lessonId).value;
    AddedRosterOfOld(st, c, l, sid);
  }

  lemma AddedRosterOfOld(st: State, c: Course, l: Lesson, sid: string)
    requires sid in st.students
    requires OldCourse(st.courses, ItemsOf(st.students[sid].enrollment), c.id, l.id).Some?
    ensures var prior := OldCourse(st.courses, ItemsOf(st.students[sid].enrollment), c.id, l.id).value;
            var before := Roster(st.courses, prior.id, l.id);
            var after := Roster(Added(st, c, l, sid).courses, prior.id, l.id);
            && (after.Some? <==> before.Some?)
            && (after.Some? ==> forall s :: s in after.value <==> s in before.value && s != sid)
  {
    var o := OldCourse(st.courses, ItemsOf(st.students[sid].enrollment), c.id, l.id).value;
    var dropped := DropFromRoster(o, l.id, sid);
    assert MovedOut(st, c.id, l.id, sid) == Some(dropped);
    ReplaceForAddFinds(st.courses, AddToRoster(c, l.id, sid), Some(dropped), o.id);
    FindLessonInEdited(o, dropped, l.id);
  }

  /** A successful add changes no roster except the target lesson's and the
      same lesson's in the course the student moved out of. */
  lemma AddKeepsOtherRosters(st: State, courseId: string, lessonId: string, sid: string, cid: string, lid: string)
    requires AddStep(st, courseId, lessonId, sid).1 == Success
    requires cid != courseId || lid != lessonId
    requires var oc := OldCourse(st.courses, ItemsOf(st.students[sid].enrollment), courseId, lessonId);
             oc.None? || cid != oc.value.id || lid != lessonId
    ensures Roster(AddStep(st, courseId, lessonId, sid).0.courses, cid, lid) == Roster(st.courses, cid, lid)
  {
    AddStepSucceeds(st, courseId, lessonId, sid);
    var c := FindCourse(st.courses, courseId).value;
    var l := FindLesson(c, lessonId).value;
    AddedKeepsOthers(st, c, l, sid, cid, lid);
  }

  /** On the course list alone: the add's replacement leaves every roster other
      than the target lesson and the same lesson of the course moved out of. */
  lemma ForAddKeepsOthers(cs: seq<Course>, c: Course, edited: string, sid: string, o: Option<Course>, cid: string, lid: string)
    requires FindCourse(cs, c.id) == Some(c)
    requires o.Some? ==> FindCourse(cs, o.value.id) == o
    requires cid != c.id || lid != edited
    requires o.None? || cid != o.value.id || lid != edited
    ensures var moved := if o.Some? then Some(DropFromRoster(o.value, edited, sid)) else None;
            Roster(ReplaceForAdd(cs, AddToRoster(c, edited, sid), moved), cid, lid) == Roster(cs, cid, lid)
  {
    var moved := if o.Some? then Some(DropFromRoster(o.value, edited, sid)) else None;
    var nc := AddToRoster(c, edited, sid);
    ReplaceForAddFinds(cs, nc, moved, cid);
    if cid == c.id {
      FindLessonUntouched(c, nc, edited, lid);
    } else if o.Some? && cid == o.value.id {
      FindLessonUntouched(o.value, moved.value, edited, lid);
    }
  }

  lemma AddedKeepsOthers(st: State, c: Course, l: Lesson, sid: string, cid: string, lid: string)
    requires sid in st.students && FindCourse(st.courses, c.id) == Some(c)
    requires cid != c.id || lid != l.id
    requires var oc := OldCourse(st.courses, ItemsOf(st.students[sid].enrollment), c.id, l.id);
             oc.None? || cid != oc.value.id || lid != l.id
    ensures Roster(Added(st, c, l, sid).courses, cid, lid) == Roster(st.courses, cid, lid)
  {
    var o := OldCourse(st.courses, ItemsOf(st.students[sid].enrollment), c.id, l.id);
    ForAddKeepsOthers(st.courses, c, l.id, sid, o, cid, lid);
  }

  lemma AddedEnrollment(st: State, c: Course, l: Lesson, sid: string)
    requires sid in st.students
    ensures Added(st, c, l, sid).students[sid].enrollment
            == Flat(ToRaws(SortByDate(Apply(View(st.students[sid]), AddLesson(LessonEntry(c, l))))))
  {
  }

  /** After a successful add the student's stored enrollment holds exactly
      one item with the lesson id: the new entry, in the target course. */
  lemma AddLeavesOneEntryForLesson(st: State, courseId: string, lessonId: string, sid: string)
    requires AddStep(st, courseId, lessonId, sid).1 == Success
    ensures var c := FindCourse(st.courses, courseId).value;
            var n := LessonEntry(c, FindLesson(c, lessonId).value);
            var items := ItemsOf(AddStep(st, courseId, lessonId, sid).0.students[sid].enrollment);
            && ToRaw(n) in items
            && (forall k :: 0 <= k < |items| && IdString(items[k].lessonId) == lessonId ==> items[k] == ToRaw(n))
            && (forall i, j :: 0 <= i < j < |items| ==>
                  IdString(items[i].lessonId) != lessonId || IdString(items[j].lessonId) != lessonId)
  {
    AddStepSucceeds(st, courseId, lessonId, sid);
    var c := FindCourse(st.courses, courseId).value;
    var l := FindLesson(c, lessonId).value;
    AddedOneEntry(st, c, l, sid);
  }

  lemma AddedOneEntry(st: State, c: Course, l: Lesson, sid: string)
    requires sid in st.students
    ensures var n := LessonEntry(c, l);
            var items := ItemsOf(Added(st, c, l, sid).students[sid].enrollment);
            && ToRaw(n) in items
            && (forall k :: 0 <= k < |items| && IdString(items[k].lessonId) == l.id ==> items[k] == ToRaw(n))
            && (forall i, j :: 0 <= i < j < |items| ==>
                  IdString(items[i].lessonId) != l.id || IdString(items[j].lessonId) != l.id)
  {
    var n := LessonEntry(c, l);
    var es := SortByDate(Apply(View(st.students[sid]), AddLesson(n)));
    AddedEnrollment(st, c, l, sid);
    AddLessonSingleOrdinal(View(st.students[sid]), n);
    OneEntryStored(Added(st, c, l, sid).students[sid].enrollment, es, n);
  }

  /** The stored field written from entries with exactly one entry for a lesson id. */
  lemma OneEntryStored(field: EnrollmentField, es: seq<StudentLesson>, n: StudentLesson)
    requires field == Flat(ToRaws(es))
    requires n in es && forall e :: e in es && e.lessonId == n.lessonId ==> e == n
    requires forall i, j :: 0 <= i < j < |es| ==> es[i].lessonId != n.lessonId || es[j].lessonId != n.lessonId
    ensures var items := ItemsOf(field);
            && ToRaw(n) in items
            && (forall k :: 0 <= k < |items| && IdString(items[k].lessonId) == n.lessonId ==> items[k] == ToRaw(n))
            && (forall i, j :: 0 <= i < j < |items| ==>
                  IdString(items[i].lessonId) != n.lessonId || IdString(items[j].lessonId) != n.lessonId)
  {
    OneEntryWritten(es, n);
  }

  /** The stored form of entries with exactly one entry for a lesson id. */
  lemma OneEntryWritten(es: seq<StudentLesson>, n: StudentLesson)
    requires n in es && forall e :: e in es && e.lessonId == n.lessonId ==> e == n
    requires forall i, j :: 0 <= i < j < |es| ==> es[i].lessonId != n.lessonId || es[j].lessonId != n.lessonId
    ensures var items := ToRaws(es);
            && ToRaw(n) in items
            && (forall k :: 0 <= k < |items| && IdString(items[k].lessonId) == n.lessonId ==> items[k] == ToRaw(n))
            && (forall i, j :: 0 <= i < j < |items| ==>
                  IdString(items[i].lessonId) != n.lessonId || IdString(items[j].lessonId) != n.lessonId)
  {
    var items := ToRaws(es);
    var k0 :| 0 <= k0 < |es| && es[k0] == n;
    assert items[k0] == ToRaw(n);
    forall k | 0 <= k < |items| && IdString(items[k].lessonId) == n.lessonId
      ensures items[k] == ToRaw(n)
    {
      assert es[k] in es;
    }
  }

  // ---- removeStudentFromLesson ----

  /** After a removal from a known course, the first roster of that lesson no
      longer holds the student and keeps everyone else; every other roster is
      unchanged. */
  lemma RemoveTakesStudentOff(st: State, courseId: string, lessonId: string, sid: string, cid: string, lid: string)
    requires FindCourse(st.courses, courseId).Some?
    ensures var before := Roster(st.courses, courseId, lessonId);
            var after := Roster(RemoveStep(st, courseId, lessonId, sid).courses, courseId, lessonId);
            && (after.Some? <==> before.Some?)
            && (after.Some? ==> after.value == Filter(before.value, (s: string) => s != sid) && sid !in after.value)
    ensures cid != courseId || lid != lessonId ==>
            Roster(RemoveStep(st, courseId, lessonId, sid).courses, cid, lid) == Roster(st.courses, cid, lid)
  {
    var c := FindCourse(st.courses, courseId).value;
    var d := DropFromRoster(c, lessonId, sid);
    var cs := RemoveStep(st, courseId, lessonId, sid).courses;
    assert cs == ReplaceCourse(st.courses, d);
    FindAfterReplace(st.courses, d, courseId);
    FindAfterReplace(st.courses, d, cid);
    FindLessonInEdited(c, d, lessonId);
    FindLessonInEdited(c, d, lid);
  }

  // ---- enrollStudentToCourse ----

  lemma EnrollStepSucceeds(st: State, courseId: string, sid: string)
    requires FindCourse(st.courses, courseId).Some?
    ensures EnrollStep(st, courseId, sid).0 == Enrolled(st, FindCourse(st.courses, courseId).value, sid)
  {
  }

  /** After enrolling, every lesson of the course has the student on its
      roster once, with no check of the capacity, and other courses are
      unchanged. */
  lemma EnrollAddsToEveryLesson(st: State, courseId: string, sid: string, cid: string, lid: string)
    requires FindCourse(st.courses, courseId).Some?
    ensures var before := Roster(st.courses, cid, lid);
            var after := Roster(EnrollStep(st, courseId, sid).0.courses, cid, lid);
            && (after.Some? <==> before.Some?)
            && (cid == courseId && after.Some? ==> after.value == Dedup(before.value + [sid]) && sid in after.value)
            && (cid != courseId ==> after == before)
  {
    var c := FindCourse(st.courses, courseId).value;
    EnrollStepSucceeds(st, courseId, sid);
    EnrolledRosters(st, c, sid, cid, lid);
  }

  lemma EnrolledRosters(st: State, c: Course, sid: string, cid: string, lid: string)
    requires FindCourse(st.courses, c.id) == Some(c)
    ensures var before := Roster(st.courses, cid, lid);
            var after := Roster(Enrolled(st, c, sid).courses, cid, lid);
            && (after.Some? <==> before.Some?)
            && (cid == c.id && after.Some? ==> after.value == Dedup(before.value + [sid]) && sid in after.value)
            && (cid != c.id ==> after == before)
  {
    var d := AddToEveryRoster(c, sid);
    assert Enrolled(st, c, sid).courses == ReplaceCourse(st.courses, d);
    FindAfterReplace(st.courses, d, cid);
    FindLessonInEdited(c, d, lid);
  }

  /** Enrolling writes one entry per lesson of the course into the stored
      enrollment, and keeps the entries of other course and lesson pairs. */
  lemma EnrollWritesEveryLesson(st: State, courseId: string, sid: string)
    requires FindCourse(st.courses, courseId).Some? && sid in st.students
    ensures var c := FindCourse(st.courses, courseId).value;
            var items := ItemsOf(EnrollStep(st, courseId, sid).0.students[sid].enrollment);
            && (forall l :: l in c.lessons ==> ToRaw(LessonEntry(c, l)) in items)
            && (forall e :: e in View(st.students[sid]) && Key(e) !in Keys(CourseEntries(c)) ==> ToRaw(e) in items)
  {
    var c := FindCourse(st.courses, courseId).value;
    EnrollStepSucceeds(st, courseId, sid);
    EnrolledEntries(st, c, sid);
  }

  lemma EnrolledEntries(st: State, c: Course, sid: string)
    requires sid in st.students
    ensures var items := ItemsOf(Enrolled(st, c, sid).students[sid].enrollment);
            && (forall l :: l in c.lessons ==> ToRaw(LessonEntry(c, l)) in items)
            && (forall e :: e in View(st.students[sid]) && Key(e) !in Keys(CourseEntries(c)) ==> ToRaw(e) in items)
  {
    var news := CourseEntries(c);
    var es := SortByDate(Apply(View(st.students[sid]), EnrollCourse(news)));
    assert Enrolled(st, c, sid).students[sid].enrollment == Flat(ToRaws(es));
    EnrollCourseKeeps(View(st.students[sid]), news);
    forall l | l in c.lessons ensures ToRaw(LessonEntry(c, l)) in ToRaws(es) {
      var i :| 0 <= i < |c.lessons| && c.lessons[i] == l;
      assert news[i] in news;
      RawOfMember(es, news[i]);
    }
    forall e | e in View(st.students[sid]) && Key(e) !in Keys(news) ensures ToRaw(e) in ToRaws(es) {
      RawOfMember(es, e);
    }
  }

  lemma RawOfMember(es: seq<StudentLesson>, e: StudentLesson)
    requires e in es
    ensures ToRaw(e) in ToRaws(es)
  {
    var k :| 0 <= k < |es| && es[k] == e;
    assert ToRaws(es)[k] == ToRaw(e);
  }

  // ---- promotePotentialStudent ----

  /** A failed promotion still leaves the student document it created. */
  lemma PromoteFailureKeepsCreatedStudent(st: State, potentialId: string, sid: string, name: string, courseId: string)
    requires sid !in st.students && FindCourse(st.courses, courseId).None?
    ensures var (r, o) := PromoteStep(st, potentialId, sid, name, courseId);
            o == Failure("Course not found") && r.students == st.students[sid := StudentDoc(name, Flat([]))]
            && r.potentials == st.potentials
  {
  }

  // ---- addPotentialStudent / removePotentialStudent ----

  /** Removing the potential student just added under a fresh id gives the
      state back. */
  lemma RemoveUndoesAddPotential(st: State, newId: string, name: string, courseId: string, trial: Option<RawItem>)
    requires newId !in st.potentials
    ensures RemovePotentialStep(AddPotentialStep(st, newId, name, courseId, trial).0, newId).0 == st
  {
    var r := RemovePotentialStep(AddPotentialStep(st, newId, name, courseId, trial).0, newId).0;
    assert r.potentials == st.potentials;
  }

  /** Promoting a potential student just added under a fresh id, into a
      listed course, leaves the potential list as it was before the add. */
  lemma PromoteClearsAddedPotential(st: State, newId: string, name: string, courseId: string, trial: Option<RawItem>,
                                    sid: string)
    requires newId !in st.potentials && FindCourse(st.courses, courseId).Some?
    ensures var added := AddPotentialStep(st, newId, name, courseId, trial).0;
            var (r, o) := PromoteStep(added, newId, sid, name, courseId);
            o == Success && r.potentials == st.potentials
  {
    var added := AddPotentialStep(st, newId, name, courseId, trial).0;
    assert added.courses == st.courses;
    assert added.potentials - {newId} == st.potentials;
  }

  // ---- The dashboard's student list ----

  /** After a sync of a listed student, the list holds the entries the sync
      wrote: its lesson ids are those of the stored document, read back. */
  lemma SyncedListsWritten(st: State, sid: string, a: Action)
    requires sid in st.students && sid in st.listed
    ensures var r := Synced(st, sid, a);
            r.listed[sid] == LessonIds(View(r.students[sid]))
  {
    NormalizeToRawsIds(SyncEntries(st.students[sid], a));
  }

  // ---- reschedulePotentialStudent ----

  /** Rescheduling a potential student a second time with the same arguments
      changes nothing more: the moved items still carry the old lesson id and
      already have the new course, name, date and time slot. */
  lemma ReschedulePotentialIdempotent(st: State, pid: string, oldLessonId: string,
                                      newCourseId: string, date: Day, timeSlot: string)
    ensures var once := ReschedulePotentialStep(st, pid, oldLessonId, newCourseId, date, timeSlot).0;
            ReschedulePotentialStep(once, pid, oldLessonId, newCourseId, date, timeSlot).0 == once
  {
    var once := ReschedulePotentialStep(st, pid, oldLessonId, newCourseId, date, timeSlot).0;
    var twice := ReschedulePotentialStep(once, pid, oldLessonId, newCourseId, date, timeSlot).0;
    if pid in st.potentials {
      var name := CourseNameOf(st.courses, newCourseId);
      var p := once.potentials[pid];
      var q := twice.potentials[pid];
      forall i | 0 <= i < |p.enrollment| ensures q.enrollment[i] == p.enrollment[i] {
        var x := st.potentials[pid].enrollment[i];
        if IdString(x.id) == oldLessonId {
          assert p.enrollment[i] == MovedPotentialItem(x, newCourseId, name, date, timeSlot);
          assert MovedPotentialItem(p.enrollment[i], newCourseId, name, date, timeSlot) == p.enrollment[i];
        }
      }
      assert q == p;
      assert twice.potentials == once.potentials;
    }
  }

  /** Only the items of the old lesson move, and every item keeps its lesson
      id and completion; the items of other lessons stay as they were. */
  lemma ReschedulePotentialKeepsLessons(st: State, pid: string, oldLessonId: string,
                                        newCourseId: string, date: Day, timeSlot: string, i: nat)
    requires pid in st.potentials && i < |st.potentials[pid].enrollment|
    ensures var before := st.potentials[pid].enrollment[i];
            var after := ReschedulePotentialStep(st, pid, oldLessonId, newCourseId, date, timeSlot).0.potentials[pid].enrollment[i];
            && after.id == before.id && after.lessonId == before.lessonId && after.completed == before.completed
            && (IdString(before.id) == oldLessonId ==>
                  after.courseId == newCourseId && after.dateStr == date && after.timeSlot == timeSlot)
            && (IdString(before.id) != oldLessonId ==> after == before)
  {
  }

  // ---- rescheduleStudent ----

  /** After a reschedule the new lesson's roster holds the student, and the
      old lesson's roster does not unless it is the new one. */
  lemma RescheduleMovesOnRosters(st: State, sid: string, oldCourseId: string, oldLessonId: string,
                                 newCourseId: string, newLessonId: string, date: Day, timeSlot: string)
    requires RescheduleStep(st, sid, oldCourseId, oldLessonId, newCourseId, newLessonId, date, timeSlot).1 == Success
    ensures var cs := RescheduleStep(st, sid, oldCourseId, oldLessonId, newCourseId, newLessonId, date, timeSlot).0.courses;
            && (Roster(st.courses, newCourseId, newLessonId).Some? ==> InRoster(cs, newCourseId, newLessonId, sid))
            && ((oldCourseId, oldLessonId) != (newCourseId, newLessonId) ==> !InRoster(cs, oldCourseId, oldLessonId, sid))
  {
    var cs := RescheduleCourses(st.courses, sid, oldCourseId, oldLessonId, newCourseId, newLessonId);
    assert RescheduleStep(st, sid, oldCourseId, oldLessonId, newCourseId, newLessonId, date, timeSlot).0.courses == cs;
    if Roster(st.courses, newCourseId, newLessonId).Some? {
      RescheduledOntoNew(st.courses, sid, oldCourseId, oldLessonId, newCourseId, newLessonId);
    }
    if (oldCourseId, oldLessonId) != (newCourseId, newLessonId) {
      RescheduledOffOld(st.courses, sid, oldCourseId, oldLessonId, newCourseId, newLessonId);
    }
  }

  lemma RescheduledSameIds(cs: seq<Course>, sid: string, oldCourseId: string, oldLessonId: string,
                           newCourseId: string, newLessonId: string, id: string)
    ensures CourseIndex(RescheduleCourses(cs, sid, oldCourseId, oldLessonId, newCourseId, newLessonId), id) == CourseIndex(cs, id)
  {
    var ds := RescheduleCourses(cs, sid, oldCourseId, oldLessonId, newCourseId, newLessonId);
    forall i | 0 <= i < |cs| ensures ds[i].id == cs[i].id {
      assert SameCourse(cs[i], ds[i]);
    }
    CourseIndexSameIds(cs, ds, id);
  }

  lemma RescheduledOntoNew(cs: seq<Course>, sid: string, oldCourseId: string, oldLessonId: string,
                           newCourseId: string, newLessonId: string)
    requires Roster(cs, newCourseId, newLessonId).Some?
    ensures InRoster(RescheduleCourses(cs, sid, oldCourseId, oldLessonId, newCourseId, newLessonId), newCourseId, newLessonId, sid)
  {
    var c := FindCourse(cs, newCourseId).value;
    RescheduledFinds(cs, sid, oldCourseId, oldLessonId, newCourseId, newLessonId, newCourseId);
    var off := if c.id == oldCourseId then DropFromRoster(c, oldLessonId, sid) else c;
    FindLessonInEdited(c, off, newLessonId);
    AddToRosterHas(off, newLessonId, sid);
  }

  /** A lookup after a reschedule finds the rescheduled version of the course found before. */
  lemma RescheduledFinds(cs: seq<Course>, sid: string, oldCourseId: string, oldLessonId: string,
                         newCourseId: string, newLessonId: string, id: string)
    ensures var ds := RescheduleCourses(cs, sid, oldCourseId, oldLessonId, newCourseId, newLessonId);
            FindCourse(ds, id) ==
              if FindCourse(cs, id).None? then None
              else Some(RescheduleCourse(FindCourse(cs, id).value, sid, oldCourseId, oldLessonId, newCourseId, newLessonId))
  {
    RescheduledSameIds(cs, sid, oldCourseId, oldLessonId, newCourseId, newLessonId, id);
  }

  /** After an add the lesson's roster holds the student. */
  lemma AddToRosterHas(c: Course, lessonId: string, sid: string)
    requires FindLesson(c, lessonId).Some?
    ensures FindLesson(AddToRoster(c, lessonId, sid), lessonId).Some?
    ensures sid in FindLesson(AddToRoster(c, lessonId, sid), lessonId).value.students
  {
    var d := AddToRoster(c, lessonId, sid);
    FindLessonInEdited(c, d, lessonId);
    var j := LessonIndex(c.lessons, lessonId).value;
    assert FindLesson(d, lessonId).value == d.lessons[j];
    assert sid in d.lessons[j].students;
  }

  lemma RescheduledOffOld(cs: seq<Course>, sid: string, oldCourseId: string, oldLessonId: string,
                          newCourseId: string, newLessonId: string)
    requires (oldCourseId, oldLessonId) != (newCourseId, newLessonId)
    ensures !InRoster(RescheduleCourses(cs, sid, oldCourseId, oldLessonId, newCourseId, newLessonId), oldCourseId, oldLessonId, sid)
  {
    var ds := RescheduleCourses(cs, sid, oldCourseId, oldLessonId, newCourseId, newLessonId);
    RescheduledSameIds(cs, sid, oldCourseId, oldLessonId, newCourseId, newLessonId, oldCourseId);
    if CourseIndex(cs, oldCourseId).Some? {
      var i := CourseIndex(cs, oldCourseId).value;
      var c := cs[i];
      var off := DropFromRoster(c, oldLessonId, sid);
      FindLessonInEdited(c, off, oldLessonId);
      if oldCourseId == newCourseId {
        assert ds[i] == AddToRoster(off, newLessonId, sid);
        FindLessonInEdited(off, ds[i], oldLessonId);
      } else {
        assert ds[i] == off;
      }
    }
  }

  /** A reschedule changes exactly the stored items of the old lesson of the
      old course: their course, date and time slot; their lesson id and
      everything else stays, and so does every other item. */
  lemma RescheduleRewritesMatchingItems(st: State, sid: string, oldCourseId: string, oldLessonId: string,
                                        newCourseId: string, newLessonId: string, date: Day, timeSlot: string)
    requires RescheduleStep(st, sid, oldCourseId, oldLessonId, newCourseId, newLessonId, date, timeSlot).1 == Success
    ensures var before := ItemsOf(st.students[sid].enrollment);
            var after := ItemsOf(RescheduleStep(st, sid, oldCourseId, oldLessonId, newCourseId, newLessonId, date, timeSlot).0.students[sid].enrollment);
            && |after| == |before|
            && forall k :: 0 <= k < |before| ==>
                 if Rescheduled(before[k], oldCourseId, oldLessonId)
                 then after[k].courseId == newCourseId && after[k].dateStr == date && after[k].timeSlot == timeSlot
                      && after[k].id == before[k].id && after[k].lessonId == before[k].lessonId
                      && after[k].completed == before[k].completed
                 else after[k] == before[k]
  {
  }

  // ---- toggleLessonCompletion and shiftCourseDates ----

  /** Course ids are unique, as document ids are. */
  predicate UniqueCourseIds(cs: seq<Course>) {
    UniqueBy(cs, (c: Course) => c.id)
  }

  /** Lesson ids are unique within every course. */
  predicate UniqueLessonIds(cs: seq<Course>) {
    forall c :: c in cs ==> UniqueBy(c.lessons, (l: Lesson) => l.id)
  }

  lemma DistinctCourseIds(cs: seq<Course>, i: nat, j: nat)
    requires UniqueCourseIds(cs) && i < |cs| && j < |cs| && i != j
    ensures cs[i].id != cs[j].id
  {
    var key := (c: Course) => c.id;
    if i < j { assert key(cs[i]) != key(cs[j]); } else { assert key(cs[j]) != key(cs[i]); }
  }

  lemma DistinctLessonIds(ls: seq<Lesson>, i: nat, j: nat)
    requires UniqueBy(ls, (l: Lesson) => l.id) && i < |ls| && j < |ls| && i != j
    ensures ls[i].id != ls[j].id
  {
    var key := (l: Lesson) => l.id;
    if i < j { assert key(ls[i]) != key(ls[j]); } else { assert key(ls[j]) != key(ls[i]); }
  }

  /** With unique course ids, replacing a course by itself changes nothing. */
  lemma ReplaceBySame(cs: seq<Course>, i: nat)
    requires UniqueCourseIds(cs) && i < |cs|
    ensures ReplaceCourse(cs, cs[i]) == cs
  {
    var r := ReplaceCourse(cs, cs[i]);
    forall j | 0 <= j < |cs| ensures r[j] == cs[j] {
      if j != i {
        DistinctCourseIds(cs, i, j);
      }
    }
  }

  /** Replacing a course twice keeps the second replacement. */
  lemma ReplaceTwice(cs: seq<Course>, d: Course, e: Course)
    requires d.id == e.id
    ensures ReplaceCourse(ReplaceCourse(cs, d), e) == ReplaceCourse(cs, e)
  {
  }

  /** Toggling a lesson to the opposite of its flag and back restores the state
      (the timetable toggles with `!completed`). */
  lemma ToggleTwiceRestores(st: State, courseId: string, lessonId: string)
    requires UniqueCourseIds(st.courses) && UniqueLessonIds(st.courses)
    requires Roster(st.courses, courseId, lessonId).Some?
    ensures var c := FindCourse(st.courses, courseId).value;
            var done := FindLesson(c, lessonId).value.completed;
            ToggleStep(ToggleStep(st, courseId, lessonId, !done), courseId, lessonId, done) == st
  {
    var i := CourseIndex(st.courses, courseId).value;
    var c := st.courses[i];
    var j := LessonIndex(c.lessons, lessonId).value;
    var done := c.lessons[j].completed;
    var once := SetCompleted(c, lessonId, !done);
    var st1 := ToggleStep(st, courseId, lessonId, !done);
    assert st1.courses == ReplaceCourse(st.courses, once);
    FindAfterReplace(st.courses, once, courseId);
    var twice := SetCompleted(once, lessonId, done);
    assert ToggleStep(st1, courseId, lessonId, done).courses == ReplaceCourse(st1.courses, twice);
    ReplaceTwice(st.courses, once, twice);
    assert c in st.courses;
    forall k | 0 <= k < |c.lessons| ensures twice.lessons[k] == c.lessons[k] {
      if k != j {
        DistinctLessonIds(c.lessons, j, k);
      }
    }
    assert twice == c;
    ReplaceBySame(st.courses, i);
  }

  /** The state after a shift that found its course and start lesson. */
  lemma ShiftStepFound(st: State, courseId: string, startLessonId: string, direction: int)
    requires Roster(st.courses, courseId, startLessonId).Some?
    ensures var c := FindCourse(st.courses, courseId).value;
            var k := LessonIndex(c.lessons, startLessonId).value;
            ShiftStep(st, courseId, startLessonId, direction) == st.(courses := ReplaceCourse(st.courses, ShiftFrom(c, k, 7 * direction)))
  {
  }

  /** A shift from a course and a lesson position it finds. */
  lemma ShiftStepAt(st: State, courseId: string, startLessonId: string, direction: int, c: Course, k: nat)
    requires FindCourse(st.courses, courseId) == Some(c) && LessonIndex(c.lessons, startLessonId) == Some(k)
    ensures ShiftStep(st, courseId, startLessonId, direction) == st.(courses := ReplaceCourse(st.courses, ShiftFrom(c, k, 7 * direction)))
  {
  }

  /** Shifting forward and then back by the same number of weeks restores the state. */
  lemma ShiftThereAndBack(st: State, courseId: string, startLessonId: string, direction: int)
    requires UniqueCourseIds(st.courses)
    ensures ShiftStep(ShiftStep(st, courseId, startLessonId, direction), courseId, startLessonId, -direction) == st
  {
    var fc := FindCourse(st.courses, courseId);
    if fc.Some? && LessonIndex(fc.value.lessons, startLessonId).Some? {
      var i := CourseIndex(st.courses, courseId).value;
      var c := fc.value;
      assert c == st.courses[i];
      var k := LessonIndex(c.lessons, startLessonId).value;
      var once := ShiftFrom(c, k, 7 * direction);
      var st1 := st.(courses := ReplaceCourse(st.courses, once));
      ShiftStepAt(st, courseId, startLessonId, direction, c, k);
      ShiftedFinds(st.courses, c, k, 7 * direction, startLessonId);
      ShiftStepAt(st1, courseId, startLessonId, -direction, once, k);
      ShiftBack(c, k, 7 * direction, 7 * -direction);
      ReplaceTwice(st.courses, once, c);
      ReplaceBySame(st.courses, i);
    } else {
      ShiftStepMisses(st, courseId, startLessonId, direction);
      ShiftStepMisses(st, courseId, startLessonId, -direction);
    }
  }

  /** Without the course or its start lesson a shift changes nothing. */
  lemma ShiftStepMisses(st: State, courseId: string, startLessonId: string, direction: int)
    requires FindCourse(st.courses, courseId).None? || LessonIndex(FindCourse(st.courses, courseId).value.lessons, startLessonId).None?
    ensures ShiftStep(st, courseId, startLessonId, direction) == st
  {
  }

  /** After replacing a course by its shift, the course and the start lesson are found at the same places. */
  lemma ShiftedFinds(cs: seq<Course>, c: Course, k: nat, days: int, lessonId: string)
    requires FindCourse(cs, c.id) == Some(c) && LessonIndex(c.lessons, lessonId) == Some(k)
    ensures var once := ShiftFrom(c, k, days);
            && FindCourse(ReplaceCourse(cs, once), c.id) == Some(once)
            && LessonIndex(once.lessons, lessonId) == Some(k)
            && Roster(ReplaceCourse(cs, once), c.id, lessonId).Some?
  {
    var once := ShiftFrom(c, k, days);
    FindAfterReplace(cs, once, c.id);
    FindLessonInEdited(c, once, lessonId);
  }

  /** The shift back by the opposite number of days undoes a shift. */
  lemma ShiftBack(c: Course, k: nat, days: int, back: int)
    requires back == -days
    ensures ShiftFrom(ShiftFrom(c, k, days), k, back) == c
  {
    var twice := ShiftFrom(ShiftFrom(c, k, days), k, back);
    assert twice.lessons == c.lessons;
  }

  /** A shift moves the dates of the start lesson and the later lessons of the
      first course with the id, and changes no roster. */
  lemma ShiftMovesDatesOnly(st: State, courseId: string, startLessonId: string, direction: int, cid: string, lid: string)
    requires Roster(st.courses, courseId, startLessonId).Some?
    ensures var c := FindCourse(st.courses, courseId).value;
            var k := LessonIndex(c.lessons, startLessonId).value;
            var d := FindCourse(ShiftStep(st, courseId, startLessonId, direction).courses, courseId).value;
            && |d.lessons| == |c.lessons|
            && (forall i :: 0 <= i < |c.lessons| ==>
                  d.lessons[i].dateStr == (if i >= k then c.lessons[i].dateStr + 7 * direction else c.lessons[i].dateStr))
    ensures Roster(ShiftStep(st, courseId, startLessonId, direction).courses, cid, lid) == Roster(st.courses, cid, lid)
  {
    var c := FindCourse(st.courses, courseId).value;
    var k := LessonIndex(c.lessons, startLessonId).value;
    var once := ShiftFrom(c, k, 7 * direction);
    assert ShiftStep(st, courseId, startLessonId, direction).courses == ReplaceCourse(st.courses, once);
    FindAfterReplace(st.courses, once, courseId);
    FindAfterReplace(st.courses, once, cid);
    FindLessonInEdited(c, once, lid);
  }

  // ---- createCourse ----

  /** A new course has lessons "1" to "12" with the standard names, weekly
      dates from the start date (each the text `addDays(date, 7 * i)`), no
      students and no completion. */
  lemma CreatedLessons(st: State, name: string, timeSlot: string, date: string, roundNumber: string)
    requires CreateStep(st, name, timeSlot, date, roundNumber).1.Some?
    ensures var c := CreateStep(st, name, timeSlot, date, roundNumber).0.courses[|st.courses|];
            && |c.lessons| == 12
            && forall i :: 0 <= i < 12 ==>
                 && c.lessons[i].id == NatToString(i + 1)
                 && c.lessons[i].name == DefaultLessonNames[i]
                 && c.lessons[i].students == [] && !c.lessons[i].completed
                 && c.lessons[i].dateStr == DayOfText(date).value + 7 * i
                 && (InRange(c.lessons[i].dateStr) ==> AddDaysText(date, 7 * i) == Some(TextOfDay(c.lessons[i].dateStr)))
  {
    var z := DayOfText(date).value;
    var c := CreateStep(st, name, timeSlot, date, roundNumber).0.courses[|st.courses|];
    assert c == NewCourse(name, timeSlot, z, roundNumber);
    NewCourseLessons(c, date, z);
  }

  /** The lessons of a course built by NewCourse from a start date. */
  lemma NewCourseLessons(c: Course, date: string, z: Day)
    requires c.lessons == NewLessons(z) && DayOfText(date) == Some(z)
    ensures && |c.lessons| == 12
            && forall i :: 0 <= i < 12 ==>
                 && c.lessons[i].id == NatToString(i + 1)
                 && c.lessons[i].name == DefaultLessonNames[i]
                 && c.lessons[i].students == [] && !c.lessons[i].completed
                 && c.lessons[i].dateStr == z + 7 * i
                 && (InRange(c.lessons[i].dateStr) ==> AddDaysText(date, 7 * i) == Some(TextOfDay(c.lessons[i].dateStr)))
  {
    forall i | 0 <= i < 12
      ensures && c.lessons[i].id == NatToString(i + 1)
              && c.lessons[i].name == DefaultLessonNames[i]
              && c.lessons[i].students == [] && !c.lessons[i].completed
              && c.lessons[i].dateStr == z + 7 * i
              && (InRange(c.lessons[i].dateStr) ==> AddDaysText(date, 7 * i) == Some(TextOfDay(c.lessons[i].dateStr)))
    {
      NewCourseLesson(c, date, z, i);
    }
  }

  /** The i-th lesson of a course built by NewCourse from a start date. */
  lemma NewCourseLesson(c: Course, date: string, z: Day, i: nat)
    requires c.lessons == NewLessons(z) && DayOfText(date) == Some(z) && i < 12
    ensures && c.lessons[i].id == NatToString(i + 1)
            && c.lessons[i].name == DefaultLessonNames[i]
            && c.lessons[i].students == [] && !c.lessons[i].completed
            && c.lessons[i].dateStr == z + 7 * i
            && (InRange(c.lessons[i].dateStr) ==> AddDaysText(date, 7 * i) == Some(TextOfDay(c.lessons[i].dateStr)))
  {
    NewLessonAt(z, i);
    if InRange(z + 7 * i) {
      NewLessonDate(date, z, i);
    }
  }

  /** The i-th lesson of a new course. */
  lemma NewLessonAt(z: Day, i: nat)
    requires i < 12
    ensures NewLessons(z)[i] == Lesson(NatToString(i + 1), DefaultLessonNames[i], z + 7 * i, false, [])
  {
  }

  /** The date of the i-th lesson of a new course is `addDays(date, 7 * i)`. */
  lemma NewLessonDate(date: string, z: Day, i: nat)
    requires DayOfText(date) == Some(z) && InRange(z + 7 * i) && i < 12
    ensures AddDaysText(date, 7 * i) == Some(TextOfDay(z + 7 * i))
  {
    AddDaysTextIs(date, 7 * i, z, z + 7 * i);
  }

  /** The lesson ids of a new course are distinct. */
  lemma CreatedLessonIdsDistinct(start: Day)
    ensures UniqueBy(NewLessons(start), (l: Lesson) => l.id)
  {
    var ls := NewLessons(start);
    forall i, j | 0 <= i < j < |ls| ensures ls[i].id != ls[j].id {
      NatToStringValue(i + 1);
      NatToStringValue(j + 1);
    }
  }

  // ---- handleRequest ----

  /** Approving a request of a student the dashboard lists marks it approved
      even when the add fails; the student has then left the request's
      lesson all the same. */
  lemma ApproveMarksApproved(st: State, requestId: string, req: Request)
    requires req.studentId in st.listed && !req.lessonId.NoId?
    requires requestId in st.requests
    ensures HandleRequestStep(st, requestId, req, true).requests[requestId].status == Approved
    ensures var removed := RemoveStep(st, req.lessonCourseId, IdString(req.lessonId), req.studentId);
            AddStep(removed, req.slotCourseId, req.slotLessonId, req.studentId).1 != Success ==>
              HandleRequestStep(st, requestId, req, true).courses == removed.courses
  {
    var removed := RemoveStep(st, req.lessonCourseId, IdString(req.lessonId), req.studentId);
    var (added, _) := AddStep(removed, req.slotCourseId, req.slotLessonId, req.studentId);
    assert requestId in added.requests;
  }
}
