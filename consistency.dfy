/** The two halves of the enrollment relation agree: a student is on the
    roster of a lesson exactly when their enrollment has an entry for that
    course and lesson (for lessons that exist). This module states that
    agreement and the shape of well-formed state, and shows which
    operations keep it and which break it. */
module Consistency {
  import opened Strings
  import opened Seqs
  import opened Calendar
  import opened Records
  import opened AdminConstants
  import opened Sync
  import opened Courses
  import opened Steps
  import opened Laws

  // ---- The invariant ----

  /** The student's enrollment has an entry for that course and lesson. */
  ghost predicate HasEntry(st: State, sid: string, cid: string, lid: string) {
    sid in st.students && exists e :: e in View(st.students[sid]) && e.courseId == cid && e.lessonId == lid
  }

  /** Everyone on a roster has the entry for it. */
  ghost predicate RostersBacked(st: State) {
    forall cid, lid, sid :: InRoster(st.courses, cid, lid, sid) ==> HasEntry(st, sid, cid, lid)
  }

  /** Every entry for a lesson that exists has its student on the roster. */
  ghost predicate EntriesPlaced(st: State) {
    forall cid, lid, sid :: HasEntry(st, sid, cid, lid) && Roster(st.courses, cid, lid).Some? ==>
      InRoster(st.courses, cid, lid, sid)
  }

  /** Bidirectional membership. */
  ghost predicate Consistent(st: State) {
    RostersBacked(st) && EntriesPlaced(st)
  }

  /** No lesson roster holds more than the capacity. */
  ghost predicate WithinCapacity(st: State) {
    forall cid, lid :: Roster(st.courses, cid, lid).Some? ==> |Roster(st.courses, cid, lid).value| <= MaxStudents
  }

  /** An entry that names a course and a lesson, whose lesson id has no "_"
      (so the `courseId_lessonId` key names one pair). */
  predicate GoodEntry(e: StudentLesson) {
    e.courseId != "" && e.lessonId != "" && '_' !in e.lessonId
  }

  /** At most one entry per lesson id. */
  ghost predicate OnePerLesson(es: seq<StudentLesson>) {
    forall e, e' :: e in es && e' in es && e.lessonId == e'.lessonId ==> e == e'
  }

  /** A document as the dashboard writes it: a flat array of good entries, one per lesson id. */
  ghost predicate NormalDoc(doc: StudentDoc) {
    && doc.enrollment == Flat(ToRaws(View(doc)))
    && (forall e :: e in View(doc) ==> GoodEntry(e))
    && OnePerLesson(View(doc))
  }

  /** A course with an id, whose lessons have ids without "_". */
  ghost predicate GoodCourse(c: Course) {
    c.id != "" && forall l :: l in c.lessons ==> l.id != "" && '_' !in l.id
  }

  ghost predicate GoodCourses(cs: seq<Course>) {
    forall c :: c in cs ==> GoodCourse(c)
  }

  ghost predicate WellFormed(st: State) {
    GoodCourses(st.courses) && forall sid :: sid in st.students ==> NormalDoc(st.students[sid])
  }

  ghost predicate Valid(st: State) {
    WellFormed(st) && Consistent(st)
  }

  // ---- Facts used below ----

  /** When the written entries name their courses, reading the written document gives them back. */
  lemma SyncedView(doc: StudentDoc, a: Action)
    requires forall e :: e in SyncEntries(doc, a) ==> GoodEntry(e)
    ensures View(SyncDoc(doc, a)) == SyncEntries(doc, a)
  {
    NormalizeToRaws(SyncEntries(doc, a));
  }

  /** A sync whose written entries are good and one per lesson leaves a normal document. */
  lemma SyncedNormal(doc: StudentDoc, a: Action)
    requires forall e :: e in SyncEntries(doc, a) ==> GoodEntry(e)
    requires OnePerLesson(SyncEntries(doc, a))
    ensures NormalDoc(SyncDoc(doc, a)) && View(SyncDoc(doc, a)) == SyncEntries(doc, a)
  {
    SyncedView(doc, a);
  }

  /** Replacing a course by an edit that keeps every roster keeps every roster shown. */
  lemma RostersOfReplace(cs: seq<Course>, c: Course, d: Course, cid: string, lid: string)
    requires FindCourse(cs, c.id) == Some(c) && SameCourse(c, d)
    requires forall i :: 0 <= i < |c.lessons| ==> d.lessons[i].students == c.lessons[i].students
    ensures Roster(ReplaceCourse(cs, d), cid, lid) == Roster(cs, cid, lid)
  {
    FindAfterReplace(cs, d, cid);
    FindLessonInEdited(c, d, lid);
  }

  /** An edit that keeps the lesson ids keeps a course good. */
  lemma GoodEdit(c: Course, d: Course)
    requires GoodCourse(c) && SameCourse(c, d)
    ensures GoodCourse(d)
  {
    forall l | l in d.lessons ensures l.id != "" && '_' !in l.id {
      var i :| 0 <= i < |d.lessons| && d.lessons[i] == l;
      assert c.lessons[i] in c.lessons;
    }
  }

  /** Replacing courses by a same-shaped one keeps the courses good. */
  lemma GoodCoursesReplace(cs: seq<Course>, d: Course, c: Course)
    requires GoodCourses(cs) && c in cs && SameCourse(c, d)
    ensures GoodCourses(ReplaceCourse(cs, d))
  {
    GoodEdit(c, d);
  }

  // ---- toggleLessonCompletion and shiftCourseDates keep the invariant ----

  lemma ToggleKeepsRosters(st: State, courseId: string, lessonId: string, done: bool, cid: string, lid: string)
    ensures Roster(ToggleStep(st, courseId, lessonId, done).courses, cid, lid) == Roster(st.courses, cid, lid)
  {
    if FindCourse(st.courses, courseId).Some? {
      var c := FindCourse(st.courses, courseId).value;
      RostersOfReplace(st.courses, c, SetCompleted(c, lessonId, done), cid, lid);
    }
  }

  /** A step that keeps every roster and every enrollment, and keeps the courses good, keeps the invariant. */
  lemma SameRostersKeepValid(st: State, r: State)
    requires Valid(st) && r.students == st.students && GoodCourses(r.courses)
    requires forall cid, lid :: Roster(r.courses, cid, lid) == Roster(st.courses, cid, lid)
    ensures Valid(r)
  {
    assert WellFormed(r);
    forall cid, lid, sid | InRoster(r.courses, cid, lid, sid) ensures HasEntry(r, sid, cid, lid) {
      assert InRoster(st.courses, cid, lid, sid);
      assert HasEntry(st, sid, cid, lid);
    }
    forall cid, lid, sid | HasEntry(r, sid, cid, lid) && Roster(r.courses, cid, lid).Some?
      ensures InRoster(r.courses, cid, lid, sid)
    {
      assert HasEntry(st, sid, cid, lid);
    }
  }

  /** Marking a lesson complete changes no roster and no enrollment. */
  lemma TogglePreservesValid(st: State, courseId: string, lessonId: string, done: bool)
    requires Valid(st)
    ensures Valid(ToggleStep(st, courseId, lessonId, done))
  {
    var r := ToggleStep(st, courseId, lessonId, done);
    forall cid, lid ensures Roster(r.courses, cid, lid) == Roster(st.courses, cid, lid) {
      ToggleKeepsRosters(st, courseId, lessonId, done, cid, lid);
    }
    if FindCourse(st.courses, courseId).Some? {
      var c := FindCourse(st.courses, courseId).value;
      GoodCoursesReplace(st.courses, SetCompleted(c, lessonId, done), c);
    }
    SameRostersKeepValid(st, r);
  }

  lemma ShiftKeepsRosters(st: State, courseId: string, startLessonId: string, direction: int, cid: string, lid: string)
    ensures Roster(ShiftStep(st, courseId, startLessonId, direction).courses, cid, lid) == Roster(st.courses, cid, lid)
  {
    if Roster(st.courses, courseId, startLessonId).Some? {
      var c := FindCourse(st.courses, courseId).value;
      var k := LessonIndex(c.lessons, startLessonId).value;
      ShiftStepFound(st, courseId, startLessonId, direction);
      RostersOfReplace(st.courses, c, ShiftFrom(c, k, 7 * direction), cid, lid);
    }
  }

  /** Shifting dates changes no roster and no enrollment. */
  lemma ShiftPreservesValid(st: State, courseId: string, startLessonId: string, direction: int)
    requires Valid(st)
    ensures Valid(ShiftStep(st, courseId, startLessonId, direction))
  {
    var r := ShiftStep(st, courseId, startLessonId, direction);
    forall cid, lid ensures Roster(r.courses, cid, lid) == Roster(st.courses, cid, lid) {
      ShiftKeepsRosters(st, courseId, startLessonId, direction, cid, lid);
    }
    if Roster(st.courses, courseId, startLessonId).Some? {
      var c := FindCourse(st.courses, courseId).value;
      var k := LessonIndex(c.lessons, startLessonId).value;
      ShiftStepFound(st, courseId, startLessonId, direction);
      GoodCoursesReplace(st.courses, ShiftFrom(c, k, 7 * direction), c);
    }
    SameRostersKeepValid(st, r);
  }

  // ---- Copies of lesson dates ----

  /** Every entry for a lesson that exists carries the lesson's date. */
  ghost predicate DatesAgree(st: State) {
    forall sid, e :: sid in st.students && e in View(st.students[sid]) && Roster(st.courses, e.courseId, e.lessonId).Some? ==>
      e.dateStr == FindLesson(FindCourse(st.courses, e.courseId).value, e.lessonId).value.dateStr
  }

  /** A shift of a lesson someone takes leaves that student's copy of the date stale. */
  lemma ShiftLeavesStaleDates(st: State, courseId: string, startLessonId: string, direction: int, sid: string)
    requires Consistent(st) && DatesAgree(st) && direction != 0
    requires InRoster(st.courses, courseId, startLessonId, sid)
    ensures !DatesAgree(ShiftStep(st, courseId, startLessonId, direction))
  {
    var r := ShiftStep(st, courseId, startLessonId, direction);
    var c := FindCourse(st.courses, courseId).value;
    var k := LessonIndex(c.lessons, startLessonId).value;
    var d := ShiftFrom(c, k, 7 * direction);
    ShiftStepFound(st, courseId, startLessonId, direction);
    FindAfterReplace(st.courses, d, courseId);
    FindLessonInEdited(c, d, startLessonId);
    assert FindCourse(r.courses, courseId) == Some(d);
    assert FindLesson(d, startLessonId).value == d.lessons[k];
    assert d.lessons[k].dateStr == FindLesson(c, startLessonId).value.dateStr + 7 * direction;
    assert Roster(r.courses, courseId, startLessonId).Some?;
    assert HasEntry(st, sid, courseId, startLessonId);
    var e :| e in View(st.students[sid]) && e.courseId == courseId && e.lessonId == startLessonId;
    assert e.dateStr == FindLesson(c, startLessonId).value.dateStr;
    assert e in View(r.students[sid]);
  }

  // ---- deleteCourse ----

  /** After deleting a course, an entry that named it names no course at all. */
  lemma DeleteLeavesDanglingEntries(st: State, courseId: string, sid: string, e: StudentLesson)
    requires sid in st.students && e in View(st.students[sid]) && e.courseId == courseId
    ensures var r := DeleteStep(st, courseId);
            e in View(r.students[sid]) && FindCourse(r.courses, e.courseId).None?
  {
  }

  // ---- removeStudentFromLesson keeps the invariant ----

  /** Removing a lesson from a normal document drops exactly that course's
      entry for it and leaves a normal document. */
  lemma RemovedView(doc: StudentDoc, courseId: string, lessonId: string)
    requires NormalDoc(doc) && lessonId != "" && '_' !in lessonId
    ensures NormalDoc(SyncDoc(doc, RemoveLesson(courseId, lessonId)))
    ensures forall e :: e in View(SyncDoc(doc, RemoveLesson(courseId, lessonId))) <==>
              e in View(doc) && !(e.courseId == courseId && e.lessonId == lessonId)
  {
    var a := RemoveLesson(courseId, lessonId);
    RemoveLessonKeeps(View(doc), courseId, lessonId);
    forall e | e in View(doc) ensures Key(e) == TargetKey(courseId, lessonId) <==> e.courseId == courseId && e.lessonId == lessonId {
      TargetKeyIsKey(e, courseId, lessonId);
    }
    SyncedNormal(doc, a);
  }

  /** The rosters after a removal: off the target roster, the rest unchanged. */
  lemma RemovedRosters(st: State, courseId: string, lessonId: string, sid: string, cid: string, lid: string)
    requires FindCourse(st.courses, courseId).Some?
    ensures var before := Roster(st.courses, cid, lid);
            var after := Roster(RemoveStep(st, courseId, lessonId, sid).courses, cid, lid);
            && (after.Some? <==> before.Some?)
            && (after.Some? ==> forall s :: s in after.value <==>
                  s in before.value && (s != sid || cid != courseId || lid != lessonId))
  {
    RemoveTakesStudentOff(st, courseId, lessonId, sid, cid, lid);
  }

  /** The enrollments after a removal: the student's entry for the target lesson is gone, the rest unchanged. */
  lemma RemovedViews(st: State, courseId: string, lessonId: string, sid: string, s: string)
    requires WellFormed(st) && lessonId != "" && '_' !in lessonId && s in st.students
    requires FindCourse(st.courses, courseId).Some?
    ensures var r := RemoveStep(st, courseId, lessonId, sid);
            && s in r.students && NormalDoc(r.students[s])
            && forall e :: e in View(r.students[s]) <==>
                 e in View(st.students[s]) && (s != sid || e.courseId != courseId || e.lessonId != lessonId)
  {
    if s == sid {
      RemovedView(st.students[sid], courseId, lessonId);
    }
  }

  lemma RemoveKeepsWellFormed(st: State, courseId: string, lessonId: string, sid: string)
    requires WellFormed(st) && lessonId != "" && '_' !in lessonId
    ensures WellFormed(RemoveStep(st, courseId, lessonId, sid))
  {
    var r := RemoveStep(st, courseId, lessonId, sid);
    if FindCourse(st.courses, courseId).Some? {
      var c := FindCourse(st.courses, courseId).value;
      GoodCoursesReplace(st.courses, DropFromRoster(c, lessonId, sid), c);
      forall s | s in r.students ensures NormalDoc(r.students[s]) {
        RemovedViews(st, courseId, lessonId, sid, s);
      }
    }
  }

  lemma RemoveKeepsBacked(st: State, courseId: string, lessonId: string, sid: string)
    requires WellFormed(st) && RostersBacked(st) && lessonId != "" && '_' !in lessonId
    requires FindCourse(st.courses, courseId).Some?
    ensures RostersBacked(RemoveStep(st, courseId, lessonId, sid))
  {
    var r := RemoveStep(st, courseId, lessonId, sid);
    forall cid, lid, s | InRoster(r.courses, cid, lid, s) ensures HasEntry(r, s, cid, lid) {
      RemovedRosters(st, courseId, lessonId, sid, cid, lid);
      assert InRoster(st.courses, cid, lid, s);
      assert HasEntry(st, s, cid, lid);
      var e :| e in View(st.students[s]) && e.courseId == cid && e.lessonId == lid;
      RemovedViews(st, courseId, lessonId, sid, s);
      assert e in View(r.students[s]);
    }
  }

  lemma RemoveKeepsPlaced(st: State, courseId: string, lessonId: string, sid: string)
    requires WellFormed(st) && EntriesPlaced(st) && lessonId != "" && '_' !in lessonId
    requires FindCourse(st.courses, courseId).Some?
    ensures EntriesPlaced(RemoveStep(st, courseId, lessonId, sid))
  {
    var r := RemoveStep(st, courseId, lessonId, sid);
    forall cid, lid, s | HasEntry(r, s, cid, lid) && Roster(r.courses, cid, lid).Some?
      ensures InRoster(r.courses, cid, lid, s)
    {
      RemovedRosters(st, courseId, lessonId, sid, cid, lid);
      var e :| e in View(r.students[s]) && e.courseId == cid && e.lessonId == lid;
      RemovedViews(st, courseId, lessonId, sid, s);
      assert e in View(st.students[s]);
      assert HasEntry(st, s, cid, lid);
    }
  }

  /** `removeStudentFromLesson` on a lesson id that names a lesson keeps both
      directions of the invariant: the student leaves the roster and loses the
      entry together. */
  lemma RemovePreservesValid(st: State, courseId: string, lessonId: string, sid: string)
    requires Valid(st) && lessonId != "" && '_' !in lessonId
    ensures Valid(RemoveStep(st, courseId, lessonId, sid))
  {
    RemoveKeepsWellFormed(st, courseId, lessonId, sid);
    if FindCourse(st.courses, courseId).Some? {
      RemoveKeepsBacked(st, courseId, lessonId, sid);
      RemoveKeepsPlaced(st, courseId, lessonId, sid);
    }
  }

  // ---- addStudentToLesson keeps the invariant ----

  /** Adding an entry to a normal document replaces whatever entry it had for
      that lesson id and leaves a normal document. */
  lemma AddedView(doc: StudentDoc, n: StudentLesson)
    requires NormalDoc(doc) && GoodEntry(n)
    ensures NormalDoc(SyncDoc(doc, AddLesson(n)))
    ensures forall e :: e in View(SyncDoc(doc, AddLesson(n))) <==>
              e == n || (e in View(doc) && e.lessonId != n.lessonId)
  {
    var es := SyncEntries(doc, AddLesson(n));
    AddLessonKeeps(View(doc), n);
    assert forall e :: e in es ==> GoodEntry(e);
    forall e, e' | e in es && e' in es && e.lessonId == e'.lessonId ensures e == e' {
      if e != n && e' != n {
        assert e in View(doc) && e' in View(doc);
      }
    }
    SyncedNormal(doc, AddLesson(n));
  }

  /** In a normal document, the conflict `addStudentToLesson` finds is the
      student's one entry for that lesson id, so the course moved out of is
      the course that entry names. */
  lemma ConflictIsEntry(cs: seq<Course>, doc: StudentDoc, courseId: string, lessonId: string, e: StudentLesson)
    requires NormalDoc(doc) && e in View(doc) && e.lessonId == lessonId && e.courseId != courseId
    ensures OldCourse(cs, ItemsOf(doc.enrollment), courseId, lessonId) == FindCourse(cs, e.courseId)
  {
    var es := View(doc);
    var items := ItemsOf(doc.enrollment);
    assert items == ToRaws(es);
    var j :| 0 <= j < |es| && es[j] == e;
    assert Conflicts(items[j], courseId, lessonId);
    var k := ConflictIndex(items, courseId, lessonId).value;
    assert items[k] == ToRaw(es[k]);
    assert es[k] in es;
    assert es[k] == e;
  }

  /** The rosters after an add that passed its guards. */
  lemma AddedRosters(st: State, c: Course, l: Lesson, sid: string, cid: string, lid: string)
    requires sid in st.students && FindCourse(st.courses, c.id) == Some(c) && FindLesson(c, l.id) == Some(l)
    requires |l.students| < MaxStudents && sid !in l.students
    ensures var oc := OldCourse(st.courses, ItemsOf(st.students[sid].enrollment), c.id, l.id);
            var before := Roster(st.courses, cid, lid);
            var after := Roster(Added(st, c, l, sid).courses, cid, lid);
            && (after.Some? <==> before.Some?)
            && ((cid, lid) == (c.id, l.id) ==> forall s :: s in after.value <==> s in before.value || s == sid)
            && (oc.Some? && (cid, lid) == (oc.value.id, l.id) && after.Some? ==>
                  forall s :: s in after.value <==> s in before.value && s != sid)
            && ((cid, lid) != (c.id, l.id) && (oc.None? || (cid, lid) != (oc.value.id, l.id)) ==> after == before)
  {
    var oc := OldCourse(st.courses, ItemsOf(st.students[sid].enrollment), c.id, l.id);
    if (cid, lid) == (c.id, l.id) {
      AddedRosterOfTarget(st, c, l, sid);
    } else if oc.Some? && (cid, lid) == (oc.value.id, l.id) {
      AddedRosterOfOld(st, c, l, sid);
    } else {
      AddedKeepsOthers(st, c, l, sid, cid, lid);
    }
  }

  /** The enrollments after an add that passed its guards. */
  lemma AddedViews(st: State, c: Course, l: Lesson, sid: string, s: string)
    requires WellFormed(st) && sid in st.students && s in st.students
    requires FindCourse(st.courses, c.id) == Some(c) && FindLesson(c, l.id) == Some(l)
    ensures var r := Added(st, c, l, sid);
            && s in r.students && NormalDoc(r.students[s])
            && forall e :: e in View(r.students[s]) <==>
                 if s == sid then e == LessonEntry(c, l) || (e in View(st.students[s]) && e.lessonId != l.id)
                 else e in View(st.students[s])
  {
    if s == sid {
      AddedView(st.students[sid], LessonEntry(c, l));
    }
  }

  lemma AddedGoodCourses(st: State, c: Course, l: Lesson, sid: string)
    requires GoodCourses(st.courses) && sid in st.students && c in st.courses
    ensures GoodCourses(Added(st, c, l, sid).courses)
  {
    var oc := MovedOut(st, c.id, l.id, sid);
    GoodEdit(c, AddToRoster(c, l.id, sid));
    var prior := OldCourse(st.courses, ItemsOf(st.students[sid].enrollment), c.id, l.id);
    if prior.Some? {
      GoodEdit(prior.value, oc.value);
    }
  }

  lemma AddedKeepsWellFormed(st: State, c: Course, l: Lesson, sid: string)
    requires WellFormed(st) && sid in st.students
    requires FindCourse(st.courses, c.id) == Some(c) && FindLesson(c, l.id) == Some(l)
    ensures WellFormed(Added(st, c, l, sid))
  {
    var r := Added(st, c, l, sid);
    AddedGoodCourses(st, c, l, sid);
    forall s | s in r.students ensures NormalDoc(r.students[s]) {
      AddedViews(st, c, l, sid, s);
    }
  }

  lemma AddedKeepsBacked(st: State, c: Course, l: Lesson, sid: string)
    requires WellFormed(st) && RostersBacked(st) && sid in st.students
    requires FindCourse(st.courses, c.id) == Some(c) && FindLesson(c, l.id) == Some(l)
    requires |l.students| < MaxStudents && sid !in l.students
    ensures RostersBacked(Added(st, c, l, sid))
  {
    var r := Added(st, c, l, sid);
    var oc := OldCourse(st.courses, ItemsOf(st.students[sid].enrollment), c.id, l.id);
    forall cid, lid, s | InRoster(r.courses, cid, lid, s) ensures HasEntry(r, s, cid, lid) {
      AddedRosters(st, c, l, sid, cid, lid);
      AddedViews(st, c, l, sid, sid);
      if s == sid && (cid, lid) == (c.id, l.id) {
        assert LessonEntry(c, l) in View(r.students[sid]);
      } else {
        assert InRoster(st.courses, cid, lid, s);
        assert HasEntry(st, s, cid, lid);
        var e :| e in View(st.students[s]) && e.courseId == cid && e.lessonId == lid;
        if s == sid {
          if lid == l.id {
            ConflictIsEntry(st.courses, st.students[sid], c.id, l.id, e);
            assert false;
          }
          assert e in View(r.students[s]);
        } else {
          AddedViews(st, c, l, sid, s);
          assert e in View(r.students[s]);
        }
      }
    }
  }

  lemma AddedKeepsPlaced(st: State, c: Course, l: Lesson, sid: string)
    requires WellFormed(st) && EntriesPlaced(st) && sid in st.students
    requires FindCourse(st.courses, c.id) == Some(c) && FindLesson(c, l.id) == Some(l)
    requires |l.students| < MaxStudents && sid !in l.students
    ensures EntriesPlaced(Added(st, c, l, sid))
  {
    var r := Added(st, c, l, sid);
    forall cid, lid, s | HasEntry(r, s, cid, lid) && Roster(r.courses, cid, lid).Some?
      ensures InRoster(r.courses, cid, lid, s)
    {
      AddedRosters(st, c, l, sid, cid, lid);
      AddedViews(st, c, l, sid, s);
      var e :| e in View(r.students[s]) && e.courseId == cid && e.lessonId == lid;
      if s != sid || e != LessonEntry(c, l) {
        assert e in View(st.students[s]);
        assert HasEntry(st, s, cid, lid);
      }
    }
  }

  /** `addStudentToLesson` keeps both directions of the invariant: the student
      joins the roster and gets the entry, and leaves the roster of the same
      lesson in the course the replaced entry named. */
  lemma AddPreservesValid(st: State, courseId: string, lessonId: string, sid: string)
    requires Valid(st)
    ensures Valid(AddStep(st, courseId, lessonId, sid).0)
  {
    if AddStep(st, courseId, lessonId, sid).1 == Success {
      AddStepSucceeds(st, courseId, lessonId, sid);
      var c := FindCourse(st.courses, courseId).value;
      var l := FindLesson(c, lessonId).value;
      AddedKeepsWellFormed(st, c, l, sid);
      AddedKeepsBacked(st, c, l, sid);
      AddedKeepsPlaced(st, c, l, sid);
    }
  }

  // ---- Rosters: no duplicates, capacity ----

  /** No roster lists a student twice. */
  ghost predicate RostersDistinct(st: State) {
    forall cid, lid :: Roster(st.courses, cid, lid).Some? ==> NoDup(Roster(st.courses, cid, lid).value)
  }

  /** The exact rosters after an add that passed its guards. */
  lemma AddedRosterValue(st: State, c: Course, l: Lesson, sid: string, cid: string, lid: string)
    requires sid in st.students && FindCourse(st.courses, c.id) == Some(c) && FindLesson(c, l.id) == Some(l)
    ensures var oc := OldCourse(st.courses, ItemsOf(st.students[sid].enrollment), c.id, l.id);
            var before := Roster(st.courses, cid, lid);
            var after := Roster(Added(st, c, l, sid).courses, cid, lid);
            && (after.Some? <==> before.Some?)
            && ((cid, lid) == (c.id, l.id) ==> after == Some(Dedup(l.students + [sid])))
            && (oc.Some? && (cid, lid) == (oc.value.id, l.id) && after.Some? ==>
                  after.value == Filter(before.value, (s: string) => s != sid))
            && ((cid, lid) != (c.id, l.id) && (oc.None? || (cid, lid) != (oc.value.id, l.id)) ==> after == before)
  {
    var oc := OldCourse(st.courses, ItemsOf(st.students[sid].enrollment), c.id, l.id);
    if (cid, lid) == (c.id, l.id) {
      AddedRosterAtTarget(st, c, l, sid);
    } else if oc.Some? && (cid, lid) == (oc.value.id, l.id) {
      AddedRosterAtOld(st, c, l, sid, oc.value);
    } else {
      AddedKeepsOthers(st, c, l, sid, cid, lid);
    }
  }

  /** The target roster after an add: the old roster with the student appended, without repeats. */
  lemma AddedRosterAtTarget(st: State, c: Course, l: Lesson, sid: string)
    requires sid in st.students && FindCourse(st.courses, c.id) == Some(c) && FindLesson(c, l.id) == Some(l)
    ensures Roster(st.courses, c.id, l.id) == Some(l.students)
    ensures Roster(Added(st, c, l, sid).courses, c.id, l.id) == Some(Dedup(l.students + [sid]))
  {
    var nc := AddToRoster(c, l.id, sid);
    ReplaceForAddFinds(st.courses, nc, MovedOut(st, c.id, l.id, sid), c.id);
    FindLessonInEdited(c, nc, l.id);
    assert c.lessons[LessonIndex(c.lessons, l.id).value] == l;
  }

  /** The same lesson's roster in the course the student moves out of loses exactly the student. */
  lemma AddedRosterAtOld(st: State, c: Course, l: Lesson, sid: string, o: Course)
    requires sid in st.students && FindCourse(st.courses, c.id) == Some(c)
    requires OldCourse(st.courses, ItemsOf(st.students[sid].enrollment), c.id, l.id) == Some(o)
    ensures var before := Roster(st.courses, o.id, l.id);
            var after := Roster(Added(st, c, l, sid).courses, o.id, l.id);
            && (after.Some? <==> before.Some?)
            && (after.Some? ==> after.value == Filter(before.value, (s: string) => s != sid))
  {
    var dropped := DropFromRoster(o, l.id, sid);
    assert MovedOut(st, c.id, l.id, sid) == Some(dropped);
    ReplaceForAddFinds(st.courses, AddToRoster(c, l.id, sid), Some(dropped), o.id);
    FindLessonInEdited(o, dropped, l.id);
  }

  /** A successful add grows the target roster by exactly the student, so with
      the guard it stays within capacity; no roster gains a duplicate and none
      goes over capacity. */
  lemma AddKeepsRostersBounded(st: State, courseId: string, lessonId: string, sid: string)
    requires WithinCapacity(st) && RostersDistinct(st)
    ensures var r := AddStep(st, courseId, lessonId, sid);
            && WithinCapacity(r.0) && RostersDistinct(r.0)
            && (r.1 == Success ==>
                  Roster(r.0.courses, courseId, lessonId).Some? && Roster(st.courses, courseId, lessonId).Some? &&
                  Roster(r.0.courses, courseId, lessonId).value == Roster(st.courses, courseId, lessonId).value + [sid])
  {
    var r := AddStep(st, courseId, lessonId, sid);
    if r.1 == Success {
      AddStepSucceeds(st, courseId, lessonId, sid);
      var c := FindCourse(st.courses, courseId).value;
      var l := FindLesson(c, lessonId).value;
      DedupAppendFresh(l.students, sid);
      forall cid, lid | Roster(r.0.courses, cid, lid).Some?
        ensures NoDup(Roster(r.0.courses, cid, lid).value) && |Roster(r.0.courses, cid, lid).value| <= MaxStudents
      {
        AddedRosterValue(st, c, l, sid, cid, lid);
        var oc := OldCourse(st.courses, ItemsOf(st.students[sid].enrollment), c.id, l.id);
        if oc.Some? && (cid, lid) == (oc.value.id, l.id) && (cid, lid) != (c.id, l.id) {
          FilterKeepsNoDup(Roster(st.courses, cid, lid).value, (s: string) => s != sid);
        }
      }
      AddedRosterValue(st, c, l, sid, c.id, l.id);
    }
  }

  /** `enrollStudentToCourse` checks no capacity: a full roster the student is
      not on gets them as one more member, where `addStudentToLesson` would
      answer "Class full". */
  lemma EnrollIgnoresCapacity(st: State, courseId: string, lessonId: string, sid: string)
    requires sid in st.students && Roster(st.courses, courseId, lessonId).Some?
    requires var before := Roster(st.courses, courseId, lessonId).value;
             |before| >= MaxStudents && NoDup(before) && sid !in before
    ensures AddStep(st, courseId, lessonId, sid).1 == Failure("Class full")
    ensures EnrollStep(st, courseId, sid).1 == Success
    ensures var after := Roster(EnrollStep(st, courseId, sid).0.courses, courseId, lessonId);
            after.Some? && |after.value| == |Roster(st.courses, courseId, lessonId).value| + 1 > MaxStudents
            && !WithinCapacity(EnrollStep(st, courseId, sid).0)
  {
    var before := Roster(st.courses, courseId, lessonId).value;
    EnrollAddsToEveryLesson(st, courseId, sid, courseId, lessonId);
    DedupAppendFresh(before, sid);
  }

  /** `rescheduleStudent` checks no capacity either: a move onto a full lesson
      succeeds and puts the student on its roster. */
  lemma RescheduleIgnoresCapacity(st: State, sid: string, oldCourseId: string, oldLessonId: string,
                                  newCourseId: string, newLessonId: string, date: Day, timeSlot: string)
    requires sid in st.students && !st.students[sid].enrollment.Keyed?
    requires Roster(st.courses, newCourseId, newLessonId).Some?
    requires var before := Roster(st.courses, newCourseId, newLessonId).value;
             |before| >= MaxStudents && sid !in before
    ensures AddStep(st, newCourseId, newLessonId, sid).1 == Failure("Class full")
    ensures var r := RescheduleStep(st, sid, oldCourseId, oldLessonId, newCourseId, newLessonId, date, timeSlot);
            r.1 == Success && InRoster(r.0.courses, newCourseId, newLessonId, sid)
  {
    RescheduleMovesOnRosters(st, sid, oldCourseId, oldLessonId, newCourseId, newLessonId, date, timeSlot);
  }

  // ---- rescheduleStudent ----

  /** A reschedule keeps every lesson in place: the same lessons exist after it. */
  lemma RescheduledLessonsExist(cs: seq<Course>, sid: string, oldCourseId: string, oldLessonId: string,
                                newCourseId: string, newLessonId: string, cid: string, lid: string)
    ensures Roster(RescheduleCourses(cs, sid, oldCourseId, oldLessonId, newCourseId, newLessonId), cid, lid).Some?
            <==> Roster(cs, cid, lid).Some?
  {
    var ds := RescheduleCourses(cs, sid, oldCourseId, oldLessonId, newCourseId, newLessonId);
    RescheduledSameIds(cs, sid, oldCourseId, oldLessonId, newCourseId, newLessonId, cid);
    if CourseIndex(cs, cid).Some? {
      var i := CourseIndex(cs, cid).value;
      FindLessonInEdited(cs[i], ds[i], lid);
    }
  }

  /** In a course that is only the new course, a lesson other than the new one keeps its roster. */
  lemma RescheduledOtherLessonOfNew(cs: seq<Course>, sid: string, oldCourseId: string, oldLessonId: string,
                                    newCourseId: string, newLessonId: string, lid: string)
    requires newCourseId != oldCourseId && lid != newLessonId
    ensures Roster(RescheduleCourses(cs, sid, oldCourseId, oldLessonId, newCourseId, newLessonId), newCourseId, lid)
            == Roster(cs, newCourseId, lid)
  {
    var ds := RescheduleCourses(cs, sid, oldCourseId, oldLessonId, newCourseId, newLessonId);
    RescheduledSameIds(cs, sid, oldCourseId, oldLessonId, newCourseId, newLessonId, newCourseId);
    if CourseIndex(cs, newCourseId).Some? {
      var i := CourseIndex(cs, newCourseId).value;
      assert ds[i] == AddToRoster(cs[i], newLessonId, sid);
      FindLessonInEdited(cs[i], ds[i], lid);
    }
  }

  /** The rewritten entry of a normal document: the old pair's entry now names the new course. */
  lemma RescheduledEntry(doc: StudentDoc, e: StudentLesson, oldCourseId: string, oldLessonId: string,
                         newCourseId: string, date: Day, timeSlot: string)
    requires NormalDoc(doc) && e in View(doc) && e.courseId == oldCourseId && e.lessonId == oldLessonId
    requires newCourseId != ""
    ensures var items := RescheduleItems(ItemsOf(doc.enrollment), oldCourseId, oldLessonId, newCourseId, date, timeSlot);
            exists e' :: e' in Normalize(items) && e'.courseId == newCourseId && e'.lessonId == oldLessonId
  {
    var es := View(doc);
    var items := RescheduleItems(ItemsOf(doc.enrollment), oldCourseId, oldLessonId, newCourseId, date, timeSlot);
    var k :| 0 <= k < |es| && es[k] == e;
    assert ItemsOf(doc.enrollment)[k] == ToRaw(e);
    assert Rescheduled(ToRaw(e), oldCourseId, oldLessonId);
    NormalizeHasAll(items, k);
    assert FlatEntry(items[k]) in ItemEntries(items[k]);
  }

  /** In a state that keeps the invariant, a student with an entry for a lesson
      id is on that lesson id's roster in no course but the entry's. */
  lemma OneRosterPerLessonId(st: State, sid: string, e: StudentLesson, cid: string)
    requires WellFormed(st) && RostersBacked(st) && sid in st.students && e in View(st.students[sid])
    ensures InRoster(st.courses, cid, e.lessonId, sid) ==> cid == e.courseId
  {
    if InRoster(st.courses, cid, e.lessonId, sid) {
      assert HasEntry(st, sid, cid, e.lessonId);
      var e2 :| e2 in View(st.students[sid]) && e2.courseId == cid && e2.lessonId == e.lessonId;
      assert e2 == e;
    }
  }

  /** Moving a student to a lesson with another id breaks the invariant: the
      rewritten entry keeps its old lesson id and names the new course, whose
      lesson with that id does not have the student. */
  lemma RescheduleAcrossLessonIdsBreaks(st: State, sid: string, oldCourseId: string, oldLessonId: string,
                                        newCourseId: string, newLessonId: string, date: Day, timeSlot: string)
    requires Valid(st) && HasEntry(st, sid, oldCourseId, oldLessonId)
    requires newCourseId != "" && newLessonId != oldLessonId && Roster(st.courses, newCourseId, oldLessonId).Some?
    ensures var r := RescheduleStep(st, sid, oldCourseId, oldLessonId, newCourseId, newLessonId, date, timeSlot);
            && r.1 == Success
            && HasEntry(r.0, sid, newCourseId, oldLessonId)
            && Roster(r.0.courses, newCourseId, oldLessonId).Some?
            && !InRoster(r.0.courses, newCourseId, oldLessonId, sid)
            && !Consistent(r.0)
  {
    var r := RescheduleStep(st, sid, oldCourseId, oldLessonId, newCourseId, newLessonId, date, timeSlot);
    var doc := st.students[sid];
    var cs := RescheduleCourses(st.courses, sid, oldCourseId, oldLessonId, newCourseId, newLessonId);
    assert r.0.courses == cs;
    var e :| e in View(doc) && e.courseId == oldCourseId && e.lessonId == oldLessonId;
    RescheduledEntry(doc, e, oldCourseId, oldLessonId, newCourseId, date, timeSlot);
    assert View(r.0.students[sid]) == Normalize(RescheduleItems(ItemsOf(doc.enrollment), oldCourseId, oldLessonId, newCourseId, date, timeSlot));
    RescheduledLessonsExist(st.courses, sid, oldCourseId, oldLessonId, newCourseId, newLessonId, newCourseId, oldLessonId);
    if newCourseId == oldCourseId {
      RescheduledOffOld(st.courses, sid, oldCourseId, oldLessonId, newCourseId, newLessonId);
    } else {
      RescheduledOtherLessonOfNew(st.courses, sid, oldCourseId, oldLessonId, newCourseId, newLessonId, oldLessonId);
      OneRosterPerLessonId(st, sid, e, newCourseId);
    }
  }

  // ---- enrollStudentToCourse ----

  /** The enrollments after enrolling a known student in a course that exists. */
  lemma EnrolledViews(st: State, c: Course, sid: string, s: string)
    requires WellFormed(st) && sid in st.students && s in st.students && c in st.courses
    ensures var r := Enrolled(st, c, sid);
            && s in r.students
            && forall e :: e in View(r.students[s]) <==>
                 if s == sid then e in CourseEntries(c) || (e in View(st.students[s]) && Key(e) !in Keys(CourseEntries(c)))
                 else e in View(st.students[s])
  {
    if s == sid {
      var news := CourseEntries(c);
      EnrollCourseKeeps(View(st.students[sid]), news);
      forall e | e in news ensures GoodEntry(e) {
        var i :| 0 <= i < |news| && news[i] == e;
        assert c.lessons[i] in c.lessons;
      }
      SyncedView(st.students[sid], EnrollCourse(news));
    }
  }

  /** An entry of another course is not replaced by the course's entries. */
  lemma OtherCourseKeyNotNew(c: Course, e: StudentLesson)
    requires GoodCourse(c) && GoodEntry(e) && e.courseId != c.id
    ensures Key(e) !in Keys(CourseEntries(c))
  {
    var news := CourseEntries(c);
    forall j | 0 <= j < |news| ensures Key(e) != Key(news[j]) {
      assert c.lessons[j] in c.lessons;
      KeyInjective(e, news[j]);
    }
  }

  /** The enrolled student has the entry for every lesson of the course. */
  lemma EnrolledHasCourseEntry(st: State, c: Course, sid: string, l: Lesson)
    requires WellFormed(st) && sid in st.students && c in st.courses && l in c.lessons
    ensures HasEntry(Enrolled(st, c, sid), sid, c.id, l.id)
  {
    EnrolledViews(st, c, sid, sid);
    var i :| 0 <= i < |c.lessons| && c.lessons[i] == l;
    assert CourseEntries(c)[i] in CourseEntries(c);
  }

  /** An entry of another course, or of another student, survives enrolling. */
  lemma EnrolledKeepsEntry(st: State, c: Course, sid: string, s: string, cid: string, lid: string)
    requires WellFormed(st) && sid in st.students && c in st.courses
    requires HasEntry(st, s, cid, lid) && (s != sid || cid != c.id)
    ensures HasEntry(Enrolled(st, c, sid), s, cid, lid)
  {
    var e :| e in View(st.students[s]) && e.courseId == cid && e.lessonId == lid;
    EnrolledViews(st, c, sid, s);
    if s == sid {
      OtherCourseKeyNotNew(c, e);
    }
    assert e in View(Enrolled(st, c, sid).students[s]);
  }

  lemma EnrolledKeepsBacked(st: State, c: Course, sid: string)
    requires WellFormed(st) && RostersBacked(st) && sid in st.students && FindCourse(st.courses, c.id) == Some(c)
    ensures RostersBacked(Enrolled(st, c, sid))
  {
    var r := Enrolled(st, c, sid);
    forall cid, lid, s | InRoster(r.courses, cid, lid, s) ensures HasEntry(r, s, cid, lid) {
      EnrolledBacksOne(st, c, sid, cid, lid, s);
    }
  }

  /** One roster place after enrolling is backed by an entry. */
  lemma EnrolledBacksOne(st: State, c: Course, sid: string, cid: string, lid: string, s: string)
    requires WellFormed(st) && RostersBacked(st) && sid in st.students && FindCourse(st.courses, c.id) == Some(c)
    requires InRoster(Enrolled(st, c, sid).courses, cid, lid, s)
    ensures HasEntry(Enrolled(st, c, sid), s, cid, lid)
  {
    EnrolledRosters(st, c, sid, cid, lid);
    if s == sid && cid == c.id {
      EnrolledHasCourseEntry(st, c, sid, FindLesson(c, lid).value);
    } else {
      assert InRoster(st.courses, cid, lid, s);
      EnrolledKeepsEntry(st, c, sid, s, cid, lid);
    }
  }

  /** The course's new entries all name the course. */
  lemma CourseEntryNamesCourse(c: Course, e: StudentLesson)
    requires e in CourseEntries(c)
    ensures e.courseId == c.id
  {
    var i :| 0 <= i < |CourseEntries(c)| && CourseEntries(c)[i] == e;
  }

  /** An entry after enrolling that is not for the course, or not the enrolled student's, was there before. */
  lemma EnrolledEntryWasThere(st: State, c: Course, sid: string, s: string, e: StudentLesson)
    requires WellFormed(st) && sid in st.students && s in st.students && c in st.courses
    requires s in Enrolled(st, c, sid).students && e in View(Enrolled(st, c, sid).students[s])
    requires s != sid || e.courseId != c.id
    ensures e in View(st.students[s])
  {
    EnrolledViews(st, c, sid, s);
    if s == sid && e in CourseEntries(c) {
      CourseEntryNamesCourse(c, e);
    }
  }

  lemma EnrolledPlacesOne(st: State, c: Course, sid: string, s: string, cid: string, lid: string)
    requires WellFormed(st) && EntriesPlaced(st) && sid in st.students && FindCourse(st.courses, c.id) == Some(c)
    requires HasEntry(Enrolled(st, c, sid), s, cid, lid) && Roster(Enrolled(st, c, sid).courses, cid, lid).Some?
    ensures InRoster(Enrolled(st, c, sid).courses, cid, lid, s)
  {
    EnrolledRosters(st, c, sid, cid, lid);
    if s != sid || cid != c.id {
      var r := Enrolled(st, c, sid);
      var e :| e in View(r.students[s]) && e.courseId == cid && e.lessonId == lid;
      EnrolledEntryWasThere(st, c, sid, s, e);
      assert HasEntry(st, s, cid, lid);
    }
  }

  lemma EnrolledKeepsPlaced(st: State, c: Course, sid: string)
    requires WellFormed(st) && EntriesPlaced(st) && sid in st.students && FindCourse(st.courses, c.id) == Some(c)
    ensures EntriesPlaced(Enrolled(st, c, sid))
  {
    var r := Enrolled(st, c, sid);
    forall cid, lid, s | HasEntry(r, s, cid, lid) && Roster(r.courses, cid, lid).Some?
      ensures InRoster(r.courses, cid, lid, s)
    {
      EnrolledPlacesOne(st, c, sid, s, cid, lid);
    }
  }

  /** Enrolling a known student keeps both directions of the invariant: every
      lesson of the course gets the entry and the roster place together. */
  lemma EnrollPreservesConsistent(st: State, courseId: string, sid: string)
    requires Valid(st) && sid in st.students
    ensures Consistent(EnrollStep(st, courseId, sid).0)
  {
    if FindCourse(st.courses, courseId).Some? {
      var c := FindCourse(st.courses, courseId).value;
      EnrollStepSucceeds(st, courseId, sid);
      EnrolledKeepsBacked(st, c, sid);
      EnrolledKeepsPlaced(st, c, sid);
    }
  }

  /** Enrolling an id with no student document puts it on every roster of the
      course while nothing is written for it, so the rosters name a student
      with no entries. */
  lemma EnrollUnknownStudentBreaks(st: State, courseId: string, sid: string)
    requires sid !in st.students && FindCourse(st.courses, courseId).Some?
    requires FindCourse(st.courses, courseId).value.lessons != []
    ensures EnrollStep(st, courseId, sid).1 == Success
    ensures !RostersBacked(EnrollStep(st, courseId, sid).0)
  {
    var c := FindCourse(st.courses, courseId).value;
    var lid := c.lessons[0].id;
    EnrollAddsToEveryLesson(st, courseId, sid, courseId, lid);
    assert FindLesson(c, lid).Some?;
    assert InRoster(EnrollStep(st, courseId, sid).0.courses, courseId, lid, sid);
  }

  // ---- handleRequest ----

  /** Approving or rejecting a request keeps the invariant when the request's
      lesson id names a lesson: approval is a removal followed by an add. */
  lemma HandleRequestPreservesValid(st: State, requestId: string, req: Request, approve: bool)
    requires Valid(st) && IdString(req.lessonId) != "" && '_' !in IdString(req.lessonId)
    ensures Valid(HandleRequestStep(st, requestId, req, approve))
  {
    if approve && req.studentId in st.listed && !req.lessonId.NoId? {
      var removed := RemoveStep(st, req.lessonCourseId, IdString(req.lessonId), req.studentId);
      RemovePreservesValid(st, req.lessonCourseId, IdString(req.lessonId), req.studentId);
      AddPreservesValid(removed, req.slotCourseId, req.slotLessonId, req.studentId);
    }
  }

  // ---- createCourse ----

  /** Appending a course leaves every earlier lookup, and finds the new course only when its id is new. */
  lemma FindCourseAppend(cs: seq<Course>, d: Course, id: string)
    ensures FindCourse(cs + [d], id) ==
            if FindCourse(cs, id).Some? then FindCourse(cs, id) else if d.id == id then Some(d) else None
  {
    var ds := cs + [d];
    match CourseIndex(cs, id)
    case Some(k) =>
      assert ds[k].id == id;
      var r := CourseIndex(ds, id);
      assert r.Some?;
      assert r.value == k;
    case None =>
      if d.id == id {
        assert ds[|cs|].id == id;
        var r := CourseIndex(ds, id);
        assert r.Some?;
        assert r.value == |cs|;
      }
  }

  /** The created course is good: its id has "_" between name and round, and
      its lesson ids are the digits of 1 to 12. */
  lemma NewCourseGood(name: string, timeSlot: string, start: Day, roundNumber: string)
    ensures GoodCourse(NewCourse(name, timeSlot, start, roundNumber))
  {
    var c := NewCourse(name, timeSlot, start, roundNumber);
    assert c.id == name + "_" + RoundName(roundNumber);
    assert |c.id| > 0;
    forall l | l in c.lessons ensures l.id != "" && '_' !in l.id {
      var i :| 0 <= i < 12 && c.lessons[i] == l;
      assert l.id == NatToString(i + 1);
      assert !IsDigit('_');
    }
  }

  /** A course with empty rosters appended to the list keeps every roster name backed. */
  lemma AppendedKeepsBacked(st: State, r: State, c: Course)
    requires RostersBacked(st) && r.students == st.students && r.courses == st.courses + [c]
    requires forall l :: l in c.lessons ==> l.students == []
    ensures RostersBacked(r)
  {
    forall cid, lid, s | InRoster(r.courses, cid, lid, s) ensures HasEntry(r, s, cid, lid) {
      FindCourseAppend(st.courses, c, cid);
      assert InRoster(st.courses, cid, lid, s);
    }
  }

  /** A course appended under an id no entry names, or under one already taken, keeps every entry placed. */
  lemma AppendedKeepsPlaced(st: State, r: State, c: Course)
    requires EntriesPlaced(st) && r.students == st.students && r.courses == st.courses + [c]
    requires FindCourse(st.courses, c.id).Some? ||
             forall sid, e :: sid in st.students && e in View(st.students[sid]) ==> e.courseId != c.id
    ensures EntriesPlaced(r)
  {
    forall cid, lid, s | HasEntry(r, s, cid, lid) && Roster(r.courses, cid, lid).Some?
      ensures InRoster(r.courses, cid, lid, s)
    {
      FindCourseAppend(st.courses, c, cid);
      assert HasEntry(st, s, cid, lid);
    }
  }

  /** A good course appended keeps the state well formed. */
  lemma AppendedKeepsWellFormed(st: State, r: State, c: Course)
    requires WellFormed(st) && r.students == st.students && r.courses == st.courses + [c] && GoodCourse(c)
    ensures WellFormed(r)
  {
  }

  /** `createCourse` keeps the invariant unless some entry already names the
      new id while no course has it: such a leftover entry (after deleting a
      course of that id, say) would name a lesson of the new course whose
      roster is empty. */
  lemma CreatePreservesValid(st: State, name: string, timeSlot: string, date: string, roundNumber: string)
    requires Valid(st)
    requires var id := name + "_" + RoundName(roundNumber);
             FindCourse(st.courses, id).Some? ||
             forall sid, e :: sid in st.students && e in View(st.students[sid]) ==> e.courseId != id
    ensures Valid(CreateStep(st, name, timeSlot, date, roundNumber).0)
  {
    var res := CreateStep(st, name, timeSlot, date, roundNumber);
    if res.1.Some? {
      var c := NewCourse(name, timeSlot, DayOfText(date).value, roundNumber);
      NewCourseGood(name, timeSlot, DayOfText(date).value, roundNumber);
      AppendedKeepsWellFormed(st, res.0, c);
      AppendedKeepsBacked(st, res.0, c);
      AppendedKeepsPlaced(st, res.0, c);
    }
  }

  /** Deleting a course someone takes and creating one with the same id again
      leaves the old entry naming a lesson of the new course without the
      student on its roster. */
  lemma DeleteThenCreateBreaks(st: State, name: string, timeSlot: string, date: string, roundNumber: string,
                               sid: string, e: StudentLesson)
    requires sid in st.students && e in View(st.students[sid])
    requires e.courseId == name + "_" + RoundName(roundNumber)
    requires e.lessonId == "1"
    requires CreateStep(DeleteStep(st, e.courseId), name, timeSlot, date, roundNumber).1.Some?
    ensures !EntriesPlaced(CreateStep(DeleteStep(st, e.courseId), name, timeSlot, date, roundNumber).0)
  {
    var d := DeleteStep(st, e.courseId);
    var r := CreateStep(d, name, timeSlot, date, roundNumber).0;
    var c := NewCourse(name, timeSlot, DayOfText(date).value, roundNumber);
    assert r.courses == d.courses + [c];
    FindCourseAppend(d.courses, c, e.courseId);
    assert c.lessons[0].id == NatToString(1) == "1";
    assert FindLesson(c, "1").Some?;
    assert FindLesson(c, "1").value.students == [];
    assert HasEntry(r, sid, e.courseId, "1");
  }
}
