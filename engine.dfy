/** The dashboard's data hook as an object: one course list, the student
    documents, the potential-student documents and the requests, plus the
    filter lists and the student list, all updated in place by its actions.
    Each action is proved to leave the state its step function in module
    Steps describes, so the laws proved about the steps hold of the object. */
module AdminData {
  import opened Strings
  import opened Seqs
  import opened Calendar
  import opened Records
  import opened AdminConstants
  import opened Sync
  import opened Courses
  import opened Steps
  import Loading
  import Missing
  import Consistency

  /** The normaliser of `syncStudentProfile`: every stored item, in order,
      pushed as its entries (a group's children inherit its course). */
  method NormalizeItems(items: seq<RawItem>) returns (flat: seq<StudentLesson>)
    ensures flat == Normalize(items)
  {
    flat := [];
    var i := 0;
    while i < |items|
      invariant 0 <= i <= |items|
      invariant flat == Normalize(items[..i])
    {
      assert items[..i + 1] == items[..i] + [items[i]];
      NormalizeAppend(items[..i], items[i]);
      flat := flat + ItemEntries(items[i]);
      i := i + 1;
    }
    assert items[..|items|] == items;
  }

  /** The hydration of one student document at load time: one entry per stored item. */
  method HydrateItems(cs: seq<Course>, doc: StudentDoc) returns (es: seq<StudentLesson>)
    ensures es == Loading.HydrateDoc(cs, doc)
  {
    var items := ItemsOf(doc.enrollment);
    es := [];
    var k := 0;
    while k < |items|
      invariant 0 <= k <= |items|
      invariant |es| == k && forall q :: 0 <= q < k ==> es[q] == Loading.Hydrate(cs, items[q])
    {
      es := es + [Loading.Hydrate(cs, items[k])];
      k := k + 1;
    }
    HydratedAll(cs, doc, es);
  }

  /** A list with one hydrated entry per stored item, in order, is the document's hydration. */
  lemma HydratedAll(cs: seq<Course>, doc: StudentDoc, es: seq<StudentLesson>)
    requires |es| == |ItemsOf(doc.enrollment)|
    requires forall q :: 0 <= q < |es| ==> es[q] == Loading.Hydrate(cs, ItemsOf(doc.enrollment)[q])
    ensures es == Loading.HydrateDoc(cs, doc)
  {
  }

  /** Reading the course documents one by one. */
  method LoadCourseDocs(docs: seq<Loading.CourseDoc>) returns (loaded: seq<Course>)
    ensures loaded == Loading.LoadAll(docs)
  {
    loaded := [];
    var i := 0;
    while i < |docs|
      invariant 0 <= i <= |docs|
      invariant |loaded| == i && forall q :: 0 <= q < i ==> loaded[q] == Loading.LoadCourse(docs[q])
    {
      loaded := loaded + [Loading.LoadCourse(docs[i])];
      i := i + 1;
    }
  }

  /** The loaded state is the reverse-synced catalog with the documents, the lists and the filters. */
  lemma LoadedState(courseDocs: seq<Loading.CourseDoc>, studentDocs: seq<(string, StudentDoc)>,
                    ps: map<string, PotentialDoc>, rs: map<string, Request>, loaded: seq<Course>, cs: seq<Course>)
    requires loaded == SortBy(Loading.LoadAll(courseDocs), Loading.ByName)
    requires cs == Loading.ReverseSync(loaded, Loading.Claims(loaded, SortBy(studentDocs, Loading.ById)))
    ensures Loading.Load(courseDocs, studentDocs, ps, rs) ==
              State(cs, Loading.DocMap(studentDocs), ps, rs, Loading.Categories(cs), Loading.Rounds(cs),
                    Loading.LoadedList(Loading.DocMap(studentDocs)))
  {
  }

  /** One more claim at the end is one more push. */
  lemma ReverseSyncSnoc(cs: seq<Course>, claims: seq<Loading.Claim>, c: Loading.Claim)
    ensures Loading.ReverseSync(cs, claims + [c]) == Loading.Push(Loading.ReverseSync(cs, claims), c.0, c.1)
  {
    assert (claims + [c])[..|claims|] == claims;
  }

  /** One student's entries as claims of that student. */
  function Tagged(sid: string, es: seq<StudentLesson>): (r: seq<Loading.Claim>)
    ensures |r| == |es| && forall q :: 0 <= q < |es| ==> r[q] == (sid, es[q])
  {
    seq(|es|, q requires 0 <= q < |es| => (sid, es[q]))
  }

  /** The claims of one more student are that student's entries after the earlier claims. */
  lemma ClaimsSnoc(cs: seq<Course>, students: seq<(string, StudentDoc)>, i: nat)
    requires i < |students|
    ensures Loading.Claims(cs, students[..i + 1]) ==
              Loading.Claims(cs, students[..i]) + Tagged(students[i].0, Loading.HydrateDoc(cs, students[i].1))
  {
    assert students[..i + 1][..i] == students[..i];
  }

  /** The ordinals up to n + 1: those up to n, then n + 1 when it is wanted. */
  lemma MissingUpToSnoc(cs: seq<Course>, enrolled: seq<string>, n: nat)
    requires n < |DefaultLessonNames|
    ensures Missing.MissingUpTo(cs, enrolled, n + 1) ==
            Missing.MissingUpTo(cs, enrolled, n) +
            (if Missing.Wanted(cs, enrolled, n + 1) then [Missing.MissingFor(cs, n + 1)] else [])
  {
  }

  /** A lesson the student has an entry for adds nothing. */
  lemma MissingSkip(cs: seq<Course>, enrolled: seq<string>, n: nat)
    requires n < |DefaultLessonNames| && NatToString(n + 1) in enrolled
    ensures Missing.MissingUpTo(cs, enrolled, n + 1) == Missing.MissingUpTo(cs, enrolled, n)
  {
    MissingUpToSnoc(cs, enrolled, n);
  }

  /** A lesson the student has no entry for adds its sorted slots when there are any. */
  lemma MissingStep(cs: seq<Course>, enrolled: seq<string>, n: nat, slots: seq<Missing.Slot>)
    requires n < |DefaultLessonNames| && NatToString(n + 1) !in enrolled
    requires slots == Missing.SlotsFor(cs, NatToString(n + 1))
    ensures Missing.MissingUpTo(cs, enrolled, n + 1) ==
            Missing.MissingUpTo(cs, enrolled, n) +
            (if |slots| > 0
             then [Missing.MissingLesson(NatToString(n + 1), DefaultLessonNames[n], SortBy(slots, Missing.BySlotDate))]
             else [])
  {
    MissingUpToSnoc(cs, enrolled, n);
  }

  /** The slots of one more course. */
  lemma SlotsForSnoc(cs: seq<Course>, j: nat, targetId: string)
    requires j < |cs|
    ensures Missing.SlotsFor(cs[..j + 1], targetId) ==
            Missing.SlotsFor(cs[..j], targetId) +
            (match Missing.SlotOf(cs[j], targetId) case None => [] case Some(s) => [s])
  {
    assert cs[..j + 1][..j] == cs[..j];
  }

  /** The reverse sync of one student's entries, in order, onto the rosters. */
  method PushEntries(loaded: seq<Course>, before: seq<Loading.Claim>, cs: seq<Course>, sid: string, es: seq<StudentLesson>)
    returns (r: seq<Course>)
    requires cs == Loading.ReverseSync(loaded, before)
    ensures r == Loading.ReverseSync(loaded, before + Tagged(sid, es))
  {
    r := cs;
    var k := 0;
    assert before + Tagged(sid, es[..0]) == before;
    while k < |es|
      invariant 0 <= k <= |es|
      invariant r == Loading.ReverseSync(loaded, before + Tagged(sid, es[..k]))
    {
      assert Tagged(sid, es[..k + 1]) == Tagged(sid, es[..k]) + [(sid, es[k])];
      ReverseSyncSnoc(loaded, before + Tagged(sid, es[..k]), (sid, es[k]));
      assert before + Tagged(sid, es[..k]) + [(sid, es[k])] == before + Tagged(sid, es[..k + 1]);
      r := Loading.Push(r, sid, es[k]);
      k := k + 1;
    }
    assert es[..|es|] == es;
  }

  /** Hydrates each student document in turn and pushes its entries onto the rosters. */
  method SyncStudents(loaded: seq<Course>, sorted: seq<(string, StudentDoc)>) returns (cs: seq<Course>)
    ensures cs == Loading.ReverseSync(loaded, Loading.Claims(loaded, sorted))
  {
    cs := loaded;
    var i := 0;
    assert sorted[..0] == [];
    while i < |sorted|
      invariant 0 <= i <= |sorted|
      invariant cs == Loading.ReverseSync(loaded, Loading.Claims(loaded, sorted[..i]))
    {
      var es := HydrateItems(loaded, sorted[i].1);
      cs := PushEntries(loaded, Loading.Claims(loaded, sorted[..i]), cs, sorted[i].0, es);
      ClaimsSnoc(loaded, sorted, i);
      i := i + 1;
    }
    assert sorted[..|sorted|] == sorted;
  }

  /** The loop of `findMissingLessons` over the twelve standard lessons, for
      a student whose entries have these lesson ids. */
  method MissingLessonsOf(cs: seq<Course>, enrolled: seq<string>) returns (missing: seq<Missing.MissingLesson>)
    ensures missing == Missing.FindMissing(cs, enrolled)
  {
    missing := [];
    var index := 0;
    while index < |DefaultLessonNames|
      invariant 0 <= index <= |DefaultLessonNames|
      invariant missing == Missing.MissingUpTo(cs, enrolled, index)
    {
      missing := MissingNext(cs, enrolled, index, missing);
      index := index + 1;
    }
  }

  /** One turn of that loop: the standard lesson `index + 1`, added with its
      sorted slots when the student has no entry for it and some course offers it. */
  method MissingNext(cs: seq<Course>, enrolled: seq<string>, index: nat, missing: seq<Missing.MissingLesson>)
    returns (next: seq<Missing.MissingLesson>)
    requires index < |DefaultLessonNames| && missing == Missing.MissingUpTo(cs, enrolled, index)
    ensures next == Missing.MissingUpTo(cs, enrolled, index + 1)
  {
    next := missing;
    var targetId := NatToString(index + 1);
    if targetId !in enrolled {
      var slots := CollectSlots(cs, targetId);
      MissingStep(cs, enrolled, index, slots);
      if |slots| > 0 {
        next := missing + [Missing.MissingLesson(targetId, DefaultLessonNames[index], SortBy(slots, Missing.BySlotDate))];
      }
    } else {
      MissingSkip(cs, enrolled, index);
    }
  }

  /** The inner loop of `findMissingLessons`: the slots of every course for
      one lesson id, in course order. */
  method CollectSlots(cs: seq<Course>, targetId: string) returns (slots: seq<Missing.Slot>)
    ensures slots == Missing.SlotsFor(cs, targetId)
  {
    slots := [];
    var j := 0;
    while j < |cs|
      invariant 0 <= j <= |cs|
      invariant slots == Missing.SlotsFor(cs[..j], targetId)
    {
      SlotsForSnoc(cs, j, targetId);
      var slot := Missing.SlotOf(cs[j], targetId);
      if slot.Some? {
        slots := slots + [slot.value];
      }
      j := j + 1;
    }
    assert cs[..|cs|] == cs;
  }

  /** Right after the load, a stored item counts for the lesson its `id`,
      or else its `lessonId`, names: `findMissingLessons` never lists that
      lesson, even for an item that has only a `lessonId`. */
  lemma LoadedEntryNotMissing(courseDocs: seq<Loading.CourseDoc>, studentDocs: seq<(string, StudentDoc)>,
                              ps: map<string, PotentialDoc>, rs: map<string, Request>, sid: string, k: nat, m: nat)
    requires var st := Loading.Load(courseDocs, studentDocs, ps, rs);
             sid in st.students && k < |ItemsOf(st.students[sid].enrollment)| && 1 <= m <= |DefaultLessonNames|
    requires var item := ItemsOf(Loading.Load(courseDocs, studentDocs, ps, rs).students[sid].enrollment)[k];
             IdString(OrId(item.id, item.lessonId)) == NatToString(m)
    ensures var st := Loading.Load(courseDocs, studentDocs, ps, rs);
            Missing.MissingFor(st.courses, m) !in Missing.FindMissing(st.courses, st.listed[sid])
  {
    var st := Loading.Load(courseDocs, studentDocs, ps, rs);
    Loading.ListedIdsHydrated(Loading.LoadCourses(courseDocs), st.students[sid]);
    assert st.listed[sid][k] == NatToString(m);
    if Missing.MissingFor(st.courses, m) in Missing.FindMissing(st.courses, st.listed[sid]) {
      Missing.EnrolledNeverMissing(st.courses, st.listed[sid], Missing.MissingFor(st.courses, m));
    }
  }

  class Engine {
    var courses: seq<Course>
    var students: map<string, StudentDoc>
    var potentials: map<string, PotentialDoc>
    var requests: map<string, Request>
    var categories: seq<string>
    var rounds: seq<string>
    var listed: map<string, seq<string>>

    /** The whole state, as the step functions see it. */
    function Snapshot(): State
      reads this
    {
      State(courses, students, potentials, requests, categories, rounds, listed)
    }

    /** An engine opened on a state. */
    constructor (st: State)
      ensures Snapshot() == st
    {
      courses := st.courses;
      students := st.students;
      potentials := st.potentials;
      requests := st.requests;
      categories := st.categories;
      rounds := st.rounds;
      listed := st.listed;
    }

    /** Put a whole state in place. */
    method Become(st: State)
      modifies this
      ensures Snapshot() == st
    {
      courses := st.courses;
      students := st.students;
      potentials := st.potentials;
      requests := st.requests;
      categories := st.categories;
      rounds := st.rounds;
      listed := st.listed;
    }

    /** `syncStudentProfile`: normalise the stored enrollment, apply the
        action, sort by date and write the flat result; nothing for a
        missing document. */
    method SyncStudentProfile(sid: string, a: Action) returns (written: Option<seq<StudentLesson>>)
      modifies this
      ensures Snapshot() == Synced(old(Snapshot()), sid, a)
      ensures written == if sid in old(students) then Some(SyncEntries(old(students)[sid], a)) else None
    {
      if sid !in students {
        return None;
      }
      var doc := students[sid];
      var flat := NormalizeItems(ItemsOf(doc.enrollment));
      flat := Apply(flat, a);
      flat := SortByDate(flat);
      students := students[sid := StudentDoc(doc.name, Flat(ToRaws(flat)))];
      if sid in listed {
        listed := listed[sid := LessonIds(flat)];
      }
      written := Some(flat);
    }

    /** `addStudentToLesson`: the guards in order, then the sync and the roster updates. */
    method AddStudentToLesson(courseId: string, lessonId: string, sid: string) returns (o: Outcome)
      modifies this
      ensures (Snapshot(), o) == AddStep(old(Snapshot()), courseId, lessonId, sid)
      ensures Consistency.Valid(old(Snapshot())) ==> Consistency.Valid(Snapshot())
    {
      ghost var st := Snapshot();
      if sid !in students {
        return Failure("Student not found");
      }
      var course := FindCourse(courses, courseId);
      if course.None? {
        return Failure("Course not found");
      }
      var c := course.value;
      var lesson := FindLesson(c, lessonId);
      if lesson.None? {
        return Failure("Lesson not found");
      }
      var l := lesson.value;
      if |l.students| >= MaxStudents {
        return Failure("Class full");
      }
      if sid in l.students {
        return Failure("Already in lesson");
      }
      var moved := MovedOut(Snapshot(), c.id, l.id, sid);
      var _ := SyncStudentProfile(sid, AddLesson(LessonEntry(c, l)));
      Become(Snapshot().(courses := ReplaceForAdd(courses, AddToRoster(c, l.id, sid), moved)));
      o := Success;
      if Consistency.Valid(st) {
        Consistency.AddPreservesValid(st, courseId, lessonId, sid);
      }
    }

    /** `removeStudentFromLesson`: nothing for an unknown course. */
    method RemoveStudentFromLesson(courseId: string, lessonId: string, sid: string)
      modifies this
      ensures Snapshot() == RemoveStep(old(Snapshot()), courseId, lessonId, sid)
      ensures Consistency.Valid(old(Snapshot())) && lessonId != "" && '_' !in lessonId ==> Consistency.Valid(Snapshot())
    {
      ghost var st := Snapshot();
      var course := FindCourse(courses, courseId);
      if course.None? {
        return;
      }
      var c := course.value;
      var _ := SyncStudentProfile(sid, RemoveLesson(c.id, lessonId));
      courses := ReplaceCourse(courses, DropFromRoster(c, lessonId, sid));
      if Consistency.Valid(st) && lessonId != "" && '_' !in lessonId {
        Consistency.RemovePreservesValid(st, courseId, lessonId, sid);
      }
    }

    /** `enrollStudentToCourse`: every lesson of the course, with no capacity check. */
    method EnrollStudentToCourse(courseId: string, sid: string) returns (o: Outcome)
      modifies this
      ensures (Snapshot(), o) == EnrollStep(old(Snapshot()), courseId, sid)
      ensures Consistency.Valid(old(Snapshot())) && sid in old(students) ==> Consistency.Consistent(Snapshot())
    {
      ghost var st := Snapshot();
      var course := FindCourse(courses, courseId);
      if course.None? {
        return Failure("Course not found");
      }
      var c := course.value;
      var _ := SyncStudentProfile(sid, EnrollCourse(CourseEntries(c)));
      courses := ReplaceCourse(courses, AddToEveryRoster(c, sid));
      o := Success;
      if Consistency.Valid(st) && sid in st.students {
        Consistency.EnrollPreservesConsistent(st, courseId, sid);
      }
    }

    /** `promotePotentialStudent`: create the student document when missing,
        enroll, and delete the potential-student document on success. */
    method PromotePotentialStudent(potentialId: string, sid: string, name: string, courseId: string) returns (o: Outcome)
      modifies this
      ensures (Snapshot(), o) == PromoteStep(old(Snapshot()), potentialId, sid, name, courseId)
    {
      ghost var before := Snapshot();
      if sid !in students {
        students := students[sid := StudentDoc(name, Flat([]))];
        listed := ListedWith(listed, sid);
      }
      assert Snapshot() == if sid in before.students then before
                           else before.(students := before.students[sid := StudentDoc(name, Flat([]))],
                                        listed := ListedWith(before.listed, sid));
      var r := EnrollStudentToCourse(courseId, sid);
      if r != Success {
        return Failure(Or(r.msg, "Enrollment failed"));
      }
      potentials := potentials - {potentialId};
      o := Success;
    }

    /** `addPotentialStudent`: store a new potential-student document under
        the id the store hands out. */
    method AddPotentialStudent(newId: string, name: string, courseId: string, trial: Option<RawItem>) returns (o: Outcome)
      modifies this
      ensures (Snapshot(), o) == AddPotentialStep(old(Snapshot()), newId, name, courseId, trial)
    {
      var doc := PotentialDoc(name, courseId, PotentialEnrollment(courses, courseId, trial));
      potentials := potentials[newId := doc];
      o := Success;
    }

    /** `removePotentialStudent`. */
    method RemovePotentialStudent(id: string) returns (o: Outcome)
      modifies this
      ensures (Snapshot(), o) == RemovePotentialStep(old(Snapshot()), id)
    {
      potentials := potentials - {id};
      o := Success;
    }

    /** `reschedulePotentialStudent`. */
    method ReschedulePotentialStudent(pid: string, oldLessonId: string, newCourseId: string, date: Day, timeSlot: string)
      returns (o: Outcome)
      modifies this
      ensures (Snapshot(), o) == ReschedulePotentialStep(old(Snapshot()), pid, oldLessonId, newCourseId, date, timeSlot)
    {
      var r := ReschedulePotentialStep(Snapshot(), pid, oldLessonId, newCourseId, date, timeSlot);
      potentials := r.0.potentials;
      o := r.1;
    }

    /** `rescheduleStudent`: rewrite the old lesson's stored items, then move
        the student between the rosters with no capacity check. */
    method RescheduleStudent(sid: string, oldCourseId: string, oldLessonId: string,
                             newCourseId: string, newLessonId: string, date: Day, timeSlot: string)
      returns (o: Outcome)
      modifies this
      ensures (Snapshot(), o) == RescheduleStep(old(Snapshot()), sid, oldCourseId, oldLessonId, newCourseId, newLessonId, date, timeSlot)
    {
      if sid !in students {
        return Failure("Student not found");
      }
      var doc := students[sid];
      if doc.enrollment.Keyed? {
        return Throws;
      }
      var items := RescheduleItems(ItemsOf(doc.enrollment), oldCourseId, oldLessonId, newCourseId, date, timeSlot);
      students := students[sid := doc.(enrollment := Flat(items))];
      courses := RescheduleCourses(courses, sid, oldCourseId, oldLessonId, newCourseId, newLessonId);
      if sid in listed {
        listed := listed[sid := RawLessonIds(items)];
      }
      o := Success;
    }

    /** `toggleLessonCompletion`. */
    method ToggleLessonCompletion(courseId: string, lessonId: string, done: bool)
      modifies this
      ensures Snapshot() == ToggleStep(old(Snapshot()), courseId, lessonId, done)
      ensures Consistency.Valid(old(Snapshot())) ==> Consistency.Valid(Snapshot())
    {
      ghost var st := Snapshot();
      var course := FindCourse(courses, courseId);
      if course.Some? {
        courses := ReplaceCourse(courses, SetCompleted(course.value, lessonId, done));
      }
      if Consistency.Valid(st) {
        Consistency.TogglePreservesValid(st, courseId, lessonId, done);
      }
    }

    /** `shiftCourseDates`: from the start lesson on, by whole weeks. */
    method ShiftCourseDates(courseId: string, startLessonId: string, direction: int)
      modifies this
      ensures Snapshot() == ShiftStep(old(Snapshot()), courseId, startLessonId, direction)
      ensures Consistency.Valid(old(Snapshot())) ==> Consistency.Valid(Snapshot())
    {
      ghost var st := Snapshot();
      var course := FindCourse(courses, courseId);
      if course.Some? {
        var k := LessonIndex(course.value.lessons, startLessonId);
        if k.Some? {
          courses := ReplaceCourse(courses, ShiftFrom(course.value, k.value, 7 * direction));
        }
      }
      if Consistency.Valid(st) {
        Consistency.ShiftPreservesValid(st, courseId, startLessonId, direction);
      }
    }

    /** `createCourse`, returning the new course's category (None where the class throws). */
    method CreateCourse(name: string, timeSlot: string, date: string, roundNumber: string) returns (category: Option<string>)
      modifies this
      ensures (Snapshot(), category) == CreateStep(old(Snapshot()), name, timeSlot, date, roundNumber)
    {
      var start := DayOfText(date);
      if start.None? {
        return None;
      }
      var c := NewCourse(name, timeSlot, start.value, roundNumber);
      courses := courses + [c];
      categories := AddSortedIfNew(categories, c.path.category);
      rounds := AddSortedIfNew(rounds, c.path.round);
      category := Some(c.path.category);
    }

    /** `deleteCourse`. */
    method DeleteCourse(courseId: string)
      modifies this
      ensures Snapshot() == DeleteStep(old(Snapshot()), courseId)
    {
      courses := RemoveCourse(courses, courseId);
    }

    /** `handleRequest`: reject marks the request; approve removes, adds and marks it approved. */
    method HandleRequest(requestId: string, req: Request, approve: bool)
      modifies this
      ensures Snapshot() == HandleRequestStep(old(Snapshot()), requestId, req, approve)
      ensures Consistency.Valid(old(Snapshot())) && IdString(req.lessonId) != "" && '_' !in IdString(req.lessonId)
              ==> Consistency.Valid(Snapshot())
    {
      ghost var st := Snapshot();
      if approve {
        if req.studentId !in listed || req.lessonId.NoId? {
          return;
        }
        RemoveStudentFromLesson(req.lessonCourseId, IdString(req.lessonId), req.studentId);
        var _ := AddStudentToLesson(req.slotCourseId, req.slotLessonId, req.studentId);
      }
      Become(SetStatus(Snapshot(), requestId, if approve then Approved else Rejected));
      if Consistency.Valid(st) && IdString(req.lessonId) != "" && '_' !in IdString(req.lessonId) {
        Consistency.HandleRequestPreservesValid(st, requestId, req, approve);
      }
    }

    /** `findMissingLessons`: for each standard lesson the listed student
        has no entry for, the courses' lessons with that id that have room,
        earliest first; nothing for a student the dashboard does not list. */
    method FindMissingLessons(sid: string) returns (missing: seq<Missing.MissingLesson>)
      ensures sid !in listed ==> missing == []
      ensures sid in listed ==> missing == Missing.FindMissing(courses, listed[sid])
    {
      if sid !in listed {
        return [];
      }
      missing := MissingLessonsOf(courses, listed[sid]);
    }

    /** The load: read and sort the courses, then for each student in id
        order hydrate their entries and push them onto the rosters they name;
        then the filter lists. Requests and potential students come from
        their own listeners and are passed in. */
    method Load(courseDocs: seq<Loading.CourseDoc>, studentDocs: seq<(string, StudentDoc)>,
                ps: map<string, PotentialDoc>, rs: map<string, Request>)
      modifies this
      ensures Snapshot() == Loading.Load(courseDocs, studentDocs, ps, rs)
    {
      var loaded := LoadCourseDocs(courseDocs);
      loaded := SortBy(loaded, Loading.ByName);
      var sorted := SortBy(studentDocs, Loading.ById);
      var cs := SyncStudents(loaded, sorted);
      LoadedState(courseDocs, studentDocs, ps, rs, loaded, cs);
      Become(State(cs, Loading.DocMap(studentDocs), ps, rs, Loading.Categories(cs), Loading.Rounds(cs),
                    Loading.LoadedList(Loading.DocMap(studentDocs))));
    }
  }
}
