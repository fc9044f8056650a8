/** The logic of the enrollment tab: the course-id suggestions of the
    autocomplete, the checks the enroll form makes before it asks the
    engine to enroll (creating the student document first when there is
    none), and the lesson information saved with a potential student. */
module EnrollmentTab {
  import opened Strings
  import opened Seqs
  import opened Calendar
  import opened Records
  import opened Sync
  import opened Courses
  import opened Steps
  import opened Laws
  import opened Consistency

  // ---- courseSuggestions ----

  /** The most suggestions shown. */
  const MaxSuggestions: nat := 10

  /** The enroll form's status messages. */
  const MissingFieldsMsg := "Missing required fields (Course ID)."
  const MissingIdMsg := "Student ID is required."
  const UnknownCoursePrefix := "Course not found: "
  const EnrolledPrefix := "Successfully enrolled "
  const UnexpectedMsg := "An unexpected error occurred."

  /** `allCourses.map(c => c.id)`. */
  function CourseIds(cs: seq<Course>): (r: seq<string>)
    ensures |r| == |cs| && forall i :: 0 <= i < |cs| ==> r[i] == cs[i].id
  {
    seq(|cs|, i requires 0 <= i < |cs| => cs[i].id)
  }

  /** `s.slice(0, n)`. */
  function Take<T>(s: seq<T>, n: nat): (r: seq<T>)
    ensures |r| == if |s| <= n then |s| else n
    ensures r == s[..|r|]
  {
    if |s| <= n then s else s[..n]
  }

  /** The id, lowercased, starts with the query. */
  predicate LowerStartsWith(id: string, q: string) {
    StartsWith(ToLower(id), q)
  }

  /** The id, lowercased, contains the query. */
  predicate LowerContains(id: string, q: string) {
    Contains(ToLower(id), q)
  }

  function StartsWithQuery(q: string): string -> bool {
    (id: string) => LowerStartsWith(id, q)
  }

  /** The id is not among the starting ones and, lowercased, contains the query. */
  function ContainsOnly(q: string, starts: seq<string>): string -> bool {
    (id: string) => id !in starts && LowerContains(id, q)
  }

  /** The ids that start with the query, then those that only contain it. */
  function Ranked(q: string, base: seq<string>): seq<string> {
    var starts := Filter(base, StartsWithQuery(q));
    starts + Filter(base, ContainsOnly(q, starts))
  }

  /** `courseSuggestions`: at most ten course ids for the typed text. */
  function CourseSuggestions(courseInput: string, allCourses: seq<Course>): (r: seq<string>)
    ensures |r| <= MaxSuggestions
  {
    var q := ToLower(Trim(courseInput));
    var base := CourseIds(allCourses);
    if q == [] then Take(base, MaxSuggestions) else Take(Ranked(q, base), MaxSuggestions)
  }

  /** With nothing typed the suggestions are the first ten course ids, in catalog order. */
  lemma SuggestionsWithoutQuery(courseInput: string, allCourses: seq<Course>)
    requires ToLower(Trim(courseInput)) == []
    ensures var r := CourseSuggestions(courseInput, allCourses);
            |r| == (if |allCourses| <= 10 then |allCourses| else 10) &&
            forall i :: 0 <= i < |r| ==> r[i] == allCourses[i].id
  {
  }

  /** Every suggestion for a query is a course id that contains the query, case-insensitively. */
  lemma SuggestionsMatch(courseInput: string, allCourses: seq<Course>, id: string)
    requires ToLower(Trim(courseInput)) != []
    requires id in CourseSuggestions(courseInput, allCourses)
    ensures id in CourseIds(allCourses) && Contains(ToLower(id), ToLower(Trim(courseInput)))
  {
    var q := ToLower(Trim(courseInput));
    var base := CourseIds(allCourses);
    assert id in Ranked(q, base);
    if id in Filter(base, StartsWithQuery(q)) {
      StartsWithContains(ToLower(id), q);
    }
  }

  /** The ids before the cut between the two parts start with the query. */
  lemma RankedHead(q: string, base: seq<string>, k: nat)
    requires k < |Filter(base, StartsWithQuery(q))|
    ensures k < |Ranked(q, base)| && StartsWith(ToLower(Ranked(q, base)[k]), q)
  {
    var starts := Filter(base, StartsWithQuery(q));
    assert Ranked(q, base)[k] == starts[k];
    assert starts[k] in starts;
  }

  /** The ids after the cut only contain the query: they do not start with it. */
  lemma RankedTail(q: string, base: seq<string>, k: nat)
    requires |Filter(base, StartsWithQuery(q))| <= k < |Ranked(q, base)|
    ensures !StartsWith(ToLower(Ranked(q, base)[k]), q)
  {
    var starts := Filter(base, StartsWithQuery(q));
    var rest := Filter(base, ContainsOnly(q, starts));
    var id := Ranked(q, base)[k];
    assert id == rest[k - |starts|];
    assert id in rest;
    assert id in base && id !in starts;
  }

  /** In the ranked list an id that starts with the query precedes every id that only contains it. */
  lemma RankedOrder(q: string, base: seq<string>, i: nat, j: nat)
    requires i < j < |Ranked(q, base)|
    requires StartsWith(ToLower(Ranked(q, base)[j]), q)
    ensures StartsWith(ToLower(Ranked(q, base)[i]), q)
  {
    if i < |Filter(base, StartsWithQuery(q))| {
      RankedHead(q, base, i);
    } else {
      RankedTail(q, base, j);
    }
  }

  /** An id that starts with the query is never listed after one that only contains it. */
  lemma SuggestionsRanked(courseInput: string, allCourses: seq<Course>, i: nat, j: nat)
    requires ToLower(Trim(courseInput)) != []
    requires i < j < |CourseSuggestions(courseInput, allCourses)|
    requires StartsWith(ToLower(CourseSuggestions(courseInput, allCourses)[j]), ToLower(Trim(courseInput)))
    ensures StartsWith(ToLower(CourseSuggestions(courseInput, allCourses)[i]), ToLower(Trim(courseInput)))
  {
    var q := ToLower(Trim(courseInput));
    var ranked := Ranked(q, CourseIds(allCourses));
    var r := CourseSuggestions(courseInput, allCourses);
    assert r == Take(ranked, MaxSuggestions);
    assert r[i] == ranked[i] && r[j] == ranked[j];
    RankedOrder(q, CourseIds(allCourses), i, j);
  }

  /** A prefix of a sequence without repetitions has none. */
  lemma TakeNoDup<T>(s: seq<T>, n: nat)
    requires NoDup(s)
    ensures NoDup(Take(s, n))
  {
  }

  /** Two sequences without repetitions and without a common element concatenate into one. */
  lemma ConcatNoDup<T>(a: seq<T>, b: seq<T>)
    requires NoDup(a) && NoDup(b)
    requires forall x :: x in b ==> x !in a
    ensures NoDup(a + b)
  {
    forall i, j | 0 <= i < j < |a + b| ensures (a + b)[i] != (a + b)[j] {
      if i < |a| && j >= |a| {
        assert (a + b)[j] == b[j - |a|];
        assert (a + b)[j] in b;
      }
    }
  }

  /** With distinct course ids no id is suggested twice. */
  lemma SuggestionsDistinct(courseInput: string, allCourses: seq<Course>)
    requires NoDup(CourseIds(allCourses))
    ensures NoDup(CourseSuggestions(courseInput, allCourses))
  {
    var q := ToLower(Trim(courseInput));
    var base := CourseIds(allCourses);
    if q == [] {
      TakeNoDup(base, MaxSuggestions);
    } else {
      var starts := Filter(base, StartsWithQuery(q));
      var rest := Filter(base, ContainsOnly(q, starts));
      FilterKeepsNoDup(base, StartsWithQuery(q));
      FilterKeepsNoDup(base, ContainsOnly(q, starts));
      ConcatNoDup(starts, rest);
      TakeNoDup(starts + rest, MaxSuggestions);
    }
  }

  /** A matching course id is left out only when ten suggestions are already shown. */
  lemma SuggestionsCutOnlyWhenFull(courseInput: string, allCourses: seq<Course>, id: string)
    requires ToLower(Trim(courseInput)) != []
    requires id in CourseIds(allCourses) && Contains(ToLower(id), ToLower(Trim(courseInput)))
    requires id !in CourseSuggestions(courseInput, allCourses)
    ensures |CourseSuggestions(courseInput, allCourses)| == MaxSuggestions
  {
    var q := ToLower(Trim(courseInput));
    var base := CourseIds(allCourses);
    var starts := Filter(base, StartsWithQuery(q));
    assert id in starts || id in Filter(base, ContainsOnly(q, starts));
    assert id in Ranked(q, base);
  }

  // ---- handleEnroll ----

  /** The four inputs of the enroll form. */
  datatype EnrollForm = EnrollForm(studentInput: string, studentNameInput: string, courseInput: string, roundInput: string)

  /** The status line under the form. */
  datatype Status = Done(msg: string) | Error(msg: string)

  /** The course id the form aims at: the trimmed course text and round. */
  function TargetCourseId(form: EnrollForm): string {
    Trim(form.courseInput) + Trim(form.roundInput)
  }

  /** The document the form writes for an id the store does not have. */
  function NewStudentDoc(form: EnrollForm): (doc: StudentDoc)
    ensures View(doc) == [] && doc.enrollment == Flat(ToRaws(View(doc)))
  {
    StudentDoc(Or(Trim(form.studentNameInput), Trim(form.studentInput)), Flat([]))
  }

  /** The state with the student document created when it is missing. */
  function WithStudent(st: State, sid: string, doc: StudentDoc): (r: State)
    ensures sid in r.students
    ensures sid in st.students ==> r == st
    ensures r.courses == st.courses && r.students.Keys == st.students.Keys + {sid}
    ensures forall s :: s in st.students ==> r.students[s] == st.students[s]
    ensures sid !in st.students ==> r.listed == ListedWith(st.listed, sid)
  {
    if sid in st.students then st else st.(students := st.students[sid := doc], listed := ListedWith(st.listed, sid))
  }

  /** `handleEnroll`: the form's checks, then the document creation and the engine's enrollment. */
  function HandleEnroll(st: State, form: EnrollForm): (r: (State, Status))
    ensures form.courseInput == [] && Trim(form.roundInput) == [] ==>
              r == (st, Error(MissingFieldsMsg))
    ensures !(form.courseInput == [] && Trim(form.roundInput) == []) && Trim(form.studentInput) == [] ==>
              r == (st, Error(MissingIdMsg))
    ensures FindCourse(st.courses, TargetCourseId(form)).None? ==> r.0 == st && r.1.Error?
    ensures r.1.Done? <==>
              !(form.courseInput == [] && Trim(form.roundInput) == []) && Trim(form.studentInput) != [] &&
              FindCourse(st.courses, TargetCourseId(form)).Some?
  {
    if form.courseInput == [] && Trim(form.roundInput) == [] then (st, Error(MissingFieldsMsg))
    else if Trim(form.studentInput) == [] then (st, Error(MissingIdMsg))
    else if FindCourse(st.courses, TargetCourseId(form)).None? then (st, Error(UnknownCoursePrefix + TargetCourseId(form)))
    else Enroll(st, Trim(form.studentInput), NewStudentDoc(form), TargetCourseId(form))
  }

  /** The write and the engine call once the checks pass, with the status the result gives. */
  function Enroll(st: State, sid: string, doc: StudentDoc, courseId: string): (r: (State, Status))
    requires FindCourse(st.courses, courseId).Some?
    ensures r.1 == Done(EnrolledPrefix + sid + "!")
    ensures r.0 == EnrollStep(WithStudent(st, sid, doc), courseId, sid).0
  {
    var res := EnrollStep(WithStudent(st, sid, doc), courseId, sid);
    match res.1
    case Success => (res.0, Done(EnrolledPrefix + sid + "!"))
    case Failure(msg) => (res.0, Error("Error: " + msg))
    case Throws => (res.0, Error(UnexpectedMsg))
  }

  /** An unknown course is reported with the id the form built, and nothing is written. */
  lemma EnrollUnknownCourseMessage(st: State, form: EnrollForm)
    requires !(form.courseInput == [] && Trim(form.roundInput) == []) && Trim(form.studentInput) != []
    requires FindCourse(st.courses, TargetCourseId(form)).None?
    ensures HandleEnroll(st, form) == (st, Error(UnknownCoursePrefix + TargetCourseId(form)))
  {
  }

  /** A successful enroll leaves the trimmed id with a student document and
      on the roster of every lesson of the course. */
  lemma EnrollFormPutsStudentOnRosters(st: State, form: EnrollForm, lid: string)
    requires HandleEnroll(st, form).1.Done?
    requires FindLesson(FindCourse(st.courses, TargetCourseId(form)).value, lid).Some?
    ensures var after := HandleEnroll(st, form).0;
            Trim(form.studentInput) in after.students &&
            InRoster(after.courses, TargetCourseId(form), lid, Trim(form.studentInput))
  {
    var sid := Trim(form.studentInput);
    var target := TargetCourseId(form);
    var created := WithStudent(st, sid, NewStudentDoc(form));
    EnrollStepSucceeds(created, target, sid);
    EnrollAddsToEveryLesson(created, target, sid, target, lid);
  }

  /** Adding a document with no entries for an id nobody's roster names keeps the state valid. */
  lemma NewStudentKeepsValid(st: State, sid: string, doc: StudentDoc)
    requires Valid(st) && NormalDoc(doc) && View(doc) == []
    ensures Valid(WithStudent(st, sid, doc))
  {
    var r := WithStudent(st, sid, doc);
    if sid !in st.students {
      forall cid, lid, s | InRoster(r.courses, cid, lid, s) ensures HasEntry(r, s, cid, lid) {
        assert HasEntry(st, s, cid, lid);
      }
      forall cid, lid, s | HasEntry(r, s, cid, lid) && Roster(r.courses, cid, lid).Some?
        ensures InRoster(r.courses, cid, lid, s)
      {
        assert HasEntry(st, s, cid, lid);
      }
    }
  }

  /** Because the form writes the missing document before it enrolls, an
      enroll through the form keeps both halves of the enrollment relation
      in agreement (the engine alone does not, for an unknown id). */
  lemma EnrollFormPreservesConsistent(st: State, form: EnrollForm)
    requires Valid(st)
    ensures Consistent(HandleEnroll(st, form).0)
  {
    EnrollFormConsistentAt(st, form, HandleEnroll(st, form));
  }

  /** The same, for the result `r` of the form. */
  lemma EnrollFormConsistentAt(st: State, form: EnrollForm, r: (State, Status))
    requires Valid(st) && r == HandleEnroll(st, form)
    ensures Consistent(r.0)
  {
    var sid := Trim(form.studentInput);
    var target := TargetCourseId(form);
    var doc := NewStudentDoc(form);
    HandleEnrollCases(st, form, sid, doc, target, r);
    NewStudentDocNormal(form, doc);
    EnrollOrNothingConsistent(st, sid, doc, target, r);
  }

  /** Either outcome of the form keeps the relation in agreement: nothing written, or the write and the enroll. */
  lemma EnrollOrNothingConsistent(st: State, sid: string, doc: StudentDoc, target: string, r: (State, Status))
    requires Valid(st) && NormalDoc(doc) && View(doc) == []
    requires r.1.Done? ==> FindCourse(st.courses, target).Some? && r == Enroll(st, sid, doc, target)
    requires !r.1.Done? ==> r.0 == st
    ensures Consistent(r.0)
  {
    if r.1.Done? {
      EnrollKeepsConsistent(st, sid, doc, target);
    }
  }

  /** A form that passes its checks gives the engine's enroll on the created document; one that does not writes nothing. */
  lemma HandleEnrollCases(st: State, form: EnrollForm, sid: string, doc: StudentDoc, target: string, r: (State, Status))
    requires sid == Trim(form.studentInput) && doc == NewStudentDoc(form) && target == TargetCourseId(form)
    requires r == HandleEnroll(st, form)
    ensures r.1.Done? ==> FindCourse(st.courses, target).Some? && r == Enroll(st, sid, doc, target)
    ensures !r.1.Done? ==> r.0 == st
  {
  }

  /** The document the form writes is in the dashboard's normal form. */
  lemma NewStudentDocNormal(form: EnrollForm, doc: StudentDoc)
    requires doc == NewStudentDoc(form)
    ensures NormalDoc(doc) && View(doc) == []
  {
  }

  /** The write of a document without entries and then the engine's enroll keep the relation in agreement. */
  lemma EnrollKeepsConsistent(st: State, sid: string, doc: StudentDoc, courseId: string)
    requires Valid(st) && NormalDoc(doc) && View(doc) == [] && FindCourse(st.courses, courseId).Some?
    ensures Consistent(Enroll(st, sid, doc, courseId).0)
  {
    NewStudentKeepsValid(st, sid, doc);
    EnrollPreservesConsistent(WithStudent(st, sid, doc), courseId, sid);
  }

  // ---- handleSavePotential ----

  /** The lesson information saved with a potential student: the first
      lesson of the course with the course's time slot, or a note that the
      course has no lessons. */
  datatype LessonInfo =
    | FirstLesson(courseId: string, lessonId: string, name: string, dateStr: Day, timeSlot: string)
    | NoLessons(courseId: string)

  /** What `handleSavePotential` does: refuse with a message, or hand the
      name, course id, lesson information and potential id to the engine. */
  datatype SaveRequest =
    | Refused(msg: string)
    | Save(name: string, courseId: string, info: LessonInfo, potentialId: string)

  function InfoOf(c: Course): LessonInfo {
    if c.lessons != [] then FirstLesson(c.id, c.lessons[0].id, c.lessons[0].name, c.lessons[0].dateStr, c.timeSlot)
    else NoLessons(c.id)
  }

  /** `handleSavePotential`, up to the call into the engine. */
  function SavePotential(allCourses: seq<Course>, form: EnrollForm): (r: SaveRequest)
    ensures TargetCourseId(form) == [] || Or(Trim(form.studentNameInput), Trim(form.studentInput)) == [] ==>
              r == Refused("Name (or Student ID) and Course ID are required for potential list.")
    ensures r.Save? ==> r.courseId == TargetCourseId(form) && r.potentialId == Trim(form.studentInput)
    ensures r.Save? ==> r.name != [] && (Trim(form.studentNameInput) != [] ==> r.name == Trim(form.studentNameInput))
  {
    var target := TargetCourseId(form);
    var name := Or(Trim(form.studentNameInput), Trim(form.studentInput));
    if target == [] || name == [] then Refused("Name (or Student ID) and Course ID are required for potential list.")
    else
      match FindCourse(allCourses, target)
      case None => Refused("Course not found.")
      case Some(c) => Save(name, target, InfoOf(c), Trim(form.studentInput))
  }

  /** A save is refused with "Course not found." exactly when the inputs are
      given and no course has the id; otherwise the information names the
      course, and its lesson is the one the course's lookup finds first,
      with the course's time slot. */
  lemma SavedLessonInfo(allCourses: seq<Course>, form: EnrollForm)
    requires TargetCourseId(form) != [] && Or(Trim(form.studentNameInput), Trim(form.studentInput)) != []
    ensures var r := SavePotential(allCourses, form);
            (r == Refused("Course not found.") <==> FindCourse(allCourses, TargetCourseId(form)).None?) &&
            (r.Save? ==> r.info.courseId == TargetCourseId(form))
    ensures var r := SavePotential(allCourses, form);
            r.Save? && r.info.FirstLesson? ==>
              var c := FindCourse(allCourses, TargetCourseId(form)).value;
              FindLesson(c, r.info.lessonId) == Some(c.lessons[0]) &&
              r.info.name == c.lessons[0].name && r.info.dateStr == c.lessons[0].dateStr &&
              r.info.timeSlot == c.timeSlot
    ensures var r := SavePotential(allCourses, form);
            r.Save? ==> (r.info.NoLessons? <==> FindCourse(allCourses, TargetCourseId(form)).value.lessons == [])
  {
  }
}
