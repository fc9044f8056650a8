/** Reading the store when the dashboard opens, and writing a course back:
    the course documents become courses (name and round parsed from the
    document id), the student documents' items are hydrated from the
    catalog, and the reverse-sync pass puts every student on the rosters of
    the lessons their entries name. */
module Loading {
  import opened Strings
  import opened Seqs
  import opened Calendar
  import opened Records
  import opened Courses
  import opened AdminConstants
  import opened Steps

  // ---- Stored course documents ----

  /** A lesson as a course document stores it. */
  datatype StoredLesson = StoredLesson(id: RawId, name: string, dateStr: Day, completed: bool, students: seq<string>)

  /** A course document: its id, category, time slot and lessons. A missing
      category is "" and a missing lesson array is empty. */
  datatype CourseDoc = CourseDoc(id: string, category: string, timeSlot: string, lessons: seq<StoredLesson>)

  // ---- The `roundNNN` suffix of a course id ----

  /** The length of the run of digits at the end of s. */
  function TrailingDigits(s: string): (n: nat)
    ensures n <= |s|
    ensures forall i :: |s| - n <= i < |s| ==> IsDigit(s[i])
    ensures n < |s| ==> !IsDigit(s[|s| - n - 1])
  {
    if s == [] || !IsDigit(s[|s| - 1]) then 0 else 1 + TrailingDigits(s[..|s| - 1])
  }

  /** A round name as the id suffix: "round" and at least one digit. */
  predicate IsRoundSuffix(t: string) {
    |t| > 5 && t[..5] == "round" && forall i :: 5 <= i < |t| ==> IsDigit(t[i])
  }

  /** Where the second group of `/(.*)(round\d+)$/` starts in the id, if the id matches. */
  function RoundStart(id: string): (r: Option<nat>)
    ensures r.Some? ==> r.value + 5 < |id| && IsRoundSuffix(id[r.value..])
  {
    var n := TrailingDigits(id);
    if n > 0 && |id| - n >= 5 && id[|id| - n - 5..|id| - n] == "round" then
      assert id[|id| - n - 5..][..5] == id[|id| - n - 5..|id| - n];
      Some(|id| - n - 5)
    else None
  }

  /** The regular expression matches exactly when the id ends in a round
      suffix, and then at one place only: "round" ends in a letter, so the
      digits after it are the whole run of trailing digits. */
  lemma RoundStartExact(id: string, p: nat)
    requires p <= |id|
    ensures IsRoundSuffix(id[p..]) <==> RoundStart(id) == Some(p)
  {
    var n := TrailingDigits(id);
    if IsRoundSuffix(id[p..]) {
      assert id[p + 4] == id[p..][4] == 'd';
      assert forall i :: p + 5 <= i < |id| ==> IsDigit(id[i]) by {
        forall i | p + 5 <= i < |id| ensures IsDigit(id[i]) {
          assert id[i] == id[p..][i - p];
        }
      }
      assert p + 5 == |id| - n;
      assert id[|id| - n - 5..|id| - n] == id[p..][..5];
    }
  }

  /** `s.replace(/_$/, "")`: one trailing underscore removed. */
  function DropTrailingUnderscore(s: string): (r: string)
    ensures |s| > 0 && s[|s| - 1] == '_' ==> r == s[..|s| - 1]
    ensures !(|s| > 0 && s[|s| - 1] == '_') ==> r == s
  {
    if |s| > 0 && s[|s| - 1] == '_' then s[..|s| - 1] else s
  }

  /** The course name parsed from a document id. */
  function ParsedName(id: string): string {
    match RoundStart(id)
    case None => id
    case Some(p) => DropTrailingUnderscore(id[..p])
  }

  /** The round parsed from a document id, "round001" when there is none. */
  function ParsedRound(id: string): string {
    match RoundStart(id)
    case None => "round001"
    case Some(p) => id[p..]
  }

  /** A composite id `name_round` parses back into its name and round. */
  lemma ParseComposite(name: string, round: string)
    requires IsRoundSuffix(round)
    ensures ParsedName(name + "_" + round) == name && ParsedRound(name + "_" + round) == round
  {
    var id := name + "_" + round;
    var p := |name| + 1;
    assert id[p..] == round;
    RoundStartExact(id, p);
    assert id[..p] == name + "_";
  }

  /** An id without a round suffix keeps its whole text as the name, in round "round001". */
  lemma ParseNoRound(id: string)
    requires forall p :: 0 <= p <= |id| ==> !IsRoundSuffix(id[p..])
    ensures ParsedName(id) == id && ParsedRound(id) == "round001"
  {
  }

  /** The round name `createCourse` builds from digits is a round suffix. */
  lemma RoundNameOfDigits(roundNumber: string)
    requires roundNumber != [] && AllDigits(roundNumber)
    ensures IsRoundSuffix(RoundName(roundNumber))
  {
    var padded := PadStart(roundNumber, 3, '0');
    assert !StartsWith(roundNumber, "round") by {
      if |roundNumber| >= 5 { assert !IsDigit(roundNumber[0]) || roundNumber[0] != 'r'; }
    }
    var t := "round" + padded;
    assert t[..5] == "round";
    forall i | 5 <= i < |t| ensures IsDigit(t[i]) {
      if |roundNumber| < 3 && i - 5 < 3 - |roundNumber| {
        assert t[i] == padded[i - 5] == '0';
      } else if |roundNumber| < 3 {
        assert padded[3 - |roundNumber|..] == roundNumber;
        assert t[i] == roundNumber[i - 5 - (3 - |roundNumber|)];
      } else {
        assert t[i] == roundNumber[i - 5];
      }
    }
  }

  // ---- Loading and saving courses ----

  /** A lesson read from a course document: the id as text (`String(l.id)`). */
  function LoadLesson(l: StoredLesson): (r: Lesson)
    ensures r.id == IdString(l.id) && r.students == l.students
  {
    Lesson(IdString(l.id), l.name, l.dateStr, l.completed, l.students)
  }

  /** A course read from its document. */
  function LoadCourse(d: CourseDoc): (c: Course)
    ensures c.id == d.id && c.timeSlot == d.timeSlot
    ensures c.name == ParsedName(d.id) && c.path.round == ParsedRound(d.id)
    ensures c.path.category == Or(d.category, "Uncategorized") && c.path.category != ""
    ensures |c.lessons| == |d.lessons| && forall k :: 0 <= k < |d.lessons| ==> c.lessons[k] == LoadLesson(d.lessons[k])
  {
    Course(d.id, ParsedName(d.id), d.timeSlot, CoursePath(Or(d.category, "Uncategorized"), ParsedRound(d.id)),
           seq(|d.lessons|, k requires 0 <= k < |d.lessons| => LoadLesson(d.lessons[k])))
  }

  /** `a.name.localeCompare(b.name) <= 0`, with code-point order for the collation. */
  predicate ByName(a: Course, b: Course) {
    LexLe(a.name, b.name)
  }

  lemma ByNameIsTotalPreorder()
    ensures TotalPreorder(ByName)
  {
    forall a: Course, b: Course ensures ByName(a, b) || ByName(b, a) {
      LexLeTotal(a.name, b.name);
    }
    forall a: Course, b: Course, c: Course | ByName(a, b) && ByName(b, c) ensures ByName(a, c) {
      LexLeTrans(a.name, b.name, c.name);
    }
  }

  /** Every course document read, in the order the store gives them. */
  function LoadAll(docs: seq<CourseDoc>): (r: seq<Course>)
    ensures |r| == |docs| && forall i :: 0 <= i < |docs| ==> r[i] == LoadCourse(docs[i])
  {
    seq(|docs|, i requires 0 <= i < |docs| => LoadCourse(docs[i]))
  }

  /** Every course document read, then sorted by name. */
  function LoadCourses(docs: seq<CourseDoc>): (r: seq<Course>)
    ensures multiset(r) == multiset(LoadAll(docs)) && |r| == |docs|
  {
    SortBy(LoadAll(docs), ByName)
  }

  /** The loaded courses are in name order. */
  lemma LoadCoursesSorted(docs: seq<CourseDoc>)
    ensures SortedBy(LoadCourses(docs), ByName)
  {
    ByNameIsTotalPreorder();
    SortBySorted(LoadAll(docs), ByName);
  }

  /** The lesson as `saveCourseToFirebase` writes it. */
  function SaveLesson(l: Lesson): (r: StoredLesson)
    ensures LoadLesson(r) == l
  {
    StoredLesson(TextId(l.id), l.name, l.dateStr, l.completed, l.students)
  }

  function SaveLessons(ls: seq<Lesson>): (r: seq<StoredLesson>)
    ensures |r| == |ls| && forall k :: 0 <= k < |ls| ==> r[k] == SaveLesson(ls[k])
  {
    seq(|ls|, k requires 0 <= k < |ls| => SaveLesson(ls[k]))
  }

  /** The category `saveCourseToFirebase` writes: the id up to its first "_". */
  function SavedCategory(id: string): (r: string)
    ensures r != ""
  {
    Or(Split(id, '_')[0], "Uncategorized")
  }

  /** `saveCourseToFirebase` as written: the category is recomputed from the id. */
  function SaveCourse(c: Course): (d: CourseDoc)
    ensures d.id == c.id && d.category == SavedCategory(c.id) && d.timeSlot == c.timeSlot
    ensures |d.lessons| == |c.lessons|
  {
    CourseDoc(c.id, SavedCategory(c.id), c.timeSlot, SaveLessons(c.lessons))
  }

  /** `saveCourseToFirebase` storing the category the course already has. */
  function SaveCourseKeepingCategory(c: Course): (d: CourseDoc)
    ensures d.id == c.id && d.category == c.path.category && d.timeSlot == c.timeSlot
    ensures |d.lessons| == |c.lessons|
  {
    CourseDoc(c.id, c.path.category, c.timeSlot, SaveLessons(c.lessons))
  }

  /** Saving and loading gives back the lessons (ids, names, dates, flags and rosters). */
  lemma LoadSaveLessons(c: Course)
    ensures LoadCourse(SaveCourse(c)).lessons == c.lessons
    ensures LoadCourse(SaveCourseKeepingCategory(c)).lessons == c.lessons
  {
  }

  /** A course whose id is its name and round joined by "_" survives a save
      and a load unchanged when the save keeps the category. */
  lemma LoadSaveRoundTrip(c: Course)
    requires c.id == c.name + "_" + c.path.round && IsRoundSuffix(c.path.round) && c.path.category != ""
    ensures LoadCourse(SaveCourseKeepingCategory(c)) == c
  {
    ParseComposite(c.name, c.path.round);
  }

  /** A course made by `createCourse` with a round number of digits survives a save and a load. */
  lemma CreatedCourseReloads(name: string, timeSlot: string, start: Day, roundNumber: string)
    requires roundNumber != [] && AllDigits(roundNumber)
    ensures var c := NewCourse(name, timeSlot, start, roundNumber);
            LoadCourse(SaveCourseKeepingCategory(c)) == c
  {
    RoundNameOfDigits(roundNumber);
    LoadSaveRoundTrip(NewCourse(name, timeSlot, start, roundNumber));
  }

  /** As written, a created course comes back under another category: the
      course "Drama" is created in category "DRAM", but the stored category
      is "Drama", so after a reload it is filed under "Drama". */
  lemma SavedCategoryDiffers(start: Day)
    ensures var c := NewCourse("Drama", "10:00 - 11:00", start, "1");
            && c.path.category == "DRAM"
            && LoadCourse(SaveCourse(c)).path.category == "Drama"
  {
    var c := NewCourse("Drama", "10:00 - 11:00", start, "1");
    RoundNameOne();
    DramaSavedCategory(c.id);
    DramaCategory();
    assert SaveCourse(c).category == "Drama";
  }

  /** Round number "1" gives the round "round001". */
  lemma RoundNameOne()
    ensures RoundName("1") == "round001"
  {
    assert !StartsWith("1", "round");
    assert PadStart("1", 3, '0') == "001";
  }

  /** The id "Drama_round001" is saved under the category "Drama". */
  lemma DramaSavedCategory(id: string)
    requires id == "Drama" + "_" + "round001"
    ensures SavedCategory(id) == "Drama"
  {
    SplitNoSep("round001", '_');
    SplitOneSep("Drama", "round001", '_');
  }

  /** The name "Drama" gives the category "DRAM". */
  lemma DramaCategory()
    ensures CategoryFromId("Drama") == "DRAM"
  {
    assert "Drama"[..4] == "Dram";
    assert ToUpper("Dram") == "DRAM";
  }

  // ---- Hydrating a stored student document ----

  /** The course id of a stored item: `courseId || actualCourseId || courseName + round`. */
  function EntryCourseId(item: RawItem): string {
    Or(Or(item.courseId, item.actualCourseId), OrOpt(item.courseName, "") + OrOpt(item.round, ""))
  }

  /** The lesson id of a stored item: `String(item.id || item.lessonId)`. */
  function EntryLessonId(item: RawItem): string {
    IdString(OrId(item.id, item.lessonId))
  }

  /** The entry the dashboard shows for a stored item, its details taken from
      the catalog course and lesson when they exist. */
  function Hydrate(cs: seq<Course>, item: RawItem): (e: StudentLesson)
    ensures e.courseId == Or(EntryCourseId(item), "Unknown") && e.lessonId == EntryLessonId(item)
    ensures e.completed == item.completed
  {
    var cId := EntryCourseId(item);
    var lId := EntryLessonId(item);
    var course := FindCourse(cs, cId);
    var lesson := if course.Some? then FindLesson(course.value, lId) else None;
    StudentLesson(
      Or(cId, "Unknown"), lId,
      Or(if course.Some? then course.value.name else "", OrOpt(item.courseName, "")),
      Or(if lesson.Some? then lesson.value.name else "", Or(item.name, "Unknown Lesson")),
      if lesson.Some? then lesson.value.dateStr else item.dateStr,
      Or(if course.Some? then course.value.timeSlot else "", item.timeSlot),
      item.completed)
  }

  /** The catalog wins: the entry of an item whose course and lesson exist
      carries the lesson's date and the course's name and time slot (where
      these are not empty). */
  lemma HydrateFromCatalog(cs: seq<Course>, item: RawItem)
    requires Roster(cs, EntryCourseId(item), EntryLessonId(item)).Some?
    ensures var c := FindCourse(cs, EntryCourseId(item)).value;
            var l := FindLesson(c, EntryLessonId(item)).value;
            var e := Hydrate(cs, item);
            && (c.id != "" ==> e.courseId == c.id) && e.lessonId == l.id && e.dateStr == l.dateStr
            && (l.name != "" ==> e.name == l.name)
            && (c.name != "" ==> e.courseName == c.name)
            && (c.timeSlot != "" ==> e.timeSlot == c.timeSlot)
  {
  }

  /** An entry as the dashboard writes it comes back unchanged when its
      course is not in the catalog, and with the same key when it is. */
  lemma HydrateWritten(cs: seq<Course>, e: StudentLesson)
    requires e.courseId != "" && e.lessonId != ""
    ensures Hydrate(cs, ToRaw(e)).courseId == e.courseId && Hydrate(cs, ToRaw(e)).lessonId == e.lessonId
    ensures FindCourse(cs, e.courseId).None? && e.name != "" ==> Hydrate(cs, ToRaw(e)) == e
  {
  }

  /** Every stored item of a student, hydrated. Lesson groups are not flattened here. */
  function HydrateDoc(cs: seq<Course>, doc: StudentDoc): (r: seq<StudentLesson>)
    ensures |r| == |ItemsOf(doc.enrollment)|
    ensures forall k :: 0 <= k < |r| ==> r[k] == Hydrate(cs, ItemsOf(doc.enrollment)[k])
  {
    var items := ItemsOf(doc.enrollment);
    seq(|items|, k requires 0 <= k < |items| => Hydrate(cs, items[k]))
  }

  /** The lesson ids of a document's entries in the student list the load
      builds: `String(item.id || item.lessonId)` of every stored item, so an
      item with only a `lessonId` counts for that lesson and a group item,
      which has neither, reads "undefined". */
  function ListedIds(doc: StudentDoc): (r: seq<string>)
    ensures |r| == |ItemsOf(doc.enrollment)|
    ensures forall k :: 0 <= k < |r| ==> r[k] == IdString(OrId(ItemsOf(doc.enrollment)[k].id, ItemsOf(doc.enrollment)[k].lessonId))
  {
    var items := ItemsOf(doc.enrollment);
    seq(|items|, k requires 0 <= k < |items| => EntryLessonId(items[k]))
  }

  /** They are the lesson ids of the hydrated entries, whatever the catalog. */
  lemma ListedIdsHydrated(cs: seq<Course>, doc: StudentDoc)
    ensures ListedIds(doc) == LessonIds(HydrateDoc(cs, doc))
  {
  }

  /** The student list the load builds, by id: every document's hydrated entries. */
  function LoadedList(docs: map<string, StudentDoc>): (m: map<string, seq<string>>)
    ensures m.Keys == docs.Keys
    ensures forall s :: s in docs ==> m[s] == ListedIds(docs[s])
  {
    map s | s in docs :: ListedIds(docs[s])
  }

  // ---- Reverse sync ----

  /** One step of the reverse sync: the first course with the entry's course
      id, at its first lesson with the entry's lesson id, gets the student
      pushed onto its roster unless the roster already holds them. */
  function Push(cs: seq<Course>, sid: string, e: StudentLesson): (r: seq<Course>)
    ensures |r| == |cs| && forall i :: 0 <= i < |cs| ==> SameCourse(cs[i], r[i])
  {
    match CourseIndex(cs, e.courseId)
    case None => cs
    case Some(i) =>
      match LessonIndex(cs[i].lessons, e.lessonId)
      case None => cs
      case Some(k) =>
        var l := cs[i].lessons[k];
        if sid in l.students then cs
        else cs[i := cs[i].(lessons := cs[i].lessons[k := l.(students := l.students + [sid])])]
  }

  /** Push changes one roster only, the one the entry names, by appending the
      student when they are not on it. */
  lemma PushRoster(cs: seq<Course>, sid: string, e: StudentLesson, cid: string, lid: string)
    ensures var before := Roster(cs, cid, lid);
            Roster(Push(cs, sid, e), cid, lid) ==
              if cid == e.courseId && lid == e.lessonId && before.Some? && sid !in before.value
              then Some(before.value + [sid]) else before
  {
    var r := Push(cs, sid, e);
    CourseIndexSameIds(cs, r, cid);
    if CourseIndex(cs, e.courseId).Some? && CourseIndex(cs, cid).Some? {
      var i := CourseIndex(cs, e.courseId).value;
      var j := CourseIndex(cs, cid).value;
      if LessonIndex(cs[i].lessons, e.lessonId).Some? {
        var k := LessonIndex(cs[i].lessons, e.lessonId).value;
        LessonIndexSameIds(cs[j].lessons, r[j].lessons, lid);
        if i == j && LessonIndex(cs[j].lessons, lid).Some? {
          var m := LessonIndex(cs[j].lessons, lid).value;
          if m != k {
            assert r[j].lessons[m] == cs[j].lessons[m];
          }
        } else if i != j {
          assert r[j] == cs[j];
        }
      }
    }
  }

  /** A course and lesson id pair with one student. */
  type Claim = (string, StudentLesson)

  /** The reverse sync over the (student, entry) pairs in order. */
  function ReverseSync(cs: seq<Course>, claims: seq<Claim>): (r: seq<Course>)
    decreases |claims|
  {
    if claims == [] then cs
    else
      var last := claims[|claims| - 1];
      Push(ReverseSync(cs, claims[..|claims| - 1]), last.0, last.1)
  }

  /** Every roster shown has no student twice. */
  ghost predicate RostersNoDup(cs: seq<Course>) {
    forall cid, lid :: Roster(cs, cid, lid).Some? ==> NoDup(Roster(cs, cid, lid).value)
  }

  /** The student is on the roster the entry names. */
  predicate Placed(cs: seq<Course>, claim: Claim) {
    InRoster(cs, claim.1.courseId, claim.1.lessonId, claim.0)
  }

  /** The roster grows only by students whose entries name it. */
  ghost predicate ClaimedBy(claims: seq<Claim>, cid: string, lid: string, sid: string) {
    exists j :: 0 <= j < |claims| && claims[j].0 == sid && claims[j].1.courseId == cid && claims[j].1.lessonId == lid
  }

  /** The reverse sync keeps every roster where it was and drops nobody from one. */
  lemma {:induction false} ReverseSyncGrows(cs: seq<Course>, claims: seq<Claim>, cid: string, lid: string)
    decreases |claims|
    ensures Roster(ReverseSync(cs, claims), cid, lid).Some? <==> Roster(cs, cid, lid).Some?
    ensures forall sid :: InRoster(cs, cid, lid, sid) ==> InRoster(ReverseSync(cs, claims), cid, lid, sid)
  {
    if claims != [] {
      var last := claims[|claims| - 1];
      ReverseSyncGrows(cs, claims[..|claims| - 1], cid, lid);
      PushRoster(ReverseSync(cs, claims[..|claims| - 1]), last.0, last.1, cid, lid);
    }
  }

  /** After the reverse sync every entry whose course and lesson exist has
      its student on that roster. */
  lemma {:induction false} ReverseSyncPlaces(cs: seq<Course>, claims: seq<Claim>, j: nat)
    requires j < |claims| && Roster(cs, claims[j].1.courseId, claims[j].1.lessonId).Some?
    ensures Placed(ReverseSync(cs, claims), claims[j])
    decreases |claims|
  {
    var init := claims[..|claims| - 1];
    var last := claims[|claims| - 1];
    var mid := ReverseSync(cs, init);
    assert ReverseSync(cs, claims) == Push(mid, last.0, last.1);
    if j < |init| {
      assert init[j] == claims[j];
      ReverseSyncPlaces(cs, init, j);
      PushKeepsPlaced(mid, last.0, last.1, claims[j]);
    } else {
      assert claims[j] == last;
      ReverseSyncGrows(cs, init, last.1.courseId, last.1.lessonId);
      PushPlaces(mid, last.0, last.1);
    }
  }

  /** Push takes nobody off a roster. */
  lemma PushKeepsPlaced(cs: seq<Course>, sid: string, e: StudentLesson, claim: Claim)
    requires Placed(cs, claim)
    ensures Placed(Push(cs, sid, e), claim)
  {
    PushRoster(cs, sid, e, claim.1.courseId, claim.1.lessonId);
  }

  /** Push puts the student on the roster the entry names when it exists. */
  lemma PushPlaces(cs: seq<Course>, sid: string, e: StudentLesson)
    requires Roster(cs, e.courseId, e.lessonId).Some?
    ensures Placed(Push(cs, sid, e), (sid, e))
  {
    PushRoster(cs, sid, e, e.courseId, e.lessonId);
  }

  /** Rosters without duplicates stay without: a student is pushed only when absent. */
  lemma {:induction false} ReverseSyncNoDup(cs: seq<Course>, claims: seq<Claim>)
    requires RostersNoDup(cs)
    ensures RostersNoDup(ReverseSync(cs, claims))
    decreases |claims|
  {
    if claims != [] {
      var last := claims[|claims| - 1];
      var mid := ReverseSync(cs, claims[..|claims| - 1]);
      ReverseSyncNoDup(cs, claims[..|claims| - 1]);
      forall cid, lid | Roster(Push(mid, last.0, last.1), cid, lid).Some?
        ensures NoDup(Roster(Push(mid, last.0, last.1), cid, lid).value)
      {
        PushRoster(mid, last.0, last.1, cid, lid);
      }
    }
  }

  /** The students on a roster after the reverse sync are the students stored
      there and students whose entries name it. */
  lemma {:induction false} ReverseSyncOnlyClaims(cs: seq<Course>, claims: seq<Claim>, cid: string, lid: string, sid: string)
    requires InRoster(ReverseSync(cs, claims), cid, lid, sid)
    ensures InRoster(cs, cid, lid, sid) || ClaimedBy(claims, cid, lid, sid)
    decreases |claims|
  {
    if claims != [] {
      var init := claims[..|claims| - 1];
      var last := claims[|claims| - 1];
      var mid := ReverseSync(cs, init);
      PushRoster(mid, last.0, last.1, cid, lid);
      if InRoster(mid, cid, lid, sid) {
        ReverseSyncOnlyClaims(cs, init, cid, lid, sid);
        if ClaimedBy(init, cid, lid, sid) {
          var j :| 0 <= j < |init| && init[j].0 == sid && init[j].1.courseId == cid && init[j].1.lessonId == lid;
          assert claims[j] == init[j];
        }
      } else {
        assert claims[|claims| - 1] == last;
      }
    }
  }

  // ---- The whole load ----

  /** `a.id.localeCompare(b.id) <= 0` on student documents. */
  predicate ById(a: (string, StudentDoc), b: (string, StudentDoc)) {
    LexLe(a.0, b.0)
  }

  /** The (student, entry) pairs of the students in order, each student's entries in order. */
  function Claims(cs: seq<Course>, students: seq<(string, StudentDoc)>): (r: seq<Claim>)
    decreases |students|
  {
    if students == [] then []
    else
      var s := students[|students| - 1];
      var es := HydrateDoc(cs, s.1);
      Claims(cs, students[..|students| - 1]) + seq(|es|, k requires 0 <= k < |es| => (s.0, es[k]))
  }

  /** Every hydrated entry of every student gives a claim. */
  lemma {:induction false} ClaimsHaveAll(cs: seq<Course>, students: seq<(string, StudentDoc)>, i: nat, k: nat)
    requires i < |students| && k < |HydrateDoc(cs, students[i].1)|
    ensures (students[i].0, HydrateDoc(cs, students[i].1)[k]) in Claims(cs, students)
    decreases |students|
  {
    var init := students[..|students| - 1];
    var s := students[|students| - 1];
    var es := HydrateDoc(cs, s.1);
    var tail := seq(|es|, k requires 0 <= k < |es| => (s.0, es[k]));
    assert Claims(cs, students) == Claims(cs, init) + tail;
    if i == |students| - 1 {
      assert tail[k] in tail;
    } else {
      assert init[i] == students[i];
      ClaimsHaveAll(cs, init, i, k);
    }
  }

  /** The categories and rounds offered as filters: each distinct value once, sorted. */
  function SortedUnique(xs: seq<string>): (r: seq<string>)
    ensures forall x :: x in r <==> x in xs
  {
    SortByMembers(Dedup(xs), LexLe);
    SortBy(Dedup(xs), LexLe)
  }

  lemma SortedUniqueIsSet(xs: seq<string>)
    ensures SortedBy(SortedUnique(xs), LexLe) && NoDup(SortedUnique(xs))
  {
    SortedUniqueSorted(xs);
    var d := Dedup(xs);
    NoDupPermutation(d, SortBy(d, LexLe));
  }

  lemma SortedUniqueSorted(xs: seq<string>)
    ensures SortedBy(SortBy(Dedup(xs), LexLe), LexLe)
  {
    LexLeIsTotalPreorder();
    SortBySorted(Dedup(xs), LexLe);
  }

  function Categories(cs: seq<Course>): seq<string> {
    SortedUnique(seq(|cs|, i requires 0 <= i < |cs| => Or(cs[i].path.category, "Uncategorized")))
  }

  function Rounds(cs: seq<Course>): seq<string> {
    SortedUnique(seq(|cs|, i requires 0 <= i < |cs| => Or(cs[i].path.round, "round001")))
  }

  /** The student documents by id (a later document with the same id wins). */
  function DocMap(students: seq<(string, StudentDoc)>): (m: map<string, StudentDoc>)
    ensures forall sid :: sid in m <==> exists i :: 0 <= i < |students| && students[i].0 == sid
    decreases |students|
  {
    if students == [] then map[]
    else
      var m := DocMap(students[..|students| - 1])[students[|students| - 1].0 := students[|students| - 1].1];
      assert forall i :: 0 <= i < |students| - 1 ==> students[..|students| - 1][i] == students[i];
      m
  }

  /** The state the dashboard opens with. Requests and potential students
      come from their own listeners and are passed in. The student list holds
      every document's hydrated entries, whose lesson ids are read with
      `item.id || item.lessonId` and whose groups stay single items. */
  function Load(courseDocs: seq<CourseDoc>, studentDocs: seq<(string, StudentDoc)>,
                potentials: map<string, PotentialDoc>, requests: map<string, Request>): (st: State)
    ensures st.potentials == potentials && st.requests == requests
    ensures st.listed.Keys == st.students.Keys
    ensures forall s :: s in st.listed ==> st.listed[s] == LessonIds(HydrateDoc(LoadCourses(courseDocs), st.students[s]))
  {
    var loaded := LoadCourses(courseDocs);
    var sorted := SortBy(studentDocs, ById);
    var cs := ReverseSync(loaded, Claims(loaded, sorted));
    var docs := DocMap(studentDocs);
    forall s | s in docs ensures ListedIds(docs[s]) == LessonIds(HydrateDoc(loaded, docs[s])) {
      ListedIdsHydrated(loaded, docs[s]);
    }
    State(cs, docs, potentials, requests, Categories(cs), Rounds(cs), LoadedList(docs))
  }

  /** Every student document is among the sorted ones. */
  lemma SortedHasDoc(studentDocs: seq<(string, StudentDoc)>, i: nat) returns (i': nat)
    requires i < |studentDocs|
    ensures i' < |SortBy(studentDocs, ById)| && SortBy(studentDocs, ById)[i'] == studentDocs[i]
  {
    var sorted := SortBy(studentDocs, ById);
    assert studentDocs[i] in multiset(studentDocs);
    assert studentDocs[i] in multiset(sorted);
    i' :| 0 <= i' < |sorted| && sorted[i'] == studentDocs[i];
  }

  /** After loading, every stored entry of every student whose course and
      lesson exist has that student on the roster, and exactly once when the
      stored rosters hold no duplicates. */
  lemma LoadPlacesEveryEntry(courseDocs: seq<CourseDoc>, studentDocs: seq<(string, StudentDoc)>,
                             potentials: map<string, PotentialDoc>, requests: map<string, Request>,
                             i: nat, k: nat)
    requires i < |studentDocs| && k < |ItemsOf(studentDocs[i].1.enrollment)|
    requires var e := Hydrate(LoadCourses(courseDocs), ItemsOf(studentDocs[i].1.enrollment)[k]);
             Roster(LoadCourses(courseDocs), e.courseId, e.lessonId).Some?
    ensures var e := Hydrate(LoadCourses(courseDocs), ItemsOf(studentDocs[i].1.enrollment)[k]);
            var st := Load(courseDocs, studentDocs, potentials, requests);
            && InRoster(st.courses, e.courseId, e.lessonId, studentDocs[i].0)
            && (RostersNoDup(LoadCourses(courseDocs)) ==> NoDup(Roster(st.courses, e.courseId, e.lessonId).value))
  {
    var loaded := LoadCourses(courseDocs);
    var claims := Claims(loaded, SortBy(studentDocs, ById));
    var i' := SortedHasDoc(studentDocs, i);
    ClaimsHaveAll(loaded, SortBy(studentDocs, ById), i', k);
    var e := HydrateDoc(loaded, studentDocs[i].1)[k];
    var j :| 0 <= j < |claims| && claims[j] == (studentDocs[i].0, e);
    ReverseSyncPlaces(loaded, claims, j);
    if RostersNoDup(loaded) {
      ReverseSyncNoDup(loaded, claims);
    }
  }

  /** After loading, the category and round filters list each value of the courses once, sorted. */
  lemma LoadFilters(courseDocs: seq<CourseDoc>, studentDocs: seq<(string, StudentDoc)>,
                    potentials: map<string, PotentialDoc>, requests: map<string, Request>)
    ensures var st := Load(courseDocs, studentDocs, potentials, requests);
            && SortedBy(st.categories, LexLe) && NoDup(st.categories)
            && SortedBy(st.rounds, LexLe) && NoDup(st.rounds)
            && (forall x :: x in st.categories <==> exists c :: c in st.courses && c.path.category == x)
  {
    var loaded := LoadCourses(courseDocs);
    var cs := ReverseSync(loaded, Claims(loaded, SortBy(studentDocs, ById)));
    assert Load(courseDocs, studentDocs, potentials, requests) ==
           State(cs, DocMap(studentDocs), potentials, requests, Categories(cs), Rounds(cs), LoadedList(DocMap(studentDocs)));
    // Reverse sync keeps every course's path, and loading never leaves a category empty.
    forall i | 0 <= i < |cs| ensures cs[i].path.category != "" {
      CategoryNonEmpty(courseDocs, studentDocs, i);
    }
    CourseFilters(cs);
  }

  /** The filters of a course list whose categories are all given: each value once, sorted. */
  lemma CourseFilters(cs: seq<Course>)
    requires forall i :: 0 <= i < |cs| ==> cs[i].path.category != ""
    ensures SortedBy(Categories(cs), LexLe) && NoDup(Categories(cs))
    ensures SortedBy(Rounds(cs), LexLe) && NoDup(Rounds(cs))
    ensures forall x :: x in Categories(cs) <==> exists c :: c in cs && c.path.category == x
  {
    var cats := seq(|cs|, i requires 0 <= i < |cs| => Or(cs[i].path.category, "Uncategorized"));
    SortedUniqueIsSet(cats);
    SortedUniqueIsSet(seq(|cs|, i requires 0 <= i < |cs| => Or(cs[i].path.round, "round001")));
    forall x ensures x in Categories(cs) <==> exists c :: c in cs && c.path.category == x {
      if x in cats {
        var i :| 0 <= i < |cats| && cats[i] == x;
        assert cs[i] in cs && cs[i].path.category == x;
      }
      if exists c :: c in cs && c.path.category == x {
        var c :| c in cs && c.path.category == x;
        var i :| 0 <= i < |cs| && cs[i] == c;
        assert cats[i] == x;
      }
    }
  }

  lemma CategoryNonEmpty(courseDocs: seq<CourseDoc>, studentDocs: seq<(string, StudentDoc)>, i: nat)
    requires var loaded := LoadCourses(courseDocs);
             i < |ReverseSync(loaded, Claims(loaded, SortBy(studentDocs, ById)))|
    ensures var loaded := LoadCourses(courseDocs);
            ReverseSync(loaded, Claims(loaded, SortBy(studentDocs, ById)))[i].path.category != ""
  {
    var loaded := LoadCourses(courseDocs);
    var claims := Claims(loaded, SortBy(studentDocs, ById));
    ReverseSyncPaths(loaded, claims);
    assert loaded[i] in multiset(LoadAll(courseDocs));
  }

  /** The reverse sync keeps every course's id, name, time slot and path. */
  lemma {:induction false} ReverseSyncPaths(cs: seq<Course>, claims: seq<Claim>)
    decreases |claims|
    ensures |ReverseSync(cs, claims)| == |cs|
    ensures forall i :: 0 <= i < |cs| ==> SameCourse(cs[i], ReverseSync(cs, claims)[i])
  {
    if claims != [] {
      ReverseSyncPaths(cs, claims[..|claims| - 1]);
    }
  }
}
