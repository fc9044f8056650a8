/** The student side of the engine: how a stored enrollment is read as a
    flat list of entries, the three edits a sync applies (enroll in a whole
    course, take one lesson, drop one lesson) and the date order it writes
    the result in. */
module Sync {
  import opened Strings
  import opened Seqs
  import opened Calendar
  import opened Records

  // ---- Reading a stored enrollment ----

  /** The course id an item falls back to: its course name followed by its round. */
  function FallbackId(item: RawItem): string {
    OrOpt(item.courseName, "") + OrOpt(item.round, "")
  }

  /** The entry for a child lesson of a group item: it inherits the group's
      course id and course name when it has none of its own. */
  function ChildEntry(item: RawItem, child: RawItem): (e: StudentLesson)
    ensures child.courseId != "" ==> e.courseId == child.courseId
    ensures child.courseId == "" && item.courseId != "" ==> e.courseId == item.courseId
    ensures e.lessonId == IdString(child.id)
  {
    StudentLesson(
      Or(Or(child.courseId, item.courseId), FallbackId(item)),
      IdString(child.id),
      Or(OrOpt(child.courseName, ""), OrOpt(item.courseName, "")),
      child.name, child.dateStr, child.timeSlot, child.completed)
  }

  /** The entry for a flat item: the course id comes from `courseId`, else
      `actualCourseId`, else the fallback; the lesson id is `String(id)`. */
  function FlatEntry(item: RawItem): (e: StudentLesson)
    ensures item.courseId != "" ==> e.courseId == item.courseId
    ensures e.lessonId == IdString(item.id)
  {
    StudentLesson(
      Or(Or(item.courseId, item.actualCourseId), FallbackId(item)),
      IdString(item.id), OrOpt(item.courseName, ""),
      item.name, item.dateStr, item.timeSlot, item.completed)
  }

  /** The entries one stored item stands for: its children for a group, else itself. */
  function ItemEntries(item: RawItem): (r: seq<StudentLesson>)
    ensures item.lessons.None? ==> r == [FlatEntry(item)]
    ensures item.lessons.Some? ==> |r| == |item.lessons.value|
  {
    match item.lessons
    case None => [FlatEntry(item)]
    case Some(children) =>
      seq(|children|, i requires 0 <= i < |children| => ChildEntry(item, children[i]))
  }

  /** The flat enrollment of a list of stored items: the items' entries, in order. */
  function Normalize(items: seq<RawItem>): (r: seq<StudentLesson>)
    ensures forall e :: e in r ==> exists k :: 0 <= k < |items| && e in ItemEntries(items[k])
  {
    if items == [] then []
    else
      var init := Normalize(items[..|items| - 1]);
      init + ItemEntries(items[|items| - 1])
  }

  lemma NormalizeAppend(items: seq<RawItem>, item: RawItem)
    ensures Normalize(items + [item]) == Normalize(items) + ItemEntries(item)
  {
    assert (items + [item])[..|items + [item]| - 1] == items;
  }

  /** Every entry of every stored item is in the flat enrollment. */
  lemma {:induction false} NormalizeHasAll(items: seq<RawItem>, k: int)
    requires 0 <= k < |items|
    ensures forall e :: e in ItemEntries(items[k]) ==> e in Normalize(items)
  {
    if k < |items| - 1 {
      NormalizeHasAll(items[..|items| - 1], k);
    }
  }

  /** The flat enrollment a student document stands for. */
  function View(doc: StudentDoc): seq<StudentLesson> {
    Normalize(ItemsOf(doc.enrollment))
  }

  /** The stored form of an entry reads back as that entry. */
  lemma ToRawEntry(e: StudentLesson)
    requires e.courseId != ""
    ensures ItemEntries(ToRaw(e)) == [e]
  {
  }

  /** Entries that all name a course are stored and read back unchanged. */
  lemma {:induction false} NormalizeToRaws(es: seq<StudentLesson>)
    requires forall e :: e in es ==> e.courseId != ""
    ensures Normalize(ToRaws(es)) == es
  {
    if es != [] {
      var init := es[..|es| - 1];
      NormalizeToRaws(init);
      assert ToRaws(es)[..|es| - 1] == ToRaws(init);
      ToRawEntry(es[|es| - 1]);
    }
  }

  /** Whatever their course ids, written entries read back with their lesson ids. */
  lemma {:induction false} NormalizeToRawsIds(es: seq<StudentLesson>)
    ensures LessonIds(Normalize(ToRaws(es))) == LessonIds(es)
  {
    if es != [] {
      var init := es[..|es| - 1];
      var e := es[|es| - 1];
      NormalizeToRawsIds(init);
      assert ToRaws(es)[..|es| - 1] == ToRaws(init);
      assert Normalize(ToRaws(es)) == Normalize(ToRaws(init)) + [FlatEntry(ToRaw(e))];
      LessonIdsSnoc(Normalize(ToRaws(init)), FlatEntry(ToRaw(e)));
      assert es == init + [e];
      LessonIdsSnoc(init, e);
    }
  }

  lemma LessonIdsSnoc(es: seq<StudentLesson>, e: StudentLesson)
    ensures LessonIds(es + [e]) == LessonIds(es) + [e.lessonId]
  {
    assert LessonIds(es + [e])[..|es|] == LessonIds(es);
  }

  // ---- The edits ----

  /** `${courseId}_${id || lessonId}` for an entry (its id and lesson id agree). */
  function Key(e: StudentLesson): string {
    e.courseId + "_" + e.lessonId
  }

  /** The same key for the target `{ courseId, id }` of a removal, where an
      empty id falls through to the missing `lessonId`. */
  function TargetKey(courseId: string, lessonId: string): string {
    courseId + "_" + (if lessonId == "" then "undefined" else lessonId)
  }

  /** The keys of a list of entries. */
  function Keys(es: seq<StudentLesson>): (ks: seq<string>)
    ensures |ks| == |es| && forall i :: 0 <= i < |es| ==> ks[i] == Key(es[i])
  {
    seq(|es|, i requires 0 <= i < |es| => Key(es[i]))
  }

  datatype Action =
    | EnrollCourse(lessons: seq<StudentLesson>)
    | AddLesson(lesson: StudentLesson)
    | RemoveLesson(courseId: string, lessonId: string)

  /** Keeps the entries whose key is not among the new entries' keys. */
  predicate KeyNotAmong(e: StudentLesson, news: seq<StudentLesson>) {
    Key(e) !in Keys(news)
  }

  function NotAmong(news: seq<StudentLesson>): StudentLesson -> bool {
    (e: StudentLesson) => KeyNotAmong(e, news)
  }

  function OtherLesson(lessonId: string): StudentLesson -> bool {
    (e: StudentLesson) => e.lessonId != lessonId
  }

  predicate NotTargetKey(e: StudentLesson, courseId: string, lessonId: string) {
    Key(e) != TargetKey(courseId, lessonId)
  }

  function NotTarget(courseId: string, lessonId: string): StudentLesson -> bool {
    (e: StudentLesson) => NotTargetKey(e, courseId, lessonId)
  }

  /** The action applied to a flat enrollment, before sorting. */
  function Apply(flat: seq<StudentLesson>, a: Action): seq<StudentLesson> {
    match a
    case EnrollCourse(news) => Filter(flat, NotAmong(news)) + news
    case AddLesson(n) => Filter(flat, OtherLesson(n.lessonId)) + [n]
    case RemoveLesson(cid, lid) => Filter(flat, NotTarget(cid, lid))
  }

  /** Date order of entries (the text order of their YYYY-MM-DD dates). */
  function ByDate(a: StudentLesson, b: StudentLesson): bool {
    a.dateStr <= b.dateStr
  }

  lemma ByDateIsTotalPreorder()
    ensures TotalPreorder(ByDate)
  {
  }

  /** The stable sort by date the sync ends with. */
  function SortByDate(es: seq<StudentLesson>): (r: seq<StudentLesson>)
    ensures multiset(r) == multiset(es) && SortedBy(r, ByDate)
  {
    ByDateIsTotalPreorder();
    SortBySorted(es, ByDate);
    SortBy(es, ByDate)
  }

  /** The enrollment a sync writes for a stored document. */
  function SyncEntries(doc: StudentDoc, a: Action): seq<StudentLesson> {
    SortByDate(Apply(View(doc), a))
  }

  /** The document a sync writes back: the same student, with a flat enrollment. */
  function SyncDoc(doc: StudentDoc, a: Action): (d: StudentDoc)
    ensures d.name == doc.name && d.enrollment.Flat?
  {
    StudentDoc(doc.name, Flat(ToRaws(SyncEntries(doc, a))))
  }

  // ---- What the edits do ----

  lemma SortByDateMembers(es: seq<StudentLesson>)
    ensures forall e :: e in SortByDate(es) <==> e in es
  {
    var r := SortByDate(es);
    forall e ensures e in r <==> e in es {
      assert e in r <==> e in multiset(r);
      assert e in es <==> e in multiset(es);
    }
  }

  /** After `add_lesson` exactly one entry has the new lesson's id: the new entry. */
  lemma AddLessonSingleOrdinal(flat: seq<StudentLesson>, n: StudentLesson)
    ensures var r := SortByDate(Apply(flat, AddLesson(n)));
            && n in r
            && (forall e :: e in r && e.lessonId == n.lessonId ==> e == n)
            && (forall i, j :: 0 <= i < j < |r| ==> r[i].lessonId != n.lessonId || r[j].lessonId != n.lessonId)
  {
    var s := Apply(flat, AddLesson(n));
    var f := Filter(flat, OtherLesson(n.lessonId));
    var r := SortByDate(s);
    SortByDateMembers(s);
    assert s == f + [n];
    assert n !in f;
    assert multiset(r)[n] == 1;
    forall i, j | 0 <= i < j < |r|
      ensures r[i].lessonId != n.lessonId || r[j].lessonId != n.lessonId
    {
      if r[i].lessonId == n.lessonId && r[j].lessonId == n.lessonId {
        assert r[i] in s && r[j] in s;
        TwoIndicesCount(r, i, j);
      }
    }
  }

  /** `add_lesson` keeps every other entry whose lesson id differs, and only those. */
  lemma AddLessonKeeps(flat: seq<StudentLesson>, n: StudentLesson)
    ensures forall e :: e in SortByDate(Apply(flat, AddLesson(n))) <==>
                        e == n || (e in flat && e.lessonId != n.lessonId)
  {
    SortByDateMembers(Apply(flat, AddLesson(n)));
  }

  /** `remove_lesson` drops exactly the entries with the target's key. */
  lemma RemoveLessonKeeps(flat: seq<StudentLesson>, courseId: string, lessonId: string)
    ensures forall e :: e in SortByDate(Apply(flat, RemoveLesson(courseId, lessonId))) <==>
                        e in flat && Key(e) != TargetKey(courseId, lessonId)
  {
    SortByDateMembers(Apply(flat, RemoveLesson(courseId, lessonId)));
  }

  /** `enroll_course` keeps the new entries and the old entries whose key is not new. */
  lemma EnrollCourseKeeps(flat: seq<StudentLesson>, news: seq<StudentLesson>)
    ensures forall e :: e in SortByDate(Apply(flat, EnrollCourse(news))) <==>
                        e in news || (e in flat && Key(e) !in Keys(news))
  {
    SortByDateMembers(Apply(flat, EnrollCourse(news)));
  }

  /** Keys and (course, lesson) pairs say the same thing when lesson ids contain no '_'. */
  lemma {:induction false} KeyInjective(a: StudentLesson, b: StudentLesson)
    requires '_' !in a.lessonId && '_' !in b.lessonId
    ensures Key(a) == Key(b) <==> a.courseId == b.courseId && a.lessonId == b.lessonId
  {
    if Key(a) == Key(b) {
      SuffixAfterLast(a.courseId, a.lessonId, b.courseId, b.lessonId);
    }
  }

  /** x + "_" + y == u + "_" + v with no '_' in y and v forces x == u and y == v. */
  lemma {:induction false} SuffixAfterLast(x: string, y: string, u: string, v: string)
    requires '_' !in y && '_' !in v
    requires x + "_" + y == u + "_" + v
    ensures x == u && y == v
  {
    var s := x + "_" + y;
    assert s == u + "_" + v;
    assert s[|s| - |y| - 1] == '_' && s[|s| - |v| - 1] == '_';
    assert forall k :: |s| - |y| <= k < |s| ==> s[k] == y[k - (|s| - |y|)] != '_';
    assert forall k :: |s| - |v| <= k < |s| ==> s[k] == v[k - (|s| - |v|)] != '_';
    assert |y| == |v|;
    assert y == s[|s| - |y|..] == v;
    assert x == s[..|x|] == u;
  }

  /** The removal target's key is the pair's key when the lesson id is not empty. */
  lemma TargetKeyIsKey(e: StudentLesson, courseId: string, lessonId: string)
    requires lessonId != "" && '_' !in lessonId && '_' !in e.lessonId
    ensures Key(e) == TargetKey(courseId, lessonId) <==> e.courseId == courseId && e.lessonId == lessonId
  {
    KeyInjective(e, StudentLesson(courseId, lessonId, "", "", 0, "", false));
  }

  /** Entries that all name a course: the precondition of reading written entries back. */
  predicate NamedCourses(es: seq<StudentLesson>) {
    forall e :: e in es ==> e.courseId != ""
  }

  /** Enrolling a student twice in the same course leaves the enrollment of the
      first time (the second sync reads back what the first wrote). */
  lemma EnrollCourseIdempotent(doc: StudentDoc, news: seq<StudentLesson>)
    requires NamedCourses(View(doc)) && NamedCourses(news)
    ensures SyncEntries(SyncDoc(doc, EnrollCourse(news)), EnrollCourse(news)) == SyncEntries(doc, EnrollCourse(news))
  {
    var p := NotAmong(news);
    var f := Filter(View(doc), p);
    var s1 := SyncEntries(doc, EnrollCourse(news));
    assert s1 == SortBy(f + news, ByDate);
    SortByDateMembers(f + news);
    assert NamedCourses(s1);
    NormalizeToRaws(s1);
    assert View(SyncDoc(doc, EnrollCourse(news))) == s1;
    ByDateIsTotalPreorder();
    FilterSortBy(f + news, ByDate, p);
    FilterAppend(f, news, p);
    FilterFilter(View(doc), p);
    forall e | e in news ensures !p(e) {
      var k :| 0 <= k < |news| && news[k] == e;
      assert Keys(news)[k] == Key(e);
    }
    FilterNone(news, p);
    assert f + [] == f;
    assert Filter(s1, p) == SortBy(f, ByDate);
    SortBySortedPrefix(f, news, ByDate);
  }
}
