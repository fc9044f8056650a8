/** The pure helpers of the entry manager's student lookup: the
    bijective base-26 receipt suffix ("a", …, "z", "aa", …), the next
    receipt number of a student, the `date'T'time` text of a lesson and the
    lesson rows of the entry form built from a stored student document. */
module StudentFirebase {
  import opened Strings
  import opened Seqs
  import opened Records

  // ---- The receipt suffix codec ----

  /** `ch.charCodeAt(0) - 97 + 1`: 1 for 'a' up to 26 for 'z'. */
  function LetterValue(ch: char): int {
    ch as int - 97 + 1
  }

  predicate IsLowerLetter(ch: char) { 'a' <= ch <= 'z' }

  predicate AllLower(s: string) { forall k :: 0 <= k < |s| ==> IsLowerLetter(s[k]) }

  /** The number `suffixToIndex` accumulates: each letter is a digit 1..26 in base 26. */
  function SuffixValue(s: string): int
    decreases |s|
  {
    if s == [] then 0 else SuffixValue(s[..|s| - 1]) * 26 + LetterValue(s[|s| - 1])
  }

  /** `suffixToIndex(s)`. */
  function SuffixIndex(s: string): int {
    SuffixValue(s) - 1
  }

  /** The letters whose value in bijective base 26 is n. */
  function SuffixOf(n: nat): (s: string)
    ensures AllLower(s)
    ensures s == [] <==> n == 0
    decreases n
  {
    if n == 0 then ""
    else SuffixOf((n - 1) / 26) + [(97 + (n - 1) % 26) as char]
  }

  /** `indexToSuffix(i)`: "" for a negative index. */
  function IndexSuffix(i: int): string {
    if i < 0 then "" else SuffixOf(i + 1)
  }

  /** The loop of `suffixToIndex`. */
  method SuffixToIndex(s: string) returns (idx: int)
    ensures idx == SuffixIndex(s)
  {
    var n := 0;
    var i := 0;
    while i < |s|
      invariant 0 <= i <= |s|
      invariant n == SuffixValue(s[..i])
    {
      assert s[..i + 1][..i] == s[..i];
      n := n * 26 + (s[i] as int - 97 + 1);
      i := i + 1;
    }
    assert s[..|s|] == s;
    idx := n - 1;
  }

  /** The loop of `indexToSuffix`: letters are prepended, least significant first. */
  method IndexToSuffix(i: int) returns (out: string)
    ensures out == IndexSuffix(i)
  {
    var n := i + 1;
    out := "";
    while n > 0
      invariant if i + 1 <= 0 then n == i + 1 && out == "" else 0 <= n && SuffixOf(i + 1) == SuffixOf(n) + out
      decreases n
    {
      n := n - 1;
      out := [(97 + n % 26) as char] + out;
      n := n / 26;
    }
  }

  /** Reading the letters of n back gives n. */
  lemma {:induction false} ValueOfSuffixOf(n: nat)
    ensures SuffixValue(SuffixOf(n)) == n
    decreases n
  {
    if n > 0 {
      var p := SuffixOf((n - 1) / 26);
      ValueOfSuffixOf((n - 1) / 26);
      assert (p + [(97 + (n - 1) % 26) as char])[..|p|] == p;
    }
  }

  /** Writing the value of a lowercase string gives the string back. */
  lemma {:induction false} SuffixOfValue(s: string)
    requires AllLower(s)
    ensures SuffixValue(s) >= 0 && SuffixOf(SuffixValue(s)) == s
    decreases |s|
  {
    if s != [] {
      var p := s[..|s| - 1];
      SuffixOfValue(p);
      var d := LetterValue(s[|s| - 1]) - 1;
      assert 0 <= d < 26;
      var n := SuffixValue(p) * 26 + d + 1;
      assert (n - 1) / 26 == SuffixValue(p) && (n - 1) % 26 == d;
      assert s == p + [s[|s| - 1]];
    }
  }

  /** `suffixToIndex(indexToSuffix(i)) == i` for every index from 0. */
  lemma IndexRoundTrip(i: int)
    requires i >= 0
    ensures SuffixIndex(IndexSuffix(i)) == i
    ensures IndexSuffix(i) != [] && AllLower(IndexSuffix(i))
  {
    ValueOfSuffixOf(i + 1);
  }

  /** `indexToSuffix(suffixToIndex(s)) == s` for every lowercase string, "" included (its index is -1). */
  lemma SuffixRoundTrip(s: string)
    requires AllLower(s)
    ensures SuffixIndex(s) >= -1 && IndexSuffix(SuffixIndex(s)) == s
  {
    SuffixOfValue(s);
  }

  /** The first suffixes: 0 is "a", 25 is "z", 26 is "aa", and "" is -1. */
  lemma SuffixExamples()
    ensures IndexSuffix(0) == "a" && IndexSuffix(25) == "z" && IndexSuffix(26) == "aa"
    ensures SuffixIndex("") == -1 && SuffixIndex("b") == 1
  {
    assert SuffixOf(1) == "a";
    assert SuffixOf(26) == "z";
    assert SuffixOf(27) == SuffixOf(1) + "a";
  }

  // ---- The next receipt number ----

  /** Receipt numbers start with `KIDS` and the student id. */
  function ReceiptPrefix(studentId: string): string {
    "KIDS" + studentId
  }

  /** The longest run of lowercase letters at the start of s. */
  function LetterRun(s: string): (r: string)
    ensures |r| <= |s| && r == s[..|r|] && AllLower(r)
    ensures |r| < |s| ==> !IsLowerLetter(s[|r|])
  {
    if s != [] && IsLowerLetter(s[0]) then [s[0]] + LetterRun(s[1..]) else []
  }

  /** The suffix the case-insensitive match of `prefix([a-z]*)` finds in a
      receipt number, lowercased: the letters after the first occurrence of
      the prefix; None when the prefix does not occur. */
  function MatchedSuffix(prefix: string, receiptNo: string): (r: Option<string>)
    ensures r.Some? ==> AllLower(r.value)
  {
    var low := ToLower(receiptNo);
    match IndexOf(low, ToLower(prefix))
    case None => None
    case Some(p) => Some(LetterRun(low[p + |prefix|..]))
  }

  /** `maxIdx` after the receipts: -1, raised to the index of every matched suffix. */
  function MaxIndex(prefix: string, receiptNos: seq<string>): (m: int)
    decreases |receiptNos|
  {
    if receiptNos == [] then -1
    else
      var m := MaxIndex(prefix, receiptNos[..|receiptNos| - 1]);
      match MatchedSuffix(prefix, receiptNos[|receiptNos| - 1])
      case None => m
      case Some(t) => if SuffixIndex(t) > m then SuffixIndex(t) else m
  }

  /** The receipt number `getNextReceiptNo` returns for these stored receipt numbers. */
  function NextReceipt(studentId: string, receiptNos: seq<string>): string {
    ReceiptPrefix(studentId) + IndexSuffix(MaxIndex(ReceiptPrefix(studentId), receiptNos) + 1)
  }

  /** The loop of `getNextReceiptNo` over the student's receipts. */
  method NextReceiptNo(studentId: string, receiptNos: seq<string>) returns (r: string)
    ensures r == NextReceipt(studentId, receiptNos)
  {
    var prefix := "KIDS" + studentId;
    var maxIdx := -1;
    var i := 0;
    while i < |receiptNos|
      invariant 0 <= i <= |receiptNos|
      invariant maxIdx == MaxIndex(prefix, receiptNos[..i])
    {
      assert receiptNos[..i + 1][..i] == receiptNos[..i];
      var m := MatchedSuffix(prefix, receiptNos[i]);
      if m.Some? {
        var idx := SuffixToIndex(m.value);
        if idx > maxIdx {
          maxIdx := idx;
        }
      }
      i := i + 1;
    }
    assert receiptNos[..|receiptNos|] == receiptNos;
    var suffix := IndexToSuffix(maxIdx + 1);
    r := prefix + suffix;
  }

  /** The maximum is at least -1, bounds every matched index and is one of them unless -1. */
  lemma MaxIndexIsMax(prefix: string, receiptNos: seq<string>)
    ensures MaxIndex(prefix, receiptNos) >= -1
    ensures forall k :: 0 <= k < |receiptNos| && MatchedSuffix(prefix, receiptNos[k]).Some? ==>
              SuffixIndex(MatchedSuffix(prefix, receiptNos[k]).value) <= MaxIndex(prefix, receiptNos)
    ensures MaxIndex(prefix, receiptNos) == -1 ||
            exists k :: 0 <= k < |receiptNos| && MatchedSuffix(prefix, receiptNos[k]) ==
                        Some(IndexSuffix(MaxIndex(prefix, receiptNos)))
  {
    MaxIndexBounds(prefix, receiptNos);
    MaxIndexAttained(prefix, receiptNos);
  }

  /** The maximum is at least -1 and bounds every matched index. */
  lemma {:induction false} MaxIndexBounds(prefix: string, receiptNos: seq<string>)
    ensures MaxIndex(prefix, receiptNos) >= -1
    ensures forall k :: 0 <= k < |receiptNos| && MatchedSuffix(prefix, receiptNos[k]).Some? ==>
              SuffixIndex(MatchedSuffix(prefix, receiptNos[k]).value) <= MaxIndex(prefix, receiptNos)
    decreases |receiptNos|
  {
    if receiptNos != [] {
      var init := receiptNos[..|receiptNos| - 1];
      MaxIndexBounds(prefix, init);
      var m := MaxIndex(prefix, receiptNos);
      var last := MatchedSuffix(prefix, receiptNos[|init|]);
      assert m >= MaxIndex(prefix, init);
      assert last.Some? ==> SuffixIndex(last.value) <= m;
      forall k | 0 <= k < |receiptNos| && MatchedSuffix(prefix, receiptNos[k]).Some?
        ensures SuffixIndex(MatchedSuffix(prefix, receiptNos[k]).value) <= m
      {
        if k < |init| {
          assert receiptNos[k] == init[k];
        } else {
          assert k == |init|;
        }
      }
    }
  }

  /** A maximum other than -1 is the index of some matched suffix. */
  lemma {:induction false} MaxIndexAttained(prefix: string, receiptNos: seq<string>)
    ensures MaxIndex(prefix, receiptNos) == -1 ||
            exists k :: 0 <= k < |receiptNos| && MatchedSuffix(prefix, receiptNos[k]) ==
                        Some(IndexSuffix(MaxIndex(prefix, receiptNos)))
    decreases |receiptNos|
  {
    if receiptNos != [] {
      var init := receiptNos[..|receiptNos| - 1];
      var m := MaxIndex(prefix, receiptNos);
      var last := MatchedSuffix(prefix, receiptNos[|receiptNos| - 1]);
      if last.Some? && SuffixIndex(last.value) > MaxIndex(prefix, init) {
        assert m == SuffixIndex(last.value);
        SuffixRoundTrip(last.value);
        assert last == Some(IndexSuffix(m));
      } else if m != -1 {
        assert m == MaxIndex(prefix, init);
        MaxIndexAttained(prefix, init);
        var k :| 0 <= k < |init| && MatchedSuffix(prefix, init[k]) == Some(IndexSuffix(m));
        assert receiptNos[k] == init[k];
      }
    }
  }

  /** The next receipt number starts with the prefix, and its suffix has a
      larger index than every suffix already matched; with no match it is
      `KIDS<id>a`. */
  lemma NextReceiptExceeds(studentId: string, receiptNos: seq<string>)
    ensures var r := NextReceipt(studentId, receiptNos);
            var prefix := ReceiptPrefix(studentId);
            StartsWith(r, prefix) &&
            forall k :: 0 <= k < |receiptNos| && MatchedSuffix(prefix, receiptNos[k]).Some? ==>
              SuffixIndex(MatchedSuffix(prefix, receiptNos[k]).value) < SuffixIndex(r[|prefix|..])
    ensures (forall k :: 0 <= k < |receiptNos| ==> MatchedSuffix(ReceiptPrefix(studentId), receiptNos[k]).None?) ==>
              NextReceipt(studentId, receiptNos) == "KIDS" + studentId + "a"
  {
    var prefix := ReceiptPrefix(studentId);
    var m := MaxIndex(prefix, receiptNos);
    var r := NextReceipt(studentId, receiptNos);
    MaxIndexIsMax(prefix, receiptNos);
    IndexRoundTrip(m + 1);
    assert r[|prefix|..] == IndexSuffix(m + 1);
    if forall k :: 0 <= k < |receiptNos| ==> MatchedSuffix(prefix, receiptNos[k]).None? {
      assert m == -1;
      SuffixExamples();
    }
  }

  /** Lowercasing distributes over concatenation and keeps lowercase letters. */
  lemma ToLowerAppend(a: string, b: string)
    requires AllLower(b)
    ensures ToLower(a + b) == ToLower(a) + b
  {
    assert forall k :: 0 <= k < |b| ==> LowerChar(b[k]) == b[k];
  }

  /** A run of lowercase letters is its own letter run. */
  lemma {:induction false} LetterRunOfLower(t: string)
    requires AllLower(t)
    ensures LetterRun(t) == t
  {
    if t != [] {
      LetterRunOfLower(t[1..]);
    }
  }

  /** A receipt number written as the prefix and a lowercase suffix matches with that suffix. */
  lemma MatchedOwnSuffix(prefix: string, t: string)
    requires AllLower(t)
    ensures MatchedSuffix(prefix, prefix + t) == Some(t)
  {
    ToLowerAppend(prefix, t);
    var low := ToLower(prefix + t);
    assert low[..|ToLower(prefix)|] == ToLower(prefix);
    assert IndexOf(low, ToLower(prefix)) == Some(0);
    assert low[|prefix|..] == t;
    LetterRunOfLower(t);
  }

  /** The number just issued is matched by the next lookup, with the index it was given. */
  lemma NextReceiptMatches(studentId: string, receiptNos: seq<string>)
    ensures var prefix := ReceiptPrefix(studentId);
            MatchedSuffix(prefix, NextReceipt(studentId, receiptNos)) ==
              Some(IndexSuffix(MaxIndex(prefix, receiptNos) + 1))
  {
    var prefix := ReceiptPrefix(studentId);
    MaxIndexIsMax(prefix, receiptNos);
    IndexRoundTrip(MaxIndex(prefix, receiptNos) + 1);
    MatchedOwnSuffix(prefix, IndexSuffix(MaxIndex(prefix, receiptNos) + 1));
  }

  /** Issuing a receipt and storing it raises the next one's index by one:
      consecutive receipts never repeat. */
  lemma ReceiptsIncrease(studentId: string, receiptNos: seq<string>)
    ensures var prefix := ReceiptPrefix(studentId);
            MaxIndex(prefix, receiptNos + [NextReceipt(studentId, receiptNos)]) == MaxIndex(prefix, receiptNos) + 1
  {
    var prefix := ReceiptPrefix(studentId);
    var rs := receiptNos + [NextReceipt(studentId, receiptNos)];
    assert rs[..|rs| - 1] == receiptNos;
    NextReceiptMatches(studentId, receiptNos);
    MaxIndexIsMax(prefix, receiptNos);
    IndexRoundTrip(MaxIndex(prefix, receiptNos) + 1);
  }

  // ---- formatLessonDate ----

  /** `\d{2}:\d{2}` matches at position i. */
  predicate IsTimeAt(s: string, i: nat) {
    i + 5 <= |s| && IsDigit(s[i]) && IsDigit(s[i + 1]) && s[i + 2] == ':' && IsDigit(s[i + 3]) && IsDigit(s[i + 4])
  }

  /** A text that is exactly one `HH:MM`. */
  predicate IsTimeText(t: string) {
    |t| == 5 && IsTimeAt(t, 0)
  }

  /** The position after the white space starting at i (`\s*`). */
  function SkipSpaces(s: string, i: nat): (j: nat)
    requires i <= |s|
    ensures i <= j <= |s| && forall k :: i <= k < j ==> IsJsSpace(s[k])
    ensures j < |s| ==> !IsJsSpace(s[j])
    decreases |s| - i
  {
    if i < |s| && IsJsSpace(s[i]) then SkipSpaces(s, i + 1) else i
  }

  /** `(\d{2}:\d{2})\s*-\s*(\d{2}:\d{2})` tried at position i: the two times.
      The greedy `\s*` cannot give back a space, because neither '-' nor a
      digit is one, so one scan decides the match. */
  function RangeAt(s: string, i: nat): (r: Option<(string, string)>)
    ensures r.Some? ==> IsTimeAt(s, i) && r.value.0 == s[i..i + 5] && IsTimeText(r.value.0) && IsTimeText(r.value.1)
  {
    if !IsTimeAt(s, i) then None
    else
      var j := SkipSpaces(s, i + 5);
      if j >= |s| || s[j] != '-' then None
      else
        var k := SkipSpaces(s, j + 1);
        if IsTimeAt(s, k) then Some((s[i..i + 5], s[k..k + 5])) else None
  }

  /** The leftmost match of the range pattern from position i on. */
  function FindRange(s: string, i: nat): (r: Option<(string, string)>)
    ensures r.None? <==> forall j :: i <= j <= |s| ==> RangeAt(s, j).None?
    ensures r.Some? ==> exists j :: i <= j <= |s| && RangeAt(s, j) == r && forall k :: i <= k < j ==> RangeAt(s, k).None?
    decreases |s| - i
  {
    if i > |s| then None
    else if RangeAt(s, i).Some? then RangeAt(s, i)
    else FindRange(s, i + 1)
  }

  /** The leftmost match of `\d{2}:\d{2}` from position i on. */
  function FindTime(s: string, i: nat): (r: Option<string>)
    ensures r.None? <==> forall j :: i <= j <= |s| ==> !IsTimeAt(s, j)
    ensures r.Some? ==> IsTimeText(r.value)
    ensures r.Some? ==>
              exists j :: i <= j <= |s| && IsTimeAt(s, j) && r.value == s[j..j + 5] && forall k :: i <= k < j ==> !IsTimeAt(s, k)
    decreases |s| - i
  {
    if i > |s| then None
    else if IsTimeAt(s, i) then Some(s[i..i + 5])
    else FindTime(s, i + 1)
  }

  /** The time part of the text: the first time range of the slot as
      `start-end`, else its first time, else `00:00`. */
  function TimePart(timeSlot: string): string {
    match FindRange(timeSlot, 0)
    case Some(range) => range.0 + "-" + range.1
    case None =>
      match FindTime(timeSlot, 0)
      case Some(t) => t
      case None => "00:00"
  }

  /** `formatLessonDate(dateStr, timeSlot)`: "" without a date, otherwise the date, 'T' and the time part. */
  function FormatLessonDate(dateStr: string, timeSlot: string): (r: string)
    ensures dateStr == [] <==> r == []
    ensures dateStr != [] ==> StartsWith(r, dateStr + "T")
  {
    if dateStr == [] then ""
    else
      var r := dateStr + "T" + TimePart(timeSlot);
      assert r[..|dateStr + "T"|] == dateStr + "T";
      r
  }

  /** A slot written `HH:MM - HH:MM` gives `dateTHH:MM-HH:MM`. */
  lemma FormatRangeSlot(dateStr: string, a: string, b: string)
    requires dateStr != [] && IsTimeText(a) && IsTimeText(b)
    ensures FormatLessonDate(dateStr, a + " - " + b) == dateStr + "T" + a + "-" + b
  {
    var s := a + " - " + b;
    RangeOfSlot(s, a, b);
    TimePartOfRange(s, a, b);
    LessonDateParts(dateStr, s);
    ConcatFive(dateStr, "T", a, "-", b);
  }

  /** With a date the text is the date, 'T' and the time part. */
  lemma LessonDateParts(dateStr: string, timeSlot: string)
    requires dateStr != []
    ensures FormatLessonDate(dateStr, timeSlot) == dateStr + "T" + TimePart(timeSlot)
  {
  }

  /** Regrouping a five-part concatenation. */
  lemma ConcatFive(p: string, q: string, a: string, r: string, b: string)
    ensures p + q + (a + r + b) == p + q + a + r + b
  {
  }

  /** A range at the very start is the time part. */
  lemma TimePartOfRange(s: string, a: string, b: string)
    requires RangeAt(s, 0) == Some((a, b))
    ensures TimePart(s) == a + "-" + b
  {
    assert FindRange(s, 0) == Some((a, b));
  }

  /** The range pattern matches `HH:MM - HH:MM` at its start, with both times. */
  lemma RangeOfSlot(s: string, a: string, b: string)
    requires IsTimeText(a) && IsTimeText(b) && s == a + " - " + b
    ensures RangeAt(s, 0) == Some((a, b))
  {
    assert s[5] == ' ' && s[6] == '-' && s[7] == ' ';
    SkipOne(s, 5, 6);
    SkipOne(s, 7, 8);
    assert s[0..5] == a && s[8..13] == b;
    assert IsTimeAt(s, 0) && IsTimeAt(s, 8);
  }

  /** A single space at i is skipped up to the non-space after it. */
  lemma SkipOne(s: string, i: nat, j: nat)
    requires j == i + 1 && j < |s| && s[i] == ' ' && !IsJsSpace(s[j])
    ensures SkipSpaces(s, i) == j
  {
    assert IsJsSpace(s[i]);
    assert SkipSpaces(s, j) == j;
  }

  /** A range needs eleven characters from where it starts. */
  lemma RangeLength(s: string, i: nat)
    requires RangeAt(s, i).Some?
    ensures i + 11 <= |s|
  {
  }

  /** A slot that is one `HH:MM` gives `dateTHH:MM`. */
  lemma FormatSingleSlot(dateStr: string, a: string)
    requires dateStr != [] && IsTimeText(a)
    ensures FormatLessonDate(dateStr, a) == dateStr + "T" + a
  {
    forall j | 0 <= j <= |a| ensures RangeAt(a, j).None? {
      if RangeAt(a, j).Some? {
        RangeLength(a, j);
      }
    }
    assert a[0..5] == a;
  }

  /** A slot with no `HH:MM` in it (an empty one included) gives `dateT00:00`. */
  lemma FormatNoTimeSlot(dateStr: string, timeSlot: string)
    requires dateStr != [] && forall j :: 0 <= j <= |timeSlot| ==> !IsTimeAt(timeSlot, j)
    ensures FormatLessonDate(dateStr, timeSlot) == dateStr + "T00:00"
  {
  }

  // ---- mapStudentDocToFormData ----

  /** An item of a stored enrollment as the entry form reads it ("" for a missing text). */
  datatype FirebaseItem = FirebaseItem(
    id: RawId, name: string, dateStr: string, timeSlot: string,
    completed: bool, courseId: string, courseName: string)

  /** The `enrollment` field: an array, an object (its values in order), missing, or some other value. */
  datatype FirebaseEnrollment = ItemArray(items: seq<FirebaseItem>) | ItemObject(values: seq<FirebaseItem>) | NoItems

  /** A stored student document: the name in its personal information and its enrollment. */
  datatype FirebaseStudent = FirebaseStudent(personalName: string, enrollment: FirebaseEnrollment)

  /** A lesson row of the entry form. */
  datatype FormLesson = FormLesson(
    id: RawId, name: string, courseName: string, completed: bool,
    timeSlot: string, dateTime: string, courseId: string)

  /** The fields of the entry form that come from the document. */
  datatype FormData = FormData(
    studentId: string, studentName: string, courseCode: string, courseName: string, lessons: seq<FormLesson>)

  /** The enrollment as an array: as it is, the object's values, or empty. */
  function LessonsOf(e: FirebaseEnrollment): (r: seq<FirebaseItem>)
    ensures e.NoItems? ==> r == []
  {
    match e
    case ItemArray(items) => items
    case ItemObject(values) => values
    case NoItems => []
  }

  /** `Number(id) || 0` for ids that are whole numbers or decimal digit text; anything else is 0. */
  function NumberOfId(x: RawId): int {
    match x
    case NoId => 0
    case NumId(n) => n
    case TextId(t) => if AllDigits(Trim(t)) then DigitsValue(Trim(t)) else 0
  }

  /** The comparator of the rows: by date text, then by numeric id. */
  predicate ByDateThenId(a: FirebaseItem, b: FirebaseItem) {
    if a.dateStr != b.dateStr then LexLe(a.dateStr, b.dateStr) else NumberOfId(a.id) <= NumberOfId(b.id)
  }

  lemma ByDateThenIdIsTotalPreorder()
    ensures TotalPreorder(ByDateThenId)
  {
    forall a, b ensures ByDateThenId(a, b) || ByDateThenId(b, a) {
      LexLeTotal(a.dateStr, b.dateStr);
    }
    forall a, b, c | ByDateThenId(a, b) && ByDateThenId(b, c) ensures ByDateThenId(a, c) {
      if a.dateStr != b.dateStr && b.dateStr != c.dateStr {
        LexLeTrans(a.dateStr, b.dateStr, c.dateStr);
        if a.dateStr == c.dateStr {
          LexLeAntisymmetric(a.dateStr, b.dateStr);
        }
      }
    }
  }

  /** The items in row order. */
  function SortedLessons(e: FirebaseEnrollment): (r: seq<FirebaseItem>)
    ensures multiset(r) == multiset(LessonsOf(e)) && SortedBy(r, ByDateThenId)
  {
    ByDateThenIdIsTotalPreorder();
    SortBySorted(LessonsOf(e), ByDateThenId);
    SortBy(LessonsOf(e), ByDateThenId)
  }

  /** The first non-empty course id, "" when there is none. */
  function FirstCourseId(items: seq<FirebaseItem>): (r: string)
    ensures r != [] ==> exists k :: 0 <= k < |items| && items[k].courseId == r && forall j :: 0 <= j < k ==> items[j].courseId == []
    ensures r == [] ==> forall k :: 0 <= k < |items| ==> items[k].courseId == []
  {
    if items == [] then ""
    else if items[0].courseId != [] then items[0].courseId
    else
      var r := FirstCourseId(items[1..]);
      assert forall k :: 1 <= k < |items| ==> items[k] == items[1..][k - 1];
      r
  }

  /** The first non-empty course name, "" when there is none. */
  function FirstCourseName(items: seq<FirebaseItem>): (r: string)
    ensures r != [] ==> exists k :: 0 <= k < |items| && items[k].courseName == r && forall j :: 0 <= j < k ==> items[j].courseName == []
    ensures r == [] ==> forall k :: 0 <= k < |items| ==> items[k].courseName == []
  {
    if items == [] then ""
    else if items[0].courseName != [] then items[0].courseName
    else
      var r := FirstCourseName(items[1..]);
      assert forall k :: 1 <= k < |items| ==> items[k] == items[1..][k - 1];
      r
  }

  /** The row of one item. */
  function RowOf(l: FirebaseItem): (r: FormLesson)
    ensures r.id == l.id && r.name == l.name && r.courseId == l.courseId && r.timeSlot == l.timeSlot
    ensures r.courseName == l.courseName && r.completed == l.completed
    ensures r.dateTime == FormatLessonDate(l.dateStr, l.timeSlot)
  {
    FormLesson(l.id, l.name, l.courseName, l.completed, l.timeSlot, FormatLessonDate(l.dateStr, l.timeSlot), l.courseId)
  }

  /** `mapStudentDocToFormData` without the issue date: one row per stored
      item, in date-then-id order, and the course code and name of the first
      row that has them. */
  function MapStudentDocToFormData(studentId: string, raw: FirebaseStudent): (r: FormData)
    ensures |r.lessons| == |LessonsOf(raw.enrollment)|
    ensures forall k :: 0 <= k < |r.lessons| ==> r.lessons[k] == RowOf(SortedLessons(raw.enrollment)[k])
    ensures r.courseCode == FirstCourseId(SortedLessons(raw.enrollment))
    ensures r.courseName == FirstCourseName(SortedLessons(raw.enrollment))
    ensures r.studentId == studentId && r.studentName == raw.personalName
  {
    var sorted := SortedLessons(raw.enrollment);
    FormData(studentId, raw.personalName, FirstCourseId(sorted), FirstCourseName(sorted),
             seq(|sorted|, k requires 0 <= k < |sorted| => RowOf(sorted[k])))
  }

  /** The course code of the form is the course id of the first row that has one, or "" when none has. */
  lemma CourseCodeOfFirstRow(studentId: string, raw: FirebaseStudent)
    ensures var r := MapStudentDocToFormData(studentId, raw);
            && (r.courseCode != [] ==>
                  exists k :: 0 <= k < |r.lessons| && r.lessons[k].courseId == r.courseCode &&
                    forall j :: 0 <= j < k ==> r.lessons[j].courseId == [])
            && (r.courseCode == [] ==> forall k :: 0 <= k < |r.lessons| ==> r.lessons[k].courseId == [])
  {
    var r := MapStudentDocToFormData(studentId, raw);
    var sorted := SortedLessons(raw.enrollment);
    assert |r.lessons| == |sorted| by { assert multiset(sorted) == multiset(LessonsOf(raw.enrollment)); }
    FirstCourseIdOfRows(sorted, r.lessons);
  }

  /** The course name of the form is the course name of the first row that has one, or "" when none has. */
  lemma CourseNameOfFirstRow(studentId: string, raw: FirebaseStudent)
    ensures var r := MapStudentDocToFormData(studentId, raw);
            && (r.courseName != [] ==>
                  exists k :: 0 <= k < |r.lessons| && r.lessons[k].courseName == r.courseName &&
                    forall j :: 0 <= j < k ==> r.lessons[j].courseName == [])
            && (r.courseName == [] ==> forall k :: 0 <= k < |r.lessons| ==> r.lessons[k].courseName == [])
  {
    var r := MapStudentDocToFormData(studentId, raw);
    var sorted := SortedLessons(raw.enrollment);
    assert |r.lessons| == |sorted| by { assert multiset(sorted) == multiset(LessonsOf(raw.enrollment)); }
    FirstCourseNameOfRows(sorted, r.lessons);
  }

  /** Rows with the same course names as the items have the items' first course name first. */
  lemma FirstCourseNameOfRows(items: seq<FirebaseItem>, rows: seq<FormLesson>)
    requires |rows| == |items| && forall k :: 0 <= k < |items| ==> rows[k] == RowOf(items[k])
    ensures var name := FirstCourseName(items);
            && (name != [] ==>
                  exists k :: 0 <= k < |rows| && rows[k].courseName == name && forall j :: 0 <= j < k ==> rows[j].courseName == [])
            && (name == [] ==> forall k :: 0 <= k < |rows| ==> rows[k].courseName == [])
  {
    var name := FirstCourseName(items);
    assert forall k :: 0 <= k < |rows| ==> rows[k].courseName == items[k].courseName;
  }

  /** Rows with the same course ids as the items have the items' first course id first. */
  lemma FirstCourseIdOfRows(items: seq<FirebaseItem>, rows: seq<FormLesson>)
    requires |rows| == |items| && forall k :: 0 <= k < |items| ==> rows[k] == RowOf(items[k])
    ensures var code := FirstCourseId(items);
            && (code != [] ==>
                  exists k :: 0 <= k < |rows| && rows[k].courseId == code && forall j :: 0 <= j < k ==> rows[j].courseId == [])
            && (code == [] ==> forall k :: 0 <= k < |rows| ==> rows[k].courseId == [])
  {
    var code := FirstCourseId(items);
    assert forall k :: 0 <= k < |rows| ==> rows[k].courseId == items[k].courseId;
  }

  /** Every stored item has a row and every row comes from a stored item. */
  lemma RowsAreItems(studentId: string, raw: FirebaseStudent)
    ensures var r := MapStudentDocToFormData(studentId, raw);
            (forall l :: l in LessonsOf(raw.enrollment) ==> RowOf(l) in r.lessons) &&
            (forall k :: 0 <= k < |r.lessons| ==> exists l :: l in LessonsOf(raw.enrollment) && r.lessons[k] == RowOf(l))
  {
    var r := MapStudentDocToFormData(studentId, raw);
    var sorted := SortedLessons(raw.enrollment);
    assert |r.lessons| == |sorted| by { assert multiset(sorted) == multiset(LessonsOf(raw.enrollment)); }
    RowsOfReordered(LessonsOf(raw.enrollment), sorted, r.lessons);
  }

  /** One row per item of a reordering of the items: every item has its row and every row has its item. */
  lemma RowsOfReordered(items: seq<FirebaseItem>, sorted: seq<FirebaseItem>, rows: seq<FormLesson>)
    requires multiset(sorted) == multiset(items)
    requires |rows| == |sorted| && forall k :: 0 <= k < |sorted| ==> rows[k] == RowOf(sorted[k])
    ensures forall l :: l in items ==> RowOf(l) in rows
    ensures forall k :: 0 <= k < |rows| ==> exists l :: l in items && rows[k] == RowOf(l)
  {
    forall l | l in items ensures RowOf(l) in rows {
      assert l in multiset(sorted);
      var k :| 0 <= k < |sorted| && sorted[k] == l;
      assert rows[k] == RowOf(l);
    }
    forall k | 0 <= k < |rows| ensures exists l :: l in items && rows[k] == RowOf(l) {
      assert sorted[k] in multiset(items);
    }
  }
}
