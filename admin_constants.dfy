/** The dashboard's shared constants and small helpers: the class capacity,
    the names of the twelve standard lessons, the day/month display of a
    date and the category prefix of a course id. The helper that adds days
    to a date is Calendar.AddDaysText (text) and plain addition on day
    numbers. */
module AdminConstants {
  import opened Strings
  import opened Calendar

  /** The most students a lesson roster may hold. */
  const MaxStudents: nat := 8

  /** The names of lessons 1 to 12 of every course, in order. */
  const DefaultLessonNames: seq<string> := [
    "故事起航 - 認識自我與舞台",
    "句子結構大師 - 清晰表達",
    "圖片說故事 - Show and Tell",
    "禮儀小達人 - 優雅與尊重",
    "故事結構大挑戰 - 圖卡排序",
    "故事連貫大師 - 連接詞應用",
    "形容詞魔法 - 豐富故事描述",
    "故事與情感 - 聲音與表情",
    "創意故事編織 - 想像力啟動",
    "即興創作 - 快速應變",
    "創意畫作分享 - 繪畫與內心表達",
    "故事演講家 - 學習成果演示"
  ]

  // ---- parseInt and number-to-text, as the display uses them ----

  /** The longest prefix of s made of decimal digits. */
  function DigitPrefix(s: string): (p: string)
    ensures |p| <= |s| && p == s[..|p|] && AllDigits(p)
    ensures |p| < |s| ==> !IsDigit(s[|p|])
  {
    if s != [] && IsDigit(s[0]) then [s[0]] + DigitPrefix(s[1..]) else []
  }

  /** `parseInt(s)` in base 10: leading white space is skipped, then an
      optional sign, then the longest run of digits; None stands for NaN,
      the result when that run is empty. */
  function ParseInt(s: string): (r: Option<int>)
    ensures r.Some? ==> exists i :: 0 <= i < |s| && IsDigit(s[i])
  {
    var t := TrimStart(s);
    var u := if t != [] && (t[0] == '+' || t[0] == '-') then t[1..] else t;
    var p := DigitPrefix(u);
    if p == [] then None
    else
      assert s[|s| - |u|] == u[0];
      var v: int := DigitsValue(p);
      Some(if t[0] == '-' then -v else v)
  }

  /** A non-empty string of digits reads as its decimal value (leading zeros allowed). */
  lemma ParseIntOfDigits(t: string)
    requires t != [] && AllDigits(t)
    ensures ParseInt(t) == Some(DigitsValue(t))
  {
    assert !IsJsSpace(t[0]);
    assert TrimStart(t) == t;
    DigitPrefixOfDigits(t);
  }

  lemma {:induction false} DigitPrefixOfDigits(t: string)
    requires AllDigits(t)
    ensures DigitPrefix(t) == t
  {
    if t != [] {
      DigitPrefixOfDigits(t[1..]);
    }
  }

  /** The text of a number as JavaScript writes it into a template string
      (integers only; NaN for None). */
  function NumberText(v: Option<int>): (s: string)
    ensures s != []
  {
    match v
    case None => "NaN"
    case Some(n) => if n >= 0 then NatToString(n) else "-" + NatToString(-n)
  }

  // ---- formatDateDisplay ----

  /** `parseInt(parts[i])`, NaN when the part does not exist. */
  function PartInt(parts: seq<string>, i: nat): Option<int> {
    if i < |parts| then ParseInt(parts[i]) else None
  }

  /** `formatDateDisplay(dateStr)`: "" for an empty or missing text, otherwise
      the day part and the month part of a text split at '-', each read as a
      number, as "day/month". */
  function FormatDateDisplay(dateStr: string): (r: string)
    ensures dateStr == [] <==> r == []
  {
    if dateStr == [] then ""
    else
      var parts := Split(dateStr, '-');
      NumberText(PartInt(parts, 2)) + "/" + NumberText(PartInt(parts, 1))
  }

  /** A text of shape YYYY-MM-DD splits into its three digit fields. */
  lemma SplitIsoShape(s: string)
    requires IsIsoShape(s)
    ensures Split(s, '-') == [[s[0], s[1], s[2], s[3]], [s[5], s[6]], [s[8], s[9]]]
  {
    var y, m, d := [s[0], s[1], s[2], s[3]], [s[5], s[6]], [s[8], s[9]];
    assert '-' !in y && '-' !in m && '-' !in d;
    assert s == y + ['-'] + (m + ['-'] + d);
    SplitOneSep(y, m + ['-'] + d, '-');
    SplitOneSep(m, d, '-');
    SplitNoSep(d, '-');
  }

  /** A two-digit field reads as its value. */
  lemma ParseIntOfTwo(t: string)
    requires |t| == 2 && IsDigit(t[0]) && IsDigit(t[1])
    ensures ParseInt(t) == Some(Value2(t[0], t[1]) as int)
  {
    DigitsValueTwo(t);
    ParseIntOfDigits(t);
  }

  /** The second and third of the digit fields read as their values. */
  lemma FieldInts(parts: seq<string>, s: string)
    requires IsIsoShape(s) && parts == [[s[0], s[1], s[2], s[3]], [s[5], s[6]], [s[8], s[9]]]
    ensures PartInt(parts, 1) == Some(Fields(s).month) && PartInt(parts, 2) == Some(Fields(s).day)
  {
    ParseIntOfTwo(parts[1]);
    ParseIntOfTwo(parts[2]);
  }

  /** The month and the day fields of a text of shape YYYY-MM-DD read as the
      month and the day it spells. */
  lemma IsoShapeParts(s: string)
    requires IsIsoShape(s)
    ensures var parts := Split(s, '-');
            PartInt(parts, 1) == Some(Fields(s).month) && PartInt(parts, 2) == Some(Fields(s).day)
  {
    SplitIsoShape(s);
    FieldInts(Split(s, '-'), s);
  }

  /** A date's text is displayed as its day and month without leading zeros. */
  lemma FormatDateDisplayOfIso(c: CivilDate)
    requires ValidDate(c)
    ensures FormatDateDisplay(IsoText(c)) == NatToString(c.day) + "/" + NatToString(c.month)
  {
    ParseIsoText(c);
    IsoShapeParts(IsoText(c));
  }

  /** The display of a day number: "day/month" of its date. */
  lemma FormatDateDisplayOfDay(z: Day)
    requires InRange(z)
    ensures var c := FromDay(z);
            FormatDateDisplay(TextOfDay(z)) == NatToString(c.day) + "/" + NatToString(c.month)
  {
    FormatDateDisplayOfIso(FromDay(z));
  }

  // ---- getCategoryFromId ----

  /** `getCategoryFromId(courseId)`, "" standing for a missing id: "OTHERS"
      for an id shorter than four characters, otherwise its first four
      characters in upper case. */
  function CategoryFromId(courseId: string): (r: string)
    ensures r == "OTHERS" <==> |courseId| < 4
    ensures |courseId| >= 4 ==> |r| == 4 && forall i :: 0 <= i < 4 ==> r[i] == UpperChar(courseId[i])
  {
    if |courseId| < 4 then "OTHERS" else ToUpper(courseId[..4])
  }

  /** The category depends only on the first four characters of the id. */
  lemma CategoryFromIdPrefix(a: string, b: string)
    requires |a| >= 4 && |b| >= 4 && a[..4] == b[..4]
    ensures CategoryFromId(a) == CategoryFromId(b)
  {
    assert forall i :: 0 <= i < 4 ==> a[i] == a[..4][i] == b[..4][i] == b[i];
  }

  /** A four-character category is its own category; "OTHERS" is not
      (it becomes "OTHE"). */
  lemma CategoryFromIdIdempotent(courseId: string)
    ensures |courseId| >= 4 ==> CategoryFromId(CategoryFromId(courseId)) == CategoryFromId(courseId)
    ensures |courseId| < 4 ==> CategoryFromId(CategoryFromId(courseId)) == "OTHE"
  {
    var r := CategoryFromId(courseId);
    if |courseId| < 4 {
      assert r[..4] == "OTHE";
    } else {
      assert r[..4] == r;
    }
  }
}
