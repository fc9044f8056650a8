/** Proleptic Gregorian calendar dates, the calendar dates of ISO 8601:2004
    section 4.1.2.2, in the extended format YYYY-MM-DD (section 4.1.2.2 b),
    and their day numbers. Day 0 is 0000-01-01; consecutive days have
    consecutive numbers, so adding n days to a date is adding n to its number.
    The text form is defined for the four-digit years 0000 to 9999. */
module Calendar {
  import opened Strings

  type Day = int

  datatype CivilDate = CivilDate(year: int, month: int, day: int)

  predicate IsLeap(y: int) {
    y % 4 == 0 && (y % 100 != 0 || y % 400 == 0)
  }

  /** Days in month m of a leap year (leap) or of a common year. */
  function MonthLength(leap: bool, m: int): (n: int)
    requires 1 <= m <= 12
    ensures 28 <= n <= 31
  {
    if m == 2 then (if leap then 29 else 28)
    else if m == 4 || m == 6 || m == 9 || m == 11 then 30
    else 31
  }

  function DaysInMonth(y: int, m: int): int
    requires 1 <= m <= 12
  {
    MonthLength(IsLeap(y), m)
  }

  function YearLength(leap: bool): int {
    if leap then 366 else 365
  }

  function DaysInYear(y: int): int {
    YearLength(IsLeap(y))
  }

  /** A calendar date with a month 1..12 and a day of that month; any year from 0. */
  predicate IsCivil(c: CivilDate) {
    0 <= c.year && 1 <= c.month <= 12 && 1 <= c.day <= DaysInMonth(c.year, c.month)
  }

  /** A calendar date whose year has four digits. */
  predicate ValidDate(c: CivilDate) {
    IsCivil(c) && c.year <= 9999
  }

  /** Days in the months before month m of a leap year (leap) or of a common year. */
  function DaysBefore(leap: bool, m: int): nat
    requires 1 <= m <= 13
  {
    if m == 1 then 0 else DaysBefore(leap, m - 1) + MonthLength(leap, m - 1)
  }

  lemma MonthsMakeYear(leap: bool)
    ensures DaysBefore(leap, 13) == YearLength(leap)
  {
    var f := if leap then 29 else 28;
    assert DaysBefore(leap, 2) == 31;
    assert DaysBefore(leap, 3) == 31 + f;
    assert DaysBefore(leap, 4) == 62 + f;
    assert DaysBefore(leap, 5) == 92 + f;
    assert DaysBefore(leap, 6) == 123 + f;
    assert DaysBefore(leap, 7) == 153 + f;
    assert DaysBefore(leap, 8) == 184 + f;
    assert DaysBefore(leap, 9) == 215 + f;
    assert DaysBefore(leap, 10) == 245 + f;
    assert DaysBefore(leap, 11) == 276 + f;
    assert DaysBefore(leap, 12) == 306 + f;
  }

  /** Month m ends within its year; December ends it. */
  lemma MonthEnd(leap: bool, m: int)
    requires 1 <= m <= 12
    ensures DaysBefore(leap, m) + MonthLength(leap, m) <= YearLength(leap)
    ensures m == 12 ==> DaysBefore(leap, m) + MonthLength(leap, m) == YearLength(leap)
  {
    MonthsBefore(leap, m, 13);
    MonthsMakeYear(leap);
  }

  /** Days in the years 0 .. y-1. */
  function DaysBeforeYear(y: nat): nat {
    if y == 0 then 0 else DaysBeforeYear(y - 1) + DaysInYear(y - 1)
  }

  lemma {:induction false} DaysBeforeYearLe(a: nat, b: nat)
    requires a <= b
    ensures DaysBeforeYear(a) <= DaysBeforeYear(b)
    decreases b - a
  {
    if a < b {
      DaysBeforeYearLe(a, b - 1);
    }
  }

  /** The day number of a calendar date. */
  function ToDay(c: CivilDate): Day
    requires IsCivil(c)
  {
    DaysBeforeYear(c.year) + DaysBefore(IsLeap(c.year), c.month) + c.day - 1
  }

  /** The first year that does not have four digits. */
  const YearLimit: nat := 10000

  /** Day numbers whose date has a four-digit year. */
  predicate InRange(z: Day) {
    0 <= z < DaysBeforeYear(YearLimit)
  }

  /** The date of year y that lies z days after the first day of its month m;
      leap says whether y is a leap year. */
  function MonthFrom(y: nat, leap: bool, m: int, z: nat): (c: CivilDate)
    requires 1 <= m <= 12
    requires DaysBefore(leap, m) + z < YearLength(leap)
    ensures c.year == y && m <= c.month <= 12 && 1 <= c.day <= MonthLength(leap, c.month)
    ensures DaysBefore(leap, c.month) + c.day - 1 == DaysBefore(leap, m) + z
    decreases 13 - m
  {
    MonthEnd(leap, m);
    if z < MonthLength(leap, m) then CivilDate(y, m, z + 1)
    else MonthFrom(y, leap, m + 1, z - MonthLength(leap, m))
  }

  /** The date that lies z days after the first day of year y (YearFromSpec). */
  function YearFrom(y: nat, z: nat): CivilDate
    decreases z
  {
    if z < DaysInYear(y) then MonthFrom(y, IsLeap(y), 1, z)
    else YearFrom(y + 1, z - DaysInYear(y))
  }

  /** YearFrom gives a calendar date of year y or later whose day number is z
      days after the first day of year y. */
  lemma {:induction false} YearFromSpec(y: nat, z: nat)
    ensures IsCivil(YearFrom(y, z)) && y <= YearFrom(y, z).year
    ensures ToDay(YearFrom(y, z)) == DaysBeforeYear(y) + z
    decreases z
  {
    if z >= DaysInYear(y) {
      YearFromSpec(y + 1, z - DaysInYear(y));
    }
  }

  /** The calendar date of a day number. */
  function FromDay(z: Day): (c: CivilDate)
    requires InRange(z)
    ensures ValidDate(c)
    ensures ToDay(c) == z
  {
    var c := YearFrom(0, z);
    YearFromSpec(0, z);
    if c.year > 9999 then
      DaysBeforeYearLe(YearLimit, c.year);
      assert false;
      c
    else c
  }

  /** One step of MonthFrom: an offset z past month m continues as the offset
      z' into month m + 1. */
  lemma MonthFromStep(y: nat, leap: bool, m: int, z: nat, z': nat)
    requires 1 <= m < 12
    requires DaysBefore(leap, m) + z < YearLength(leap)
    requires z >= MonthLength(leap, m) && z' == z - MonthLength(leap, m)
    ensures DaysBefore(leap, m + 1) + z' < YearLength(leap)
    ensures MonthFrom(y, leap, m, z) == MonthFrom(y, leap, m + 1, z')
  {
  }

  /** The last step of MonthFrom: an offset within month m is a day of that month. */
  lemma MonthFromLast(y: nat, leap: bool, m: int, z: nat)
    requires 1 <= m <= 12
    requires DaysBefore(leap, m) + z < YearLength(leap)
    requires z < MonthLength(leap, m)
    ensures MonthFrom(y, leap, m, z) == CivilDate(y, m, z + 1)
  {
  }

  /** Day o of month k is found again from the first day of any month m <= k,
      at the offset z. */
  lemma {:induction false} MonthFromOf(y: nat, leap: bool, m: int, k: int, o: nat, z: nat)
    requires 1 <= m <= k <= 12 && o < MonthLength(leap, k)
    requires z == DaysBefore(leap, k) - DaysBefore(leap, m) + o
    ensures DaysBefore(leap, m) <= DaysBefore(leap, k)
    ensures DaysBefore(leap, k) + o < YearLength(leap)
    ensures MonthFrom(y, leap, m, z) == CivilDate(y, k, o + 1)
    decreases k - m, 1
  {
    MonthEnd(leap, k);
    if m < k {
      MonthFromBefore(y, leap, m, k, o, z);
    } else {
      MonthFromLast(y, leap, m, z);
    }
  }

  /** MonthFromOf for a month m before k: one step of MonthFrom, then month m + 1. */
  lemma {:induction false} MonthFromBefore(y: nat, leap: bool, m: int, k: int, o: nat, z: nat)
    requires 1 <= m < k <= 12 && o < MonthLength(leap, k)
    requires z == DaysBefore(leap, k) - DaysBefore(leap, m) + o
    ensures DaysBefore(leap, m) <= DaysBefore(leap, k)
    ensures DaysBefore(leap, k) + o < YearLength(leap)
    ensures MonthFrom(y, leap, m, z) == CivilDate(y, k, o + 1)
    decreases k - m, 0
  {
    MonthsBefore(leap, m, k);
    MonthEnd(leap, k);
    assert DaysBefore(leap, m + 1) == DaysBefore(leap, m) + MonthLength(leap, m);
    var z' := DaysBefore(leap, k) - DaysBefore(leap, m + 1) + o;
    MonthFromStep(y, leap, m, z, z');
    MonthFromOf(y, leap, m + 1, k, o, z');
  }

  lemma {:induction false} MonthsBefore(leap: bool, m: int, k: int)
    requires 1 <= m <= k <= 13
    ensures DaysBefore(leap, m) <= DaysBefore(leap, k)
    ensures m < k ==> DaysBefore(leap, m) + MonthLength(leap, m) <= DaysBefore(leap, k)
    decreases k - m
  {
    if m < k {
      MonthsBefore(leap, m, k - 1);
    }
  }

  /** One step of YearFrom: an offset z past year y continues as the offset
      z' into year y + 1. */
  lemma YearFromStep(y: nat, z: nat, z': nat)
    requires z >= DaysInYear(y) && z' == z - DaysInYear(y)
    ensures YearFrom(y, z) == YearFrom(y + 1, z')
  {
  }

  /** The last step of YearFrom: an offset within year y is a date of that year. */
  lemma YearFromLast(y: nat, z: nat)
    requires z < DaysInYear(y)
    ensures YearFrom(y, z) == MonthFrom(y, IsLeap(y), 1, z)
  {
  }

  /** A date is found again from the first day of its own year. */
  lemma YearFromOwnYear(c: CivilDate)
    requires IsCivil(c)
    ensures DaysBeforeYear(c.year) <= ToDay(c) < DaysBeforeYear(c.year) + DaysInYear(c.year)
    ensures YearFrom(c.year, ToDay(c) - DaysBeforeYear(c.year)) == c
  {
    var z := ToDay(c) - DaysBeforeYear(c.year);
    MonthFromOf(c.year, IsLeap(c.year), 1, c.month, c.day - 1, z);
    YearFromLast(c.year, z);
  }

  /** Offset w into year k is found again from the first day of any year y <= k,
      at the offset z. */
  lemma {:induction false} YearFromAt(y: nat, k: nat, w: nat, z: nat)
    requires y <= k && w < DaysInYear(k)
    requires z == DaysBeforeYear(k) - DaysBeforeYear(y) + w
    ensures YearFrom(y, z) == YearFrom(k, w)
    decreases k - y
  {
    if y < k {
      DaysBeforeYearLe(y + 1, k);
      assert DaysBeforeYear(y + 1) == DaysBeforeYear(y) + DaysInYear(y);
      var z' := DaysBeforeYear(k) - DaysBeforeYear(y + 1) + w;
      YearFromStep(y, z, z');
      YearFromAt(y + 1, k, w, z');
    }
  }

  /** A date is found again from the first day of any earlier year, at the
      offset z. */
  lemma YearFromOf(c: CivilDate, y: nat, z: nat)
    requires IsCivil(c) && y <= c.year
    requires z == ToDay(c) - DaysBeforeYear(y)
    ensures YearFrom(y, z) == c
  {
    DaysBeforeYearLe(y, c.year);
    YearFromOwnYear(c);
    YearFromAt(y, c.year, ToDay(c) - DaysBeforeYear(c.year), z);
  }

  /** The day number of a date with a four-digit year is in range. */
  lemma ToDayInRange(c: CivilDate)
    requires ValidDate(c)
    ensures InRange(ToDay(c))
  {
    MonthEnd(IsLeap(c.year), c.month);
    assert DaysBeforeYear(c.year + 1) == DaysBeforeYear(c.year) + DaysInYear(c.year);
    DaysBeforeYearLe(c.year + 1, YearLimit);
  }

  /** Day numbers and calendar dates correspond one to one. */
  lemma FromDayToDay(c: CivilDate)
    requires ValidDate(c)
    ensures InRange(ToDay(c)) && FromDay(ToDay(c)) == c
  {
    ToDayInRange(c);
    YearFromOf(c, 0, ToDay(c));
  }

  // ---- The text form YYYY-MM-DD ----

  /** The extended-format text of a date: the year in four digits, the month
      and the day in two, each zero-padded, separated by hyphens. */
  function IsoText(c: CivilDate): (s: string)
    requires ValidDate(c)
    ensures IsIsoShape(s)
  {
    var y, m, d := c.year, c.month, c.day;
    [DigitChar(y / 10 / 10 / 10), DigitChar(y / 10 / 10 % 10), DigitChar(y / 10 % 10), DigitChar(y % 10), '-',
     DigitChar(m / 10), DigitChar(m % 10), '-', DigitChar(d / 10), DigitChar(d % 10)]
  }

  /** A string in the shape YYYY-MM-DD (digits and two hyphens). */
  predicate IsIsoShape(s: string) {
    |s| == 10 && s[4] == '-' && s[7] == '-'
    && IsDigit(s[0]) && IsDigit(s[1]) && IsDigit(s[2]) && IsDigit(s[3])
    && IsDigit(s[5]) && IsDigit(s[6]) && IsDigit(s[8]) && IsDigit(s[9])
  }

  /** The value of the two digits a b. */
  function Value2(a: char, b: char): nat
    requires IsDigit(a) && IsDigit(b)
  {
    10 * DigitValue(a) + DigitValue(b)
  }

  /** The date a string of shape YYYY-MM-DD spells, valid or not. */
  function Fields(s: string): CivilDate
    requires IsIsoShape(s)
  {
    CivilDate(100 * Value2(s[0], s[1]) + Value2(s[2], s[3]), Value2(s[5], s[6]), Value2(s[8], s[9]))
  }

  /** Reads a YYYY-MM-DD string; None when it is not in that shape or names no date. */
  function ParseIso(s: string): (r: Option<CivilDate>)
    ensures r.Some? ==> ValidDate(r.value) && IsIsoShape(s)
  {
    if IsIsoShape(s) && ValidDate(Fields(s)) then Some(Fields(s)) else None
  }

  /** Reading the text of a date gives the date back. */
  lemma ParseIsoText(c: CivilDate)
    requires ValidDate(c)
    ensures ParseIso(IsoText(c)) == Some(c)
  {
    var s := IsoText(c);
    assert Fields(s) == c;
  }

  lemma DivMod10(q: nat, r: nat)
    requires r < 10
    ensures (10 * q + r) / 10 == q && (10 * q + r) % 10 == r
  {
  }

  /** The digits of a number below 10000 written from its four digits. */
  lemma DigitsOfValue(a: nat, b: nat, c: nat, d: nat)
    requires a < 10 && b < 10 && c < 10 && d < 10
    ensures var y := 1000 * a + 100 * b + 10 * c + d;
            y / 10 / 10 / 10 == a && y / 10 / 10 % 10 == b && y / 10 % 10 == c && y % 10 == d
  {
    DivMod10(100 * a + 10 * b + c, d);
    DivMod10(10 * a + b, c);
    DivMod10(a, b);
    DivMod10(0, a);
  }

  lemma DigitOfValue(ch: char)
    requires IsDigit(ch)
    ensures DigitChar(DigitValue(ch)) == ch
  {
  }

  /** Writing a date read from text gives the text back. */
  lemma IsoTextOfParse(s: string)
    requires ParseIso(s).Some?
    ensures IsoText(ParseIso(s).value) == s
  {
    var c := Fields(s);
    DigitsOfValue(DigitValue(s[0]), DigitValue(s[1]), DigitValue(s[2]), DigitValue(s[3]));
    DigitsOfValue(0, 0, DigitValue(s[5]), DigitValue(s[6]));
    DigitsOfValue(0, 0, DigitValue(s[8]), DigitValue(s[9]));
    DigitOfValue(s[0]); DigitOfValue(s[1]); DigitOfValue(s[2]); DigitOfValue(s[3]);
    DigitOfValue(s[5]); DigitOfValue(s[6]); DigitOfValue(s[8]); DigitOfValue(s[9]);
    var t := IsoText(c);
    assert t == s;
  }

  // ---- addDays on the text form ----

  /** The day number a YYYY-MM-DD text names, if it names a date. */
  function DayOfText(s: string): (r: Option<Day>)
    ensures r.Some? ==> InRange(r.value)
  {
    match ParseIso(s)
    case None => None
    case Some(c) =>
      FromDayToDay(c);
      Some(ToDay(c))
  }

  /** The YYYY-MM-DD text of a day number with a four-digit year. */
  function TextOfDay(z: Day): (s: string)
    requires InRange(z)
    ensures IsIsoShape(s)
  {
    IsoText(FromDay(z))
  }

  lemma DayOfTextOfDay(z: Day)
    requires InRange(z)
    ensures DayOfText(TextOfDay(z)) == Some(z)
  {
    ParseIsoText(FromDay(z));
  }

  lemma TextOfDayOfText(s: string)
    requires DayOfText(s).Some?
    ensures TextOfDay(DayOfText(s).value) == s
  {
    var c := ParseIso(s).value;
    FromDayToDay(c);
    IsoTextOfParse(s);
  }

  /** `addDays(dateStr, n)` on a YYYY-MM-DD text: the text of the day n days
      later; None where the input names no date or the result leaves the
      four-digit years. */
  function AddDaysText(s: string, n: int): (r: Option<string>)
    ensures r.Some? ==> IsIsoShape(r.value) && DayOfText(s).Some?
    ensures r.Some? ==> DayOfText(r.value) == Some(DayOfText(s).value + n)
  {
    var d := DayOfText(s);
    if d.None? || !InRange(d.value + n) then None
    else
      var w := d.value + n;
      var t := TextOfDay(w);
      DayOfTextOfDay(w);
      assert DayOfText(t) == Some(w);
      Some(t)
  }

  /** Adding no days gives back every valid date text. */
  lemma AddDaysTextZero(s: string)
    requires DayOfText(s).Some?
    ensures AddDaysText(s, 0) == Some(s)
  {
    TextOfDayOfText(s);
  }

  /** Adding a days and then b days is adding a + b days. */
  lemma AddDaysTextCompose(s: string, a: int, b: int)
    requires AddDaysText(s, a).Some?
    ensures AddDaysText(AddDaysText(s, a).value, b) == AddDaysText(s, a + b)
  {
    var z := DayOfText(s).value;
    var t := AddDaysText(s, a).value;
    AddDaysTextIs(t, b, z + a, z + a + b);
    AddDaysTextIs(s, a + b, z, z + a + b);
  }

  /** The text of day w, if w has a four-digit year. */
  function Shifted(w: Day): Option<string> {
    if InRange(w) then Some(TextOfDay(w)) else None
  }

  /** AddDaysText on a text that names day z is the text of day w = z + n. */
  lemma AddDaysTextIs(s: string, n: int, z: Day, w: Day)
    requires DayOfText(s) == Some(z) && w == z + n
    ensures AddDaysText(s, n) == Shifted(w)
  {
  }

  /** Adding days stays defined exactly while the result keeps a four-digit year. */
  lemma AddDaysTextDefined(s: string, n: int)
    requires DayOfText(s).Some?
    ensures AddDaysText(s, n).Some? <==> InRange(DayOfText(s).value + n)
  {
  }
}
