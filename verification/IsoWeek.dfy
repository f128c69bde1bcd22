/** ISO 8601 week numbers (src/core/snippet_manager.cpp, IsoWeekNumber). */
module IsoWeek {

  // C's integer division and remainder truncate toward zero.
  function CDiv(a: int, b: int): int
    requires b > 0
  {
    if a >= 0 then a / b else -((-a) / b)
  }

  function CMod(a: int, b: int): int
    requires b > 0
  {
    a - CDiv(a, b) * b
  }

  predicate Leap(year: int) { (year % 4 == 0 && year % 100 != 0) || year % 400 == 0 }

  function DaysIn(year: int): int { if Leap(year) then 366 else 365 }

  /** A date as struct tm gives it: the year, tm_yday counted from 0, and
      tm_wday with Sunday as 0. */
  datatype Date = Date(year: int, yday: int, wday: int)

  ghost predicate ValidDate(d: Date) {
    0 <= d.yday < DaysIn(d.year) && 0 <= d.wday <= 6
  }

  /** Monday = 1 .. Sunday = 7. */
  function IsoWeekday(d: Date): int { if d.wday == 0 then 7 else d.wday }

  function IsoWeekNumber(d: Date): int {
    var yday, wday := d.yday + 1, IsoWeekday(d);
    var w := CDiv(yday - wday + 10, 7);
    if w == 0 then
      var jan1 := CMod(CMod(wday - (yday - 1), 7) + 7, 7);
      var jan1Iso := if jan1 == 0 then 7 else jan1;
      var dec31 := if jan1Iso - 1 == 0 then 7 else jan1Iso - 1;
      CDiv(DaysIn(d.year - 1) - dec31 + 10, 7)
    else if w == 53 then
      var dec31 := CMod(wday + (DaysIn(d.year) - yday), 7);
      var dec31Iso := if dec31 == 0 then 7 else dec31;
      if dec31Iso <= 3 then 1 else w
    else w
  }

  // ---- The standard: a week belongs to the year its Thursday lies in ----

  /** The 1-based day of the year of the Thursday of d's week, counted in d's
      own year: not positive in the year before, too large in the year after. */
  function ThursdayOffset(d: Date): int { d.yday + 1 - IsoWeekday(d) + 4 }

  function ThursdayYear(d: Date): int {
    if ThursdayOffset(d) < 1 then d.year - 1
    else if ThursdayOffset(d) > DaysIn(d.year) then d.year + 1
    else d.year
  }

  function ThursdayOfYear(d: Date): int {
    if ThursdayOffset(d) < 1 then ThursdayOffset(d) + DaysIn(d.year - 1)
    else if ThursdayOffset(d) > DaysIn(d.year) then ThursdayOffset(d) - DaysIn(d.year)
    else ThursdayOffset(d)
  }

  /** Week n of a year is the one with its n-th Thursday (section 2.2.10 of
      ISO 8601:2004). */
  function ThursdayWeek(d: Date): int { (ThursdayOfYear(d) - 1) / 7 + 1 }

  lemma IsoWeekIsTheWeekOfItsThursday(d: Date)
    requires ValidDate(d)
    ensures IsoWeekNumber(d) == ThursdayWeek(d)
    ensures 1 <= IsoWeekNumber(d) <= 53
  {
    var yday, wday := d.yday + 1, IsoWeekday(d);
    var w := CDiv(yday - wday + 10, 7);
    if w == 0 {
      assert 4 <= wday - yday <= 6;
      assert CMod(CMod(wday - (yday - 1), 7) + 7, 7) == (wday - yday + 1) % 7;
    } else if w == 53 {
      var rest := wday + (DaysIn(d.year) - yday);
      assert 0 <= rest <= 12;
    }
  }

  // ---- All seven days of a week agree, across year ends too ----

  /** Days from a fixed origin to the last day of the year before (proleptic
      Gregorian calendar). */
  function DaysBefore(year: int): int {
    var y := year - 1;
    365 * y + y / 4 - y / 100 + y / 400
  }

  lemma YearLength(year: int)
    ensures DaysBefore(year + 1) == DaysBefore(year) + DaysIn(year)
  {
    Fourth(year);
    Hundredth(year);
    FourHundredth(year);
  }

  lemma Fourth(year: int)
    ensures year / 4 == (year - 1) / 4 + if year % 4 == 0 then 1 else 0
  {
  }

  lemma Hundredth(year: int)
    ensures year / 100 == (year - 1) / 100 + if year % 100 == 0 then 1 else 0
    ensures year % 100 == 0 ==> year % 4 == 0
  {
  }

  lemma FourHundredth(year: int)
    ensures year / 400 == (year - 1) / 400 + if year % 400 == 0 then 1 else 0
    ensures year % 400 == 0 ==> year % 100 == 0
  {
  }

  lemma {:induction false} YearsGrow(a: int, b: int)
    requires a < b
    ensures DaysBefore(b) >= DaysBefore(a) + DaysIn(a)
    decreases b - a
  {
    YearLength(b - 1);
    if a < b - 1 { YearsGrow(a, b - 1); }
  }

  /** The number of the day on the calendar. */
  function DayNumber(d: Date): int { DaysBefore(d.year) + d.yday + 1 }

  function MondayNumber(d: Date): int { DayNumber(d) - IsoWeekday(d) }

  lemma SameWeekSameNumber(d: Date, e: Date)
    requires ValidDate(d) && ValidDate(e) && MondayNumber(d) == MondayNumber(e)
    ensures IsoWeekNumber(d) == IsoWeekNumber(e) && ThursdayYear(d) == ThursdayYear(e)
  {
    ThursdayNumber(d);
    ThursdayNumber(e);
    var y, z := ThursdayYear(d), ThursdayYear(e);
    if y < z {
      YearsGrow(y, z);
    } else if z < y {
      YearsGrow(z, y);
    }
    IsoWeekIsTheWeekOfItsThursday(d);
    IsoWeekIsTheWeekOfItsThursday(e);
  }

  lemma ThursdayNumber(d: Date)
    requires ValidDate(d)
    ensures DaysBefore(ThursdayYear(d)) + ThursdayOfYear(d) == MondayNumber(d) + 4
    ensures 1 <= ThursdayOfYear(d) <= DaysIn(ThursdayYear(d))
  {
    YearLength(d.year - 1);
    YearLength(d.year);
    ThursdayCount(d, DaysBefore);
  }

  /** The same for any count of days that goes on by each year's length. */
  lemma ThursdayCount(d: Date, before: int -> int)
    requires ValidDate(d)
    requires before(d.year) == before(d.year - 1) + DaysIn(d.year - 1)
    requires before(d.year + 1) == before(d.year) + DaysIn(d.year)
    ensures before(ThursdayYear(d)) + ThursdayOfYear(d) == before(d.year) + d.yday + 1 - IsoWeekday(d) + 4
    ensures 1 <= ThursdayOfYear(d) <= DaysIn(ThursdayYear(d))
  {
  }

  lemma SevenDaysOn(y: int, a: int, z: int, b: int)
    requires 1 <= a <= DaysIn(y) && 1 <= b <= DaysIn(z) && DaysBefore(z) + b == DaysBefore(y) + a + 7
    ensures (z == y && b == a + 7) || (z == y + 1 && b <= 7)
  {
    if z < y {
      YearsGrow(z, y);
    } else if y < z {
      YearLength(y);
      if y + 1 < z { YearsGrow(y + 1, z); }
    }
  }

  /** The week after has the next number, or number 1 where the ISO year ends. */
  lemma NextWeekNextNumber(d: Date, e: Date)
    requires ValidDate(d) && ValidDate(e) && MondayNumber(e) == MondayNumber(d) + 7
    ensures ThursdayYear(e) == ThursdayYear(d) ==> IsoWeekNumber(e) == IsoWeekNumber(d) + 1
    ensures ThursdayYear(e) != ThursdayYear(d) ==> IsoWeekNumber(e) == 1 && ThursdayYear(e) == ThursdayYear(d) + 1
  {
    ThursdayNumber(d);
    ThursdayNumber(e);
    SevenDaysOn(ThursdayYear(d), ThursdayOfYear(d), ThursdayYear(e), ThursdayOfYear(e));
    IsoWeekIsTheWeekOfItsThursday(d);
    IsoWeekIsTheWeekOfItsThursday(e);
  }
}
