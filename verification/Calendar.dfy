/** The date and weekday arithmetic of the clock driver, against a calendar that counts day by day. */
module Calendar {

  datatype Date = Date(year: int, month: int, day: int)

  // ---------- The Gregorian calendar, one day after the other ----------

  predicate Leap(y: int) { y % 4 == 0 && (y % 100 != 0 || y % 400 == 0) }

  function MonthLength(y: int, m: int): int {
    if m == 2 then (if Leap(y) then 29 else 28)
    else if m == 4 || m == 6 || m == 9 || m == 11 then 30
    else 31
  }

  predicate ValidDate(date: Date) {
    1 <= date.month <= 12 && 1 <= date.day <= MonthLength(date.year, date.month)
  }

  function NextDay(date: Date): Date {
    if date.day < MonthLength(date.year, date.month) then date.(day := date.day + 1)
    else if date.month < 12 then Date(date.year, date.month + 1, 1)
    else Date(date.year + 1, 1, 1)
  }

  /** The date n days after 1970-01-01. */
  function DateAfter(n: nat): Date {
    if n == 0 then Date(1970, 1, 1) else NextDay(DateAfter(n - 1))
  }

  // ---------- The driver ----------

  /** C's division, which truncates toward zero. */
  function Divide(a: int, b: int): int
    requires b > 0
  {
    if a >= 0 then a / b else -((-a) / b)
  }

  /** RtcDaysToDate; the year is stored in 16 bits. */
  function DaysToDate(days: int): Date {
    var z := days + 719468;
    var era := Divide(if z >= 0 then z else z - 146096, 146097);
    var doe := z - era * 146097;
    var yoe := YearOfEra(doe);
    var doy := doe - (365 * yoe + Divide(yoe, 4) - Divide(yoe, 100));
    var mp := Divide(5 * doy + 2, 153);
    var d := doy - Divide(153 * mp + 2, 5) + 1;
    var m := if mp < 10 then mp + 3 else mp - 9;
    var y := yoe + era * 400;
    Date((if m <= 2 then y + 1 else y) % 0x1_0000, m, d)
  }

  function YearOfEra(doe: int): int {
    Divide(doe - Divide(doe, 1460) + Divide(doe, 36524) - Divide(doe, 146096), 365)
  }

  /** RtcWeekDayCalc, with 1 for Monday. */
  function WeekDay(year: int, month: int, day: int): int {
    var y, m := if month < 3 then (year - 1) % 0x1_0000 else year, if month < 3 then month + 12 else month;
    var h := (day + Divide(13 * (m + 1), 5) + y + y / 4 - y / 100 + y / 400) % 7;
    (h + 5) % 7 + 1
  }

  // ---------- Counting the days of a date ----------

  /** The year that starts in March, and the month in it. */
  function MarchYear(date: Date): int { if date.month <= 2 then date.year - 1 else date.year }

  function MarchMonth(date: Date): int { if date.month <= 2 then date.month + 9 else date.month - 3 }

  function DaysBeforeYear(y: int): int { 365 * y + y / 4 - y / 100 + y / 400 }

  function DaysBeforeMonth(mp: int): int { (153 * mp + 2) / 5 }

  /** Days since 1970-01-01, counted from the start of March of year 0. */
  function DayNumber(date: Date): int {
    DaysBeforeYear(MarchYear(date)) + DaysBeforeMonth(MarchMonth(date)) + date.day - 1 - 719468
  }

  lemma NextQuotient(y: int)
    ensures (y + 1) / 4 == y / 4 + (if (y + 1) % 4 == 0 then 1 else 0)
    ensures (y + 1) / 100 == y / 100 + (if (y + 1) % 100 == 0 then 1 else 0)
    ensures (y + 1) / 400 == y / 400 + (if (y + 1) % 400 == 0 then 1 else 0)
  {
  }

  lemma Multiples(y: int)
    ensures y % 100 == 0 ==> y % 4 == 0
    ensures y % 400 == 0 ==> y % 100 == 0
  {
  }

  lemma YearGrows(y: int)
    ensures DaysBeforeYear(y + 1) == DaysBeforeYear(y) + (if Leap(y + 1) then 366 else 365)
  {
    NextQuotient(y);
    Multiples(y + 1);
  }

  lemma MonthGrows(date: Date)
    requires 1 <= date.month <= 12
    ensures date.month != 2 ==>
              DaysBeforeMonth(MarchMonth(date) + 1)
              == DaysBeforeMonth(MarchMonth(date)) + MonthLength(date.year, date.month)
    ensures DaysBeforeMonth(11) == 337 && DaysBeforeMonth(0) == 0
  {
  }

  /** The next day has the next number. */
  lemma NextDayCounts(date: Date)
    requires ValidDate(date)
    ensures ValidDate(NextDay(date)) && DayNumber(NextDay(date)) == DayNumber(date) + 1
  {
    hide DaysBeforeYear, DaysBeforeMonth, Leap;
    MonthGrows(date);
    if date.month == 2 { YearGrows(MarchYear(date)); }
  }

  lemma FirstDay()
    ensures ValidDate(Date(1970, 1, 1)) && DayNumber(Date(1970, 1, 1)) == 0
  {
  }

  lemma YearsAscend(date: Date)
    ensures NextDay(date).year >= date.year
  {
  }

  lemma {:induction false} DateAfterCounts(n: nat)
    ensures ValidDate(DateAfter(n)) && DayNumber(DateAfter(n)) == n && DateAfter(n).year >= 1970
  {
    hide ValidDate, NextDay, DayNumber;
    if n == 0 {
      FirstDay();
    } else {
      DateAfterCounts(n - 1);
      NextDayCounts(DateAfter(n - 1));
      YearsAscend(DateAfter(n - 1));
    }
  }

  // ---------- The closed form undoes the count ----------

  /** A year of the 400-year era by century, four-year group and year. */
  lemma YearOfEraIs(c: int, q: int, s: int, doy: int)
    requires 0 <= c < 4 && 0 <= q < 25 && 0 <= s < 4 && 0 <= doy < 366
    requires doy == 365 ==> s == 3 && (q < 24 || c == 3)
    ensures YearOfEra(36524 * c + 1461 * q + 365 * s + doy) == 100 * c + 4 * q + s
  {
    var doe := 36524 * c + 1461 * q + 365 * s + doy;
    var last := c == 3 && q == 24 && s == 3 && doy == 365;
    assert doe / 36524 == (if last then 4 else c) && doe / 146096 == (if last then 1 else 0);
    var f := if 24 * c + q + 365 * s + doy >= 1460 then 1 else 0;
    assert doe / 1460 == 25 * c + q + f;
    assert doe - doe / 1460 + doe / 36524 - doe / 146096 == 365 * (100 * c + 4 * q + s) + doy - f;
  }

  lemma EraYear(yoe: int, doy: int)
    requires 0 <= yoe < 400 && 0 <= doy < (if Leap(yoe + 1) then 366 else 365)
    ensures YearOfEra(365 * yoe + yoe / 4 - yoe / 100 + doy) == yoe
    ensures 0 <= 365 * yoe + yoe / 4 - yoe / 100 + doy < 146097
  {
    hide YearOfEra;
    var c, r := yoe / 100, yoe % 100;
    var q, s := r / 4, r % 4;
    assert yoe / 4 == 25 * c + q;
    YearOfEraIs(c, q, s, doy);
  }

  lemma MonthOfYear(mp: int, d: int)
    requires 0 <= mp < 12 && 0 <= d < 31
    requires mp < 11 ==> d < DaysBeforeMonth(mp + 1) - DaysBeforeMonth(mp)
    requires mp == 11 ==> d < 29
    ensures (5 * (DaysBeforeMonth(mp) + d) + 2) / 153 == mp && 0 <= DaysBeforeMonth(mp) + d < 366
  {
  }

  lemma MarchYearIs(date: Date)
    ensures date.year - 1 <= MarchYear(date) <= date.year
  {
  }

  /** A valid date is what the closed form makes of its number, up to the 16 bits of the year. */
  lemma DaysToDateIs(date: Date)
    requires ValidDate(date) && MarchYear(date) >= 0
    ensures DaysToDate(DayNumber(date)) == date.(year := date.year % 0x1_0000)
  {
    hide YearOfEra, DaysBeforeMonth, DaysBeforeYear, Leap, Divide, MonthLength;
    var y, mp, d := MarchYear(date), MarchMonth(date), date.day - 1;
    var era, yoe := y / 400, y % 400;
    var doy := DaysBeforeMonth(mp) + d;
    DayInYear(date);
    LeapInEra(y);
    EraYear(yoe, doy);
    EraDays(y);
    var doe := 365 * yoe + yoe / 4 - yoe / 100 + doy;
    assert DayNumber(date) + 719468 == era * 146097 + doe;
    DividesEra(era, doe);
    NonNegative(yoe, 4);
    NonNegative(yoe, 100);
    NonNegative(5 * doy + 2, 153);
    MonthStart(mp);
  }

  lemma NonNegative(a: int, b: int)
    requires a >= 0 && b > 0
    ensures Divide(a, b) == a / b
  {
  }

  /** The day's place in the March year and month. */
  lemma DayInYear(date: Date)
    requires ValidDate(date)
    ensures var doy := DaysBeforeMonth(MarchMonth(date)) + date.day - 1;
            0 <= doy < (if Leap(MarchYear(date) + 1) then 366 else 365) && (5 * doy + 2) / 153 == MarchMonth(date)
  {
    hide DaysBeforeMonth, Leap;
    MonthGrows(date);
    MonthOfYear(MarchMonth(date), date.day - 1);
    MonthBounds(MarchMonth(date));
  }

  lemma MonthBounds(mp: int)
    requires 0 <= mp < 12
    ensures 0 <= DaysBeforeMonth(mp) && (mp < 11 ==> DaysBeforeMonth(mp + 1) <= 337)
  {
  }

  lemma MonthStart(mp: int)
    requires 0 <= mp < 12
    ensures Divide(153 * mp + 2, 5) == DaysBeforeMonth(mp)
  {
  }

  lemma Shift4(x: int, k: int)
    ensures (4 * k + x) % 4 == x % 4
  {
  }

  lemma Shift100(x: int, k: int)
    ensures (100 * k + x) % 100 == x % 100
  {
  }

  lemma Shift400(x: int, k: int)
    ensures (400 * k + x) % 400 == x % 400
  {
  }

  lemma LeapInEra(y: int)
    ensures Leap(y + 1) == Leap(y % 400 + 1)
  {
    var x, era := y % 400 + 1, y / 400;
    Shift4(x, 100 * era);
    Shift100(x, 4 * era);
    Shift400(x, era);
    assert y + 1 == 4 * (100 * era) + x && y + 1 == 100 * (4 * era) + x && y + 1 == 400 * era + x;
  }

  lemma EraDays(y: int)
    requires y >= 0
    ensures DaysBeforeYear(y) == y / 400 * 146097 + 365 * (y % 400) + y % 400 / 4 - y % 400 / 100
  {
    var era, yoe := y / 400, y % 400;
    assert y == 400 * era + yoe;
    assert y / 4 == 100 * era + yoe / 4 && y / 100 == 4 * era + yoe / 100;
  }

  lemma DividesEra(era: int, doe: int)
    requires 0 <= era && 0 <= doe < 146097
    ensures Divide(era * 146097 + doe, 146097) == era
  {
  }

  // ---------- The driver agrees with the calendar ----------

  /** RtcDaysToDate gives the date that many next-day steps reach exactly as long as the year fits its
      16 bits. */
  lemma DaysToDateAgreesIff(n: nat)
    requires n + 719468 < 0x8000_0000
    ensures DaysToDate(n) == DateAfter(n) <==> DateAfter(n).year < 0x1_0000
  {
    hide DaysToDate, DayNumber, ValidDate, MarchYear, DateAfter;
    var date := DateAfter(n);
    DateAfterCounts(n);
    MarchYearIs(date);
    DaysToDateIs(date);
  }

  lemma WeekOffset(mp: int)
    requires 0 <= mp < 12
    ensures DaysBeforeMonth(mp) == Divide(13 * (mp + 4), 5) + 28 * mp - 10
  {
  }

  /** RtcWeekDayCalc of that date counts the days of the week, 1970-01-01 being a Thursday. */
  lemma WeekDayAgrees(n: nat)
    requires DateAfter(n).year < 0x1_0000
    ensures var date := DateAfter(n); WeekDay(date.year, date.month, date.day) == (n + 3) % 7 + 1
  {
    hide DaysBeforeMonth, Leap, Divide, DateAfter;
    var date := DateAfter(n);
    DateAfterCounts(n);
    var y, mp := MarchYear(date), MarchMonth(date);
    WeekOffset(mp);
    var sum := date.day + Divide(13 * (mp + 4), 5) + y + y / 4 - y / 100 + y / 400;
    assert n == 365 * y + y / 4 - y / 100 + y / 400 + (Divide(13 * (mp + 4), 5) + 28 * mp - 10) + date.day - 1 - 719468;
    WeekSum(n, y, mp, date.day, Divide(13 * (mp + 4), 5), y / 4 - y / 100 + y / 400);
    FiveDaysOn(n);
  }

  lemma WeekSum(n: nat, y: int, mp: int, day: int, months: int, leaps: int)
    requires n == 365 * y + leaps + (months + 28 * mp - 10) + day - 1 - 719468
    ensures (day + months + y + leaps) % 7 == (n + 5) % 7
  {
    var k := 102782 - 52 * y - 4 * mp;
    assert day + months + y + leaps == n + 5 + 7 * k;
    WholeWeeks(n + 5, k);
  }

  lemma WholeWeeks(a: int, k: int)
    ensures (a + 7 * k) % 7 == a % 7
  {
  }

  lemma FiveDaysOn(n: nat)
    ensures ((n + 5) % 7 + 5) % 7 == (n + 3) % 7
  {
  }
}
