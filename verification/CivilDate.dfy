/** Dates of the proleptic Gregorian calendar from a count of days, without a loop. */
module CivilDate {

  datatype Date = Date(year: int, month: int, day: int)

  datatype Time = Time(hour: int, minute: int, second: int)

  // ---------------------------------------------------------------- the calendar

  predicate Leap(y: int) {
    y % 4 == 0 && (y % 100 != 0 || y % 400 == 0)
  }

  function MonthLength(y: int, m: int): int
    requires 1 <= m <= 12
  {
    if m == 2 then (if Leap(y) then 29 else 28) else if m == 4 || m == 6 || m == 9 || m == 11 then 30 else 31
  }

  predicate Valid(x: Date) {
    1 <= x.month <= 12 && 1 <= x.day <= MonthLength(x.year, x.month)
  }

  /** The day after. */
  function Next(x: Date): Date
    requires Valid(x)
  {
    if x.day < MonthLength(x.year, x.month) then x.(day := x.day + 1)
    else if x.month < 12 then Date(x.year, x.month + 1, 1)
    else Date(x.year + 1, 1, 1)
  }

  // ---------------------------------------------------------------- counting days

  /** The leap years from 1 to `y`. */
  function Leaps(y: int): int {
    y / 4 - y / 100 + y / 400
  }

  /** The days from the first of January of the year 0, which is leap, less one. */
  function YearStart(y: int): int {
    365 * y + Leaps(y - 1)
  }

  function MonthStart(y: int, m: int): int
    requires 1 <= m <= 12
    decreases m
  {
    if m == 1 then 0 else MonthStart(y, m - 1) + MonthLength(y, m - 1)
  }

  /** The days since the first of January 1970. */
  function DayNumber(x: Date): int
    requires Valid(x)
  {
    YearStart(x.year) + MonthStart(x.year, x.month) + x.day - 1 - 719_527
  }

  lemma LeapStep(y: int)
    ensures Leaps(y) == Leaps(y - 1) + if Leap(y) then 1 else 0
  {
    if y % 100 == 0 { Hundreds(y); }
    if y % 400 == 0 { FourHundreds(y); }
    assert y / 4 == (y - 1) / 4 + if y % 4 == 0 then 1 else 0;
    assert y / 100 == (y - 1) / 100 + if y % 100 == 0 then 1 else 0;
    assert y / 400 == (y - 1) / 400 + if y % 400 == 0 then 1 else 0;
  }

  lemma Hundreds(y: int)
    requires y % 100 == 0
    ensures y % 4 == 0
  {
    var q := 25 * (y / 100);
    assert y == 4 * q;
  }

  lemma FourHundreds(y: int)
    requires y % 400 == 0
    ensures y % 100 == 0
  {
    var q := 4 * (y / 400);
    assert y == 100 * q;
  }

  lemma YearLength(y: int)
    ensures MonthStart(y, 12) + 31 == 365 + if Leap(y) then 1 else 0
    ensures YearStart(y + 1) == YearStart(y) + MonthStart(y, 12) + 31
  {
    LeapStep(y);
    MonthStarts(y, 12);
  }

  /** Counting from March: the months before `m` in a year that starts there. */
  function FromMarch(mp: int): int {
    (153 * mp + 2) / 5
  }

  lemma MonthStarts(y: int, m: int)
    requires 1 <= m <= 12
    ensures m >= 3 ==> MonthStart(y, m) == 59 + (if Leap(y) then 1 else 0) + FromMarch(m - 3)
    ensures m <= 2 ==> MonthStart(y, m) == FromMarch(m + 9) - 306
  {
    if m > 3 { MonthStarts(y, m - 1); }
  }

  /** A day number counts the days one by one. */
  lemma NextIsOneMore(x: Date)
    requires Valid(x)
    ensures Valid(Next(x)) && DayNumber(Next(x)) == DayNumber(x) + 1
  {
    YearLength(x.year);
  }

  lemma {:induction false} YearsGrow(y: int, z: int)
    requires y <= z
    ensures YearStart(z) >= YearStart(y) + 365 * (z - y)
    decreases z - y
  {
    if y < z {
      YearsGrow(y, z - 1);
      LeapStep(z - 1);
    }
  }

  lemma {:induction false} MonthsGrow(y: int, m: int, n: int)
    requires 1 <= m < n <= 12
    ensures MonthStart(y, m) + MonthLength(y, m) <= MonthStart(y, n)
    decreases n - m
  {
    if m < n - 1 { MonthsGrow(y, m, n - 1); }
  }

  lemma WithinYear(x: Date)
    requires Valid(x)
    ensures YearStart(x.year) <= DayNumber(x) + 719_527 < YearStart(x.year + 1)
  {
    YearLength(x.year);
    if x.month > 1 { MonthsGrow(x.year, 1, x.month); }
    if x.month < 12 { MonthsGrow(x.year, x.month, 12); }
  }

  /** Different dates have different day numbers. */
  lemma DayNumberInjective(x: Date, z: Date)
    requires Valid(x) && Valid(z) && DayNumber(x) == DayNumber(z)
    ensures x == z
  {
    hide MonthStart, MonthLength, YearStart;
    WithinYear(x);
    WithinYear(z);
    if x.year < z.year { YearsGrow(x.year + 1, z.year); }
    if z.year < x.year { YearsGrow(z.year + 1, x.year); }
    assert x.year == z.year;
    if x.month < z.month { MonthsGrow(x.year, x.month, z.month); }
    if z.month < x.month { MonthsGrow(x.year, z.month, x.month); }
  }

  // ---------------------------------------------------------------- the algorithm

  /** The year of the 400-year era, which starts in March, that holds its day `doe`. */
  function YearOfEra(doe: int): int {
    (doe - doe / 1460 + doe / 36_524 - doe / 146_096) / 365
  }

  function Civil(days: int): Date {
    var z := days + 719_468;
    var era := z / 146_097;
    var doe := z - era * 146_097;
    var yoe := YearOfEra(doe);
    var doy := doe - (365 * yoe + yoe / 4 - yoe / 100);
    var mp := (5 * doy + 2) / 153;
    var d := doy - (153 * mp + 2) / 5 + 1;
    var m := if mp < 10 then mp + 3 else mp - 9;
    Date(yoe + era * 400 + (if m <= 2 then 1 else 0), m, d)
  }

  /** The days of the era before its year `yoe`. */
  function EraDays(yoe: int): int {
    365 * yoe + yoe / 4 - yoe / 100
  }

  /** The length of the year of the era that starts in March: its February is
      that of the next calendar year. */
  function EraYearLength(yoe: int): int {
    if (yoe + 1) % 4 == 0 && ((yoe + 1) % 100 != 0 || yoe == 399) then 366 else 365
  }

  /** The century, the four years within it and the day within those. */
  lemma YearOfEraSplit(doe: int, c: int, g: int, s: int)
    requires 0 <= c <= 3 && 0 <= g <= 24 && 0 <= s <= 1460
    requires doe == 36_524 * c + 1461 * g + s
    requires c < 3 && g == 24 ==> s < 1460
    ensures YearOfEra(doe) == 100 * c + 4 * g + (if s < 1460 then s / 365 else 3)
  {
    var e := if s + g + 24 * c >= 1460 then 1 else 0;
    if doe < 146_096 {
      assert doe / 36_524 == c;
      assert doe / 1460 == 25 * c + g + e;
      assert doe / 146_096 == 0;
      assert YearOfEra(doe) == (365 * (100 * c + 4 * g) + s - e) / 365;
    }
  }

  lemma YearsBefore(c: int, g: int, b: int)
    requires 0 <= c <= 3 && 0 <= g <= 24 && 0 <= b <= 3
    ensures var yoe := 100 * c + 4 * g + b; yoe / 100 == c && yoe / 4 == 25 * c + g
  {
  }

  lemma YearOfEraRight(doe: int)
    requires 0 <= doe < 146_097
    ensures var yoe := YearOfEra(doe); 0 <= yoe < 400 && 0 <= doe - EraDays(yoe) < EraYearLength(yoe)
  {
    var c := if doe == 146_096 then 3 else doe / 36_524;
    var r := doe - 36_524 * c;
    var g := r / 1461;
    var s := r % 1461;
    YearOfEraSplit(doe, c, g, s);
    var b := if s < 1460 then s / 365 else 3;
    YearsBefore(c, g, b);
  }

  lemma MonthOfYear(doy: int)
    requires 0 <= doy < 366
    ensures var mp := (5 * doy + 2) / 153; 0 <= mp <= 11 && FromMarch(mp) <= doy < FromMarch(mp + 1)
  {
  }

  /** The date is one of the calendar, and its day number is the one given. */
  lemma CivilRight(days: int)
    ensures Valid(Civil(days)) && DayNumber(Civil(days)) == days
  {
    var z := days + 719_468;
    var era := z / 146_097;
    var doe := z - era * 146_097;
    YearOfEraRight(doe);
    var yoe := YearOfEra(doe);
    var doy := doe - EraDays(yoe);
    MonthOfYear(doy);
    MarchYear(era, yoe);
    var x := Civil(days);
    hide YearOfEra, DayNumber, Valid;
    if x.month <= 2 {
      CivilSpring(x, yoe + era * 400, doy);
    } else {
      CivilRest(x, yoe + era * 400, doy);
    }
  }

  lemma MarchYear(era: int, yoe: int)
    requires 0 <= yoe < 400
    ensures Leaps(yoe + era * 400) == 97 * era + yoe / 4 - yoe / 100
    ensures Leap(yoe + era * 400 + 1) <==> EraYearLength(yoe) == 366
  {
    SameRemainders(era, yoe);
    SameRemainders(era, yoe + 1);
  }

  /** Whole eras do not change where a year stands among the leap years. */
  lemma SameRemainders(era: int, n: nat)
    requires n <= 400
    ensures (n + era * 400) / 4 == n / 4 + 100 * era && (n + era * 400) % 4 == n % 4
    ensures (n + era * 400) / 100 == n / 100 + 4 * era && (n + era * 400) % 100 == n % 100
    ensures (n + era * 400) / 400 == n / 400 + era && (n + era * 400) % 400 == n % 400
  {
  }

  lemma CivilSpring(x: Date, march: int, doy: int)
    requires x.year == march + 1 && 1 <= x.month <= 2 && x.day == doy - FromMarch(x.month + 9) + 1
    requires FromMarch(x.month + 9) <= doy < FromMarch(x.month + 10) && doy < if Leap(march + 1) then 366 else 365
    ensures Valid(x) && DayNumber(x) == 365 * march + Leaps(march) + 59 + doy - 719_527
  {
    MonthStarts(x.year, x.month);
  }

  lemma CivilRest(x: Date, march: int, doy: int)
    requires x.year == march && 3 <= x.month <= 12 && x.day == doy - FromMarch(x.month - 3) + 1
    requires FromMarch(x.month - 3) <= doy < FromMarch(x.month - 2)
    ensures Valid(x) && DayNumber(x) == 365 * march + Leaps(march) + 59 + doy - 719_527
  {
    MonthStarts(x.year, x.month);
    LeapStep(march);
  }

  /** Every date is reached. */
  lemma CivilInverse(x: Date)
    requires Valid(x)
    ensures Civil(DayNumber(x)) == x
  {
    CivilRight(DayNumber(x));
    DayNumberInjective(Civil(DayNumber(x)), x);
  }

  /** Day 0 is the first of January 1970 and each day is followed by the next. */
  lemma CivilNext(days: int)
    ensures Civil(0) == Date(1970, 1, 1)
    ensures Valid(Civil(days)) && Civil(days + 1) == Next(Civil(days))
  {
    hide Civil;
    assert DayNumber(Date(1970, 1, 1)) == 0;
    CivilInverse(Date(1970, 1, 1));
    CivilRight(days);
    hide DayNumber;
    NextIsOneMore(Civil(days));
    CivilInverse(Next(Civil(days)));
  }

  /** Four digits are enough for the year exactly from the first of January of
      the year 0 to the last of December 9999. */
  lemma FourDigits(days: int)
    ensures 0 <= Civil(days).year <= 9999 <==> -719_528 <= days <= 2_932_896
  {
    CivilRight(days);
    var y := Civil(days).year;
    WithinYear(Civil(days));
    if y < 0 { YearsGrow(y + 1, 0); } else { YearsGrow(0, y); }
    if y > 9999 { YearsGrow(10_000, y); } else { YearsGrow(y + 1, 10_000); }
  }

  // ---------------------------------------------------------------- the time of day

  function DayOf(seconds: int): int { seconds / 86_400 }

  function TimeOf(seconds: int): Time {
    var rem := seconds % 86_400;
    Time(rem / 3600, rem % 3600 / 60, rem % 60)
  }

  /** The fields are those of a clock, and with the day they give the seconds back. */
  lemma TimeRight(seconds: int)
    ensures var t := TimeOf(seconds); 0 <= t.hour < 24 && 0 <= t.minute < 60 && 0 <= t.second < 60
    ensures var t := TimeOf(seconds); 86_400 * DayOf(seconds) + 3600 * t.hour + 60 * t.minute + t.second == seconds
  {
  }
}
