/** The calendar date of a day count, as the benchmark stamps its results, against the Gregorian
    calendar. */
module CivilDate {

  datatype Date = Date(year: int, month: int, day: int)

  // ---- the calendar

  predicate IsLeap(y: int) {
    y % 4 == 0 && (y % 100 != 0 || y % 400 == 0)
  }

  function LeapDay(y: int): (n: int)
    ensures 0 <= n <= 1
  {
    if IsLeap(y) then 1 else 0
  }

  function MonthLength(y: int, m: int): int
    requires 1 <= m <= 12
  {
    if m == 2 then 28 + LeapDay(y)
    else if m == 4 || m == 6 || m == 9 || m == 11 then 30
    else 31
  }

  predicate Valid(date: Date) {
    1 <= date.month <= 12 && 1 <= date.day <= MonthLength(date.year, date.month)
  }

  /** The day after. */
  function Next(date: Date): Date
    requires Valid(date)
  {
    if date.day < MonthLength(date.year, date.month) then date.(day := date.day + 1)
    else if date.month < 12 then Date(date.year, date.month + 1, 1)
    else Date(date.year + 1, 1, 1)
  }

  function DaysBeforeMonth(y: int, m: int): int
    requires 1 <= m <= 12
  {
    if m == 1 then 0 else DaysBeforeMonth(y, m - 1) + MonthLength(y, m - 1)
  }

  /** Days from 1 January of year 1 to 1 January of `y`. */
  function DaysBeforeYear(y: int): int {
    365 * (y - 1) + (y - 1) / 4 - (y - 1) / 100 + (y - 1) / 400
  }

  /** Days since 1 January 1970. */
  function DayNumber(date: Date): int
    requires Valid(date)
  {
    DaysBeforeYear(date.year) + DaysBeforeMonth(date.year, date.month) + date.day - 1 - 719162
  }

  // ---- the algorithm

  /** Division as the machine does it, towards zero. */
  function Truncate(a: int, b: int): int
    requires b > 0
  {
    if a >= 0 then a / b else -((-a) / b)
  }

  function YearOfEra(doe: nat): nat {
    var n := doe - doe / 1460 + doe / 36524 - doe / 146096;
    assert n >= 0;
    n / 365
  }

  function MonthIndex(doy: int): int {
    (5 * doy + 2) / 153
  }

  function MonthStart(mp: int): int {
    (153 * mp + 2) / 5
  }

  function Era(z: int): int {
    Truncate(if z >= 0 then z else z - 146096, 146097)
  }

  function Civil(days: int): Date {
    var z := days + 719468;
    var era := Era(z);
    EraIsFloor(z);
    var doe := z - era * 146097;
    var yoe := YearOfEra(doe);
    var y := yoe + era * 400;
    var doy := doe - (365 * yoe + yoe / 4 - yoe / 100);
    FromMarch(y, doy)
  }

  /** Day `doy` of the year that starts on 1 March of `y`. */
  function FromMarch(y: int, doy: int): Date {
    var mp := MonthIndex(doy);
    var d := doy - MonthStart(mp) + 1;
    var m := if mp < 10 then mp + 3 else mp - 9;
    Date(if m <= 2 then y + 1 else y, m, d)
  }

  lemma EraIsFloor(z: int)
    ensures 0 <= z - Era(z) * 146097 < 146097
  {
  }

  // ---- the calendar is what the leap rule says

  lemma YearStep(y: int)
    ensures DaysBeforeYear(y + 1) == DaysBeforeYear(y) + 365 + LeapDay(y)
  {
    assert y / 4 == (y - 1) / 4 + if y % 4 == 0 then 1 else 0;
    assert y / 100 == (y - 1) / 100 + if y % 100 == 0 then 1 else 0;
    assert y / 400 == (y - 1) / 400 + if y % 400 == 0 then 1 else 0;
    LeapParts(y);
  }

  lemma LeapParts(y: int)
    ensures y % 400 == 0 ==> y % 100 == 0
    ensures y % 100 == 0 ==> y % 4 == 0
  {
    if y % 400 == 0 {
      Hundreds(4 * (y / 400));
    }
    if y % 100 == 0 {
      Fours(25 * (y / 100));
    }
  }

  lemma Hundreds(q: int)
    ensures (100 * q) % 100 == 0
  {
  }

  lemma Fours(q: int)
    ensures (4 * q) % 4 == 0
  {
  }

  lemma MonthTable(y: int)
    ensures DaysBeforeMonth(y, 1) == 0 && DaysBeforeMonth(y, 2) == 31
    ensures DaysBeforeMonth(y, 3) == 59 + LeapDay(y) && DaysBeforeMonth(y, 4) == 90 + LeapDay(y)
    ensures DaysBeforeMonth(y, 5) == 120 + LeapDay(y) && DaysBeforeMonth(y, 6) == 151 + LeapDay(y)
    ensures DaysBeforeMonth(y, 7) == 181 + LeapDay(y) && DaysBeforeMonth(y, 8) == 212 + LeapDay(y)
    ensures DaysBeforeMonth(y, 9) == 243 + LeapDay(y) && DaysBeforeMonth(y, 10) == 273 + LeapDay(y)
    ensures DaysBeforeMonth(y, 11) == 304 + LeapDay(y) && DaysBeforeMonth(y, 12) == 334 + LeapDay(y)
  {
    assert DaysBeforeMonth(y, 2) == 31;
    assert DaysBeforeMonth(y, 3) == 59 + LeapDay(y);
    assert DaysBeforeMonth(y, 4) == 90 + LeapDay(y);
    assert DaysBeforeMonth(y, 5) == 120 + LeapDay(y);
    assert DaysBeforeMonth(y, 6) == 151 + LeapDay(y);
    assert DaysBeforeMonth(y, 7) == 181 + LeapDay(y);
    assert DaysBeforeMonth(y, 8) == 212 + LeapDay(y);
    assert DaysBeforeMonth(y, 9) == 243 + LeapDay(y);
    assert DaysBeforeMonth(y, 10) == 273 + LeapDay(y);
    assert DaysBeforeMonth(y, 11) == 304 + LeapDay(y);
  }

  lemma EpochIsZero()
    ensures DayNumber(Date(1970, 1, 1)) == 0
  {
    assert DaysBeforeYear(1970) == 719162;
  }

  /** Day numbers count days: they start at 1 January 1970 and go up by one from each date to the next. */
  lemma DayNumberCounts(date: Date)
    requires Valid(date)
    ensures DayNumber(Date(1970, 1, 1)) == 0
    ensures Valid(Next(date)) && DayNumber(Next(date)) == DayNumber(date) + 1
  {
    hide LeapDay, DaysBeforeYear, DaysBeforeMonth;
    EpochIsZero();
    MonthTable(date.year);
    MonthTable(date.year + 1);
    YearStep(date.year);
  }

  // ---- the algorithm is right

  /** Days of the era before its year `yoe`, years counted from March. */
  function DaysBeforeYearOfEra(yoe: nat): nat {
    365 * yoe + yoe / 4 - yoe / 100
  }

  /** A day of the era as century `c`, four-year group `k`, year `j` of it and day `r` of that year. The
      last day of a year of 366 days belongs to the last year of a group, and of a century only to the
      last century. */
  predicate Placed(doe: int, c: int, k: int, j: int, r: int) {
    && 0 <= c < 4 && 0 <= k < 25 && 0 <= j < 4 && 0 <= r <= 365
    && (r == 365 ==> j == 3 && (k == 24 ==> c == 3))
    && doe == 36524 * c + 1461 * k + 365 * j + r
  }

  lemma Place(doe: int) returns (c: int, k: int, j: int, r: int)
    requires 0 <= doe < 146097
    ensures Placed(doe, c, k, j, r)
  {
    c := if doe / 36524 < 4 then doe / 36524 else 3;
    var rest := doe - 36524 * c;
    k := rest / 1461;
    var days := rest - 1461 * k;
    j := if days / 365 < 4 then days / 365 else 3;
    r := days - 365 * j;
  }

  lemma YearOfPlaced(doe: int, c: int, k: int, j: int, r: int)
    requires Placed(doe, c, k, j, r)
    ensures YearOfEra(doe) == 100 * c + 4 * k + j
    ensures 0 <= 100 * c + 4 * k + j < 400 && 0 <= r
    ensures DaysBeforeYearOfEra(100 * c + 4 * k + j) == doe - r
  {
    var yoe := 100 * c + 4 * k + j;
    assert doe / 36524 - doe / 146096 == c by {
      if doe == 146096 {
        assert c == 3;
      } else {
        assert 1461 * k + 365 * j + r < 36524;
        assert doe / 36524 == c && doe / 146096 == 0;
      }
    }
    var e := doe / 1460 - (25 * c + k);
    assert doe == 1460 * (25 * c + k) + (24 * c + k + 365 * j + r);
    assert e == if 24 * c + k + 365 * j + r >= 1460 then 1 else 0;
    assert doe - doe / 1460 + c == 365 * yoe + (r - e);
    assert 0 <= r - e < 365;
    assert (365 * yoe + (r - e)) / 365 == yoe;
    assert yoe / 4 == 25 * c + k;
    assert yoe / 100 == c;
  }

  lemma MonthOfDay(doy: int)
    requires 0 <= doy <= 365
    ensures var mp := MonthIndex(doy);
            && 0 <= mp <= 11
            && MonthStart(mp) <= doy
            && (mp < 11 ==> doy < MonthStart(mp + 1))
  {
  }

  lemma MonthStarts()
    ensures MonthStart(0) == 0 && MonthStart(1) == 31 && MonthStart(2) == 61 && MonthStart(3) == 92
    ensures MonthStart(4) == 122 && MonthStart(5) == 153 && MonthStart(6) == 184 && MonthStart(7) == 214
    ensures MonthStart(8) == 245 && MonthStart(9) == 275 && MonthStart(10) == 306 && MonthStart(11) == 337
  {
  }

  lemma MarchDate(y: int, doy: int)
    requires 0 <= doy < 365 + LeapDay(y + 1)
    ensures var date := FromMarch(y, doy);
            Valid(date) && DayNumber(date) == DaysBeforeYear(y + 1) - 306 + doy - 719162
  {
    MonthOfDay(doy);
    MonthStarts();
    MonthTable(y);
    MonthTable(y + 1);
    YearStep(y);
  }

  lemma EraOfYear(era: int, yoe: int)
    requires 0 <= yoe < 400
    ensures DaysBeforeYear(400 * era + yoe + 1) == 146097 * era + DaysBeforeYearOfEra(yoe)
  {
    var y := 400 * era + yoe;
    assert y / 4 == 100 * era + yoe / 4;
    assert y / 100 == 4 * era + yoe / 100;
    assert y / 400 == era;
  }

  lemma LongYears(era: int, doe: int, c: int, k: int, j: int, r: int)
    requires Placed(doe, c, k, j, r)
    ensures r < 365 + LeapDay(400 * era + 100 * c + 4 * k + j + 1)
  {
    var y := 400 * era + 100 * c + 4 * k + j + 1;
    if r == 365 {
      assert y == 4 * (100 * era + 25 * c + k + 1);
      assert y % 4 == 0;
      if k == 24 {
        assert y == 400 * (era + 1);
        assert y % 400 == 0;
      } else {
        assert y == 100 * (4 * era + c) + 4 * (k + 1);
        assert y % 100 == 4 * (k + 1);
      }
    }
  }

  /** Every day count gives a date that exists, and the one that many days from 1 January 1970. */
  lemma CivilIsExact(days: int)
    ensures Valid(Civil(days)) && DayNumber(Civil(days)) == days
  {
    hide Era, YearOfEra, FromMarch, Valid, DayNumber, DaysBeforeYear, LeapDay, Placed;
    var z := days + 719468;
    var era := Era(z);
    EraIsFloor(z);
    var doe := z - era * 146097;
    var c, k, j, r := Place(doe);
    YearOfPlaced(doe, c, k, j, r);
    var yoe := 100 * c + 4 * k + j;
    EraOfYear(era, yoe);
    LongYears(era, doe, c, k, j, r);
    assert Civil(days) == FromMarch(400 * era + yoe, r);
    MarchDate(400 * era + yoe, r);
  }

  lemma {:induction false} YearsGrow(y: int, z: int)
    requires y <= z
    ensures DaysBeforeYear(y) <= DaysBeforeYear(z)
    decreases z - y
  {
    if y < z {
      YearStep(y);
      YearsGrow(y + 1, z);
    }
  }

  predicate Earlier(a: Date, b: Date) {
    a.year < b.year || (a.year == b.year && (a.month < b.month || (a.month == b.month && a.day < b.day)))
  }

  /** Day numbers order dates. */
  lemma DayNumberOrders(a: Date, b: Date)
    requires Valid(a) && Valid(b) && Earlier(a, b)
    ensures DayNumber(a) < DayNumber(b)
  {
    hide LeapDay, DaysBeforeYear, DaysBeforeMonth;
    MonthTable(a.year);
    MonthTable(b.year);
    if a.year < b.year {
      YearStep(a.year);
      YearsGrow(a.year + 1, b.year);
    }
  }

  /** The algorithm inverts the day number, so it is one-to-one between day counts and dates. */
  lemma CivilInverts(date: Date)
    requires Valid(date)
    ensures Civil(DayNumber(date)) == date
  {
    hide Civil, DayNumber, Valid;
    var other := Civil(DayNumber(date));
    CivilIsExact(DayNumber(date));
    if Earlier(date, other) {
      DayNumberOrders(date, other);
    } else if Earlier(other, date) {
      DayNumberOrders(other, date);
    }
  }

  lemma DayZero()
    ensures Civil(0) == Date(1970, 1, 1)
  {
    hide Civil;
    DayNumberCounts(Date(1970, 1, 1));
    CivilInverts(Date(1970, 1, 1));
  }

  /** Day 0 is 1 January 1970, and each day's date is followed by the next date of the calendar. */
  lemma CivilFollowsCalendar(days: int)
    ensures Civil(0) == Date(1970, 1, 1)
    ensures Valid(Civil(days)) && Civil(days + 1) == Next(Civil(days))
  {
    hide Civil, Valid, DayNumber, Next;
    DayZero();
    CivilIsExact(days);
    DayNumberCounts(Civil(days));
    CivilInverts(Next(Civil(days)));
  }

  lemma CivilIsInjective(m: int, n: int)
    requires Civil(m) == Civil(n)
    ensures m == n
  {
    hide Civil, DayNumber, Valid;
    CivilIsExact(m);
    CivilIsExact(n);
  }
}
