/** Conversion between day numbers and proleptic Gregorian dates, and between Unix seconds and broken-down
    time.  Division in the source truncates toward zero; `Quot` and `Rem` are that division.  Day and year
    numbers are unbounded here; the narrowing of the year to 32 bits is written out in `FromUnix`. */
module Calendar {
  import opened Bits

  // ----- division as in C -----

  function Quot(a: int, b: int): int
    requires b > 0
  {
    if a >= 0 then a / b else -((-a) / b)
  }

  function Rem(a: int, b: int): int
    requires b > 0
  {
    a - Quot(a, b) * b
  }

  // ----- the calendar, independently of day numbers -----

  datatype Date = Date(year: int, month: int, day: int)

  predicate Leap(year: int) {
    (year % 4 == 0 && year % 100 != 0) || year % 400 == 0
  }

  function DaysInMonth(year: int, month: int): int {
    if month == 2 then (if Leap(year) then 29 else 28)
    else if month in {4, 6, 9, 11} then 30 else 31
  }

  predicate ValidDate(d: Date) {
    1 <= d.month <= 12 && 1 <= d.day <= DaysInMonth(d.year, d.month)
  }

  function NextDay(d: Date): Date {
    if d.day < DaysInMonth(d.year, d.month) then d.(day := d.day + 1)
    else if d.month < 12 then Date(d.year, d.month + 1, 1)
    else Date(d.year + 1, 1, 1)
  }

  // ----- the source's conversions -----

  // is_leap_year, with C's remainder.
  predicate IsLeapYear(year: int) {
    (Rem(year, 4) == 0 && Rem(year, 100) != 0) || Rem(year, 400) == 0
  }

  function EraOfDays(days: int): int { Quot(if days >= 0 then days else days - 146096, 146097) }

  function EraOfYear(y: int): int { Quot(if y >= 0 then y else y - 399, 400) }

  function YearOfEra(doe: int): int { (doe - doe / 1460 + doe / 36524 - doe / 146096) / 365 }

  // Days of an era before its year yoe, which begins in March.
  function YearStart(yoe: int): int { 365 * yoe + yoe / 4 - yoe / 100 }

  // Days of a year before its month mp, counted from March.
  function MonthStart(mp: int): int { (153 * mp + 2) / 5 }

  function DayOfEra(days: int): int { days - EraOfDays(days) * 146097 }

  function DaysToDate(n: int): Date { DayOfEraToDate(EraOfDays(n + 719468), DayOfEra(n + 719468)) }

  function DayOfEraToDate(era: int, doe: int): Date {
    var yoe := YearOfEra(doe);
    DayOfYearToDate(yoe + era * 400, doe - YearStart(yoe))
  }

  function DayOfYearToDate(y: int, doy: int): Date {
    var mp := (5 * doy + 2) / 153;
    var d := doy - MonthStart(mp) + 1;
    var m := mp + if mp < 10 then 3 else -9;
    Date(y + if m <= 2 then 1 else 0, m, d)
  }

  function DateToDays(d: Date): int {
    var y := if d.month <= 2 then d.year - 1 else d.year;
    var m := if d.month <= 2 then d.month + 9 else d.month - 3;
    var era := EraOfYear(y);
    var yoe := y - era * 400;
    var doy := MonthStart(m) + d.day - 1;
    var doe := yoe * 365 + yoe / 4 - yoe / 100 + doy;
    era * 146097 + doe - 719468
  }

  // ----- one era, one year -----

  // The year beginning in March that is number yoe of its era has 366 days exactly when it ends in a leap February.
  predicate LongYear(yoe: int) {
    (yoe % 4 == 3 && yoe % 100 != 99) || yoe == 399
  }

  function YearLength(yoe: int): int { if LongYear(yoe) then 366 else 365 }

  // A year of the era as c centuries, q groups of four years and r years.
  lemma YearParts(c: int, q: int, r: int)
    requires 0 <= c < 4 && 0 <= q < 25 && 0 <= r < 4
    ensures var yoe := 100 * c + 4 * q + r;
      && YearStart(yoe) == 36524 * c + 1461 * q + 365 * r
      && (LongYear(yoe) <==> r == 3 && (q < 24 || c == 3))
  {
    var yoe := 100 * c + 4 * q + r;
    assert yoe / 4 == 25 * c + q && yoe / 100 == c;
  }

  lemma YearOfParts(c: int, q: int, r: int, doy: int)
    requires 0 <= c < 4 && 0 <= q < 25 && 0 <= r < 4
    requires 0 <= doy < (if r == 3 && (q < 24 || c == 3) then 366 else 365)
    ensures YearOfEra(36524 * c + 1461 * q + 365 * r + doy) == 100 * c + 4 * q + r
  {
    var doe := 36524 * c + 1461 * q + 365 * r + doy;
    var w := 24 * c + q + 365 * r + doy;
    var e := if w >= 1460 then 1 else 0;
    assert doe / 1460 == 25 * c + q + e by { assert doe == 1460 * (25 * c + q) + w; }
    var last := if doe == 146096 then 1 else 0;
    assert doe / 36524 == c + last && doe / 146096 == last;
    assert doe - doe / 1460 + doe / 36524 - doe / 146096 == 365 * (100 * c + 4 * q + r) + (doy - e);
  }

  lemma YearOfEraExact(yoe: int, doy: int)
    requires 0 <= yoe < 400 && 0 <= doy < YearLength(yoe)
    ensures 0 <= YearStart(yoe) + doy < 146097 && YearOfEra(YearStart(yoe) + doy) == yoe
  {
    var c := yoe / 100;
    var q := (yoe - 100 * c) / 4;
    var r := yoe - 100 * c - 4 * q;
    YearParts(c, q, r);
    YearOfParts(c, q, r, doy);
  }

  lemma YearOfEraFits(doe: int)
    requires 0 <= doe < 146097
    ensures 0 <= YearOfEra(doe) < 400 && 0 <= doe - YearStart(YearOfEra(doe)) < YearLength(YearOfEra(doe))
  {
    var c := if doe < 146096 then doe / 36524 else 3;
    var q := (doe - 36524 * c) / 1461;
    var rest := doe - 36524 * c - 1461 * q;
    var r := if rest < 1460 then rest / 365 else 3;
    YearParts(c, q, r);
    YearOfParts(c, q, r, rest - 365 * r);
  }

  // The length of month mp counted from March; February, the last, as in a long year.
  function MonthLength(mp: int): int { if mp == 11 then 29 else MonthStart(mp + 1) - MonthStart(mp) }

  lemma MonthExact(mp: int, k: int)
    requires 0 <= mp < 12 && 0 <= k < MonthLength(mp)
    ensures (5 * (MonthStart(mp) + k) + 2) / 153 == mp
  {
  }

  lemma MonthFits(doy: int)
    requires 0 <= doy < 366
    ensures var mp := (5 * doy + 2) / 153; 0 <= mp < 12 && 0 <= doy - MonthStart(mp) < MonthLength(mp)
  {
  }

  // ----- a day as era, year of era, month from March and day of month from 0 -----

  predicate Parts(yoe: int, mp: int, k: int) {
    0 <= yoe < 400 && 0 <= mp < 12 && 0 <= k < MonthLength(mp) && MonthStart(mp) + k < YearLength(yoe)
  }

  function DayOf(era: int, yoe: int, mp: int, k: int): int {
    era * 146097 + YearStart(yoe) + MonthStart(mp) + k - 719468
  }

  function DateOf(era: int, yoe: int, mp: int, k: int): Date {
    Date(yoe + era * 400 + (if mp < 10 then 0 else 1), if mp < 10 then mp + 3 else mp - 9, k + 1)
  }

  lemma EraExact(era: int, doe: int, yoe: int)
    requires 0 <= doe < 146097 && 0 <= yoe < 400
    ensures EraOfDays(era * 146097 + doe) == era && EraOfYear(yoe + era * 400) == era
  {
  }

  lemma DateInYear(y: int, mp: int, k: int)
    requires 0 <= mp < 12 && 0 <= k < MonthLength(mp)
    ensures DayOfYearToDate(y, MonthStart(mp) + k)
         == Date(y + (if mp < 10 then 0 else 1), if mp < 10 then mp + 3 else mp - 9, k + 1)
  {
    MonthExact(mp, k);
  }

  lemma DateInEra(era: int, yoe: int, mp: int, k: int)
    requires Parts(yoe, mp, k)
    ensures DayOfEraToDate(era, YearStart(yoe) + MonthStart(mp) + k) == DateOf(era, yoe, mp, k)
  {
    YearOfEraExact(yoe, MonthStart(mp) + k);
    DateInYear(yoe + era * 400, mp, k);
  }

  lemma EraParts(days: int, era: int, doe: int)
    requires 0 <= doe < 146097 && days == era * 146097 + doe
    ensures EraOfDays(days) == era && DayOfEra(days) == doe
  {
    EraExact(era, doe, 0);
  }

  lemma DateOfParts(era: int, yoe: int, mp: int, k: int)
    requires Parts(yoe, mp, k)
    ensures DaysToDate(DayOf(era, yoe, mp, k)) == DateOf(era, yoe, mp, k)
  {
    var n, doe := DayOf(era, yoe, mp, k), YearStart(yoe) + MonthStart(mp) + k;
    YearOfEraExact(yoe, MonthStart(mp) + k);
    EraParts(n + 719468, era, doe);
    DateInEra(era, yoe, mp, k);
  }

  lemma DayOfParts(era: int, yoe: int, mp: int, k: int)
    requires Parts(yoe, mp, k)
    ensures DateToDays(DateOf(era, yoe, mp, k)) == DayOf(era, yoe, mp, k)
  {
    EraExact(era, 0, yoe);
  }

  lemma PartsAgree(era: int, yoe: int, mp: int, k: int)
    requires Parts(yoe, mp, k)
    ensures DaysToDate(DayOf(era, yoe, mp, k)) == DateOf(era, yoe, mp, k)
    ensures DateToDays(DateOf(era, yoe, mp, k)) == DayOf(era, yoe, mp, k)
  {
    DateOfParts(era, yoe, mp, k);
    DayOfParts(era, yoe, mp, k);
  }

  lemma AddMultiple(y: int, q: int, m: nat)
    requires m > 0
    ensures (y + q * m) % m == y % m
  {
    assert y == m * (y / m) + y % m;
    Distribute(m, y / m, q);
    DivModUnique(y + q * m, m, y / m + q, y % m);
  }

  lemma Distribute(m: int, x: int, y: int)
    ensures m * (x + y) == m * x + y * m
  {
  }

  lemma LeapPeriod(y: int, era: int)
    ensures Leap(y + era * 400) <==> Leap(y)
  {
    AddMultiple(y, 100 * era, 4);
    AddMultiple(y, 4 * era, 100);
    AddMultiple(y, era, 400);
  }

  lemma LongYearLeap(yoe: int)
    requires 0 <= yoe < 400
    ensures Leap(yoe + 1) <==> LongYear(yoe)
  {
  }

  lemma LeapFebruary(era: int, yoe: int)
    requires 0 <= yoe < 400
    ensures Leap(yoe + era * 400 + 1) <==> LongYear(yoe)
  {
    LeapPeriod(yoe + 1, era);
    LongYearLeap(yoe);
  }

  lemma PartsValid(era: int, yoe: int, mp: int, k: int)
    requires 0 <= yoe < 400 && 0 <= mp < 12
    ensures Parts(yoe, mp, k) <==> ValidDate(DateOf(era, yoe, mp, k))
  {
    LeapFebruary(era, yoe);
  }

  lemma SplitDay(n: int) returns (era: int, yoe: int, mp: int, k: int)
    ensures Parts(yoe, mp, k) && n == DayOf(era, yoe, mp, k)
  {
    era := (n + 719468) / 146097;
    var doe := (n + 719468) % 146097;
    yoe := YearOfEra(doe);
    YearOfEraFits(doe);
    var doy := doe - YearStart(yoe);
    mp := (5 * doy + 2) / 153;
    MonthFits(doy);
    k := doy - MonthStart(mp);
  }

  lemma SplitDate(d: Date) returns (era: int, yoe: int, mp: int, k: int)
    requires ValidDate(d)
    ensures Parts(yoe, mp, k) && d == DateOf(era, yoe, mp, k)
  {
    mp := if d.month <= 2 then d.month + 9 else d.month - 3;
    var y := if d.month <= 2 then d.year - 1 else d.year;
    era, yoe, k := y / 400, y % 400, d.day - 1;
    assert d == DateOf(era, yoe, mp, k);
    PartsValid(era, yoe, mp, k);
  }

  // ----- the conversions are inverse to each other -----

  lemma DayRoundTrip(n: int)
    ensures ValidDate(DaysToDate(n)) && DateToDays(DaysToDate(n)) == n
  {
    var era, yoe, mp, k := SplitDay(n);
    PartsAgree(era, yoe, mp, k);
    PartsValid(era, yoe, mp, k);
  }

  lemma DateRoundTrip(d: Date)
    requires ValidDate(d)
    ensures DaysToDate(DateToDays(d)) == d
  {
    var era, yoe, mp, k := SplitDate(d);
    PartsAgree(era, yoe, mp, k);
  }

  // ----- the next day has the next number -----

  lemma YearStartStep(yoe: int)
    requires 0 <= yoe < 400
    ensures YearStart(yoe) + YearLength(yoe) == if yoe < 399 then YearStart(yoe + 1) else 146097
  {
    var c, q, r := yoe / 100, yoe % 100 / 4, yoe % 4;
    assert yoe == 100 * c + 4 * q + r;
    YearParts(c, q, r);
    if r < 3 {
      YearParts(c, q, r + 1);
    } else if q < 24 {
      YearParts(c, q + 1, 0);
    } else if c < 3 {
      YearParts(c + 1, 0, 0);
    }
  }

  // The parts of the next day.
  lemma NextParts(era: int, yoe: int, mp: int, k: int) returns (era': int, yoe': int, mp': int, k': int)
    requires Parts(yoe, mp, k)
    ensures Parts(yoe', mp', k')
    ensures DateOf(era', yoe', mp', k') == NextDay(DateOf(era, yoe, mp, k))
    ensures DayOf(era', yoe', mp', k') == DayOf(era, yoe, mp, k) + 1
  {
    PartsValid(era, yoe, mp, k);
    PartsValid(era, yoe, mp, k + 1);
    if Parts(yoe, mp, k + 1) {
      return era, yoe, mp, k + 1;
    } else if mp < 11 {
      return era, yoe, mp + 1, 0;
    } else {
      YearStartStep(yoe);
      if yoe < 399 { return era, yoe + 1, 0, 0; }
      return era + 1, 0, 0, 0;
    }
  }

  lemma NextDayIsNext(d: Date)
    requires ValidDate(d)
    ensures ValidDate(NextDay(d)) && DateToDays(NextDay(d)) == DateToDays(d) + 1
  {
    var era, yoe, mp, k := SplitDate(d);
    PartsAgree(era, yoe, mp, k);
    var era', yoe', mp', k' := NextParts(era, yoe, mp, k);
    PartsAgree(era', yoe', mp', k');
    PartsValid(era', yoe', mp', k');
  }

  lemma DateOfDay(n: int, d: Date)
    requires ValidDate(d) && DateToDays(d) == n
    ensures DaysToDate(n) == d
  {
    DateRoundTrip(d);
  }

  // The date of day n + 1 is the calendar's successor of day n's.
  lemma DaysSucceed(n: int)
    ensures DaysToDate(n + 1) == NextDay(DaysToDate(n))
  {
    var d := DaysToDate(n);
    DayRoundTrip(n);
    NextDayIsNext(d);
    DateOfDay(n + 1, NextDay(d));
  }

  lemma Epoch()
    ensures DaysToDate(0) == Date(1970, 1, 1)
  {
  }

  // ----- day of the year -----

  const CUMULATIVE_DAYS: seq<int> := [0, 31, 59, 90, 120, 151, 181, 212, 243, 273, 304, 334]

  function ComputeDayOfYear(d: Date): int
    requires 1 <= d.month <= 12
  {
    CUMULATIVE_DAYS[d.month - 1] + d.day - 1 + if d.month > 2 && IsLeapYear(d.year) then 1 else 0
  }

  lemma NegatedMultiple(year: int, m: int, q: int, r: int)
    requires 0 <= r < m && -year == m * q + r
    ensures year - (-q) * m == -r && year % m == if r == 0 then 0 else m - r
  {
    assert (-q) * m == -(m * q) && m * (-q) == -(m * q) && m * (-q - 1) == -(m * q) - m;
    if r == 0 { DivModUnique(year, m, -q, 0); } else { DivModUnique(year, m, -q - 1, m - r); }
  }

  // The truncated remainder is the floored one, or that less the divisor.
  lemma RemFloor(n: int, m: int)
    requires m > 0
    ensures if n >= 0 || n % m == 0 then Rem(n, m) == n % m else Rem(n, m) == n % m - m
  {
    if n >= 0 {
      assert n == m * (n / m) + n % m;
    } else {
      var q, r := (-n) / m, (-n) % m;
      assert -n == m * q + r;
      NegatedMultiple(n, m, q, r);
    }
  }

  lemma IsLeapYearExact(year: int)
    ensures IsLeapYear(year) <==> Leap(year)
  {
    RemFloor(year, 4);
    RemFloor(year, 100);
    RemFloor(year, 400);
  }

  // The number of the first day of the year that begins in March of year y.
  function MarchFirst(y: int): int { y / 400 * 146097 + YearStart(y % 400) - 719468 }

  lemma MarchStep(y: int)
    ensures MarchFirst(y + 1) == MarchFirst(y) + if Leap(y + 1) then 366 else 365
  {
    var era, yoe := y / 400, y % 400;
    YearStartStep(yoe);
    LeapFebruary(era, yoe);
    if yoe < 399 {
      assert (y + 1) / 400 == era && (y + 1) % 400 == yoe + 1;
    } else {
      assert (y + 1) / 400 == era + 1 && (y + 1) % 400 == 0;
    }
  }

  lemma FromMarch(d: Date)
    ensures d.month <= 2 ==> DateToDays(d) == MarchFirst(d.year - 1) + MonthStart(d.month + 9) + d.day - 1
    ensures d.month > 2 ==> DateToDays(d) == MarchFirst(d.year) + MonthStart(d.month - 3) + d.day - 1
  {
    var y := if d.month <= 2 then d.year - 1 else d.year;
    EraExact(y / 400, 0, y % 400);
  }

  lemma DayOfYearIsDistance(d: Date)
    requires 1 <= d.month <= 12
    ensures ComputeDayOfYear(d) == DateToDays(d) - DateToDays(Date(d.year, 1, 1))
  {
    IsLeapYearExact(d.year);
    FromMarch(d);
    FromMarch(Date(d.year, 1, 1));
    MarchStep(d.year - 1);
    assert MonthStart(10) == 306;
    assert d.month > 2 ==> CUMULATIVE_DAYS[d.month - 1] == MonthStart(d.month - 3) + 59;
  }

  lemma DayOfYearBound(d: Date)
    requires ValidDate(d)
    ensures 0 <= ComputeDayOfYear(d) < if Leap(d.year) then 366 else 365
  {
    IsLeapYearExact(d.year);
  }

  lemma {:induction false} JanuaryFirsts(y: int, y': int)
    requires y < y'
    ensures DateToDays(Date(y, 1, 1)) + (if Leap(y) then 366 else 365) <= DateToDays(Date(y', 1, 1))
    decreases y' - y
  {
    FromMarch(Date(y' - 1, 1, 1));
    FromMarch(Date(y', 1, 1));
    MarchStep(y' - 2);
    if y < y' - 1 { JanuaryFirsts(y, y' - 1); }
  }

  // An earlier date has a smaller day number.
  lemma EarlierDate(d: Date, e: Date)
    requires ValidDate(d) && ValidDate(e)
    requires d.year < e.year || (d.year == e.year && (d.month < e.month || (d.month == e.month && d.day < e.day)))
    ensures DateToDays(d) < DateToDays(e)
  {
    DayOfYearIsDistance(d);
    DayOfYearIsDistance(e);
    DayOfYearBound(d);
    DayOfYearBound(e);
    if d.year < e.year {
      JanuaryFirsts(d.year, e.year);
    } else {
      DayOfYearGrows(d, e);
    }
  }

  lemma DayOfYearGrows(d: Date, e: Date)
    requires ValidDate(d) && ValidDate(e) && d.year == e.year
    requires d.month < e.month || (d.month == e.month && d.day < e.day)
    ensures ComputeDayOfYear(d) < ComputeDayOfYear(e)
  {
    IsLeapYearExact(d.year);
  }

  // ----- Unix time -----

  datatype DateTime = DateTime(year: int, month: int, day: int, hour: int, minute: int, second: int,
                               dayOfWeek: int, dayOfYear: int)

  predicate IsInt32(x: int) { -0x8000_0000 <= x < 0x8000_0000 }

  // The value of x after a conversion to a signed 32-bit integer.
  function Int32(x: int): int { (x + 0x8000_0000) % 0x1_0000_0000 - 0x8000_0000 }

  function DayNumber(s: int): int {
    if Rem(s, 86400) < 0 then Quot(s, 86400) - 1 else Quot(s, 86400)
  }

  function SecondOfDay(s: int): int {
    if Rem(s, 86400) < 0 then Rem(s, 86400) + 86400 else Rem(s, 86400)
  }

  function DayOfWeek(days: int): int {
    var dow := Rem(Rem(days, 7) + 4, 7);
    if dow < 0 then dow + 7 else dow
  }

  function Broken(date: Date, rem: int, dow: int): DateTime
    requires 1 <= date.month <= 12
  {
    var year := Int32(date.year);
    DateTime(year, date.month, date.day, rem / 3600, rem % 3600 / 60, rem % 60,
             dow, ComputeDayOfYear(date.(year := year)))
  }

  function FromUnix(s: int): DateTime {
    DayRoundTrip(DayNumber(s));
    Broken(DaysToDate(DayNumber(s)), SecondOfDay(s), DayOfWeek(DayNumber(s)))
  }

  function ToUnix(dt: DateTime): int {
    DateToDays(Date(dt.year, dt.month, dt.day)) * 86400 + dt.hour * 3600 + dt.minute * 60 + dt.second
  }

  predicate ValidTime(dt: DateTime) {
    0 <= dt.hour < 24 && 0 <= dt.minute < 60 && 0 <= dt.second < 60
  }

  // Days and seconds are those of floored division, before 1970 too.
  lemma UnixDay(s: int)
    ensures DayNumber(s) == s / 86400 && SecondOfDay(s) == s % 86400
  {
  }

  // The epoch was a Thursday, and weekdays follow each other.
  lemma WeekdayExact(n: int)
    ensures DayOfWeek(n) == (n + 4) % 7
  {
    var q, r := n / 7, n % 7;
    assert n == 7 * q + r;
    RemFloor(n, 7);
    DivModUnique(n + 4, 7, if r < 3 then q else q + 1, if r < 3 then r + 4 else r - 3);
  }

  lemma BrokenFields(date: Date, rem: int, dow: int)
    requires ValidDate(date) && 0 <= rem < 86400
    ensures var dt := Broken(date, rem, dow);
      && ValidTime(dt) && dt.hour * 3600 + dt.minute * 60 + dt.second == rem
      && dt.month == date.month && dt.day == date.day && IsInt32(dt.year)
      && (IsInt32(date.year) ==> dt.year == date.year && dt.dayOfYear == ComputeDayOfYear(date))
  {
    assert IsInt32(date.year) ==> Int32(date.year) == date.year;
  }

  lemma {:induction false} MarchGrows(y: int, y': int)
    requires y < y'
    ensures MarchFirst(y) < MarchFirst(y')
    decreases y' - y
  {
    MarchStep(y' - 1);
    if y < y' - 1 { MarchGrows(y, y' - 1); }
  }

  lemma YearMatters(d: Date, year: int)
    requires year != d.year
    ensures DateToDays(d.(year := year)) != DateToDays(d)
  {
    FromMarch(d);
    FromMarch(d.(year := year));
    var y, y' := if d.month <= 2 then d.year - 1 else d.year, if d.month <= 2 then year - 1 else year;
    if y < y' { MarchGrows(y, y'); } else { MarchGrows(y', y); }
  }

  // What lc_time_from_unix computes, in terms of the day and the second of the day that s falls on.
  lemma FromUnixFields(s: int)
    ensures var dt, date := FromUnix(s), DaysToDate(s / 86400);
      && ValidDate(date) && DateToDays(date) == s / 86400
      && ValidTime(dt) && dt.hour * 3600 + dt.minute * 60 + dt.second == s % 86400
      && dt.month == date.month && dt.day == date.day && IsInt32(dt.year)
      && dt.dayOfWeek == (s / 86400 + 4) % 7
      && (IsInt32(date.year) ==> dt.year == date.year && dt.dayOfYear == s / 86400 - DateToDays(Date(date.year, 1, 1)))
  {
    var n := s / 86400;
    var date := DaysToDate(n);
    DayRoundTrip(n);
    UnixDay(s);
    WeekdayExact(n);
    BrokenFields(date, s % 86400, DayOfWeek(n));
    DayOfYearIsDistance(date);
  }

  // ----- round trips of Unix time -----

  lemma YearRange(n: int, y: int)
    ensures DaysToDate(n).year >= y <==> n >= DateToDays(Date(y, 1, 1))
  {
    var d, first := DaysToDate(n), Date(y, 1, 1);
    DayRoundTrip(n);
    if d.year < y {
      EarlierDate(d, first);
    } else if d != first {
      EarlierDate(first, d);
    }
  }

  // The days of the years that a 32-bit integer can hold.
  lemma Int32Years()
    ensures DateToDays(Date(-0x8000_0000, 1, 1)) == -784353015833
    ensures DateToDays(Date(0x8000_0000, 1, 1)) == 784351576777
  {
    JanuaryFirstOf(-5368710, 351);
    JanuaryFirstOf(5368709, 47);
  }

  lemma JanuaryFirstOf(era: int, yoe: int)
    requires 0 <= yoe < 400
    ensures DateToDays(Date(yoe + era * 400 + 1, 1, 1)) == era * 146097 + YearStart(yoe) + 306 - 719468
  {
    assert MonthStart(10) == 306;
    DayOfParts(era, yoe, 10, 0);
  }

  const FIRST_SECOND := -67768100567971200
  const END_SECOND := 67767976233532800

  predicate YearFits(s: int) { FIRST_SECOND <= s < END_SECOND }

  lemma YearFitsExact(s: int)
    ensures YearFits(s) <==> IsInt32(DaysToDate(s / 86400).year)
  {
    var n := s / 86400;
    YearRange(n, -0x8000_0000);
    YearRange(n, 0x8000_0000);
    Int32Years();
    SecondRange(s);
  }

  lemma SecondRange(s: int)
    ensures YearFits(s) <==> -784353015833 <= s / 86400 < 784351576777
  {
  }

  lemma SecondsAdd(days: int, inDay: int)
    requires 0 <= inDay < 86400
    ensures (days * 86400 + inDay) / 86400 == days && (days * 86400 + inDay) % 86400 == inDay
  {
    DivModUnique(days * 86400 + inDay, 86400, days, inDay);
  }

  lemma SecondsOf(s: int, dt: DateTime, days: int)
    requires ToUnix(dt) == days * 86400 + s % 86400
    ensures ToUnix(dt) == s <==> days == s / 86400
  {
    assert s == (s / 86400) * 86400 + s % 86400;
  }

  // Converting a second to broken-down time and back gives it again exactly when its year fits its field.
  lemma UnixRoundTrip(s: int)
    ensures ToUnix(FromUnix(s)) == s <==> YearFits(s)
  {
    var date, dt := DaysToDate(s / 86400), FromUnix(s);
    FromUnixFields(s);
    YearFitsExact(s);
    SecondsOf(s, dt, DateToDays(Date(dt.year, dt.month, dt.day)));
    assert Date(dt.year, dt.month, dt.day) == date.(year := dt.year);
    if dt.year != date.year { YearMatters(date, dt.year); }
  }

  // The first second of the year 2^31 comes back as a second of the year -2^31.
  lemma UnixRoundTripFails()
    ensures ToUnix(FromUnix(END_SECOND)) != END_SECOND
  {
    UnixRoundTrip(END_SECOND);
  }

  // Hour, minute and second are determined by the second of the day.
  lemma ClockUnique(h: int, m: int, s: int, h': int, m': int, s': int)
    requires 0 <= m < 60 && 0 <= s < 60 && 0 <= m' < 60 && 0 <= s' < 60
    requires h * 3600 + m * 60 + s == h' * 3600 + m' * 60 + s'
    ensures h == h' && m == m' && s == s'
  {
  }

  // The second of a valid time falls on its date.
  lemma UnixOfValid(dt: DateTime, d: Date)
    requires d == Date(dt.year, dt.month, dt.day) && ValidDate(d) && ValidTime(dt)
    ensures DaysToDate(ToUnix(dt) / 86400) == d
    ensures ToUnix(dt) % 86400 == dt.hour * 3600 + dt.minute * 60 + dt.second
  {
    var days, inDay := DateToDays(d), dt.hour * 3600 + dt.minute * 60 + dt.second;
    DateRoundTrip(d);
    SecondsAdd(days, inDay);
    assert ToUnix(dt) == days * 86400 + inDay;
  }

  lemma TimeRoundTrip(dt: DateTime)
    requires ValidDate(Date(dt.year, dt.month, dt.day)) && ValidTime(dt) && IsInt32(dt.year)
    ensures var r := FromUnix(ToUnix(dt)); r.(dayOfWeek := dt.dayOfWeek, dayOfYear := dt.dayOfYear) == dt
  {
    var d, s := Date(dt.year, dt.month, dt.day), ToUnix(dt);
    UnixOfValid(dt, d);
    FromUnixFields(s);
    SameFields(FromUnix(s), dt, s % 86400);
  }

  lemma SameFields(r: DateTime, dt: DateTime, inDay: int)
    requires ValidTime(r) && ValidTime(dt) && r.hour * 3600 + r.minute * 60 + r.second == inDay
    requires dt.hour * 3600 + dt.minute * 60 + dt.second == inDay
    requires r.year == dt.year && r.month == dt.month && r.day == dt.day
    ensures r.(dayOfWeek := dt.dayOfWeek, dayOfYear := dt.dayOfYear) == dt
  {
    ClockUnique(r.hour, r.minute, r.second, dt.hour, dt.minute, dt.second);
  }
}
