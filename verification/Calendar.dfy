/** The Gregorian calendar, and the day numbers that count it. */
module Calendar {

  datatype Date = Date(y: int, m: int, d: int)

  predicate IsLeap(y: int) {
    y % 4 == 0 && (y % 100 != 0 || y % 400 == 0)
  }

  function DaysInMonth(y: int, m: int): int {
    if m == 2 then (if IsLeap(y) then 29 else 28)
    else if m == 4 || m == 6 || m == 9 || m == 11 then 30
    else 31
  }

  predicate ValidDate(t: Date) {
    1 <= t.m <= 12 && 1 <= t.d <= DaysInMonth(t.y, t.m)
  }

  /** The day after a date. */
  function NextDay(t: Date): Date {
    if t.d < DaysInMonth(t.y, t.m) then Date(t.y, t.m, t.d + 1)
    else if t.m < 12 then Date(t.y, t.m + 1, 1)
    else Date(t.y + 1, 1, 1)
  }

  // ---- years that begin in March ----

  /** Days from March 1 to the first day of the n-th month after March. */
  function MonthStart(n: int): int {
    (153 * n + 2) / 5
  }

  /** The day counted from March 1 of the year 4801 BC: q centuries, r years, doy days. */
  function Days(q: int, r: int, doy: int): int {
    36524 * q + q / 4 + 365 * r + r / 4 + doy
  }

  /** Whether the r-th year of century q, begun in March, ends on a February 29. */
  predicate LongYear(q: int, r: int) {
    if r == 99 then q % 4 == 3 else r % 4 == 3
  }

  predicate InYear(q: int, r: int, doy: int) {
    0 <= r < 100 && 0 <= doy <= (if LongYear(q, r) then 365 else 364)
  }

  function Century(a: int): int {
    (4 * a + 3) / 146097
  }

  function DayOfCentury(a: int): int {
    a - 36524 * Century(a) - Century(a) / 4
  }

  function YearOfCentury(a: int): int {
    (4 * DayOfCentury(a) + 3) / 1461
  }

  function DayOfYear(a: int): int {
    DayOfCentury(a) - 365 * YearOfCentury(a) - YearOfCentury(a) / 4
  }

  /** The calendar date of a day of a March year. */
  function MarchDate(q: int, r: int, doy: int): Date {
    var n := (5 * doy + 2) / 153;
    var m := if n < 10 then n + 3 else n - 9;
    Date(100 * q + r - 4800 + if m <= 2 then 1 else 0, m, doy - MonthStart(n) + 1)
  }

  const JULIAN_SHIFT := 32044

  /** The date of a Julian day number. */
  function FromDay(z: int): Date {
    var a := z + JULIAN_SHIFT;
    MarchDate(Century(a), YearOfCentury(a), DayOfYear(a))
  }

  /** The Julian day number of a date. */
  function DayNumber(t: Date): int {
    var y := t.y + 4800 - if t.m <= 2 then 1 else 0;
    var n := if t.m <= 2 then t.m + 9 else t.m - 3;
    365 * y + y / 4 - y / 100 + y / 400 + MonthStart(n) + t.d - 1 - JULIAN_SHIFT
  }

  // ---- the parts of a day number ----

  /** Every day lies in exactly one year of one century. */
  lemma PartsRange(a: int)
    ensures InYear(Century(a), YearOfCentury(a), DayOfYear(a))
    ensures a == Days(Century(a), YearOfCentury(a), DayOfYear(a))
  {
    CenturyRange(a);
    YearRange(Century(a), DayOfCentury(a), YearOfCentury(a));
  }

  lemma CenturyRange(a: int)
    ensures 0 <= DayOfCentury(a) <= if Century(a) % 4 == 3 then 36524 else 36523
  {
    var q := Century(a);
    assert 4 * DayOfCentury(a) == 4 * a - 146097 * q + q % 4;
  }

  lemma YearRange(q: int, dc: int, r: int)
    requires 0 <= dc <= (if q % 4 == 3 then 36524 else 36523) && r == (4 * dc + 3) / 1461
    ensures InYear(q, r, dc - 365 * r - r / 4)
  {
    assert 4 * (dc - 365 * r - r / 4) == 4 * dc - 1461 * r + r % 4;
  }

  lemma CenturyIs(q: int, r: int, doy: int)
    requires InYear(q, r, doy)
    ensures Century(Days(q, r, doy)) == q
  {
    var dc := 365 * r + r / 4 + doy;
    assert 0 <= dc <= if q % 4 == 3 then 36524 else 36523;
    assert 4 * Days(q, r, doy) + 3 == 146097 * q + (4 * dc + 3 - q % 4);
  }

  /** The parts are those the day was made of. */
  lemma PartsOf(q: int, r: int, doy: int)
    requires InYear(q, r, doy)
    ensures var a := Days(q, r, doy); Century(a) == q && YearOfCentury(a) == r && DayOfYear(a) == doy
  {
    CenturyIs(q, r, doy);
    YearIs(365 * r + r / 4 + doy, q, r, doy);
  }

  lemma YearIs(dc: int, q: int, r: int, doy: int)
    requires InYear(q, r, doy) && dc == 365 * r + r / 4 + doy
    ensures (4 * dc + 3) / 1461 == r
  {
    assert 4 * dc + 3 == 1461 * r + (4 * doy + 3 - r % 4);
  }

  /** Twelve months of 30 or 31 days, but for the last, tile a March year. */
  lemma MonthRange(doy: int)
    requires 0 <= doy <= 365
    ensures var n := (5 * doy + 2) / 153; 0 <= n <= 11 && MonthStart(n) <= doy < MonthStart(n + 1)
  {
  }

  lemma MonthIs(n: int, d: int)
    requires 0 <= n <= 11 && 1 <= d && MonthStart(n) + d - 1 < MonthStart(n + 1)
    ensures (5 * (MonthStart(n) + d - 1) + 2) / 153 == n
  {
  }

  lemma MonthLengths()
    ensures MonthStart(0) == 0 && MonthStart(1) == 31 && MonthStart(2) == 61 && MonthStart(3) == 92
    ensures MonthStart(4) == 122 && MonthStart(5) == 153 && MonthStart(6) == 184 && MonthStart(7) == 214
    ensures MonthStart(8) == 245 && MonthStart(9) == 275 && MonthStart(10) == 306 && MonthStart(11) == 337
    ensures MonthStart(12) == 367
  {
  }

  // ---- dates and day numbers ----

  /** February of the calendar year that ends a March year. */
  lemma LongYearLeaps(q: int, r: int)
    requires 0 <= r < 100
    ensures LongYear(q, r) <==> IsLeap(100 * q + r - 4799)
  {
    if r == 99 {
      Remainders(q - 47, 0);
    } else {
      Remainders(q - 48, r + 1);
    }
  }

  lemma Remainders(c: int, k: int)
    requires 0 <= k < 100
    ensures var y := 100 * c + k; y % 100 == k && y % 4 == k % 4 && (k == 0 ==> (y % 400 == 0 <==> c % 4 == 0))
  {
    By100(c, k);
    By4(25 * c + k / 4, k % 4);
    By400(c / 4, 100 * (c % 4) + k);
    assert 100 * c + k == 4 * (25 * c + k / 4) + k % 4;
    assert 100 * c + k == 400 * (c / 4) + (100 * (c % 4) + k);
  }

  lemma By100(q: int, r: int)
    requires 0 <= r < 100
    ensures (100 * q + r) % 100 == r
  {
  }

  lemma By4(q: int, r: int)
    requires 0 <= r < 4
    ensures (4 * q + r) % 4 == r
  {
  }

  lemma By400(q: int, r: int)
    requires 0 <= r < 400
    ensures (400 * q + r) % 400 == r
  {
  }

  lemma MarchDateValid(q: int, r: int, doy: int)
    requires InYear(q, r, doy)
    ensures ValidDate(MarchDate(q, r, doy))
  {
    MonthRange(doy);
    MonthLengths();
    LongYearLeaps(q, r);
  }

  /** Every day number is a valid date. */
  lemma FromDayValid(z: int)
    ensures ValidDate(FromDay(z))
  {
    PartsRange(z + JULIAN_SHIFT);
    MarchDateValid(Century(z + JULIAN_SHIFT), YearOfCentury(z + JULIAN_SHIFT), DayOfYear(z + JULIAN_SHIFT));
  }

  /** Leap days of a March year, counted by centuries. */
  lemma YearDays(q: int, r: int)
    requires 0 <= r < 100
    ensures var y := 100 * q + r; y / 4 == 25 * q + r / 4 && y / 100 == q && y / 400 == q / 4
  {
  }

  lemma MarchDateNumber(q: int, r: int, doy: int)
    requires InYear(q, r, doy)
    ensures DayNumber(MarchDate(q, r, doy)) == Days(q, r, doy) - JULIAN_SHIFT
  {
    MonthRange(doy);
    YearDays(q, r);
  }

  /** The day number of the date of a day is that day. */
  lemma DayNumberOfFromDay(z: int)
    ensures DayNumber(FromDay(z)) == z
  {
    var a := z + JULIAN_SHIFT;
    PartsRange(a);
    MarchDateNumber(Century(a), YearOfCentury(a), DayOfYear(a));
  }

  /** The March year, the month after March and the day of the year of a date. */
  lemma MarchParts(t: Date) returns (q: int, r: int, n: int, doy: int)
    requires ValidDate(t)
    ensures n == (if t.m <= 2 then t.m + 9 else t.m - 3) && doy == MonthStart(n) + t.d - 1
    ensures 100 * q + r == t.y + 4800 - (if t.m <= 2 then 1 else 0) && InYear(q, r, doy)
    ensures DayNumber(t) == Days(q, r, doy) - JULIAN_SHIFT && t == MarchDate(q, r, doy)
  {
    var y := t.y + 4800 - if t.m <= 2 then 1 else 0;
    q, r := y / 100, y % 100;
    n := if t.m <= 2 then t.m + 9 else t.m - 3;
    doy := MonthStart(n) + t.d - 1;
    MonthLengths();
    LongYearLeaps(q, r);
    YearDays(q, r);
    MonthIs(n, t.d);
  }

  /** Different dates have different day numbers: the date of a date's day number is that date. */
  lemma FromDayOfDayNumber(t: Date)
    requires ValidDate(t)
    ensures FromDay(DayNumber(t)) == t
  {
    var q, r, n, doy := MarchParts(t);
    PartsOf(q, r, doy);
  }

  lemma NextDayValid(t: Date)
    requires ValidDate(t)
    ensures ValidDate(NextDay(t))
  {
  }

  /** Day numbers count days: the next day's is one more, across months, years and leap days. */
  lemma DayNumberNext(t: Date)
    requires ValidDate(t)
    ensures DayNumber(NextDay(t)) == DayNumber(t) + 1
  {
    if t.d == DaysInMonth(t.y, t.m) {
      if t.m == 2 {
        FebruaryEnds(t);
      } else {
        MonthEnds(t);
      }
    }
  }

  lemma MonthEnds(t: Date)
    requires ValidDate(t) && t.d == DaysInMonth(t.y, t.m) && t.m != 2
    ensures DayNumber(NextDay(t)) == DayNumber(t) + 1
  {
    MonthLengths();
  }

  lemma FebruaryEnds(t: Date)
    requires ValidDate(t) && t.d == DaysInMonth(t.y, t.m) && t.m == 2
    ensures DayNumber(NextDay(t)) == DayNumber(t) + 1
  {
    hide IsLeap, LongYear;
    MonthLengths();
    var y := t.y + 4799;
    LongYearLeaps(y / 100, y % 100);
    NextYear(y / 100, y % 100);
  }

  lemma NextYear(q: int, r: int)
    requires 0 <= r < 100
    ensures var y := 100 * q + r;
            365 * (y + 1) + (y + 1) / 4 - (y + 1) / 100 + (y + 1) / 400
            == 365 * y + y / 4 - y / 100 + y / 400 + if LongYear(q, r) then 366 else 365
  {
    YearDays(q, r);
    if r == 99 {
      YearDays(q + 1, 0);
    } else {
      YearDays(q, r + 1);
    }
  }

  /** Dates follow each other as the calendar says, without end in either direction. */
  lemma FromDayNext(z: int)
    ensures FromDay(z + 1) == NextDay(FromDay(z))
  {
    hide FromDay, NextDay, DayNumber, ValidDate;
    FromDayValid(z);
    DayNumberOfFromDay(z);
    NextDayValid(FromDay(z));
    DayNumberNext(FromDay(z));
    FromDayOfDayNumber(NextDay(FromDay(z)));
  }

  lemma Epochs()
    ensures FromDay(0) == Date(-4713, 11, 24) && FromDay(2440588) == Date(1970, 1, 1)
    ensures FromDay(5373484) == Date(9999, 12, 31)
  {
    hide FromDay;
    FromDayOfDayNumber(Date(-4713, 11, 24));
    FromDayOfDayNumber(Date(1970, 1, 1));
    FromDayOfDayNumber(Date(9999, 12, 31));
  }
}
