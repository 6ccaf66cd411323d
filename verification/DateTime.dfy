/** Julian-day milliseconds to and from civil dates and times of day, and civil dates from Unix days. */
module DateTimes {
  import opened Common
  import opened Calendar

  const DAY_MS := 86_400_000
  const HALF_DAY_MS := 43_200_000

  /** Just past the last millisecond of the year 9999. */
  const MAX_IJD := 464_269_060_800_000

  /** Integer division and real-to-integer conversion, both toward zero. */
  function Quot(a: int, b: int): int
    requires b > 0
  {
    if a >= 0 then a / b else -(-a / b)
  }

  function Trunc(x: real): int {
    if x >= 0.0 then x.Floor else -(-x).Floor
  }

  lemma TruncIs(x: real, n: int)
    requires 0.0 <= n as real <= x < n as real + 1.0
    ensures Trunc(x) == n
  {
  }

  /** The Julian day number of the civil day an instant falls on, and its millisecond of the day. */
  function DayOf(ijd: int): int {
    (ijd + HALF_DAY_MS) / DAY_MS
  }

  function MsOf(ijd: int): int {
    (ijd + HALF_DAY_MS) % DAY_MS
  }

  // ---- the day number formula ----

  /** What compute_jd adds up for year y and month m, January and February counted in the year before. */
  function JdDays(y: int, m: int, d: int): int {
    var y' := if m <= 2 then y - 1 else y;
    var m' := if m <= 2 then m + 12 else m;
    var a := Quot(y' + 4800, 100);
    Quot(36525 * (y' + 4716), 100) + Quot(306001 * (m' + 1), 10000) + d + (38 - a + Quot(a, 4))
  }

  lemma JdDaysSum(y: int, m: int, d: int)
    ensures var y' := if m <= 2 then y - 1 else y;
            var m' := if m <= 2 then m + 12 else m;
            var a := Quot(y' + 4800, 100);
            JdDays(y, m, d) == Quot(36525 * (y' + 4716), 100) + Quot(306001 * (m' + 1), 10000) + d + (38 - a + Quot(a, 4))
  {
  }

  lemma MonthSums(n: int)
    requires 0 <= n <= 11
    ensures Quot(306001 * (n + 4), 10000) == MonthStart(n) + 122
  {
  }

  /** It is the Julian day number, plus 1524. */
  lemma JdDaysIs(t: Date)
    requires ValidDate(t) && t.y >= -4713
    ensures JdDays(t.y, t.m, t.d) == DayNumber(t) + 1524
  {
    var q, r, n, doy := MarchParts(t);
    MonthSums(n);
    YearSums(q, r);
  }

  lemma YearSums(q: int, r: int)
    requires 0 <= r < 100 && 100 * q + r >= 86
    ensures Quot(100 * q + r, 100) == q && Quot(q, 4) == q / 4
    ensures Quot(36525 * (100 * q + r - 84), 100) == 36525 * q + 365 * r + r / 4 - 30681
  {
    assert 36525 * (100 * q + r - 84) == 100 * (36525 * q - 30681) + 36525 * r;
    assert 36525 * r / 100 == 365 * r + r / 4;
  }

  /** The instant at which day number x - 1524 begins. */
  lemma MidnightIs(x: int)
    ensures (x as real - 1524.5) * 86_400_000.0 == ((x - 1524) * DAY_MS - HALF_DAY_MS) as real
  {
  }

  // ---- the date formula ----

  lemma AlphaIs(z: int)
    requires z >= 0
    ensures Trunc((z as real + 32044.75) / 36524.25) == Century(z + JULIAN_SHIFT)
  {
    var a := z + JULIAN_SHIFT;
    var q := Century(a);
    assert 146097 * q <= 4 * a + 3 < 146097 * (q + 1);
    TruncIs((z as real + 32044.75) / 36524.25, q);
  }

  /** From day number z: the century correction leads to a day count of Julian years. */
  lemma JulianCount(z: int, alpha: int)
    requires z >= 0 && alpha == Century(z + JULIAN_SHIFT) - 52
    ensures var q, dc := Century(z + JULIAN_SHIFT), DayOfCentury(z + JULIAN_SHIFT);
            z + 1 + alpha - Quot(alpha + 100, 4) + 25 + 1524 == 36525 * q + dc - 30558
  {
  }

  lemma YearCount(q: int, r: int, doy: int, b: int)
    requires InYear(q, r, doy) && b == 36525 * q + 365 * r + r / 4 + doy - 30558 && 100 * q + r >= 84
    ensures Trunc((b as real - 122.1) / 365.25) == 100 * q + r - 84
  {
    var c := 100 * q + r - 84;
    assert 365.25 * c as real <= b as real - 122.1 < 365.25 * (c as real + 1.0);
    TruncIs((b as real - 122.1) / 365.25, c);
  }

  /** Within the year the month formula finds the month after March and the day of the month. */
  lemma MonthCount(doy: int)
    requires 0 <= doy <= 365
    ensures var e := Trunc((doy + 123) as real / 30.6001);
            var n := (5 * doy + 2) / 153;
            && e == n + 4 && Trunc(30.6001 * e as real) == MonthStart(n) + 122
  {
    var n := (5 * doy + 2) / 153;
    MonthRange(doy);
    TruncIs((doy + 123) as real / 30.6001, n + 4);
    TruncIs(30.6001 * (n + 4) as real, MonthStart(n) + 122);
  }

  /** A month after which days are simply counted on: d may run past its end. */
  lemma JdDaysFrom(y: int, m: int, d: int)
    requires 1 <= m <= 12 && y >= -4713
    ensures JdDays(y, m, d) == DayNumber(Date(y, m, 1)) + d - 1 + 1524
  {
    JdDaysIs(Date(y, m, 1));
  }

  /** An instant from its day number and its millisecond of the day. */
  lemma InstantIs(ijd: int)
    ensures DayOf(ijd) * DAY_MS - HALF_DAY_MS + MsOf(ijd) == ijd && 0 <= MsOf(ijd) < DAY_MS
  {
  }

  /** The instants in range are those from noon of day 0 to the end of 9999-12-31, day 5373484; their years run from
      4714 BC to 9999. */
  lemma YearsInRange(ijd: int)
    ensures 0 <= ijd < MAX_IJD <==> 0 <= ijd && DayOf(ijd) <= 5373484
    ensures 0 <= ijd < MAX_IJD ==> 0 <= DayOf(ijd) && -4713 <= FromDay(DayOf(ijd)).y <= 9999
  {
    hide FromDay;
    if 0 <= ijd < MAX_IJD {
      YearBounds(DayOf(ijd));
    }
  }

  lemma YearBounds(z: int)
    requires 0 <= z <= 5373484
    ensures -4713 <= FromDay(z).y <= 9999
  {
    hide MarchDate;
    PartsRange(z + JULIAN_SHIFT);
    var q, r, doy := Century(z + JULIAN_SHIFT), YearOfCentury(z + JULIAN_SHIFT), DayOfYear(z + JULIAN_SHIFT);
    MarchYearIs(q, r, doy);
    EndYears(q, r, doy);
  }

  lemma MarchYearIs(q: int, r: int, doy: int)
    requires 0 <= doy <= 365
    ensures MarchDate(q, r, doy).y == 100 * q + r - 4800 + if doy >= 306 then 1 else 0
  {
  }

  lemma EndYears(q: int, r: int, doy: int)
    requires InYear(q, r, doy) && JULIAN_SHIFT <= Days(q, r, doy) <= 5373484 + JULIAN_SHIFT
    ensures 87 <= 100 * q + r <= 14799 && (100 * q + r == 14799 ==> doy < 306)
  {
    assert 0 <= q <= 147;
  }

  /** A broken-down instant; each group of fields counts only while its flag is set. */
  class DateTime {
    var ijd: int
    var y: int
    var m: int
    var d: int
    var h: int
    var min: int
    var s: real
    /** The time string, when it was a bare number. */
    var rawS: Option<real>
    var validJd: bool
    var validYmd: bool
    var validHms: bool
    var error: bool

    /** The time of day in milliseconds, if there is one. */
    function DayMs(): int
      reads this
    {
      if validHms then h * 3_600_000 + min * 60_000 + Trunc(s * 1000.0 + 0.5) else 0
    }

    /** The date in force, 2000-01-01 when none is. */
    function DateInForce(): Date
      reads this
    {
      if validYmd then Date(y, m, d) else Date(2000, 1, 1)
    }

    /** The instant of the date and time of day; years out of range and bare numbers are errors. */
    method ComputeJd()
      requires !validJd ==> 1 <= DateInForce().m <= 12
      modifies this`ijd, this`validJd, this`error
      ensures old(validJd) ==> ijd == old(ijd) && validJd && error == old(error)
      ensures !old(validJd) && (rawS != None || !(-4713 <= DateInForce().y <= 9999)) ==>
                error && !validJd && ijd == old(ijd)
      ensures !old(validJd) && rawS == None && -4713 <= DateInForce().y <= 9999 ==>
                && var t := DateInForce();
                && validJd && error == old(error)
                && ijd == (DayNumber(Date(t.y, t.m, 1)) + t.d - 1) * DAY_MS - HALF_DAY_MS + DayMs()
    {
      hide Quot, Trunc, DayNumber, MonthStart;
      if validJd { return; }
      var year, month, day := 2000, 1, 1;
      if validYmd {
        year, month, day := y, m, d;
      }
      if !(-4713 <= year <= 9999) || rawS.Some? {
        error := true;
        return;
      }
      JdDaysFrom(year, month, day);
      JdDaysSum(year, month, day);
      ghost var days := JdDays(year, month, day);
      if month <= 2 {
        year := year - 1;
        month := month + 12;
      }
      var a := Quot(year + 4800, 100);
      var b := 38 - a + Quot(a, 4);
      var x1 := Quot(36525 * (year + 4716), 100);
      var x2 := Quot(306001 * (month + 1), 10000);
      MidnightIs(x1 + x2 + day + b);
      WholeIs((days - 1524) * DAY_MS - HALF_DAY_MS);
      ijd := Trunc(((x1 + x2 + day + b) as real - 1524.5) * 86_400_000.0);
      validJd := true;
      if validHms {
        ijd := ijd + h * 3_600_000 + min * 60_000 + Trunc(s * 1000.0 + 0.5);
      }
    }

    /** The civil date of the instant. */
    method ComputeYmd()
      requires !validYmd && validJd ==> 0 <= ijd < MAX_IJD
      modifies this`y, this`m, this`d, this`validYmd
      ensures validYmd
      ensures old(validYmd) ==> Date(y, m, d) == old(Date(y, m, d))
      ensures !old(validYmd) && !validJd ==> Date(y, m, d) == Date(2000, 1, 1)
      ensures !old(validYmd) && validJd ==> Date(y, m, d) == FromDay(DayOf(ijd)) && ValidDate(Date(y, m, d))
    {
      hide *;
      if validYmd { return; }
      if !validJd {
        y, m, d := 2000, 1, 1;
      } else {
        QuotDay(ijd);
        var z := Quot(ijd + 43_200_000, 86_400_000);
        YearsInRange(ijd);
        ghost var q, r, doy := Century(z + JULIAN_SHIFT), YearOfCentury(z + JULIAN_SHIFT), DayOfYear(z + JULIAN_SHIFT);
        FromDayParts(z);
        EndYears(q, r, doy);
        AlphaIs(z);
        var alpha := Trunc((z as real + 32044.75) / 36524.25) - 52;
        JulianCount(z, alpha);
        var a := z + 1 + alpha - Quot(alpha + 100, 4) + 25;
        var b := a + 1524;
        YearCount(q, r, doy, b);
        var c := Trunc((b as real - 122.1) / 365.25);
        YearSums(q, r);
        assert c % 32768 == 100 * q + r - 84;
        var dd := Quot(36525 * (c % 32768), 100);
        assert b - dd == doy + 123;
        MonthCount(doy);
        var e := Trunc((b - dd) as real / 30.6001);
        var x1 := Trunc(30.6001 * e as real);
        MarchDateIs(q, r, doy);
        d := b - dd - x1;
        m := if e < 14 then e - 1 else e - 13;
        y := if m > 2 then c - 4716 else c - 4715;
        FromDayValid(z);
      }
      validYmd := true;
    }

    /** The time of day of the instant. */
    method ComputeHms()
      requires !validHms && !validJd ==> 1 <= DateInForce().m <= 12
      modifies this`ijd, this`validJd, this`error, this`h, this`min, this`s, this`rawS, this`validHms
      ensures validHms
      ensures old(validJd) ==> ijd == old(ijd) && validJd && error == old(error)
      ensures old(validHms) ==> (h, min, s) == old((h, min, s)) && rawS == old(rawS)
      ensures !old(validHms) ==> 0 <= h < 24 && 0 <= min < 60 && 0.0 <= s < 60.0 && rawS == None
      ensures !old(validHms) ==> DayMs() == MsOf(ijd) && s * 1000.0 == (MsOf(ijd) % 60_000) as real
    {
      if validHms { return; }
      ComputeJd();
      var dayMs := (ijd + 43_200_000) % 86_400_000;
      s := (dayMs % 60_000) as real / 1000.0;
      var dayMin := dayMs / 60_000;
      min := dayMin % 60;
      h := dayMin / 60;
      rawS := None;
      validHms := true;
      TimeOfDay(dayMs);
    }

    /** Breaks an instant down and puts it together again. */
    method ThereAndBack()
      requires validJd && !validYmd && !validHms && 0 <= ijd < MAX_IJD
      modifies this
      ensures validJd && ijd == old(ijd) && error == old(error)
      ensures ValidDate(Date(y, m, d)) && 0 <= h < 24 && 0 <= min < 60 && 0.0 <= s < 60.0
    {
      hide FromDay, DayNumber, Trunc;
      YearsInRange(ijd);
      ComputeYmd();
      ComputeHms();
      DayNumberOfFromDay(DayOf(ijd));
      MonthCounts(Date(y, m, d));
      InstantIs(ijd);
      validJd := false;
      ComputeJd();
    }
  }

  lemma MonthCounts(t: Date)
    requires ValidDate(t)
    ensures DayNumber(Date(t.y, t.m, 1)) + t.d - 1 == DayNumber(t) && 1 <= t.m <= 12
  {
  }

  lemma WholeIs(n: int)
    ensures Trunc(n as real) == n
  {
  }

  lemma QuotDay(ijd: int)
    requires ijd >= 0
    ensures Quot(ijd + 43_200_000, 86_400_000) == DayOf(ijd)
  {
  }

  lemma FromDayParts(z: int)
    ensures var q, r, doy := Century(z + JULIAN_SHIFT), YearOfCentury(z + JULIAN_SHIFT), DayOfYear(z + JULIAN_SHIFT);
            && FromDay(z) == MarchDate(q, r, doy) && InYear(q, r, doy) && Days(q, r, doy) == z + JULIAN_SHIFT
            && DayOfCentury(z + JULIAN_SHIFT) == 365 * r + r / 4 + doy
  {
    PartsRange(z + JULIAN_SHIFT);
  }

  lemma MarchDateIs(q: int, r: int, doy: int)
    requires 0 <= doy <= 365
    ensures var n := (5 * doy + 2) / 153;
            var m := if n < 10 then n + 3 else n - 9;
            && 0 <= n <= 11
            && MarchDate(q, r, doy) == Date(100 * q + r - 4800 + if m <= 2 then 1 else 0, m, doy - MonthStart(n) + 1)
  {
  }

  lemma TimeOfDay(ms: int)
    requires 0 <= ms < DAY_MS
    ensures var s, min, h := (ms % 60_000) as real / 1000.0, ms / 60_000 % 60, ms / 60_000 / 60;
            && 0 <= h < 24 && 0 <= min < 60 && 0.0 <= s < 60.0 && s * 1000.0 == (ms % 60_000) as real
            && h * 3_600_000 + min * 60_000 + Trunc(s * 1000.0 + 0.5) == ms
  {
    var s := (ms % 60_000) as real / 1000.0;
    TruncIs(s * 1000.0 + 0.5, ms % 60_000);
  }

  /** Instants and pairs of a valid date and a millisecond of the day correspond one to one. */
  lemma InstantRoundTrip(ijd: int)
    ensures DayNumber(FromDay(DayOf(ijd))) * DAY_MS - HALF_DAY_MS + MsOf(ijd) == ijd && ValidDate(FromDay(DayOf(ijd)))
  {
    hide FromDay, DayNumber, ValidDate;
    DayNumberOfFromDay(DayOf(ijd));
    FromDayValid(DayOf(ijd));
    InstantIs(ijd);
  }

  // ---- dates from Unix days ----

  const UNIX_EPOCH_MS := 210_866_760_000_000
  const UNIX_EPOCH_DAY := 2440588

  /** Year of a 400-year era from the day of the era. */
  function YearOfEra(doe: int): int
    requires doe >= 0
  {
    (doe - doe / 1460 + doe / 36_524 - doe / 146_096) / 365
  }

  /** The day of the era, split into centuries and years. */
  lemma YearOfEraIs(c: int, r: int, doy: int)
    requires 0 <= c <= 3 && InYear(c, r, doy)
    ensures YearOfEra(36524 * c + 365 * r + r / 4 + doy) == 100 * c + r
  {
    var dc := 365 * r + r / 4 + doy;
    var doe := 36524 * c + dc;
    assert dc <= if c == 3 then 36524 else 36523;
    assert doe / 36_524 - doe / 146_096 == c;
    var s, t := r / 4, r % 4;
    assert doe == 1460 * (25 * c + s) + (24 * c + 365 * t + s + doy);
    var rest := 24 * c + 365 * t + s + doy;
    assert doe / 1460 == 25 * c + s + rest / 1460;
    assert rest / 1460 == if rest >= 1460 then 1 else 0;
    assert doe - doe / 1460 + c == 365 * (100 * c + r) + doy - rest / 1460;
  }

  /** The civil date and time of day of a Unix time in seconds, for any number of seconds. */
  method CivilFromSeconds(secs: int) returns (date: Date, hh: int, mm: int, ss: int)
    ensures date == FromDay(secs / 86_400 + UNIX_EPOCH_DAY)
    ensures 0 <= hh < 24 && 0 <= mm < 60 && 0 <= ss < 60
    ensures hh * 3600 + mm * 60 + ss == secs % 86_400
  {
    hide FromDay, MarchDate, Century, YearOfCentury, DayOfYear, DayOfCentury, MonthStart, LongYear, YearOfEra;
    var days, tod := secs / 86_400, secs % 86_400;
    hh, mm, ss := tod / 3600, tod % 3600 / 60, tod % 60;
    Clock(tod);
    var z := days + 719_468;
    var era := Quot(if z >= 0 then z else z - 146_096, 146_097);
    var doe := z - era * 146_097;
    EraIs(z, era);
    ghost var a := days + UNIX_EPOCH_DAY + JULIAN_SHIFT;
    ghost var q, r := Century(a), YearOfCentury(a);
    FromDayParts(days + UNIX_EPOCH_DAY);
    EraParts(z, era, q, r, DayOfYear(a));
    var yoe := YearOfEra(doe);
    var y := yoe + era * 400;
    var doy := doe - (365 * yoe + yoe / 4 - yoe / 100);
    var mp := (5 * doy + 2) / 153;
    MarchDateIs(q, r, doy);
    MonthStartIs(mp);
    var d := doy - (153 * mp + 2) / 5 + 1;
    var m := if mp < 10 then mp + 3 else mp - 9;
    date := Date(y + if m <= 2 then 1 else 0, m, d);
  }

  lemma Clock(tod: int)
    requires 0 <= tod < 86_400
    ensures 0 <= tod / 3600 < 24 && 0 <= tod % 3600 / 60 < 60 && 0 <= tod % 60 < 60
    ensures tod / 3600 * 3600 + tod % 3600 / 60 * 60 + tod % 60 == tod
  {
  }

  lemma MonthStartIs(n: int)
    ensures MonthStart(n) == (153 * n + 2) / 5
  {
  }

  lemma EraIs(z: int, era: int)
    requires era == Quot(if z >= 0 then z else z - 146_096, 146_097)
    ensures 0 <= z - era * 146_097 < 146_097
  {
  }

  /** The era and the year of the era are the century and year of the Julian day. */
  lemma EraParts(z: int, era: int, q: int, r: int, doy: int)
    requires InYear(q, r, doy) && Days(q, r, doy) == z + 12 * 146_097 && 0 <= z - era * 146_097 < 146_097
    ensures var doe := z - era * 146_097;
            && 100 * q + r - 4800 == YearOfEra(doe) + era * 400
            && doy == doe - (365 * YearOfEra(doe) + YearOfEra(doe) / 4 - YearOfEra(doe) / 100)
  {
    hide YearOfEra;
    var c := q % 4;
    var dc := 365 * r + r / 4 + doy;
    assert 0 <= dc <= if c == 3 then 36524 else 36523;
    assert 36524 * q + q / 4 == 146_097 * (q / 4) + 36524 * c;
    assert 0 <= 36524 * c + dc < 146_097;
    assert era == q / 4 - 12;
    YearOfEraIs(c, r, doy);
    YearDays(c, r);
  }

  /** The two algorithms agree on the day of any instant given in Unix seconds. */
  lemma SameDay(secs: int)
    ensures DayOf(secs * 1000 + UNIX_EPOCH_MS) == secs / 86_400 + UNIX_EPOCH_DAY
    ensures MsOf(secs * 1000 + UNIX_EPOCH_MS) == secs % 86_400 * 1000
  {
  }
}
