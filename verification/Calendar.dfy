/** Conversion between Unix milliseconds and civil dates (the Gregorian rules of section 5.7 and
    Appendix C of RFC 3339), in 64-bit arithmetic. */
module Calendar {
  import opened Bytes

  datatype Date = Date(year: int, month: int, day: int)

  datatype Civil = Civil(date: Date, hour: int, minute: int, second: int, nanosecond: int)

  predicate IsLeap(y: int) { (y % 4 == 0 && y % 100 != 0) || y % 400 == 0 }

  function DaysInMonth(y: int, m: int): int {
    if m == 1 || m == 3 || m == 5 || m == 7 || m == 8 || m == 10 || m == 12 then 31
    else if m == 4 || m == 6 || m == 9 || m == 11 then 30
    else if m == 2 then (if IsLeap(y) then 29 else 28)
    else 0
  }

  predicate ValidDate(d: Date) { 1 <= d.month <= 12 && 1 <= d.day <= DaysInMonth(d.year, d.month) }

  predicate ValidCivil(c: Civil) {
    && ValidDate(c.date) && 0 <= c.hour <= 23 && 0 <= c.minute <= 59 && 0 <= c.second <= 59
    && 0 <= c.nanosecond < 1_000_000_000
  }

  /** C++ division by a positive constant: truncates toward zero. */
  function TruncDiv(a: int, b: int): int
    requires b > 0
  {
    if a >= 0 then a / b else -(-a / b)
  }

  // ---------------------------------------------------------------- days

  /** days_from_civil: years start on 1 March, eras are 400 years. */
  function DaysFromCivil(d: Date): int {
    var y := if d.month <= 2 then d.year - 1 else d.year;
    var era := TruncDiv(if y >= 0 then y else y - 399, 400);
    var yoe := y - era * 400;
    var mi := if d.month > 2 then d.month - 3 else d.month + 9;
    var doy := (153 * mi + 2) / 5 + d.day - 1;
    var doe := yoe * 365 + yoe / 4 - yoe / 100 + doy;
    era * 146097 + doe - 719468
  }

  /** Days before the March year yoe of an era. */
  function YearStart(yoe: int): int { 365 * yoe + yoe / 4 - yoe / 100 }

  /** Days before month mi of a March year. */
  function MonthStart(mi: int): int { (153 * mi + 2) / 5 }

  function YearOfEra(doe: int): int { (doe - doe / 1460 + doe / 36524 - doe / 146096) / 365 }

  function DateOf(era: int, yoe: int, doy: int): Date {
    var mp := (5 * doy + 2) / 153;
    var month := mp + (if mp < 10 then 3 else -9);
    Date(yoe + era * 400 + (if month <= 2 then 1 else 0), month, doy - MonthStart(mp) + 1)
  }

  /** The date part of split_unix_ms. */
  function CivilFromDays(days: int): Date {
    var z := days + 719468;
    var era := TruncDiv(if z >= 0 then z else z - 146096, 146097);
    DateInEra(era, z - era * 146097)
  }

  function DateInEra(era: int, doe: int): Date {
    DateOf(era, YearOfEra(doe), doe - YearStart(YearOfEra(doe)))
  }

  /** The March year yoe ends with the February of year yoe + 1. */
  predicate LongYear(yoe: int) { IsLeap(yoe + 1) }

  lemma FloorEra(a: int)
    ensures TruncDiv(if a >= 0 then a else a - 399, 400) == a / 400
    ensures TruncDiv(if a >= 0 then a else a - 146096, 146097) == a / 146097
  {}

  /** A March year in an era, by century, four-year cycle and year of the cycle. */
  ghost predicate Parts(c: int, q: int, r: int) { 0 <= c < 4 && 0 <= q < 25 && 0 <= r < 4 }

  lemma PartsStart(c: int, q: int, r: int)
    requires Parts(c, q, r)
    ensures var y := 100 * c + 4 * q + r;
            && 0 <= y < 400 && YearStart(y) == 36524 * c + 1461 * q + 365 * r
            && (LongYear(y) <==> r == 3 && (q < 24 || c == 3))
  {}

  lemma DivIs(a: int, b: int, q: int)
    requires b > 0 && b * q <= a < b * q + b
    ensures a / b == q
  {
    var d := a / b - q;
    assert b * d == b * (a / b) - b * q;
    if d >= 1 { AtLeast(b, d); }
    if d <= -1 { AtLeast(b, -d); }
  }

  /** The closed formula finds the year of every day of it. */
  lemma PartsYear(c: int, q: int, r: int, doy: int)
    requires Parts(c, q, r) && 0 <= doy <= 364 + (if r == 3 && (q < 24 || c == 3) then 1 else 0)
    ensures YearOfEra(36524 * c + 1461 * q + 365 * r + doy) == 100 * c + 4 * q + r
  {
    var y := 100 * c + 4 * q + r;
    var doe := 36524 * c + 1461 * q + 365 * r + doy;
    var k := if 24 * c + q + 365 * r + doy >= 1460 then 1 else 0;
    var last := if doe == 146096 then 1 else 0;
    DivIs(doe, 1460, 25 * c + q + k);
    DivIs(doe, 36524, c + last);
    DivIs(doe, 146096, last);
    DivIs(doe - (25 * c + q + k) + c, 365, y);
  }

  /** A day of an era by century, four-year cycle, year of the cycle and day of the year. */
  lemma Decompose(doe: int) returns (c: int, q: int, r: int, doy: int)
    requires 0 <= doe < 146097
    ensures Parts(c, q, r) && 0 <= doy <= 364 + (if r == 3 && (q < 24 || c == 3) then 1 else 0)
    ensures doe == 36524 * c + 1461 * q + 365 * r + doy
  {
    c := if doe < 36524 then 0 else if doe < 73048 then 1 else if doe < 109572 then 2 else 3;
    var a := doe - 36524 * c;
    q := a / 1461;
    var b := a - 1461 * q;
    assert 0 <= b <= 1460 && 0 <= q <= 24;
    r := if b < 365 then 0 else if b < 730 then 1 else if b < 1095 then 2 else 3;
    doy := b - 365 * r;
  }

  /** Every day of an era lies in one March year, and the formula finds it. */
  lemma YearOfEraBounds(doe: int)
    requires 0 <= doe < 146097
    ensures var y := YearOfEra(doe);
            0 <= y < 400 && YearStart(y) <= doe <= YearStart(y) + 364 + (if LongYear(y) then 1 else 0)
  {
    var c, q, r, doy := Decompose(doe);
    PartsStart(c, q, r);
    PartsYear(c, q, r, doy);
  }

  lemma YearOfEraUnique(y: int, doy: int)
    requires 0 <= y < 400 && 0 <= doy <= 364 + (if LongYear(y) then 1 else 0)
    ensures YearOfEra(YearStart(y) + doy) == y && 0 <= YearStart(y) + doy < 146097
  {
    var c, q, r := y / 100, y % 100 / 4, y % 4;
    assert y == 100 * c + 4 * q + r;
    PartsStart(c, q, r);
    PartsYear(c, q, r, doy);
  }

  // ---------------------------------------------------------------- months

  lemma MonthTable(mi: int)
    requires 0 <= mi <= 11
    ensures MonthStart(mi) == [0, 31, 61, 92, 122, 153, 184, 214, 245, 275, 306, 337][mi]
  {}

  function MarchIndex(m: int): int { if m > 2 then m - 3 else m + 9 }

  lemma MonthLengths(y: int, m: int)
    requires 1 <= m <= 12
    ensures m != 2 ==> DaysInMonth(y, m) == MonthStart(MarchIndex(m) + 1) - MonthStart(MarchIndex(m))
  {}

  lemma DayInMonth(doy: int)
    requires 0 <= doy <= 365
    ensures var mp := (5 * doy + 2) / 153;
            0 <= mp <= 11 && 0 <= doy - MonthStart(mp) && (mp < 11 ==> doy < MonthStart(mp + 1))
  {}

  // ---------------------------------------------------------------- the bijection on days

  lemma LeapPeriod(y: int, era: int)
    ensures IsLeap(y + 400 * era) == IsLeap(y)
  {
    Mod400(y, era);
    Mod100(y, 4 * era);
    Mod4(y, 100 * era);
  }

  lemma Mod400(y: int, k: int)
    ensures (y + 400 * k) % 400 == y % 400
  {}

  lemma Mod100(y: int, k: int)
    ensures (y + 100 * k) % 100 == y % 100
  {}

  lemma Mod4(y: int, k: int)
    ensures (y + 4 * k) % 4 == y % 4
  {}

  /** Era, year of the era and day of the March year. */
  ghost predicate InYear(yoe: int, doy: int) { 0 <= yoe < 400 && 0 <= doy <= 364 + (if LongYear(yoe) then 1 else 0) }

  function DayNumber(era: int, yoe: int, doy: int): int { era * 146097 + YearStart(yoe) + doy - 719468 }

  lemma SplitDays(days: int, era: int, yoe: int, doy: int)
    requires InYear(yoe, doy) && days == DayNumber(era, yoe, doy)
    ensures CivilFromDays(days) == DateOf(era, yoe, doy)
  {
    YearOfEraUnique(yoe, doy);
    CivilFromEra(era, YearStart(yoe) + doy);
  }

  lemma CivilFromEra(era: int, doe: int)
    requires 0 <= doe < 146097
    ensures CivilFromDays(era * 146097 + doe - 719468) == DateInEra(era, doe)
  {
    FloorEra(era * 146097 + doe);
    EraOfDay(era, doe);
  }

  lemma EraOfDay(era: int, doe: int)
    requires 0 <= doe < 146097
    ensures (era * 146097 + doe) / 146097 == era
  {}

  /** The era, the year of the era and the day of the year of a date. */
  lemma JoinDays(d: Date) returns (era: int, yoe: int, doy: int)
    requires ValidDate(d)
    ensures InYear(yoe, doy) && DaysFromCivil(d) == DayNumber(era, yoe, doy)
    ensures doy == MonthStart(MarchIndex(d.month)) + d.day - 1
    ensures d.year == yoe + 400 * era + (if d.month <= 2 then 1 else 0)
  {
    var y := if d.month <= 2 then d.year - 1 else d.year;
    FloorEra(y);
    era := y / 400;
    yoe := y - era * 400;
    doy := MonthStart(MarchIndex(d.month)) + d.day - 1;
    DayFits(d, era, yoe);
  }

  lemma DayFits(d: Date, era: int, yoe: int)
    requires ValidDate(d) && 0 <= yoe < 400 && d.year == yoe + 400 * era + (if d.month <= 2 then 1 else 0)
    ensures InYear(yoe, MonthStart(MarchIndex(d.month)) + d.day - 1)
    ensures d.day <= if d.month == 2 then 29 else MonthStart(MarchIndex(d.month) + 1) - MonthStart(MarchIndex(d.month))
  {
    LeapPeriod(yoe + 1, era);
    MonthLengths(d.year, d.month);
    MonthTable(MarchIndex(d.month));
    if d.month != 2 { MonthTable(MarchIndex(d.month) + 1); }
  }

  lemma EraUnique(era: int, yoe: int, era1: int, yoe1: int)
    requires 0 <= yoe < 400 && 0 <= yoe1 < 400 && yoe + 400 * era == yoe1 + 400 * era1
    ensures era == era1 && yoe == yoe1
  {}

  /** Converting a valid date to days and back gives the date. */
  lemma DateRoundTrip(d: Date)
    requires ValidDate(d)
    ensures CivilFromDays(DaysFromCivil(d)) == d
  {
    var era, yoe, doy := JoinDays(d);
    SplitDays(DaysFromCivil(d), era, yoe, doy);
    DateOfDate(d, era, yoe);
  }

  lemma DateOfDate(d: Date, era: int, yoe: int)
    requires ValidDate(d) && 0 <= yoe < 400 && d.year == yoe + 400 * era + (if d.month <= 2 then 1 else 0)
    ensures DateOf(era, yoe, MonthStart(MarchIndex(d.month)) + d.day - 1) == d
  {}

  lemma DateOfValid(era: int, yoe: int, doy: int)
    requires InYear(yoe, doy)
    ensures var d := DateOf(era, yoe, doy);
            ValidDate(d) && doy == MonthStart(MarchIndex(d.month)) + d.day - 1
            && d.year == yoe + 400 * era + (if d.month <= 2 then 1 else 0)
  {
    var d := DateOf(era, yoe, doy);
    DayInMonth(doy);
    MonthTable((5 * doy + 2) / 153);
    MonthLengths(d.year, d.month);
    LeapPeriod(yoe + 1, era);
  }

  /** Splitting a day number gives a valid date that converts back to it. */
  lemma DaysRoundTrip(days: int)
    ensures ValidDate(CivilFromDays(days)) && DaysFromCivil(CivilFromDays(days)) == days
  {
    var z := days + 719468;
    var era := z / 146097;
    var doe := z - era * 146097;
    YearOfEraBounds(doe);
    var yoe := YearOfEra(doe);
    var doy := doe - YearStart(yoe);
    SplitDays(days, era, yoe, doy);
    DateOfValid(era, yoe, doy);
    var era1, yoe1, doy1 := JoinDays(DateOf(era, yoe, doy));
    EraUnique(era, yoe, era1, yoe1);
  }

  // ---------------------------------------------------------------- the calendar itself

  /** The day after, by the rules of the calendar. */
  function NextDay(d: Date): Date {
    if d.day < DaysInMonth(d.year, d.month) then d.(day := d.day + 1)
    else if d.month < 12 then Date(d.year, d.month + 1, 1)
    else Date(d.year + 1, 1, 1)
  }

  lemma EpochIsDayZero()
    ensures DaysFromCivil(Date(1970, 1, 1)) == 0
  {}

  /** Day numbers count the days of the calendar: the next day has the next number. */
  lemma DaysCountCalendar(d: Date)
    requires ValidDate(d)
    ensures ValidDate(NextDay(d)) && DaysFromCivil(NextDay(d)) == DaysFromCivil(d) + 1
  {
    var e := NextDay(d);
    NextValid(d);
    var era, yoe, doy := JoinDays(d);
    var era1, yoe1, doy1 := JoinDays(e);
    NextDoy(d, era, yoe);
    if d.month == 2 && e.month == 3 {
      NextYear(era, yoe, era1, yoe1);
    } else {
      EraUnique(era, yoe, era1, yoe1);
    }
  }

  lemma NextValid(d: Date)
    requires ValidDate(d)
    ensures ValidDate(NextDay(d))
  {}

  /** The next day is the next day of the March year, or the first of the next March year. */
  lemma NextDoy(d: Date, era: int, yoe: int)
    requires ValidDate(d) && d.year == yoe + 400 * era + (if d.month <= 2 then 1 else 0)
    ensures var e := NextDay(d);
            var doy := MonthStart(MarchIndex(d.month)) + d.day - 1;
            && MonthStart(MarchIndex(e.month)) + e.day - 1
               == (if d.month == 2 && e.month == 3 then 0 else doy + 1)
            && (d.month == 2 && e.month == 3 ==> doy == 364 + (if LongYear(yoe) then 1 else 0))
  {
    LeapPeriod(yoe + 1, era);
    MonthLengths(d.year, d.month);
    MonthTable(MarchIndex(d.month));
    MonthTable(MarchIndex(NextDay(d).month));
  }

  lemma YearStep(yoe: int)
    requires 0 <= yoe < 399
    ensures YearStart(yoe + 1) == YearStart(yoe) + 365 + (if LongYear(yoe) then 1 else 0)
  {
    var c, q, r := yoe / 100, yoe % 100 / 4, yoe % 4;
    assert yoe == 100 * c + 4 * q + r;
    PartsStart(c, q, r);
    if r < 3 { PartsStart(c, q, r + 1); } else if q < 24 { PartsStart(c, q + 1, 0); } else { PartsStart(c + 1, 0, 0); }
  }

  /** Consecutive March years adjoin, also across an era. */
  lemma NextYear(era: int, yoe: int, era1: int, yoe1: int)
    requires 0 <= yoe < 400 && 0 <= yoe1 < 400 && yoe1 + 400 * era1 == yoe + 400 * era + 1
    ensures era1 * 146097 + YearStart(yoe1) == era * 146097 + YearStart(yoe) + 365 + (if LongYear(yoe) then 1 else 0)
  {
    if yoe < 399 {
      EraUnique(era, yoe + 1, era1, yoe1);
      YearStep(yoe);
    } else {
      EraUnique(era + 1, 0, era1, yoe1);
    }
  }

  // ---------------------------------------------------------------- milliseconds

  /** split_unix_ms */
  function Split(ms: uint64): Civil {
    var seconds := ms / 1000;
    var sod := seconds % 86400;
    Civil(CivilFromDays(seconds / 86400), sod / 3600, sod % 3600 / 60, sod % 60, ms % 1000 * 1_000_000)
  }

  /** network_time_to_unix_ms: the arithmetic is unsigned 64-bit and wraps. */
  function ToUnixMs(c: Civil): Option<uint64> {
    if !ValidCivil(c) then None
    else
      var days := DaysFromCivil(c.date) % TWO64;
      var seconds := (days * 86400 + c.hour * 3600 + c.minute * 60 + c.second) % TWO64;
      Some((seconds * 1000 + c.nanosecond / 1_000_000) % TWO64)
  }

  /** The instant a civil time denotes, unbounded: milliseconds since the epoch. */
  function Instant(c: Civil): int {
    (DaysFromCivil(c.date) * 86400 + c.hour * 3600 + c.minute * 60 + c.second) * 1000 + c.nanosecond / 1_000_000
  }

  /** A civil time cut down to whole milliseconds. */
  function Millis(c: Civil): Civil { c.(nanosecond := c.nanosecond / 1_000_000 * 1_000_000) }

  lemma ModTimes(a: int, k: int, b: int)
    ensures (a % TWO64 * k + b) % TWO64 == (a * k + b) % TWO64
  {
    var q := a / TWO64;
    assert a == q * TWO64 + a % TWO64;
    assert a * k + b == a % TWO64 * k + b + (q * k) * TWO64;
    ModShift(a % TWO64 * k + b, q * k);
  }

  lemma ModShift(x: int, q: int)
    ensures (x + q * TWO64) % TWO64 == x % TWO64
  {}

  /** Conversion yields the instant modulo 2^64. */
  lemma ToUnixMsIs(c: Civil)
    requires ValidCivil(c)
    ensures ToUnixMs(c) == Some(Instant(c) % TWO64)
  {
    var d, t := DaysFromCivil(c.date), c.hour * 3600 + c.minute * 60 + c.second;
    ModTimes(d, 86400, t);
    ModTimes(d * 86400 + t, 1000, c.nanosecond / 1_000_000);
  }

  /** The time of day is taken apart and put together again. */
  lemma SecondsOfDay(sod: int)
    requires 0 <= sod < 86400
    ensures 0 <= sod / 3600 <= 23 && 0 <= sod % 3600 / 60 <= 59 && 0 <= sod % 60 <= 59
    ensures sod / 3600 * 3600 + sod % 3600 / 60 * 60 + sod % 60 == sod
  {}

  lemma MsParts(ms: uint64)
    ensures var seconds := ms / 1000;
            (seconds / 86400 * 86400 + seconds % 86400) * 1000 + ms % 1000 == ms
                && ms % 1000 * 1_000_000 / 1_000_000 == ms % 1000
  {}

  /** Every 64-bit instant splits into a valid civil time that denotes it. */
  lemma SplitValid(ms: uint64)
    ensures ValidCivil(Split(ms)) && Instant(Split(ms)) == ms
  {
    var days, sod := ms / 1000 / 86400, ms / 1000 % 86400;
    SecondsOfDay(sod);
    MsParts(ms);
    DaysRoundTrip(days);
    InstantFrom(CivilFromDays(days), days, sod, ms);
  }

  lemma InstantFrom(d: Date, days: int, sod: int, ms: uint64)
    requires 0 <= sod < 86400 && DaysFromCivil(d) == days && (days * 86400 + sod) * 1000 + ms % 1000 == ms
    requires ms % 1000 * 1_000_000 / 1_000_000 == ms % 1000
    ensures Instant(Civil(d, sod / 3600, sod % 3600 / 60, sod % 60, ms % 1000 * 1_000_000)) == ms
  {}

  /** .. and converts back to it. */
  lemma MsRoundTrip(ms: uint64)
    ensures ValidCivil(Split(ms)) && ToUnixMs(Split(ms)) == Some(ms)
  {
    SplitValid(ms);
    Converts(Split(ms), ms);
  }

  lemma Converts(c: Civil, ms: uint64)
    requires ValidCivil(c) && Instant(c) == ms
    ensures ToUnixMs(c) == Some(ms)
  {
    ToUnixMsIs(c);
    InRange(ms);
  }

  lemma InRange(ms: uint64)
    ensures ms % TWO64 == ms
  {}

  lemma SplitParts(ms: uint64, days: int, t: int, k: int)
    requires 0 <= t < 86400 && 0 <= k < 1000 && ms == (days * 86400 + t) * 1000 + k
    ensures Split(ms) == Civil(CivilFromDays(days), t / 3600, t % 3600 / 60, t % 60, k * 1_000_000)
  {
    DivIs(ms, 1000, days * 86400 + t);
    DayOfSeconds(days, t);
  }

  /** Splitting the instant of a civil time gives it back, cut down to milliseconds. */
  lemma SplitInstant(c: Civil)
    requires ValidCivil(c) && 0 <= Instant(c) < TWO64
    ensures Split(Instant(c)) == Millis(c)
  {
    TimeOfDay(c.hour, c.minute, c.second);
    SplitParts(Instant(c), DaysFromCivil(c.date), c.hour * 3600 + c.minute * 60 + c.second, c.nanosecond / 1_000_000);
    DateRoundTrip(c.date);
  }

  lemma DayOfSeconds(days: int, t: int)
    requires 0 <= t < 86400
    ensures (days * 86400 + t) / 86400 == days && (days * 86400 + t) % 86400 == t
  {}

  lemma TimeOfDay(h: int, m: int, s: int)
    requires 0 <= h <= 23 && 0 <= m <= 59 && 0 <= s <= 59
    ensures var t := h * 3600 + m * 60 + s;
            0 <= t < 86400 && t / 3600 == h && t % 3600 / 60 == m && t % 60 == s
  {}

  /** Calendar bijection: for a valid civil time, converting and splitting gives it back (cut down
      to milliseconds) exactly when its instant fits in 64 bits; outside that range it wraps. */
  lemma CivilRoundTrip(c: Civil)
    requires ValidCivil(c)
    ensures ToUnixMs(c).Some?
    ensures Split(ToUnixMs(c).value) == Millis(c) <==> 0 <= Instant(c) < TWO64
  {
    ToUnixMsIs(c);
    RoundTripFrom(c, Instant(c));
  }

  lemma RoundTripFrom(c: Civil, instant: int)
    requires ValidCivil(c) && instant == Instant(c)
    ensures Split(instant % TWO64) == Millis(c) <==> 0 <= instant < TWO64
  {
    if 0 <= instant < TWO64 {
      SplitInstant(c);
      InRange(instant);
    } else {
      SplitValid(instant % TWO64);
      InstantOfMillis(c);
      OtherInstant(Split(instant % TWO64), Millis(c));
    }
  }

  lemma OtherInstant(a: Civil, b: Civil)
    requires Instant(a) != Instant(b)
    ensures a != b
  {}

  lemma InstantOfMillis(c: Civil)
    requires ValidCivil(c)
    ensures Instant(Millis(c)) == Instant(c)
  {}

  /** From 1 January 1970 on, no valid date is before the epoch. */
  lemma {:induction false} EpochOrLater(d: Date)
    requires ValidDate(d) && d.year >= 1970
    ensures DaysFromCivil(d) >= 0
  {}

  /** For every valid civil time from 1970 on that fits 64 bits the round trip is exact. */
  lemma ModernRoundTrip(c: Civil)
    requires ValidCivil(c) && c.date.year >= 1970 && Instant(c) < TWO64
    ensures ToUnixMs(c).Some? && Split(ToUnixMs(c).value) == Millis(c)
  {
    EpochOrLater(c.date);
    CivilRoundTrip(c);
  }
}
