/** Local dates and times of day, and months between two instants (`offset_seconds_at`,
    `ts_ms_to_local_date32`, `extract_hms_with_tz`, `days_in_month`, `months_between_value`). The zone
    database is a parameter; a month count is left as an exact real. */
module LocalTime {
  import opened Seqs
  import opened MachineInts
  import opened Calendar

  const MS_PER_SEC := 1000

  const MS_PER_MIN := 60_000

  const MS_PER_HOUR := 3_600_000

  const MS_PER_DAY := 86_400_000

  /** The offset of a zone at an instant, in seconds; None at an instant that is not a date of the date
      library, and everywhere when there is no zone. */
  type Zone = int -> Option<int>

  /** The date library ends before the year 262144 either way, well within this many milliseconds. */
  const LAST_INSTANT := 10_000_000_000_000_000

  /** Offsets of at most a day, at instants the date library knows. */
  ghost predicate ZoneOk(zone: Zone) {
    forall ms :: zone(ms).Some? ==> Abs(zone(ms).value) <= 86_400 && Abs(ms) <= LAST_INSTANT
  }

  function OffsetAt(zone: Zone, epochMs: int): int {
    match zone(epochMs)
    case Some(offset) => offset
    case None => 0
  }

  /** Local time, in milliseconds. */
  function Local(zone: Zone, epochMs: int): int {
    epochMs + 1000 * if zone(epochMs).Some? then zone(epochMs).value else 0
  }

  /** Local time as it is computed, in arithmetic that wraps. */
  function LocalMs(zone: Zone, epochMs: int): int {
    WrapI64(epochMs + WrapI64(OffsetAt(zone, epochMs) * MS_PER_SEC))
  }

  /** Days since 1970-01-01, narrowed to 32 bits. */
  function LocalDate(zone: Zone, epochMs: int): int {
    var local := LocalMs(zone, epochMs);
    var days :=
      if local >= 0 then TruncDiv(local, MS_PER_DAY)
      else TruncDiv(WrapI64(WrapI64(local - MS_PER_DAY) + 1), MS_PER_DAY);
    WrapI32(days)
  }

  function DayMs(zone: Zone, epochMs: int): int {
    var day := TruncRem(LocalMs(zone, epochMs), MS_PER_DAY);
    if day < 0 then day + MS_PER_DAY else day
  }

  function Hour(zone: Zone, epochMs: int): int { TruncDiv(DayMs(zone, epochMs), MS_PER_HOUR) }

  function Minute(zone: Zone, epochMs: int): int {
    TruncDiv(TruncRem(DayMs(zone, epochMs), MS_PER_HOUR), MS_PER_MIN)
  }

  function Second(zone: Zone, epochMs: int): int {
    TruncDiv(TruncRem(DayMs(zone, epochMs), MS_PER_MIN), MS_PER_SEC)
  }

  /** Nothing wraps: far from 1970 the offset is zero. */
  lemma LocalIsComputed(zone: Zone, epochMs: int)
    requires I64(epochMs) && ZoneOk(zone)
    ensures LocalMs(zone, epochMs) == Local(zone, epochMs) && I64(Local(zone, epochMs))
  {
    hide WrapI64;
    assert zone(epochMs).Some? ==> Abs(zone(epochMs).value) <= 86_400 && Abs(epochMs) <= LAST_INSTANT;
  }

  lemma DayMsIs(zone: Zone, epochMs: int)
    ensures DayMs(zone, epochMs) == LocalMs(zone, epochMs) % MS_PER_DAY
  {
    hide LocalMs;
  }

  lemma Clock(day: int)
    requires 0 <= day < MS_PER_DAY
    ensures
      var h, m, s := TruncDiv(day, MS_PER_HOUR), TruncDiv(TruncRem(day, MS_PER_HOUR), MS_PER_MIN),
                     TruncDiv(TruncRem(day, MS_PER_MIN), MS_PER_SEC);
      0 <= h < 24 && 0 <= m < 60 && 0 <= s < 60 && h * 3_600 + m * 60 + s == day / MS_PER_SEC
  {
    var h, inHour := day / MS_PER_HOUR, day % MS_PER_HOUR;
    var m, inMinute := inHour / MS_PER_MIN, inHour % MS_PER_MIN;
    ModOfMod(day, MS_PER_MIN, MS_PER_HOUR);
    var s, rest := inMinute / MS_PER_SEC, inMinute % MS_PER_SEC;
    Quotient(day, MS_PER_SEC, h * 3_600 + m * 60 + s, rest);
  }

  lemma DaysAndSeconds(local: int)
    ensures local / MS_PER_DAY * 86_400 + local % MS_PER_DAY / MS_PER_SEC == local / MS_PER_SEC
  {
    var day, inDay := local / MS_PER_DAY, local % MS_PER_DAY;
    Quotient(local, MS_PER_SEC, day * 86_400 + inDay / MS_PER_SEC, inDay % MS_PER_SEC);
  }

  /** For every 64-bit instant, before 1970 too, the time of day is the position of the local second in
      its local day. */
  lemma TimeOfDay(zone: Zone, epochMs: int)
    requires I64(epochMs) && ZoneOk(zone)
    ensures
      var h, m, s := Hour(zone, epochMs), Minute(zone, epochMs), Second(zone, epochMs);
      && 0 <= h < 24 && 0 <= m < 60 && 0 <= s < 60
      && Local(zone, epochMs) / MS_PER_DAY * 86_400 + h * 3_600 + m * 60 + s
         == Local(zone, epochMs) / MS_PER_SEC
  {
    LocalIsComputed(zone, epochMs);
    hide TruncRem, TruncDiv, DayMs, LocalMs, Local;
    DayMsIs(zone, epochMs);
    Clock(DayMs(zone, epochMs));
    DaysAndSeconds(Local(zone, epochMs));
  }

  /** The date is the floor of the local days exactly when that fits 32 bits. */
  lemma LocalDateIsFloor(zone: Zone, epochMs: int)
    requires I64(epochMs) && ZoneOk(zone)
    ensures LocalDate(zone, epochMs) == Local(zone, epochMs) / MS_PER_DAY <==> I32(Local(zone, epochMs) / MS_PER_DAY)
  {
    LocalIsComputed(zone, epochMs);
    hide LocalMs, Local;
  }

  /** 2^31 days after 1970 the date is 2^31 days before. */
  lemma DayNarrowed()
    ensures LocalDate(ms => None, TWO_31 * MS_PER_DAY) == -TWO_31
  {
  }

  /** Date and time of day together are the floor of the local seconds, exactly on the days that fit
      32 bits. */
  lemma DateAndTime(zone: Zone, epochMs: int)
    requires I64(epochMs) && ZoneOk(zone)
    ensures LocalDate(zone, epochMs) * 86_400 + Hour(zone, epochMs) * 3_600
            + Minute(zone, epochMs) * 60 + Second(zone, epochMs)
            == Local(zone, epochMs) / MS_PER_SEC
       <==> I32(Local(zone, epochMs) / MS_PER_DAY)
  {
    hide LocalDate, Hour, Minute, Second, Local;
    LocalDateIsFloor(zone, epochMs);
    TimeOfDay(zone, epochMs);
  }

  // ---------------------------------------------------------------------------------------------
  // Month lengths and proleptic Gregorian dates.

  function DaysInMonth(year: int, month: int): int
    requires 1 <= month <= 12
  {
    if month == 1 || month == 3 || month == 5 || month == 7 || month == 8 || month == 10 || month == 12 then 31
    else if month == 4 || month == 6 || month == 9 || month == 11 then 30
    else if (TruncRem(year, 4) == 0 && TruncRem(year, 100) != 0) || TruncRem(year, 400) == 0 then 29
    else 28
  }

  lemma TruncatesToZero(x: int, n: int)
    requires n > 0
    ensures TruncRem(x, n) == 0 <==> x % n == 0
  {
    if x < 0 {
      var q, r := -x / n, -x % n;
      assert -x == q * n + r;
      assert (-q) * n == -(q * n) && (-q - 1) * n == -(q * n) - n;
      if r == 0 {
        Quotient(x, n, -q, 0);
      } else {
        Quotient(x, n, -q - 1, n - r);
      }
    }
  }

  lemma LeapAgrees(year: int)
    ensures (TruncRem(year, 4) == 0 && TruncRem(year, 100) != 0) || TruncRem(year, 400) == 0 <==> GregorianLeap(year)
  {
    hide TruncRem;
    TruncatesToZero(year, 4);
    TruncatesToZero(year, 100);
    TruncatesToZero(year, 400);
    Centuries(year);
  }

  lemma LengthAgrees(year: int, month: int)
    requires 1 <= month <= 12
    ensures DaysInMonth(year, month) == MonthLength(GregorianLeap(year), month)
  {
    hide GregorianLeap, TruncRem;
    LeapAgrees(year);
  }

  /** Month lengths are the differences of successive first days, for years of either sign. */
  lemma DaysInMonthIsDifference(year: int, month: int)
    requires 1 <= month <= 12
    ensures
      var (y, m) := NextMonth(year, month);
      DaysInMonth(year, month) == GregorianJdn(y, m) - GregorianJdn(year, month)
  {
    hide GregorianJdn, DaysInMonth, MonthLength, GregorianLeap;
    GregorianMonth(year, month);
    LengthAgrees(year, month);
  }

  predicate Civil(d: Date) { 1 <= d.month <= 12 && 1 <= d.day <= DaysInMonth(d.year, d.month) }

  function CivilNumber(d: Date): int { GregorianJdn(d.year, d.month) + d.day - 1 }

  function CivilMonth(n: int, i: int): (j: int)
    ensures GregorianAt(j) <= n < GregorianAt(j + 1)
    decreases
      !(GregorianAt(i) <= n < GregorianAt(i + 1)),
      if n < GregorianAt(i) then GregorianAt(i) - n else n - GregorianAt(i)
  {
    hide GregorianAt;
    GregorianIncreases(i - 1, i);
    GregorianIncreases(i, i + 1);
    if n < GregorianAt(i) then CivilMonth(n, i - 1)
    else if n >= GregorianAt(i + 1) then CivilMonth(n, i + 1)
    else i
  }

  lemma MonthOfIndex(i: int)
    ensures GregorianAt(i) == GregorianJdn(i / 12, i % 12 + 1)
    ensures GregorianAt(i + 1) == GregorianAt(i) + DaysInMonth(i / 12, i % 12 + 1)
  {
    hide GregorianJdn, DaysInMonth;
    AtNext(i);
    DaysInMonthIsDifference(i / 12, i % 12 + 1);
  }

  /** The Gregorian date of a day number. */
  function CivilDate(n: int): (d: Date)
    ensures Civil(d) && CivilNumber(d) == n
  {
    hide GregorianAt, GregorianJdn, DaysInMonth;
    var i := CivilMonth(n, 1970 * 12);
    MonthOfIndex(i);
    Date(i / 12, i % 12 + 1, n - GregorianAt(i) + 1)
  }

  lemma InMonth(d: Date)
    requires Civil(d)
    ensures GregorianAt(Index(d)) <= CivilNumber(d) < GregorianAt(Index(d) + 1)
    ensures CivilNumber(d) == GregorianAt(Index(d)) + d.day - 1
    ensures GregorianAt(Index(d) + 1) == GregorianAt(Index(d)) + DaysInMonth(d.year, d.month)
  {
    hide GregorianJdn, DaysInMonth;
    assert Index(d) / 12 == d.year && Index(d) % 12 + 1 == d.month;
    MonthOfIndex(Index(d));
  }

  /** Day numbers order the Gregorian dates, so each date has one number and each number one date. */
  lemma CivilOrder(a: Date, b: Date)
    requires Civil(a) && Civil(b)
    ensures Before(a, b) <==> CivilNumber(a) < CivilNumber(b)
    ensures CivilNumber(a) == CivilNumber(b) ==> a == b
  {
    hide GregorianAt, GregorianJdn, CivilNumber, DaysInMonth;
    InMonth(a);
    InMonth(b);
    if Index(a) < Index(b) {
      GregorianIncreases(Index(a) + 1, Index(b));
    } else if Index(b) < Index(a) {
      GregorianIncreases(Index(b) + 1, Index(a));
    }
  }

  // ---------------------------------------------------------------------------------------------
  // Months between two instants, in UTC.

  const SECONDS_PER_MONTH := 2_678_400

  function DateAt(ms: int): Date { CivilDate(ms / MS_PER_DAY + EPOCH) }

  function MonthCount(d: Date): int { d.year * 12 + d.month }

  function SecondsInDay(ms: int): int { TruncDiv(ms - ms / MS_PER_DAY * MS_PER_DAY, 1000) }

  predicate LastOfMonth(d: Date)
    requires Civil(d)
  {
    DaysInMonth(d.year, d.month) - d.day == 0
  }

  function MonthDifference(ms1: int, ms2: int): int { MonthCount(DateAt(ms1)) - MonthCount(DateAt(ms2)) }

  /** Instants whose distance is a whole number of months. */
  predicate Whole(ms1: int, ms2: int) {
    var d1, d2 := DateAt(ms1), DateAt(ms2);
    d1.day == d2.day || (LastOfMonth(d1) && LastOfMonth(d2))
  }

  function SecondsDifference(ms1: int, ms2: int): int {
    (DateAt(ms1).day - DateAt(ms2).day) * 86_400 + SecondsInDay(ms1) - SecondsInDay(ms2)
  }

  function MonthsBetween(ms1: int, ms2: int): real {
    var months := MonthDifference(ms1, ms2) as real;
    if Whole(ms1, ms2) then months
    else months + SecondsDifference(ms1, ms2) as real / SECONDS_PER_MONTH as real
  }

  lemma SecondsBound(ms: int)
    ensures 0 <= SecondsInDay(ms) < 86_400
    ensures SecondsInDay(ms) == ms % MS_PER_DAY / 1000
  {
  }

  lemma MonthLengths(year: int, month: int)
    requires 1 <= month <= 12
    ensures 28 <= DaysInMonth(year, month) <= 31
  {
  }

  /** The fraction of a month never reaches one, and vanishes only for whole months. */
  lemma WithinAMonth(ms1: int, ms2: int)
    ensures -1.0 < MonthsBetween(ms1, ms2) - MonthDifference(ms1, ms2) as real < 1.0
    ensures MonthsBetween(ms1, ms2) == MonthDifference(ms1, ms2) as real <==> Whole(ms1, ms2)
  {
    hide MonthDifference, CivilDate, SecondsInDay, DaysInMonth;
    SecondsBound(ms1);
    SecondsBound(ms2);
    var d1, d2 := DateAt(ms1), DateAt(ms2);
    MonthLengths(d1.year, d1.month);
    MonthLengths(d2.year, d2.month);
    var s := SecondsDifference(ms1, ms2);
    assert -SECONDS_PER_MONTH < s < SECONDS_PER_MONTH;
    assert d1.day != d2.day ==> s != 0;
  }

  lemma Antisymmetric(ms1: int, ms2: int)
    ensures MonthsBetween(ms2, ms1) == -MonthsBetween(ms1, ms2)
  {
    hide DateAt, SecondsInDay, MonthCount;
    assert MonthDifference(ms2, ms1) == -MonthDifference(ms1, ms2);
    assert SecondsDifference(ms2, ms1) == -SecondsDifference(ms1, ms2);
  }

  /** A later instant is never a negative number of months away. */
  lemma NeverNegative(ms1: int, ms2: int)
    requires ms1 >= ms2
    ensures MonthsBetween(ms1, ms2) >= 0.0
  {
    var d1, d2 := DateAt(ms1), DateAt(ms2);
    hide CivilDate, SecondsInDay, DaysInMonth, CivilNumber;
    CivilOrder(d1, d2);
    WithinAMonth(ms1, ms2);
    SecondsBound(ms1);
    SecondsBound(ms2);
  }

  // ---------------------------------------------------------------------------------------------
  // Absolute dates and fractions.

  lemma EpochYears()
    ensures GregorianYears(6769) == 2_472_326
  {
    assert 6769 / 4 == 1692 && 6769 / 100 == 67 && 6769 / 400 == 16;
  }

  lemma EpochIsCivil()
    ensures Civil(Date(1970, 1, 1)) && CivilNumber(Date(1970, 1, 1)) == EPOCH
  {
    hide GregorianYears;
    JdnParts(1970, 1);
    EpochYears();
  }

  /** Dates are counted from the first of January 1970. */
  lemma DateAtDays(ms: int)
    ensures DateAt(0) == Date(1970, 1, 1)
    ensures CivilNumber(DateAt(ms)) - CivilNumber(Date(1970, 1, 1)) == ms / MS_PER_DAY
  {
    hide CivilDate, CivilNumber, Exists, Number;
    EpochIsCivil();
    CivilOrder(DateAt(0), Date(1970, 1, 1));
  }

  /** Seconds since the first midnight of the month. */
  function SecondsOfMonth(ms: int): int {
    ms / 1000 - (GregorianJdn(DateAt(ms).year, DateAt(ms).month) - EPOCH) * 86_400
  }

  lemma SecondsOfMonthIs(ms: int)
    ensures SecondsOfMonth(ms) == (DateAt(ms).day - 1) * 86_400 + SecondsInDay(ms)
  {
    var d := DateAt(ms);
    assert CivilNumber(d) == ms / MS_PER_DAY + EPOCH;
    hide GregorianJdn, SecondsInDay, CivilDate;
    SecondsBound(ms);
    DaysAndSeconds(ms);
  }

  /** Where the months are not whole, the fraction is the difference of the seconds since the beginnings of the
      two months, in months of 31 days. */
  lemma FractionOfMonth(ms1: int, ms2: int)
    requires !Whole(ms1, ms2)
    ensures (MonthsBetween(ms1, ms2) - MonthDifference(ms1, ms2) as real) * 2_678_400.0 ==
            (SecondsOfMonth(ms1) - SecondsOfMonth(ms2)) as real
  {
    hide MonthDifference, Whole, SecondsOfMonth, DateAt, SecondsInDay;
    SecondsOfMonthIs(ms1);
    SecondsOfMonthIs(ms2);
    assert SecondsDifference(ms1, ms2) == SecondsOfMonth(ms1) - SecondsOfMonth(ms2);
  }

  lemma NextDay(ms: int)
    ensures (ms + MS_PER_DAY) / MS_PER_DAY == ms / MS_PER_DAY + 1
    ensures (ms + MS_PER_DAY) % MS_PER_DAY == ms % MS_PER_DAY
  {
    Quotient(ms + MS_PER_DAY, MS_PER_DAY, ms / MS_PER_DAY + 1, ms % MS_PER_DAY);
  }

  lemma DayLater(ms: int)
    ensures CivilNumber(DateAt(ms + MS_PER_DAY)) == CivilNumber(DateAt(ms)) + 1
    ensures SecondsInDay(ms + MS_PER_DAY) == SecondsInDay(ms)
  {
    hide CivilNumber, SecondsInDay, CivilDate;
    NextDay(ms);
    SecondsBound(ms);
    SecondsBound(ms + MS_PER_DAY);
    assert SecondsInDay(ms + MS_PER_DAY) == ms % MS_PER_DAY / 1000;
  }

  lemma SameMonth(a: Date, b: Date)
    requires Civil(a) && Civil(b) && MonthCount(a) == MonthCount(b)
    ensures a.year == b.year && a.month == b.month
    ensures CivilNumber(a) - CivilNumber(b) == a.day - b.day
  {
    hide GregorianJdn, DaysInMonth;
  }

  /** One day later in the same month is 1/31 of a month. */
  lemma OneDay(ms: int)
    requires MonthDifference(ms + MS_PER_DAY, ms) == 0
    ensures MonthsBetween(ms + MS_PER_DAY, ms) == 1.0 / 31.0
  {
    hide CivilNumber, SecondsInDay, DaysInMonth, CivilDate, MonthCount;
    var a, b := DateAt(ms + MS_PER_DAY), DateAt(ms);
    DayLater(ms);
    SameMonth(a, b);
    assert SecondsDifference(ms + MS_PER_DAY, ms) == 86_400;
    assert !Whole(ms + MS_PER_DAY, ms);
  }

  /** The last day of a month is the one whose tomorrow is a first. */
  lemma LastIsBeforeFirst(ms: int)
    ensures LastOfMonth(DateAt(ms)) <==> DateAt(ms + MS_PER_DAY).day == 1
  {
    hide CivilDate, DaysInMonth, GregorianAt, GregorianJdn, CivilNumber;
    DayLater(ms);
    var a, b := DateAt(ms), DateAt(ms + MS_PER_DAY);
    InMonth(a);
    InMonth(b);
    if Index(b) <= Index(a) {
      GregorianIncreases(Index(b), Index(a));
      if Index(b) < Index(a) { GregorianIncreases(Index(b) + 1, Index(a)); }
    } else {
      GregorianIncreases(Index(a) + 1, Index(b));
    }
    MonthLengths(a.year, a.month);
  }

  /** Months are whole between equal days of the month, and between days before a first. */
  lemma WholeExactly(ms1: int, ms2: int)
    ensures Whole(ms1, ms2) <==>
      || DateAt(ms1).day == DateAt(ms2).day
      || (DateAt(ms1 + MS_PER_DAY).day == 1 && DateAt(ms2 + MS_PER_DAY).day == 1)
  {
    hide DateAt;
    LastIsBeforeFirst(ms1);
    LastIsBeforeFirst(ms2);
  }

  /** The month difference counts months one after the other, December and January included. */
  lemma OneMonth(ms1: int, ms2: int)
    requires NextMonth(DateAt(ms2).year, DateAt(ms2).month) == (DateAt(ms1).year, DateAt(ms1).month)
    ensures MonthDifference(ms1, ms2) == 1
  {
    hide DateAt;
  }

  /** Month differences add up. */
  lemma MonthsAdd(ms1: int, ms2: int, ms3: int)
    ensures MonthDifference(ms1, ms3) == MonthDifference(ms1, ms2) + MonthDifference(ms2, ms3)
  {
    hide DateAt;
  }
}
