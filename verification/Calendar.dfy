/** Day numbers of the hybrid Julian/Gregorian calendar (`normalize`, `gregorian_jdn`,
    `julian_jdn`). Dafny's `/` and `%` are the Euclidean operators the program uses. */
module Calendar {
  import opened MachineInts

  datatype Fields = Fields(year: int, month: int, day: int, hour: int, minute: int, second: int)

  const CUTOVER := 2_299_161

  const EPOCH := 2_440_588

  function GregorianJdn(year: int, month: int): int {
    var a := (14 - month) / 12;
    var y := year + 4800 - a;
    var m := month + 12 * a - 3;
    1 + (153 * m + 2) / 5 + 365 * y + y / 4 - y / 100 + y / 400 - 32045
  }

  function JulianJdn(year: int, month: int): int {
    var a := (14 - month) / 12;
    var y := year + 4800 - a;
    var m := month + 12 * a - 3;
    1 + (153 * m + 2) / 5 + 365 * y + y / 4 - 32083
  }

  /** Day number of a year, a month in 1..12 and a day of any value. */
  function DayNumber(year: int, month: int, day: int): int {
    var g := GregorianJdn(year, month) + (day - 1);
    if g >= CUTOVER then g else JulianJdn(year, month) + (day - 1)
  }

  function YearOf(f: Fields): int { f.year + (f.month - 1) / 12 }

  function MonthOf(f: Fields): int { (f.month - 1) % 12 + 1 }

  function Normalize(f: Fields): int {
    var epochDay := DayNumber(YearOf(f), MonthOf(f), f.day) - EPOCH;
    epochDay * 86_400 + f.hour * 3_600 + f.minute * 60 + f.second
  }

  // ---------------------------------------------------------------------------------------------
  // The calendar itself, by leap-year rules and month lengths.

  predicate JulianLeap(year: int) { year % 4 == 0 }

  predicate GregorianLeap(year: int) { year % 4 == 0 && (year % 100 != 0 || year % 400 == 0) }

  function MonthLength(leap: bool, month: int): int
    requires 1 <= month <= 12
  {
    if month == 2 then (if leap then 29 else 28)
    else if month == 4 || month == 6 || month == 9 || month == 11 then 30
    else 31
  }

  datatype Date = Date(year: int, month: int, day: int)

  predicate Before(a: Date, b: Date) {
    a.year < b.year
    || (a.year == b.year && (a.month < b.month || (a.month == b.month && a.day < b.day)))
  }

  const LAST_JULIAN := Date(1582, 10, 4)

  const FIRST_GREGORIAN := Date(1582, 10, 15)

  /** The dates that exist: Julian ones to 1582-10-04, Gregorian ones from 1582-10-15. */
  predicate Exists(d: Date) {
    && 1 <= d.month <= 12
    && 1 <= d.day
    && if Before(d, FIRST_GREGORIAN)
       then d.day <= MonthLength(JulianLeap(d.year), d.month) && !Before(LAST_JULIAN, d)
       else d.day <= MonthLength(GregorianLeap(d.year), d.month)
  }

  function Number(d: Date): int { DayNumber(d.year, d.month, d.day) }

  // ---------------------------------------------------------------------------------------------
  // One month further.

  function NextMonth(year: int, month: int): (int, int) {
    if month == 12 then (year + 1, 1) else (year, month + 1)
  }

  function MarchDays(month: int): int
    requires 1 <= month <= 12
  {
    [306, 337, 0, 31, 61, 92, 122, 153, 184, 214, 245, 275][month - 1]
  }

  /** Months counted from March, with the day of the year on which each starts. */
  lemma MarchMonth(month: int)
    requires 1 <= month <= 12
    ensures (14 - month) / 12 == if month <= 2 then 1 else 0
    ensures (153 * (month + 12 * ((14 - month) / 12) - 3) + 2) / 5 == MarchDays(month)
  {
  }

  lemma CarryStep(y: int, n: int)
    requires n > 0
    ensures (y + 1) / n - y / n == if (y + 1) % n == 0 then 1 else 0
  {
    var q, r := y / n, y % n;
    assert y == q * n + r;
    if r == n - 1 {
      assert y + 1 == (q + 1) * n;
      Quotient(y + 1, n, q + 1, 0);
    } else {
      Quotient(y + 1, n, q, r + 1);
    }
  }

  lemma CarryYear(year: int, n: int, k: int)
    requires n > 0 && k * n == 4800
    ensures (year + 4800) / n == (year + 4799) / n + if year % n == 0 then 1 else 0
  {
    CarryStep(year + 4799, n);
    ModShift(year, k, n);
  }

  lemma Centuries(year: int)
    ensures year % 400 == 0 ==> year % 100 == 0
    ensures year % 100 == 0 ==> year % 4 == 0
  {
    ModOfMod(year, 100, 400);
    ModOfMod(year, 4, 100);
  }

  lemma LeapStep(year: int)
    ensures
      var y := year + 4799;
      (y + 1) / 4 - (y + 1) / 100 + (y + 1) / 400 - (y / 4 - y / 100 + y / 400)
      == if GregorianLeap(year) then 1 else 0
    ensures (year + 4800) / 4 - (year + 4799) / 4 == if JulianLeap(year) then 1 else 0
  {
    CarryYear(year, 4, 1200);
    CarryYear(year, 100, 48);
    CarryYear(year, 400, 12);
    Centuries(year);
  }

  /** Days of the whole years before the first of March of a year, counted from -4800. */
  function GregorianYears(y: int): int { 365 * y + y / 4 - y / 100 + y / 400 }

  function JulianYears(y: int): int { 365 * y + y / 4 }

  function MarchYear(year: int, month: int): int { if month <= 2 then year + 4799 else year + 4800 }

  lemma JdnParts(year: int, month: int)
    requires 1 <= month <= 12
    ensures GregorianJdn(year, month) == 1 + MarchDays(month) + GregorianYears(MarchYear(year, month)) - 32045
    ensures JulianJdn(year, month) == 1 + MarchDays(month) + JulianYears(MarchYear(year, month)) - 32083
  {
    MarchMonth(month);
  }

  lemma YearStep(year: int)
    ensures GregorianYears(year + 4800) == GregorianYears(year + 4799) + 365 + if GregorianLeap(year) then 1 else 0
    ensures JulianYears(year + 4800) == JulianYears(year + 4799) + 365 + if JulianLeap(year) then 1 else 0
  {
    hide GregorianLeap, JulianLeap;
    LeapStep(year);
  }

  lemma MonthParts(month: int, leap: bool)
    requires 1 <= month <= 12
    ensures month != 2 && month != 12 ==> MarchDays(month + 1) == MarchDays(month) + MonthLength(leap, month)
    ensures month == 12 ==> MarchDays(1) == MarchDays(12) + MonthLength(leap, month)
    ensures MarchDays(2) + MonthLength(leap, 2) == MarchDays(3) + 365 + if leap then 1 else 0
  {
  }

  lemma GregorianMonth(year: int, month: int)
    requires 1 <= month <= 12
    ensures
      var (y, m) := NextMonth(year, month);
      GregorianJdn(y, m) == GregorianJdn(year, month) + MonthLength(GregorianLeap(year), month)
  {
    hide GregorianJdn, JulianJdn, GregorianYears, JulianYears, MarchDays, MonthLength, GregorianLeap, JulianLeap;
    var (y, m) := NextMonth(year, month);
    JdnParts(year, month);
    JdnParts(y, m);
    YearStep(year);
    MonthParts(month, GregorianLeap(year));
  }

  lemma JulianMonth(year: int, month: int)
    requires 1 <= month <= 12
    ensures
      var (y, m) := NextMonth(year, month);
      JulianJdn(y, m) == JulianJdn(year, month) + MonthLength(JulianLeap(year), month)
  {
    hide GregorianJdn, JulianJdn, GregorianYears, JulianYears, MarchDays, MonthLength, GregorianLeap, JulianLeap;
    var (y, m) := NextMonth(year, month);
    JdnParts(year, month);
    JdnParts(y, m);
    YearStep(year);
    MonthParts(month, JulianLeap(year));
  }

  // ---------------------------------------------------------------------------------------------
  // Months counted from January of the year 0.

  const OCTOBER_1582 := 1582 * 12 + 9

  function Index(d: Date): int { 12 * d.year + d.month - 1 }

  function GregorianAt(i: int): int { GregorianJdn(i / 12, i % 12 + 1) }

  function JulianAt(i: int): int { JulianJdn(i / 12, i % 12 + 1) }

  lemma AtNext(i: int)
    ensures NextMonth(i / 12, i % 12 + 1) == ((i + 1) / 12, (i + 1) % 12 + 1)
    ensures GregorianAt(i + 1) == GregorianAt(i) + MonthLength(GregorianLeap(i / 12), i % 12 + 1)
    ensures JulianAt(i + 1) == JulianAt(i) + MonthLength(JulianLeap(i / 12), i % 12 + 1)
  {
    hide GregorianJdn, JulianJdn, MonthLength, GregorianLeap, JulianLeap;
    GregorianMonth(i / 12, i % 12 + 1);
    JulianMonth(i / 12, i % 12 + 1);
  }

  lemma {:induction false} GregorianIncreases(i: int, j: int)
    requires i <= j
    ensures GregorianAt(i) + 28 * (j - i) <= GregorianAt(j)
    decreases j - i
  {
    hide GregorianAt;
    if i < j {
      GregorianIncreases(i, j - 1);
      AtNext(j - 1);
    }
  }

  /** Number of the first day of a month, and how many days of the month exist. */
  function MonthStart(i: int): int { if i <= OCTOBER_1582 then JulianAt(i) else GregorianAt(i) }

  function MonthDays(i: int): int {
    if i < OCTOBER_1582 then MonthLength(JulianLeap(i / 12), i % 12 + 1)
    else if i == OCTOBER_1582 then 21
    else MonthLength(GregorianLeap(i / 12), i % 12 + 1)
  }

  lemma Autumn1582()
    ensures JulianJdn(1582, 10) == 2_299_157
    ensures GregorianJdn(1582, 9) == 2_299_117
    ensures GregorianJdn(1582, 10) == 2_299_147
    ensures GregorianJdn(1582, 11) == 2_299_178
  {
    assert 6382 / 4 == 1595 && 6382 / 100 == 63 && 6382 / 400 == 15;
    MarchMonth(9);
    MarchMonth(10);
    MarchMonth(11);
  }

  lemma CutoverMonths()
    ensures JulianAt(OCTOBER_1582) == 2_299_157
    ensures GregorianAt(OCTOBER_1582 - 1) == 2_299_117
    ensures GregorianAt(OCTOBER_1582) == 2_299_147
    ensures GregorianAt(OCTOBER_1582 + 1) == 2_299_178
  {
    hide JulianJdn, GregorianJdn;
    Autumn1582();
  }

  lemma StartNext(i: int)
    ensures MonthStart(i + 1) == MonthStart(i) + MonthDays(i)
    ensures MonthDays(i) >= 1
  {
    hide GregorianAt, JulianAt, GregorianLeap, JulianLeap;
    AtNext(i);
    CutoverMonths();
  }

  lemma {:induction false} StartsIncrease(i: int, j: int)
    requires i < j
    ensures MonthStart(i) + MonthDays(i) <= MonthStart(j)
    decreases j - i
  {
    hide MonthStart, MonthDays;
    StartNext(j - 1);
    if i < j - 1 {
      StartsIncrease(i, j - 1);
    }
  }

  /** Position of an existing date among the existing days of its month. */
  function Rank(d: Date): int {
    if Index(d) == OCTOBER_1582 && d.day >= 15 then d.day - 11 else d.day - 1
  }

  lemma Located(d: Date)
    requires Exists(d)
    ensures 0 <= Rank(d) < MonthDays(Index(d))
    ensures Number(d) == MonthStart(Index(d)) + Rank(d)
  {
    hide GregorianJdn, JulianJdn, GregorianLeap, JulianLeap;
    var i := Index(d);
    assert i / 12 == d.year && i % 12 + 1 == d.month;
    CutoverMonths();
    if i < OCTOBER_1582 {
      GregorianIncreases(i, OCTOBER_1582 - 1);
    } else if i > OCTOBER_1582 {
      GregorianIncreases(OCTOBER_1582 + 1, i);
    }
  }

  /** Day numbers follow the order of the dates strictly. */
  lemma NumberIncreases(a: Date, b: Date)
    requires Exists(a) && Exists(b)
    ensures Before(a, b) <==> Number(a) < Number(b)
  {
    hide Number, MonthStart, MonthDays;
    Located(a);
    Located(b);
    if Index(a) < Index(b) {
      StartsIncrease(Index(a), Index(b));
    } else if Index(b) < Index(a) {
      StartsIncrease(Index(b), Index(a));
    }
  }

  /** The month in which day `n` falls, looked for from month `i`. */
  function MonthHolding(n: int, i: int): (j: int)
    ensures MonthStart(j) <= n < MonthStart(j) + MonthDays(j)
    decreases
      !(MonthStart(i) <= n < MonthStart(i) + MonthDays(i)),
      if n < MonthStart(i) then MonthStart(i) - n else n - MonthStart(i)
  {
    hide MonthStart, MonthDays;
    StartNext(i);
    StartNext(i - 1);
    if n < MonthStart(i) then MonthHolding(n, i - 1)
    else if n >= MonthStart(i) + MonthDays(i) then MonthHolding(n, i + 1)
    else i
  }

  /** Every integer is the number of an existing date. */
  function DateOf(n: int): (d: Date)
    ensures Exists(d) && Number(d) == n
  {
    hide MonthStart, GregorianLeap, JulianLeap, Number;
    var i := MonthHolding(n, 1970 * 12);
    var r := n - MonthStart(i);
    var d := Date(i / 12, i % 12 + 1, if i == OCTOBER_1582 && r >= 4 then r + 11 else r + 1);
    assert Index(d) == i;
    Located(d);
    d
  }

  /** Numbering existing dates is a bijection onto the integers. */
  lemma DateOfNumber(d: Date)
    requires Exists(d)
    ensures DateOf(Number(d)) == d
  {
    NumberIncreases(d, DateOf(Number(d)));
    NumberIncreases(DateOf(Number(d)), d);
  }

  /** The date that follows an existing one. */
  function Tomorrow(d: Date): Date {
    if d == LAST_JULIAN then FIRST_GREGORIAN
    else if Exists(d.(day := d.day + 1)) then d.(day := d.day + 1)
    else
      var (y, m) := NextMonth(d.year, d.month);
      Date(y, m, 1)
  }

  lemma TomorrowExists(d: Date)
    requires Exists(d)
    ensures Exists(Tomorrow(d))
  {
    hide GregorianLeap, JulianLeap;
  }

  /** Tomorrow is the next day of the month, or the first of the next month. */
  lemma TomorrowRank(d: Date)
    requires Exists(d)
    ensures
      var t := Tomorrow(d);
      if Index(t) == Index(d) then Rank(t) == Rank(d) + 1
      else Index(t) == Index(d) + 1 && Rank(t) == 0 && Rank(d) + 1 == MonthDays(Index(d))
  {
    hide GregorianLeap, JulianLeap;
    assert Index(d) / 12 == d.year && Index(d) % 12 + 1 == d.month;
  }

  /** Consecutive dates have consecutive numbers, and nothing lies between them. */
  lemma TomorrowIsNext(d: Date)
    requires Exists(d)
    ensures Exists(Tomorrow(d)) && Number(Tomorrow(d)) == Number(d) + 1
    ensures forall e :: Exists(e) && Before(d, e) ==> e == Tomorrow(d) || Before(Tomorrow(d), e)
  {
    hide MonthStart, MonthDays, Number, Exists, Tomorrow, Rank, Index;
    var t := Tomorrow(d);
    TomorrowExists(d);
    TomorrowRank(d);
    Located(d);
    Located(t);
    StartNext(Index(d));
    forall e | Exists(e) && Before(d, e) ensures e == t || Before(t, e) {
      NumberIncreases(d, e);
      NumberIncreases(t, e);
      NumberIncreases(e, t);
    }
  }

  /** The ten dates skipped in October 1582 are read as the date ten days later. */
  lemma SkippedDates(day: int)
    ensures 5 <= day <= 14 <==> !Exists(Date(1582, 10, day)) && 1 <= day <= 31
    ensures 5 <= day <= 14 ==> DayNumber(1582, 10, day) == DayNumber(1582, 10, day + 10)
  {
    hide JulianJdn, GregorianJdn;
    Autumn1582();
  }

  // ---------------------------------------------------------------------------------------------
  // Lenient fields.

  /** Twelve months are a year, whatever the month field holds. */
  lemma MonthCarry(f: Fields, years: int)
    ensures Normalize(f.(month := f.month + 12 * years)) == Normalize(f.(year := f.year + years))
  {
    hide DayNumber;
    var m := f.month - 1;
    Quotient(m + 12 * years, 12, m / 12 + years, m % 12);
  }

  /** One day more is one day later, except where the day steps over the cutover in a month that the
      two calendars start on different days. */
  lemma DayCarry(f: Fields)
    ensures Normalize(f.(day := f.day + 1)) == Normalize(f) + 86_400
       <==> GregorianJdn(YearOf(f), MonthOf(f)) + f.day != CUTOVER
            || GregorianJdn(YearOf(f), MonthOf(f)) == JulianJdn(YearOf(f), MonthOf(f))
  {
    hide GregorianJdn, JulianJdn;
  }

  /** The day after the 14th of October 1582 is nine days earlier. */
  lemma DayCarryFails()
    ensures DayNumber(1582, 10, 15) == DayNumber(1582, 10, 14) - 9
    ensures Normalize(Fields(1582, 10, 15, 0, 0, 0)) == Normalize(Fields(1582, 10, 14, 0, 0, 0)) - 9 * 86_400
  {
    hide JulianJdn, GregorianJdn;
    Autumn1582();
  }

  /** Hours, minutes and seconds carry without exception. */
  lemma TimeCarry(f: Fields, k: int)
    ensures Normalize(f.(hour := f.hour + k)) == Normalize(f.(minute := f.minute + 60 * k))
    ensures Normalize(f.(minute := f.minute + k)) == Normalize(f.(second := f.second + 60 * k))
  {
    hide DayNumber;
  }

  predicate AllI32(f: Fields) {
    I32(f.year) && I32(f.month) && I32(f.day) && I32(f.hour) && I32(f.minute) && I32(f.second)
  }

  lemma JdnBounds(year: int, month: int)
    requires -3_000_000_000 <= year <= 3_000_000_000 && 1 <= month <= 12
    ensures -1_200_000_000_000 <= GregorianJdn(year, month) <= 1_200_000_000_000
    ensures -1_200_000_000_000 <= JulianJdn(year, month) <= 1_200_000_000_000
  {
    MarchMonth(month);
  }

  /** No 32-bit fields overflow 64 bits, and no offset of at most a day makes the result the failure
      sentinel. */
  lemma NormalizeFits(f: Fields, offset: int)
    requires AllI32(f) && -86_400 <= offset <= 86_400
    ensures
      var y, m := YearOf(f), MonthOf(f);
      && I64(365 * (y + 4800)) && I64(GregorianJdn(y, m) + (f.day - 1)) && I64(JulianJdn(y, m) + (f.day - 1))
      && I64((DayNumber(y, m, f.day) - EPOCH) * 86_400)
      && I64(f.hour * 3_600) && I64(f.minute * 60)
    ensures -0x4000_0000_0000_0000 < Normalize(f) < 0x4000_0000_0000_0000
    ensures I64(Normalize(f) - offset) && Normalize(f) - offset != -0x8000_0000_0000_0000
  {
    JdnBounds(YearOf(f), MonthOf(f));
  }

  // ---------------------------------------------------------------------------------------------
  // Absolute time: days counted from the first of January 1970, one date after the other.

  const EPOCH_DATE := Date(1970, 1, 1)

  lemma EpochNumber()
    ensures Exists(EPOCH_DATE) && Number(EPOCH_DATE) == EPOCH
  {
    MarchMonth(1);
    assert 6769 / 4 == 1692 && 6769 / 100 == 67 && 6769 / 400 == 16;
  }

  /** The date `n` tomorrows after `d`. */
  function Steps(d: Date, n: nat): Date { if n == 0 then d else Tomorrow(Steps(d, n - 1)) }

  lemma {:induction false} StepsNumber(d: Date, n: nat)
    requires Exists(d)
    ensures Exists(Steps(d, n)) && Number(Steps(d, n)) == Number(d) + n
    decreases n
  {
    hide Exists, Number, Tomorrow;
    if n > 0 {
      StepsNumber(d, n - 1);
      TomorrowIsNext(Steps(d, n - 1));
    }
  }

  /** `d` comes `n` days after the first of January 1970, or -n days before it. */
  predicate DaysFromEpoch(d: Date, n: int) {
    if n >= 0 then Steps(EPOCH_DATE, n) == d else Steps(d, -n) == EPOCH_DATE
  }

  lemma SameNumber(a: Date, b: Date)
    requires Exists(a) && Exists(b) && Number(a) == Number(b)
    ensures a == b
  {
    hide Exists, Number;
    DateOfNumber(a);
    DateOfNumber(b);
  }

  /** Every existing date is reached by counting days, in one way. */
  lemma DaysExactly(d: Date, n: int)
    requires Exists(d)
    ensures DaysFromEpoch(d, n) <==> n == Number(d) - EPOCH
  {
    hide Exists, Number, Tomorrow, Steps;
    EpochNumber();
    if n >= 0 {
      StepsNumber(EPOCH_DATE, n);
      if n == Number(d) - EPOCH { SameNumber(Steps(EPOCH_DATE, n), d); }
    } else {
      StepsNumber(d, -n);
      if n == Number(d) - EPOCH { SameNumber(Steps(d, -n), EPOCH_DATE); }
    }
  }

  /** A date and a time of day normalise to the seconds since the first of January 1970. */
  lemma NormalizeIs(d: Date, n: int, hour: int, minute: int, second: int)
    requires Exists(d) && DaysFromEpoch(d, n)
    ensures Normalize(Fields(d.year, d.month, d.day, hour, minute, second)) ==
            86_400 * n + 3_600 * hour + 60 * minute + second
  {
    hide DayNumber, Steps, DaysFromEpoch;
    DaysExactly(d, n);
  }

  /** One second more is one second later, whatever the fields hold. */
  lemma SecondLater(f: Fields)
    ensures Normalize(f.(second := f.second + 1)) == Normalize(f) + 1
  {
    hide DayNumber;
  }
}
