/** Integer rounding of decimals (`round_i128_half_up`, `round_i128_half_even`,
    `change_precision_round_half_up`): the exact roundings and their laws, then the same branches in
    wrapping 128-bit arithmetic and exactly when the two agree. */
module DecimalRounding {
  import opened Seqs
  import opened MachineInts

  lemma SplitNat(v: nat, f: int)
    requires f > 0
    ensures v == v / f * f + v % f && v / f >= 0
  {
  }

  lemma Negated(p: int, f: int)
    ensures (-p) * f == -(p * f)
  {
  }

  lemma Split(v: int, f: int)
    requires f > 0
    ensures v == TruncDiv(v, f) * f + TruncRem(v, f) && Abs(TruncRem(v, f)) < f
    ensures v >= 0 ==> TruncRem(v, f) >= 0 && TruncDiv(v, f) >= 0
    ensures v < 0 ==> TruncRem(v, f) <= 0 && TruncDiv(v, f) <= 0
  {
    SplitNat(Abs(v), f);
    Negated(Abs(v) / f, f);
  }

  lemma Stepped(p: int, f: int)
    ensures (p + 1) * f == p * f + f && (p - 1) * f == p * f - f
  {
  }

  lemma ExactQuotient(q: int, f: int)
    requires f > 0
    ensures TruncDiv(q * f, f) == q
  {
    Multiples(q, f);
    Negated(q, f);
    Quotient(Abs(q) * f, f, Abs(q), 0);
  }

  /** Rounding to a multiple of `factor`, ties away from zero. */
  function HalfUp(value: int, factor: int): int
    requires factor > 0
  {
    var remainder := TruncRem(value, factor);
    var base := value - remainder;
    if value >= 0 then
      if remainder * 2 >= factor then base + factor else base
    else if Abs(remainder) * 2 >= factor then base - factor
    else base
  }

  /** Rounding to a multiple of `factor`, ties to the even multiple. */
  function HalfEven(value: int, factor: int): int
    requires factor > 0
  {
    var remainder := TruncRem(value, factor);
    var base := value - remainder;
    var twice := Abs(remainder) * 2;
    if twice > factor then
      if value >= 0 then base + factor else base - factor
    else if twice < factor then base
    else
      var q := TruncDiv(base, factor);
      if TruncRem(q, 2) == 0 then base
      else if value >= 0 then base + factor
      else base - factor
  }

  // ---------------------------------------------------------------------------------------------
  // What the results are, in terms of distances.

  /** `q * factor` is a multiple nearest to `value`. */
  predicate Nearest(value: int, factor: int, q: int) { 2 * Abs(q * factor - value) <= factor }

  predicate Tie(value: int, factor: int, q: int) { 2 * Abs(q * factor - value) == factor }

  /** The nearest multiple; of two, the one further from zero. */
  ghost predicate IsHalfUp(value: int, factor: int, q: int) {
    Nearest(value, factor, q) && (Tie(value, factor, q) ==> Abs(q * factor) > Abs(value))
  }

  /** The nearest multiple; of two, the even one. */
  ghost predicate IsHalfEven(value: int, factor: int, q: int) {
    Nearest(value, factor, q) && (Tie(value, factor, q) ==> q % 2 == 0)
  }

  ghost predicate RoundsHalfUp(value: int, factor: int, r: int) {
    exists q :: IsHalfUp(value, factor, q) && r == q * factor
  }

  ghost predicate RoundsHalfEven(value: int, factor: int, r: int) {
    exists q :: IsHalfEven(value, factor, q) && r == q * factor
  }

  lemma HalfUpMeaning(value: int, factor: int) returns (q: int)
    requires factor > 0
    ensures HalfUp(value, factor) == q * factor && IsHalfUp(value, factor, q)
  {
    hide TruncRem, TruncDiv;
    Split(value, factor);
    var d, r := TruncDiv(value, factor), TruncRem(value, factor);
    Stepped(d, factor);
    q := if 2 * Abs(r) < factor then d else if value >= 0 then d + 1 else d - 1;
    ghost var m, n := d * factor, q * factor;
    assert HalfUp(value, factor) == n;
  }

  lemma Parity(d: int)
    ensures TruncRem(d, 2) == 0 <==> d % 2 == 0
  {
  }

  lemma HalfEvenMeaning(value: int, factor: int) returns (q: int)
    requires factor > 0
    ensures HalfEven(value, factor) == q * factor && IsHalfEven(value, factor, q)
  {
    hide TruncDiv, TruncRem;
    Split(value, factor);
    var d, r := TruncDiv(value, factor), TruncRem(value, factor);
    Stepped(d, factor);
    ExactQuotient(d, factor);
    Parity(d);
    q := if 2 * Abs(r) < factor || (2 * Abs(r) == factor && d % 2 == 0) then d
         else if value >= 0 then d + 1 else d - 1;
    ghost var m, n := d * factor, q * factor;
    assert value - r == m;
    assert HalfEven(value, factor) == n;
  }

  /** Distinct multiples lie at least one factor apart, and non-adjacent ones two. */
  lemma Apart(p: int, q: int, factor: int)
    requires factor > 0
    ensures q >= p ==> q * factor >= p * factor
    ensures q >= p + 1 ==> q * factor >= p * factor + factor
    ensures q >= p + 2 ==> q * factor >= p * factor + 2 * factor
    ensures q == p + 1 ==> q * factor == p * factor + factor
  {
    var d := q - p;
    assert q * factor == p * factor + d * factor;
    Multiples(d, factor);
    Multiples(d - 1, factor);
    Stepped(d, factor);
    Stepped(p, factor);
  }

  /** Two nearest multiples are equal or the two ends of a tie. */
  lemma NearestPair(value: int, factor: int, p: int, q: int)
    requires factor > 0 && Nearest(value, factor, p) && Nearest(value, factor, q)
    ensures p == q || (Abs(p - q) == 1 && Tie(value, factor, p) && Tie(value, factor, q))
  {
    Apart(p, q, factor);
    Apart(q, p, factor);
  }

  /** Zero is a multiple, so it does not lie strictly between two neighbours. */
  lemma ZeroBetween(factor: int, p: int, q: int)
    requires factor > 0
    ensures (p >= 0 ==> p * factor >= 0) && (p <= 0 ==> p * factor <= 0)
    ensures (q >= 0 ==> q * factor >= 0) && (q <= 0 ==> q * factor <= 0)
  {
    Apart(0, p, factor);
    Apart(0, q, factor);
    Apart(p, 0, factor);
    Apart(q, 0, factor);
  }

  /** At most one multiple is the half-up rounding, and at most one the half-even rounding. */
  lemma HalfUpUnique(value: int, factor: int, p: int, q: int)
    requires factor > 0 && IsHalfUp(value, factor, p) && IsHalfUp(value, factor, q)
    ensures p == q
  {
    NearestPair(value, factor, p, q);
    Apart(p, q, factor);
    Apart(q, p, factor);
    ZeroBetween(factor, p, q);
  }

  lemma HalfEvenUnique(value: int, factor: int, p: int, q: int)
    requires factor > 0 && IsHalfEven(value, factor, p) && IsHalfEven(value, factor, q)
    ensures p == q
  {
    NearestPair(value, factor, p, q);
  }

  // ---------------------------------------------------------------------------------------------
  // Laws.

  /** Both roundings leave multiples alone, so they are idempotent. */
  lemma MultiplesStay(q: int, factor: int)
    requires factor > 0
    ensures HalfUp(q * factor, factor) == q * factor && HalfEven(q * factor, factor) == q * factor
  {
    hide HalfUp, HalfEven;
    var a := HalfUpMeaning(q * factor, factor);
    var b := HalfEvenMeaning(q * factor, factor);
    NearestPair(q * factor, factor, a, q);
    NearestPair(q * factor, factor, b, q);
  }

  lemma Idempotent(value: int, factor: int)
    requires factor > 0
    ensures HalfUp(HalfUp(value, factor), factor) == HalfUp(value, factor)
    ensures HalfEven(HalfEven(value, factor), factor) == HalfEven(value, factor)
  {
    hide HalfUp, HalfEven;
    var p := HalfUpMeaning(value, factor);
    var q := HalfEvenMeaning(value, factor);
    MultiplesStay(p, factor);
    MultiplesStay(q, factor);
  }

  lemma HalfUpOdd(value: int, factor: int)
    requires factor > 0
    ensures HalfUp(-value, factor) == -HalfUp(value, factor)
  {
    hide HalfUp;
    var p := HalfUpMeaning(value, factor);
    var p' := HalfUpMeaning(-value, factor);
    Negated(p, factor);
    HalfUpUnique(-value, factor, p', -p);
  }

  lemma HalfEvenOdd(value: int, factor: int)
    requires factor > 0
    ensures HalfEven(-value, factor) == -HalfEven(value, factor)
  {
    hide HalfEven;
    var q := HalfEvenMeaning(value, factor);
    var q' := HalfEvenMeaning(-value, factor);
    Negated(q, factor);
    HalfEvenUnique(-value, factor, q', -q);
  }

  lemma Odd(value: int, factor: int)
    requires factor > 0
    ensures HalfUp(-value, factor) == -HalfUp(value, factor)
    ensures HalfEven(-value, factor) == -HalfEven(value, factor)
  {
    HalfUpOdd(value, factor);
    HalfEvenOdd(value, factor);
  }

  /** Nearest multiples follow the order of the values, except between the two ends of a tie. */
  lemma NearestOrdered(v: int, w: int, factor: int, p: int, q: int)
    requires factor > 0 && v <= w && Nearest(v, factor, p) && Nearest(w, factor, q)
    ensures p * factor <= q * factor || v == w
  {
    Apart(q, p, factor);
    Apart(p, q, factor);
  }

  lemma Monotone(v: int, w: int, factor: int)
    requires factor > 0 && v <= w
    ensures HalfUp(v, factor) <= HalfUp(w, factor)
    ensures HalfEven(v, factor) <= HalfEven(w, factor)
  {
    hide HalfUp, HalfEven;
    var a := HalfUpMeaning(v, factor);
    var b := HalfUpMeaning(w, factor);
    NearestOrdered(v, w, factor, a, b);
    var c := HalfEvenMeaning(v, factor);
    var d := HalfEvenMeaning(w, factor);
    NearestOrdered(v, w, factor, c, d);
  }

  // ---------------------------------------------------------------------------------------------
  // Powers of ten and the width of an i128.

  lemma {:induction false} Pow10Monotone(a: nat, b: nat)
    requires a <= b
    ensures Pow10(a) <= Pow10(b)
    decreases b
  {
    if a < b { Pow10Monotone(a, b - 1); }
  }

  lemma Pow10Adds(a: nat, b: nat)
    ensures Pow10(a + b) == Pow10(a) * Pow10(b)
    decreases b
  {
    if b > 0 { Pow10Adds(a, b - 1); }
  }

  lemma Pow10Small()
    ensures Pow10(1) == 10 && Pow10(2) == 100 && Pow10(3) == 1000 && Pow10(4) == 10_000
  {
  }

  lemma Pow38()
    ensures Pow10(37) == 10000000000000000000000000000000000000
    ensures Pow10(38) == 100000000000000000000000000000000000000
    ensures Pow10(39) == 1000000000000000000000000000000000000000
  {
    hide Pow10;
    Pow10Small();
    Pow10Adds(4, 4);
    Pow10Adds(8, 8);
    Pow10Adds(16, 16);
    Pow10Adds(32, 4);
    Pow10Adds(36, 1);
    Pow10Adds(36, 2);
    Pow10Adds(36, 3);
  }

  const TWO_126 := 85070591730234615865843651857942052864
  const TWO_127 := 170141183460469231731687303715884105728
  const TWO_128 := 340282366920938463463374607431768211456

  predicate I128(x: int) { -TWO_127 <= x < TWO_127 }

  function WrapI128(x: int): (r: int)
    ensures I128(r)
    ensures I128(x) ==> r == x
    ensures TWO_127 <= x < 3 * TWO_127 ==> r == x - TWO_128
  {
    (x + TWO_127) % TWO_128 - TWO_127
  }

  /** A decimal of at most 38 digits. */
  predicate Decimal38(x: int) { Abs(x) < Pow10(38) }

  // ---------------------------------------------------------------------------------------------
  // The roundings in 128-bit arithmetic that wraps.

  function HalfUp128(value: int, factor: int): int
    requires factor != 0
  {
    var remainder := TruncRem(value, factor);
    var base := WrapI128(value - remainder);
    if value >= 0 then
      if WrapI128(remainder * 2) >= factor then WrapI128(base + factor) else base
    else if WrapI128(Abs(remainder) * 2) >= factor then WrapI128(base - factor)
    else base
  }

  function HalfEven128(value: int, factor: int): int
    requires factor != 0
  {
    var remainder := TruncRem(value, factor);
    var base := WrapI128(value - remainder);
    var twice := WrapI128(Abs(remainder) * 2);
    if twice > factor then
      if value >= 0 then WrapI128(base + factor) else WrapI128(base - factor)
    else if twice < factor then base
    else
      var q := TruncDiv(base, factor);
      if TruncRem(q, 2) == 0 then base
      else if value >= 0 then WrapI128(base + factor)
      else WrapI128(base - factor)
  }

  lemma BaseBounds(value: int, f: int)
    requires f > 0
    ensures
      var base := value - TruncRem(value, f);
      (0 <= value ==> 0 <= base <= value) && (value < 0 ==> value <= base <= 0)
  {
    hide TruncRem, TruncDiv;
    Split(value, f);
    ZeroBetween(f, TruncDiv(value, f), 0);
  }

  /** Up to 37 dropped digits nothing wraps. */
  lemma RoundingExact(value: int, digits: nat)
    requires Abs(value) <= Pow10(38) && digits <= 37
    ensures HalfUp128(value, Pow10(digits)) == HalfUp(value, Pow10(digits))
    ensures HalfEven128(value, Pow10(digits)) == HalfEven(value, Pow10(digits))
  {
    hide TruncRem, TruncDiv, Pow10, WrapI128;
    Pow38();
    Pow10Monotone(digits, 37);
    Split(value, Pow10(digits));
    BaseBounds(value, Pow10(digits));
  }

  /** At 38 the doubled remainder wraps from 2^126 on: one whole unit is then rounded to zero. */
  lemma RoundingWhole(value: int)
    requires Decimal38(value)
    ensures HalfUp128(value, Pow10(38)) == HalfUp(value, Pow10(38)) <==> Abs(value) < TWO_126
    ensures HalfEven128(value, Pow10(38)) == HalfEven(value, Pow10(38)) <==> Abs(value) < TWO_126
  {
    hide TruncDiv, Pow10, WrapI128;
    Pow38();
    assert TruncRem(value, Pow10(38)) == value;
    assert TruncDiv(0, Pow10(38)) == 0 by { ExactQuotient(0, Pow10(38)); }
  }

  /** `scale` digits after the point; a negative scale drops digits before it. The power of ten wraps
      too, and None is a division by zero. */
  function RoundHalfUp(value: int, scale: int): Option<int> {
    if scale >= 0 then Some(value)
    else
      var factor := WrapI128(Pow10(-scale));
      if factor == 0 then None else Some(HalfUp128(value, factor))
  }

  function RoundHalfEven(value: int, scale: int): Option<int> {
    if scale >= 0 then Some(value)
    else
      var factor := WrapI128(Pow10(-scale));
      if factor == 0 then None else Some(HalfEven128(value, factor))
  }

  /** The nearest multiple with the tie rule of the function; a scale of 0 or more drops nothing. */
  ghost predicate RightUp(value: int, scale: int, r: Option<int>) {
    if scale >= 0 then r == Some(value) else r.Some? && RoundsHalfUp(value, Pow10(-scale), r.value)
  }

  ghost predicate RightEven(value: int, scale: int, r: Option<int>) {
    if scale >= 0 then r == Some(value) else r.Some? && RoundsHalfEven(value, Pow10(-scale), r.value)
  }

  lemma FactorFits(digits: nat)
    requires digits <= 38
    ensures WrapI128(Pow10(digits)) == Pow10(digits)
  {
    hide Pow10, WrapI128;
    Pow38();
    Pow10Monotone(digits, 38);
  }

  lemma RoundsIs(value: int, factor: int, r: int)
    requires factor > 0
    ensures RoundsHalfUp(value, factor, r) <==> r == HalfUp(value, factor)
    ensures RoundsHalfEven(value, factor, r) <==> r == HalfEven(value, factor)
  {
    hide HalfUp, HalfEven, IsHalfUp, IsHalfEven;
    var p := HalfUpMeaning(value, factor);
    var q := HalfEvenMeaning(value, factor);
    forall x | IsHalfUp(value, factor, x) ensures x == p { HalfUpUnique(value, factor, x, p); }
    forall x | IsHalfEven(value, factor, x) ensures x == q { HalfEvenUnique(value, factor, x, q); }
  }

  /** Up to 38 dropped digits a decimal is rounded right if and only if fewer than 38 are dropped or it is
      below 2^126. */
  lemma RoundingExactly(value: int, scale: int)
    requires Decimal38(value) && -38 <= scale
    ensures RightUp(value, scale, RoundHalfUp(value, scale)) <==> scale > -38 || Abs(value) < TWO_126
    ensures RightEven(value, scale, RoundHalfEven(value, scale)) <==> scale > -38 || Abs(value) < TWO_126
  {
    hide HalfUp, HalfEven, HalfUp128, HalfEven128, RoundsHalfUp, RoundsHalfEven, Pow10, WrapI128;
    if scale < 0 {
      FactorFits(-scale);
      RoundsIs(value, Pow10(-scale), HalfUp128(value, Pow10(-scale)));
      RoundsIs(value, Pow10(-scale), HalfEven128(value, Pow10(-scale)));
      if scale > -38 {
        RoundingExact(value, -scale);
      } else {
        RoundingWhole(value);
      }
    }
  }

  // Past 38 digits the factor itself wraps.

  lemma {:induction false} PowerOfFour(digits: nat)
    requires digits >= 2
    ensures Pow10(digits) % 4 == 0
    decreases digits
  {
    if digits == 2 {
      assert Pow10(2) == 100 by { Pow10Small(); }
    } else {
      PowerOfFour(digits - 1);
    }
  }

  lemma FactorOfFour(digits: nat)
    requires digits >= 2
    ensures WrapI128(Pow10(digits)) % 4 == 0
  {
    hide Pow10;
    PowerOfFour(digits);
    var x := Pow10(digits);
    var wraps := (x + TWO_127) / TWO_128;
    assert WrapI128(x) == x - wraps * TWO_128;
    Quotient(WrapI128(x), 4, x / 4 - wraps * (TWO_128 / 4), 0);
  }

  lemma RemainderOf(v: int, f: int)
    requires f != 0
    ensures TruncRem(0, f) == 0
    ensures f > 0 ==> TruncRem(f, f) == 0
    ensures f > 0 && 0 <= v < f ==> TruncRem(v, f) == v
  {
    if f > 0 {
      Quotient(f, f, 1, 0);
      if 0 <= v < f { Quotient(v, f, 0, v); }
    }
  }

  /** A decimal that a wrapped factor does not round to zero: zero itself when the factor is negative, the
      factor when it is a decimal, and a little over half of it when it is not. */
  function Misrounded(factor: int): int {
    if factor < 0 then 0 else if factor < Pow10(38) then factor else factor / 2 + 1
  }

  lemma MisroundedIsNotZero(factor: int)
    requires I128(factor) && factor != 0 && factor % 4 == 0
    ensures Decimal38(Misrounded(factor))
    ensures HalfUp128(Misrounded(factor), factor) == factor && HalfEven128(Misrounded(factor), factor) == factor
  {
    hide Pow10, TruncRem, TruncDiv, WrapI128;
    Pow38();
    RemainderOf(Misrounded(factor), factor);
  }

  /** A decimal rounded to more than 38 digits is zero. */
  lemma RoundsToZero(value: int, digits: nat)
    requires Decimal38(value) && digits >= 39
    ensures HalfUp(value, Pow10(digits)) == 0 && HalfEven(value, Pow10(digits)) == 0
  {
    hide Pow10, HalfUp, HalfEven;
    Pow38();
    Pow10Monotone(39, digits);
    var f := Pow10(digits);
    assert 0 * f == 0;
    assert IsHalfUp(value, f, 0) && IsHalfEven(value, f, 0);
    RoundsIs(value, f, 0);
    assert RoundsHalfUp(value, f, 0) && RoundsHalfEven(value, f, 0);
  }

  lemma ZeroIsDecimal()
    ensures Decimal38(0)
  {
    hide Pow10;
    Pow38();
  }

  lemma WrongPastWidth(scale: int)
    requires scale <= -39
    ensures exists v ::
      Decimal38(v) && !RightUp(v, scale, RoundHalfUp(v, scale)) && !RightEven(v, scale, RoundHalfEven(v, scale))
  {
    hide Decimal38, HalfUp, HalfEven, HalfUp128, HalfEven128, RoundsHalfUp, RoundsHalfEven, Pow10, WrapI128, Misrounded;
    var factor := WrapI128(Pow10(-scale));
    var v := if factor == 0 then 0 else Misrounded(factor);
    assert Decimal38(v) by {
      ZeroIsDecimal();
      FactorOfFour(-scale);
      if factor != 0 { MisroundedIsNotZero(factor); }
    }
    if factor != 0 {
      FactorOfFour(-scale);
      MisroundedIsNotZero(factor);
      RoundsToZero(v, -scale);
      RoundsIs(v, Pow10(-scale), factor);
    }
    assert !RightUp(v, scale, RoundHalfUp(v, scale)) && !RightEven(v, scale, RoundHalfEven(v, scale));
  }

  lemma LargestPower()
    ensures Decimal38(TWO_126)
  {
    hide Pow10;
    Pow38();
  }

  /** At every scale: all decimals are rounded right if and only if at most 37 digits are dropped. */
  lemma RoundingAtEveryScale(scale: int)
    ensures (forall v :: Decimal38(v) ==> RightUp(v, scale, RoundHalfUp(v, scale))) <==> scale >= -37
    ensures (forall v :: Decimal38(v) ==> RightEven(v, scale, RoundHalfEven(v, scale))) <==> scale >= -37
  {
    hide Decimal38, RightUp, RightEven, RoundHalfUp, RoundHalfEven;
    if scale >= -37 {
      forall v | Decimal38(v)
        ensures RightUp(v, scale, RoundHalfUp(v, scale)) && RightEven(v, scale, RoundHalfEven(v, scale))
      {
        RoundingExactly(v, scale);
      }
    } else if scale == -38 {
      LargestPower();
      RoundingExactly(TWO_126, scale);
    } else {
      WrongPastWidth(scale);
    }
  }

  function Pow5(n: nat): nat { if n == 0 then 1 else 5 * Pow5(n - 1) }

  lemma TwoAndFive(t: nat, f: nat)
    ensures 10 * (t * f) == (2 * t) * (5 * f)
    ensures f % 2 == 1 ==> 5 * f % 2 == 1
  {
  }

  lemma {:induction false} TwosAndFives(n: nat)
    ensures Pow10(n) == Pow2(n) * Pow5(n) && Pow5(n) % 2 == 1
    decreases n
  {
    if n > 0 {
      TwosAndFives(n - 1);
      TwoAndFive(Pow2(n - 1), Pow5(n - 1));
    }
  }

  lemma Power128()
    ensures Pow2(128) == TWO_128
  {
    hide Pow2;
    SmallPow2();
    PowAdd(4, 4);
    PowAdd(8, 8);
    PowAdd(16, 16);
    PowAdd(32, 32);
    PowAdd(64, 64);
  }

  lemma WrapsToZero(x: int)
    ensures WrapI128(x) == 0 <==> x % TWO_128 == 0
  {
    var q, r := x / TWO_128, x % TWO_128;
    assert x == q * TWO_128 + r;
    if r < TWO_127 {
      Quotient(x + TWO_127, TWO_128, q, r + TWO_127);
    } else {
      Quotient(x + TWO_127, TWO_128, q + 1, r - TWO_127);
    }
  }

  lemma OddIsNotEven(odd: nat, q: nat, t: nat)
    requires odd % 2 == 1
    ensures odd != q * (2 * t)
  {
    assert q * (2 * t) == 2 * (q * t);
  }

  lemma Cancel(t: nat, a: nat, b: nat)
    requires t >= 1 && t * a == t * b
    ensures a == b
  {
    assert t * (a - b) == 0;
  }

  lemma PowerStep(n: nat)
    ensures Pow2(n + 1) == 2 * Pow2(n)
  {
  }

  lemma NotAMultiple(n: nat)
    requires n < 128
    ensures Pow10(n) % TWO_128 != 0
  {
    hide Pow10, Pow2, Pow5;
    TwosAndFives(n);
    Power128();
    if Pow10(n) % TWO_128 == 0 {
      var q: nat := Pow10(n) / TWO_128;
      assert Pow10(n) == q * TWO_128;
      PowAdd(n, 128 - n);
      assert Pow2(128 - n) == 2 * Pow2(127 - n) by { PowerStep(127 - n); }
      var t := Pow2(127 - n);
      assert q * (Pow2(n) * (2 * t)) == Pow2(n) * (q * (2 * t));
      Cancel(Pow2(n), Pow5(n), q * (2 * t));
      OddIsNotEven(Pow5(n), q, t);
    }
  }

  /** Both functions divide by zero from 128 dropped digits on, and only then. */
  lemma DividesByZero(value: int, scale: int)
    ensures RoundHalfUp(value, scale).None? <==> scale <= -128
    ensures RoundHalfEven(value, scale).None? <==> scale <= -128
  {
    hide Pow10, Pow2, Pow5, WrapI128, HalfUp128, HalfEven128;
    if scale < 0 {
      var n: nat := -scale;
      TwosAndFives(n);
      Power128();
      WrapsToZero(Pow10(n));
      if n >= 128 {
        PowAdd(128, n - 128);
        var k := Pow2(n - 128) * Pow5(n);
        assert Pow2(128) * Pow2(n - 128) * Pow5(n) == k * TWO_128;
        Quotient(Pow10(n), TWO_128, k, 0);
      } else {
        NotAMultiple(n);
      }
    }
  }

  // Laws.

  /** Rounding does not pass the multiple 10^38. */
  lemma StaysInside(v: int, digits: nat)
    requires Decimal38(v) && digits <= 37
    ensures Abs(HalfUp(v, Pow10(digits))) <= Pow10(38) && Abs(HalfEven(v, Pow10(digits))) <= Pow10(38)
  {
    hide HalfUp, HalfEven, Pow10;
    var f: int, m: int := Pow10(digits), Pow10(38 - digits);
    Pow10Adds(38 - digits, digits);
    MultiplesStay(m, f);
    MultiplesStay(-m, f);
    Negated(m, f);
    Monotone(v, m * f, f);
    Monotone(-m * f, v, f);
  }

  /** Below 38 dropped digits the laws hold of the 128-bit functions themselves. */
  lemma RoundingLaws(v: int, w: int, digits: nat)
    requires Decimal38(v) && Decimal38(w) && v <= w && digits <= 37
    ensures
      var f := Pow10(digits);
      && HalfUp128(v, f) <= HalfUp128(w, f)
      && HalfEven128(v, f) <= HalfEven128(w, f)
      && HalfUp128(-v, f) == -HalfUp128(v, f)
      && HalfEven128(-v, f) == -HalfEven128(v, f)
      && HalfUp128(HalfUp128(v, f), f) == HalfUp128(v, f)
      && HalfEven128(HalfEven128(v, f), f) == HalfEven128(v, f)
  {
    hide HalfUp, HalfEven, HalfUp128, HalfEven128, Pow10;
    var f := Pow10(digits);
    RoundingExact(v, digits);
    RoundingExact(w, digits);
    RoundingExact(-v, digits);
    Monotone(v, w, f);
    Odd(v, f);
    Idempotent(v, f);
    StaysInside(v, digits);
    RoundingExact(HalfUp(v, f), digits);
    RoundingExact(HalfEven(v, f), digits);
  }

  // ---------------------------------------------------------------------------------------------
  // Changing precision and scale.

  const MAX_PRECISION := 38

  function Min(a: nat, b: nat): nat { if a <= b then a else b }

  predicate InRange(x: int, precision: nat) { Abs(x) < Pow10(Min(precision, MAX_PRECISION)) }

  /** Up to 38 digits, the range of a precision is the numbers of that many digits. */
  lemma RangeIs(x: int, precision: nat)
    requires precision <= 38
    ensures InRange(x, precision) <==> Abs(x) < Pow10(precision)
  {
    hide Pow10;
  }

  /** `x` is the number nearest to `value` at the new scale, ties away from zero; upwards it is exact. */
  ghost predicate IsRescaled(value: int, scale: int, toScale: int, x: int) {
    if toScale < scale then IsHalfUp(value, Pow10(scale - toScale), x)
    else x == value * Pow10(toScale - scale)
  }

  /** The rescaled number if it fits the precision, and None if it does not. */
  ghost predicate Correct(value: int, scale: int, toScale: int, toPrecision: nat, r: Option<int>) {
    exists x :: IsRescaled(value, scale, toScale, x) && r == if InRange(x, toPrecision) then Some(x) else None
  }

  /** Whole turns of 128-bit arithmetic. */
  function Turns(k: int): int { k * TWO_128 }

  /** Downwards, the doubled remainder stays in 128 bits; upwards, the exact product is nowhere near a
      nonzero multiple of 2^128. */
  ghost predicate Safe(value: int, scale: int, toScale: int, toPrecision: nat) {
    if toScale < scale then scale - toScale <= 37 || Abs(value) < TWO_126
    else forall k :: k != 0 ==> !InRange(value * Pow10(toScale - scale) - Turns(k), toPrecision)
  }

  /** The value after rescaling, in arithmetic that wraps. */
  function Rescale128(value: int, scale: int, toScale: int): int
    requires Abs(scale - toScale) <= 38
  {
    if toScale < scale then
      var p := Pow10(scale - toScale);
      var dropped := TruncRem(value, p);
      TruncDiv(value, p)
      + (if WrapI128(Abs(dropped) * 2) >= p then (if dropped < 0 then -1 else 1) else 0)
    else if toScale > scale then WrapI128(value * Pow10(toScale - scale))
    else value
  }

  ghost predicate Checked(x: int, toPrecision: nat, r: Option<int>) {
    r == if InRange(x, toPrecision) then Some(x) else None
  }

  lemma CorrectIs(value: int, scale: int, toScale: int, toPrecision: nat, x: int, r: Option<int>)
    requires IsRescaled(value, scale, toScale, x)
    ensures Correct(value, scale, toScale, toPrecision, r) <==> Checked(x, toPrecision, r)
  {
    hide InRange, IsHalfUp;
    forall y | IsRescaled(value, scale, toScale, y) ensures y == x {
      if toScale < scale {
        HalfUpUnique(value, Pow10(scale - toScale), x, y);
      }
    }
  }

  lemma Units(precision: nat)
    requires precision >= 1
    ensures InRange(0, precision) && InRange(1, precision) && InRange(-1, precision)
  {
    Pow10Monotone(1, Min(precision, MAX_PRECISION));
  }

  lemma DownscaleExact(value: int, scale: int, toScale: int)
    requires Decimal38(value) && toScale < scale <= toScale + 38
    requires scale - toScale <= 37 || Abs(value) < TWO_126
    ensures IsHalfUp(value, Pow10(scale - toScale), Rescale128(value, scale, toScale))
  {
    hide TruncRem, TruncDiv, Pow10, WrapI128;
    var p := Pow10(scale - toScale);
    Pow38();
    Pow10Monotone(scale - toScale, if scale - toScale <= 37 then 37 else 38);
    Split(value, p);
    BaseBounds(value, p);
    var d, r := TruncDiv(value, p), TruncRem(value, p);
    Stepped(d, p);
    assert I128(Abs(r) * 2);
    assert d * p == value - r;
    assert 2 * Abs(r) < p ==> Rescale128(value, scale, toScale) == d;
    assert 2 * Abs(r) >= p && r > 0 ==> Rescale128(value, scale, toScale) == d + 1;
    assert 2 * Abs(r) >= p && r < 0 ==> Rescale128(value, scale, toScale) == d - 1;
  }

  lemma DownscaleLost(value: int, q: int)
    requires Decimal38(value) && Abs(value) >= TWO_126 && IsHalfUp(value, Pow10(38), q)
    ensures Rescale128(value, 38, 0) == 0 && Abs(q) == 1
  {
    hide Pow10, WrapI128;
    Pow38();
    var unit := if value >= 0 then 1 else -1;
    HalfUpUnique(value, Pow10(38), q, unit);
    assert TruncRem(value, Pow10(38)) == value && TruncDiv(value, Pow10(38)) == 0;
  }

  lemma Downscaled(value: int, scale: int, toScale: int, toPrecision: nat, r: Option<int>)
    requires Decimal38(value) && toScale < scale <= toScale + 38 && toPrecision >= 1
    requires Checked(Rescale128(value, scale, toScale), toPrecision, r)
    ensures Correct(value, scale, toScale, toPrecision, r) <==> Safe(value, scale, toScale, toPrecision)
    ensures r.Some? && Safe(value, scale, toScale, toPrecision)
      ==> r.value * Pow10(scale - toScale) == HalfUp(value, Pow10(scale - toScale))
  {
    hide Correct, HalfUp, IsHalfUp, Pow10;
    var p := Pow10(scale - toScale);
    var q := HalfUpMeaning(value, p);
    CorrectIs(value, scale, toScale, toPrecision, q, r);
    if Safe(value, scale, toScale, toPrecision) {
      DownscaleExact(value, scale, toScale);
      HalfUpUnique(value, p, q, Rescale128(value, scale, toScale));
    } else {
      DownscaleLost(value, q);
      Units(toPrecision);
    }
  }

  lemma WrapTurns(x: int) returns (k: int)
    ensures WrapI128(x) == x - Turns(k) && (k == 0 <==> I128(x))
  {
    k := (x + TWO_127) / TWO_128;
  }

  /** Away from its own turn, a number in 128 bits is out of every range. */
  lemma FarTurns(w: int, d: int, precision: nat)
    requires I128(w) && d != 0
    ensures !InRange(w + Turns(d), precision)
  {
    hide Pow10;
    Pow38();
    Pow10Monotone(Min(precision, MAX_PRECISION), MAX_PRECISION);
  }

  lemma TurnsApart(a: int, b: int)
    ensures Turns(a) - Turns(b) == Turns(a - b)
  {
  }

  /** Upwards, the wrapped product is in range only next to a multiple of 2^128. */
  lemma NearTurn(x: int, precision: nat)
    ensures (forall k :: k != 0 ==> !InRange(x - Turns(k), precision)) <==> I128(x) || !InRange(WrapI128(x), precision)
  {
    hide InRange, WrapI128, Turns;
    var own := WrapTurns(x);
    forall k | k != own ensures !InRange(x - Turns(k), precision) {
      TurnsApart(own, k);
      FarTurns(WrapI128(x), own - k, precision);
    }
  }

  lemma OutOfWidth(x: int, precision: nat)
    requires !I128(x)
    ensures !InRange(x, precision)
  {
    hide Pow10;
    Pow38();
    Pow10Monotone(Min(precision, MAX_PRECISION), MAX_PRECISION);
  }

  lemma One()
    ensures Pow10(0) == 1
  {
  }

  lemma Upscaled(value: int, scale: int, toScale: int, toPrecision: nat, r: Option<int>)
    requires Decimal38(value) && scale <= toScale <= scale + 38
    requires Checked(Rescale128(value, scale, toScale), toPrecision, r)
    ensures Correct(value, scale, toScale, toPrecision, r) <==> Safe(value, scale, toScale, toPrecision)
  {
    hide Correct, Pow10, WrapI128, InRange, Turns;
    var product := value * Pow10(toScale - scale);
    CorrectIs(value, scale, toScale, toPrecision, product, r);
    NearTurn(product, toPrecision);
    if !I128(product) { OutOfWidth(product, toPrecision); }
    if toScale == scale {
      One();
      assert I128(value) by { Pow38(); }
    }
  }

  /** Products that leave 128 bits may come back in range: 38 digits of a scale of 0 become 0.4. */
  lemma UpscaleLost()
    ensures
      var value := 34028236692093846346337460743176821146;
      Decimal38(value) && !Safe(value, 0, 1, 38) && Rescale128(value, 0, 1) == 4
  {
    hide Pow10;
    Pow38();
    Pow10Small();
    assert Turns(1) == TWO_128 && InRange(340282366920938463463374607431768211460 - Turns(1), 38);
  }

  /** The whole computation on a changed type. */
  function Changed(value: int, scale: int, toScale: int, toPrecision: nat): Option<int>
    requires Abs(scale - toScale) <= 38
  {
    var x := Rescale128(value, scale, toScale);
    if InRange(x, toPrecision) then Some(x) else None
  }

  lemma ChangedExactly(value: int, scale: int, toScale: int, toPrecision: nat)
    requires Decimal38(value) && Abs(scale - toScale) <= 38 && toPrecision >= 1
    ensures Correct(value, scale, toScale, toPrecision, Changed(value, scale, toScale, toPrecision))
       <==> Safe(value, scale, toScale, toPrecision)
  {
    hide Correct, Safe, InRange, Rescale128;
    var r := Changed(value, scale, toScale, toPrecision);
    if toScale < scale {
      Downscaled(value, scale, toScale, toPrecision, r);
    } else {
      Upscaled(value, scale, toScale, toPrecision, r);
    }
  }

  /** The no-op on an unchanged type skips the range check; any other change answers with the nearest
      number or None exactly on the safe inputs. */
  method ChangePrecision(value: int, precision: nat, scale: int, toPrecision: nat, toScale: int)
    returns (r: Option<int>)
    requires Decimal38(value) && Abs(scale - toScale) <= 38 && toPrecision >= 1
    ensures toPrecision == precision && toScale == scale ==> r == Some(value)
    ensures !(toPrecision == precision && toScale == scale) ==> r == Changed(value, scale, toScale, toPrecision)
    ensures !(toPrecision == precision && toScale == scale)
      ==> (Correct(value, scale, toScale, toPrecision, r) <==> Safe(value, scale, toScale, toPrecision))
    ensures r.Some? && toScale < scale && Safe(value, scale, toScale, toPrecision)
      ==> r.value * Pow10(scale - toScale) == HalfUp(value, Pow10(scale - toScale))
  {
    hide Correct, Safe, HalfUp, Pow10, TruncRem, TruncDiv, WrapI128;
    if toPrecision == precision && toScale == scale {
      return Some(value);
    }
    var v := value;
    if toScale < scale {
      var p := Pow10(scale - toScale);
      var dropped := TruncRem(v, p);
      v := TruncDiv(v, p);
      if WrapI128(Abs(dropped) * 2) >= p {
        v := v + if dropped < 0 then -1 else 1;
      }
    } else if toScale > scale {
      v := WrapI128(v * Pow10(toScale - scale));
    }
    assert v == Rescale128(value, scale, toScale);
    var p: int := Pow10(Min(toPrecision, MAX_PRECISION));
    r := if v <= -p || v >= p then None else Some(v);
    if toScale < scale {
      Downscaled(value, scale, toScale, toPrecision, r);
    } else {
      Upscaled(value, scale, toScale, toPrecision, r);
    }
  }

  // ---------------------------------------------------------------------------------------------
  // Which types are safe to convert between.

  predicate Digits(value: int, precision: nat) { Abs(value) < Pow10(precision) }

  /** The pairs of types between which every value is converted right. */
  predicate SafeTypes(precision: nat, scale: nat, toScale: nat) {
    if toScale < scale then scale - toScale <= 37 || precision <= 37
    else precision + (toScale - scale) <= 38 || toScale == scale
  }

  lemma ProductBound(v: int, p: int, f: int)
    requires Abs(v) < p && f > 0
    ensures -(p * f) < v * f < p * f
  {
    Apart(v, p, f);
    Apart(-p, v, f);
    Negated(p, f);
  }

  lemma SafeUp(value: int, precision: nat, scale: nat, toScale: nat, toPrecision: nat)
    requires Digits(value, precision) && scale < toScale && precision + (toScale - scale) <= 38
    ensures Safe(value, scale, toScale, toPrecision)
  {
    hide Pow10, InRange, WrapI128, Turns;
    var f: int := Pow10(toScale - scale);
    Pow38();
    Pow10Adds(precision, toScale - scale);
    Pow10Monotone(precision + (toScale - scale), 38);
    ProductBound(value, Pow10(precision), f);
    NearTurn(value * f, toPrecision);
  }

  /** The multiple of the factor nearest to 2^128 wraps to a number smaller than the factor. */
  lemma UnsafeUp(precision: nat, scale: nat, toScale: nat, toPrecision: nat) returns (value: int)
    requires scale < toScale <= toPrecision <= 38 && precision + (toScale - scale) >= 39
    ensures Digits(value, precision) && !Safe(value, scale, toScale, toPrecision)
  {
    hide Pow10, HalfUp;
    var diff: nat := toScale - scale;
    var f: int, p: int := Pow10(diff), Pow10(39 - diff);
    value := HalfUpMeaning(TWO_128, f);
    Pow38();
    Pow10Adds(39 - diff, diff);
    Pow10Monotone(diff, toPrecision);
    Pow10Monotone(diff, 38);
    Pow10Monotone(39 - diff, precision);
    assert Turns(1) == TWO_128 && InRange(value * f - Turns(1), toPrecision);
    assert 0 <= value * f < p * f;
    Apart(p, value, f);
    Apart(value, -1, f);
    assert 0 <= value < p;
  }

  lemma FewerDigits(v: int, precision: nat)
    requires Digits(v, precision) && precision <= 38
    ensures Decimal38(v) && (precision <= 37 ==> Abs(v) < TWO_126)
  {
    hide Pow10;
    Pow38();
    Pow10Monotone(precision, 38);
    if precision <= 37 { Pow10Monotone(precision, 37); }
  }

  lemma SafeOnTypes(v: int, precision: nat, scale: nat, toScale: nat, toPrecision: nat)
    requires Digits(v, precision) && precision <= 38 && scale <= 38 && SafeTypes(precision, scale, toScale)
    ensures Safe(v, scale, toScale, toPrecision)
  {
    hide Digits;
    FewerDigits(v, precision);
    if toScale > scale {
      SafeUp(v, precision, scale, toScale, toPrecision);
    } else if toScale == scale {
      hide Pow10, InRange, WrapI128, Turns;
      One();
      Pow38();
      NearTurn(v * Pow10(0), toPrecision);
    }
  }

  lemma UnsafeDown(precision: nat, scale: nat, toScale: nat, toPrecision: nat)
    requires precision == 38 && scale == 38 && toScale == 0
    ensures Digits(TWO_126, precision) && !Safe(TWO_126, scale, toScale, toPrecision)
  {
    hide Pow10;
    Pow38();
  }

  /** For decimal types: every value of the type is converted right if and only if going up leaves room
      for the new digits in 38, or going down drops fewer than 38 digits or starts from fewer. */
  lemma ChangePrecisionByTypes(precision: nat, scale: nat, toPrecision: nat, toScale: nat)
    requires 1 <= precision <= 38 && scale <= 38 && 1 <= toPrecision <= 38 && toScale <= toPrecision
    ensures (forall v :: Digits(v, precision) ==>
               Correct(v, scale, toScale, toPrecision, Changed(v, scale, toScale, toPrecision)))
       <==> SafeTypes(precision, scale, toScale)
  {
    hide Digits, Safe, Changed, Correct;
    forall v | Digits(v, precision)
      ensures Correct(v, scale, toScale, toPrecision, Changed(v, scale, toScale, toPrecision))
         <==> Safe(v, scale, toScale, toPrecision)
    {
      FewerDigits(v, precision);
      ChangedExactly(v, scale, toScale, toPrecision);
    }
    if SafeTypes(precision, scale, toScale) {
      forall v | Digits(v, precision) ensures Safe(v, scale, toScale, toPrecision) {
        SafeOnTypes(v, precision, scale, toScale, toPrecision);
      }
    } else if toScale > scale {
      var v := UnsafeUp(precision, scale, toScale, toPrecision);
    } else {
      UnsafeDown(precision, scale, toScale, toPrecision);
    }
  }
}
