/** Two's-complement integers, written out over the unbounded ones. */
module MachineInts {

  const TWO_31 := 0x8000_0000

  const TWO_32 := 0x1_0000_0000

  const TWO_63 := 0x8000_0000_0000_0000

  const TWO_64 := 0x1_0000_0000_0000_0000

  const I64_MIN := -0x8000_0000_0000_0000

  predicate I32(x: int) { -TWO_31 <= x < TWO_31 }

  predicate I64(x: int) { -TWO_63 <= x < TWO_63 }

  type i32 = x: int | -0x8000_0000 <= x < 0x8000_0000

  function WrapI32(x: int): (r: int)
    ensures I32(r)
    ensures I32(x) ==> r == x
  {
    (x + TWO_31) % TWO_32 - TWO_31
  }

  function WrapI64(x: int): (r: int)
    ensures I64(r)
    ensures I64(x) ==> r == x
  {
    (x + TWO_63) % TWO_64 - TWO_63
  }

  function Abs(x: int): nat { if x < 0 then -x else x }

  function Pow2(n: nat): (p: nat)
    ensures p >= 1
  {
    if n == 0 then 1 else 2 * Pow2(n - 1)
  }

  lemma SmallPow2()
    ensures Pow2(4) == 16
  {
    assert Pow2(2) == 4;
  }

  lemma {:induction false} PowAdd(a: nat, b: nat)
    ensures Pow2(a + b) == Pow2(a) * Pow2(b)
    decreases b
  {
    if b > 0 { PowAdd(a, b - 1); }
  }

  function Pow10(n: nat): (p: nat)
    ensures p >= 1
  {
    if n == 0 then 1 else 10 * Pow10(n - 1)
  }

  function Pow256(n: nat): (p: nat)
    ensures p >= 1
  {
    if n == 0 then 1 else 256 * Pow256(n - 1)
  }

  /** Remainder and quotient truncated towards zero. */
  function TruncRem(a: int, b: int): int
    requires b != 0
  {
    if a >= 0 then a % b else -((-a) % b)
  }

  function TruncDiv(a: int, b: int): int
    requires b != 0
  {
    if a >= 0 then a / b else -((-a) / b)
  }

  lemma Multiples(d: int, n: int)
    requires n > 0
    ensures d >= 1 ==> d * n >= n
    ensures d <= -1 ==> d * n <= -n
  {
  }

  lemma Quotient(x: int, n: int, q: int, r: int)
    requires n > 0 && 0 <= r < n && x == q * n + r
    ensures x / n == q && x % n == r
  {
    var d := x / n - q;
    assert x == x / n * n + x % n;
    assert d * n == r - x % n;
    Multiples(d, n);
  }

  lemma RemainderBound(s: nat, r: nat, m: nat, n: nat)
    requires s < n && r < m
    ensures s * m + r < m * n
  {
    assert m * n == s * m + (n - s) * m;
    Multiples(n - s, m);
  }

  /** Dividing twice is dividing by the product. */
  lemma DividedTwice(x: nat, m: nat, n: nat)
    requires m >= 1 && n >= 1
    ensures x / m / n == x / (m * n)
  {
    var a, r := x / m, x % m;
    var b, s := a / n, a % n;
    assert x == a * m + r && a == b * n + s;
    assert m * n >= 1 by { Multiples(m, n); }
    assert a * m == (b * n) * m + s * m;
    assert (b * n) * m == b * (m * n);
    RemainderBound(s, r, m, n);
    Quotient(x, m * n, b, s * m + r);
  }

  lemma ModShift(x: int, k: int, n: int)
    requires n > 0
    ensures (x + k * n) % n == x % n
  {
    assert x + k * n == (x / n + k) * n + x % n by {
      assert x == x / n * n + x % n;
      assert (x / n + k) * n == x / n * n + k * n;
    }
    Quotient(x + k * n, n, x / n + k, x % n);
  }

  /** A remainder modulo a multiple keeps the remainder. */
  lemma ModOfMod(x: int, n: int, m: int)
    requires n > 0 && m > 0 && m % n == 0
    ensures x % m % n == x % n
  {
    var q, k := x / m, m / n;
    assert m == k * n;
    assert x == q * m + x % m;
    assert q * m == (q * k) * n;
    ModShift(x % m, q * k, n);
  }

  /** The remainder of a division by a positive number. */
  function Rem(x: int, n: int): (r: int)
    requires n > 0
    ensures 0 <= r < n
    ensures 0 <= x < n ==> r == x
  {
    x % n
  }

  lemma RemShift(x: int, k: int, n: int)
    requires n > 0
    ensures Rem(x + k * n, n) == Rem(x, n)
  {
    ModShift(x, k, n);
  }

  /** A remainder modulo a multiple keeps the remainder. */
  lemma RemOfRem(x: int, n: int, m: int)
    requires n > 0 && m > 0 && Rem(m, n) == 0
    ensures Rem(Rem(x, m), n) == Rem(x, n)
  {
    ModOfMod(x, n, m);
  }

  lemma RemSum(x: int, y: int, d: int, n: int)
    requires n > 0 && Rem(x, n) == Rem(y, n)
    ensures Rem(x + d, n) == Rem(y + d, n)
  {
    assert x == x / n * n + x % n && y == y / n * n + y % n;
    var k := x / n - y / n;
    assert x == y + k * n;
    ModShift(y + d, k, n);
  }
}
