/** The Bloom filter (`SparkBloomFilter`): double hashing in wrapping 32-bit arithmetic over a bit
    array, merging, shrinking and serialisation. */
module BloomFilter {
  import opened Seqs
  import opened MachineInts
  import opened BitArray

  /** A seeded 32-bit hash. Nothing but its being a function is used. */
  type Hash<!Item> = (Item, i32) -> i32

  /** The two hash values all the probes of an item are made of. */
  datatype Hashes = Hashes(h1: i32, h2: i32)

  function HashesOf<Item>(hash: Hash<Item>, item: Item): Hashes {
    var h1 := hash(item, 0);
    Hashes(h1, hash(item, h1))
  }

  /** The i-th combined hash, made non-negative by flipping all its bits when it is negative. */
  function Combined(h: Hashes, i: int): (c: nat)
    ensures c < TWO_31
  {
    var c := WrapI32(h.h1 + WrapI32(i * h.h2));
    if c < 0 then -c - 1 else c
  }

  /** The probes of an array of `words` words; the bit count is narrowed to 32 bits, so a full-size
      array has the negative divisor -2^31. A remainder ignores the divisor's sign. */
  function Probe(h: Hashes, i: int, words: nat): nat
    requires WrapI32(64 * words) != 0
  {
    Rem(Combined(h, i), Abs(WrapI32(64 * words)))
  }

  /** `t` is the 32-bit integer congruent to h1 + i * h2. */
  predicate IsHash(h: Hashes, i: int, t: int) { I32(t) && (t - h.h1 - i * h.h2) % TWO_32 == 0 }

  /** `b` is the bit an item is sent to in round `i`: the combined hash, with all bits flipped when it is
      negative, modulo the bit count. */
  ghost predicate Probed(h: Hashes, i: int, words: nat, b: int) {
    words >= 1 && exists t :: IsHash(h, i, t) && b == (if t >= 0 then t else -1 - t) % (64 * words)
  }

  lemma WrapIs(x: int, t: int)
    requires I32(t)
    ensures WrapI32(x) == t <==> (t - x) % TWO_32 == 0
  {
  }

  lemma ShiftedMultiple(a: int, b: int)
    requires b % TWO_32 == 0
    ensures (a + b) % TWO_32 == 0 <==> a % TWO_32 == 0
  {
    ModShift(a, b / TWO_32, TWO_32);
  }

  lemma WrapSum(x: int, p: int, t: int)
    requires I32(t)
    ensures WrapI32(x + WrapI32(p)) == t <==> (t - x - p) % TWO_32 == 0
  {
    var w := WrapI32(p);
    WrapIs(p, w);
    WrapIs(x + w, t);
    hide WrapI32;
    ShiftedMultiple(t - (x + w), w - p);
    assert t - x - p == (t - (x + w)) + (w - p);
  }

  lemma CombinedIs(h: Hashes, i: int, t: int)
    ensures IsHash(h, i, t) <==> WrapI32(h.h1 + WrapI32(i * h.h2)) == t
  {
    hide WrapI32;
    if I32(t) {
      WrapSum(h.h1, i * h.h2, t);
    } else {
      assert I32(WrapI32(h.h1 + WrapI32(i * h.h2)));
    }
  }

  /** The number of rounds of the probing loop, whose bound is narrowed to 32 bits. */
  function Rounds(k: nat): nat { if WrapI32(k) < 0 then 0 else WrapI32(k) }

  /** Sizes that `WithNumBits` produces: up to 2^31 bits. */
  predicate LegalSize(words: nat) { 1 <= words <= MAX_WORDS }

  /** Every probe is a bit of the array, for any size at which the divisor is not zero; at every legal
      size it is the remainder modulo the bit count. */
  lemma ProbeInRange(h: Hashes, i: int, words: nat)
    requires WrapI32(64 * words) != 0
    ensures Probe(h, i, words) < 64 * words
    ensures LegalSize(words) ==> Probe(h, i, words) == Rem(Combined(h, i), 64 * words)
  {
    hide Combined;
    var n := 64 * words;
    assert Abs(WrapI32(n)) <= TWO_31;
    assert n < TWO_31 ==> WrapI32(n) == n;
    assert n == TWO_31 ==> WrapI32(n) == -TWO_31;
  }

  /** The probe of a round is that bit. */
  lemma ProbeExactly(h: Hashes, i: int, words: nat, b: int)
    requires LegalSize(words) && WrapI32(64 * words) != 0
    ensures Probed(h, i, words, b) <==> b == Probe(h, i, words)
  {
    var t := WrapI32(h.h1 + WrapI32(i * h.h2));
    ProbeInRange(h, i, words);
    assert Probe(h, i, words) == (if t >= 0 then t else -1 - t) % (64 * words);
    hide WrapI32, Probe;
    CombinedIs(h, i, t);
    forall u | IsHash(h, i, u) ensures u == t { CombinedIs(h, i, u); }
    hide IsHash;
  }

  lemma LegalDivisor(words: nat)
    requires LegalSize(words)
    ensures WrapI32(64 * words) != 0
  {
  }

  /** The bits an item needs. */
  function Probes(h: Hashes, k: nat, words: nat): set<int>
    requires WrapI32(64 * words) != 0
  {
    set i | 1 <= i <= Rounds(k) :: Probe(h, i, words)
  }

  ghost predicate MightContain(data: seq<word>, k: nat, h: Hashes)
    requires WrapI32(64 * |data|) != 0
  {
    Probes(h, k, |data|) <= TrueBits(data)
  }

  // ---------------------------------------------------------------------------------------------
  // Shrinking: which positive answers survive.

  function DoubleTo(p: nat, n: nat): (r: nat)
    requires p >= 1
    ensures r >= n && (p >= n ==> r == p)
    decreases n - p
  {
    if p >= n then p else DoubleTo(2 * p, n)
  }

  function NextPowerOfTwo(n: nat): nat { DoubleTo(1, n) }

  /** Twice the hash count times the bits on, in 64-bit arithmetic that wraps. */
  function Wanted(k: nat, trues: nat): nat { k * trues * 2 % TWO_64 }

  /** The size a filter with `trues` bits on is shrunk to. The power of two above 2^63 wraps to zero. */
  function ShrunkenSize(k: nat, trues: nat): nat {
    NextPowerOfTwo(if Wanted(k, trues) >= 1 then Wanted(k, trues) else 1) % TWO_64
  }

  function WordsFor(bits: nat): nat { (bits + 63) / 64 }

  /** The bits on after every bit `b` has been moved to `b` modulo `s`. */
  function Folded(bits: set<int>, s: nat): set<int>
    requires s >= 1
  {
    set b | b in bits :: Rem(b, s)
  }

  /** No answer changes from positive to negative when the bits on, out of `64 * words`, are folded to
      `s` and the array shrinks accordingly. */
  ghost predicate KeepsPositives(bits: set<int>, k: nat, words: nat, s: nat)
    requires LegalSize(words) && 1 <= s < 64 * words
  {
    LegalDivisor(words);
    LegalDivisor(WordsFor(s));
    forall h :: Probes(h, k, words) <= bits ==> Probes(h, k, WordsFor(s)) <= Folded(bits, s)
  }

  ghost predicate PowerOfTwo(s: nat) { exists e: nat :: s == Pow2(e) }

  lemma {:induction false} DoubleToPower(p: nat, n: nat)
    requires p >= 1 && PowerOfTwo(p)
    ensures PowerOfTwo(DoubleTo(p, n))
    decreases n - p
  {
    if p < n {
      var e: nat :| p == Pow2(e);
      assert 2 * p == Pow2(e + 1);
      DoubleToPower(2 * p, n);
    }
  }

  lemma PowOne()
    ensures Pow2(1) == 2 && Pow2(0) == 1
  {
  }

  lemma Pow63()
    ensures Pow2(63) == TWO_63 && Pow2(64) == TWO_64
  {
    hide Pow2;
    SmallPow2();
    PowAdd(4, 4);
    PowAdd(8, 8);
    PowAdd(16, 16);
    PowAdd(32, 32);
    assert Pow2(1) == 2 by { PowOne(); }
    PowAdd(63, 1);
  }

  /** Doubling does not pass a power of two that is large enough. */
  lemma {:induction false} DoubleToBound(a: nat, n: nat, e: nat)
    requires a <= e && n <= Pow2(e)
    ensures DoubleTo(Pow2(a), n) <= Pow2(e)
    decreases n - Pow2(a)
  {
    if a < e {
      Pow2Grows(a, e);
      assert Pow2(a + 1) == 2 * Pow2(a);
      if Pow2(a) < n { DoubleToBound(a + 1, n, e); }
    }
  }

  lemma BetweenPowers(s: nat)
    requires PowerOfTwo(s) && TWO_63 < s <= TWO_64
    ensures s == TWO_64
  {
    hide Pow2;
    var e: nat :| s == Pow2(e);
    Pow63();
    if e < 63 { Pow2Grows(e, 63); }
    if e > 64 { Pow2Grows(64, e); }
  }

  lemma WantedSmall(k: nat, trues: nat)
    ensures Wanted(k, trues) < TWO_64
    ensures k * trues * 2 <= TWO_63 ==> Wanted(k, trues) == k * trues * 2
  {
    var p := k * trues * 2;
    assert p <= TWO_63 ==> p % TWO_64 == p;
  }

  /** A power of two that is at least twice the hash count times the bits on, as long as that is at most
      2^63; zero if and only if the wrapped product is above. */
  lemma ShrunkenSizeFacts(k: nat, trues: nat)
    ensures
      var s := ShrunkenSize(k, trues);
      && (s == 0 <==> Wanted(k, trues) > TWO_63)
      && (s != 0 ==> PowerOfTwo(s) && s >= Wanted(k, trues))
    ensures k * trues * 2 <= TWO_63 ==> ShrunkenSize(k, trues) >= k * trues * 2 && ShrunkenSize(k, trues) >= 1
  {
    WantedSmall(k, trues);
    hide Pow2, DoubleTo, Wanted;
    PowOne();
    Pow63();
    var n := if Wanted(k, trues) >= 1 then Wanted(k, trues) else 1;
    var s := DoubleTo(1, n);
    assert PowerOfTwo(1);
    DoubleToPower(1, n);
    if n <= TWO_63 {
      DoubleToBound(0, n, 63);
      assert s % TWO_64 == s;
    } else {
      DoubleToBound(0, n, 64);
      BetweenPowers(s);
    }
  }

  lemma {:induction false} ProductGrows(a: nat, b: nat, t: nat)
    requires a <= b
    ensures a * t <= b * t
    decreases t
  {
    if t > 0 {
      ProductGrows(a, b, t - 1);
      assert a * t == a * (t - 1) + a && b * t == b * (t - 1) + b;
    }
  }

  lemma ProductBounds(c: nat, t: nat, n: nat)
    requires 1 <= c <= n && 1 <= t < n
    ensures 1 <= c * t < n * n
  {
    ProductGrows(1, c, t);
    ProductGrows(c, n, t);
    ProductGrows(t, n - 1, n);
    assert n * t == t * n && (n - 1) * n == n * n - n;
  }

  lemma NegativeProduct(w: int, c: int, t: int)
    ensures (w - c) * t * 2 == (2 * t - 1) * w + (w - 2 * (c * t))
  {
    var p, q := c * t, w * t;
    assert (w - c) * t == q - p;
    assert (2 * t - 1) * w == 2 * q - w;
  }

  lemma NegativeWanted(c: nat, trues: nat)
    requires 1 <= c <= TWO_31 && 1 <= trues < TWO_31
    ensures Wanted(TWO_64 - c, trues) > TWO_63
  {
    ProductBounds(c, trues, TWO_31);
    NegativeProduct(TWO_64, c, trues);
    Quotient((TWO_64 - c) * trues * 2, TWO_64, 2 * trues - 1, TWO_64 - 2 * (c * trues));
  }

  /** A negative hash count, which a serialised filter may carry, wraps the product above 2^63. */
  lemma NegativeCountPanics(c: nat, trues: nat)
    requires 1 <= c <= TWO_31 && 1 <= trues < TWO_31
    ensures ShrunkenSize(TWO_64 - c, trues) == 0
  {
    ShrunkenSizeFacts(TWO_64 - c, trues);
    NegativeWanted(c, trues);
    hide Wanted, ShrunkenSize;
  }

  lemma SmallPowers()
    ensures Pow2(0) == 1 && Pow2(1) == 2 && Pow2(2) == 4 && Pow2(3) == 8 && Pow2(4) == 16 && Pow2(5) == 32
    ensures Pow2(6) == 64
  {
  }

  lemma DividesWord(s: nat)
    requires s == 1 || s == 2 || s == 4 || s == 8 || s == 16 || s == 32
    ensures Rem(64, s) == 0 && WordsFor(s) == 1
  {
  }

  lemma PowerFacts(s: nat)
    requires PowerOfTwo(s)
    ensures s >= 1
    ensures s < 64 ==> Rem(64, s) == 0 && WordsFor(s) == 1
    ensures s >= 64 ==> s == 64 * WordsFor(s)
  {
    hide Pow2, Rem;
    var e: nat :| s == Pow2(e);
    SmallPowers();
    if e < 6 {
      DividesWord(s);
    } else {
      PowAdd(6, e - 6);
    }
  }

  /** The item whose probes are all the bit `c`. */
  lemma ConstantProbes(c: nat, k: nat, words: nat)
    requires c < TWO_31 && LegalSize(words) && Rounds(k) >= 1
    ensures WrapI32(64 * words) != 0 && Probes(Hashes(c, 0), k, words) == {Rem(c, 64 * words)}
  {
    LegalDivisor(words);
    forall i ensures Probe(Hashes(c, 0), i, words) == Rem(c, 64 * words) {
      assert i * 0 == 0;
      ProbeInRange(Hashes(c, 0), i, words);
    }
    assert 1 <= 1 <= Rounds(k) && Probe(Hashes(c, 0), 1, words) == Rem(c, 64 * words);
  }

  ghost predicate BitsOf(bits: set<int>, words: nat) { forall b :: b in bits ==> 0 <= b < 64 * words }

  /** One probe at a time. */
  lemma KeepsEachProbe(bits: set<int>, k: nat, words: nat, s: nat)
    requires LegalSize(words) && 1 <= s < 64 * words && PowerOfTwo(s)
    requires forall c: nat :: c < TWO_31 && Rem(c, 64 * words) in bits ==> Rem(c, 64 * WordsFor(s)) in Folded(bits, s)
    ensures KeepsPositives(bits, k, words, s)
  {
    hide Combined, WrapI32, Folded, Rem;
    LegalDivisor(words);
    LegalDivisor(WordsFor(s));
    forall h | Probes(h, k, words) <= bits ensures Probes(h, k, WordsFor(s)) <= Folded(bits, s) {
      forall i | 1 <= i <= Rounds(k) ensures Probe(h, i, WordsFor(s)) in Folded(bits, s) {
        ProbeInRange(h, i, words);
        ProbeInRange(h, i, WordsFor(s));
        assert Probe(h, i, words) in Probes(h, k, words);
      }
    }
  }

  lemma FoldBelowWord(bits: set<int>, words: nat, s: nat, c: nat)
    requires words >= 1 && 1 <= s < 64 && Rem(64, s) == 0
    requires Rem(c, 64 * words) in bits && Rem(Rem(c, 64 * words), 64) < s
    ensures Rem(c, 64) in Folded(bits, s)
  {
    hide Rem;
    var b := Rem(c, 64 * words);
    RemShift(0, words, 64);
    RemOfRem(c, 64, 64 * words);
    RemOfRem(b, s, 64);
  }

  /** The item that probes bit `c` only: after shrinking, it needs one bit as well. */
  lemma KeepsOneProbe(bits: set<int>, k: nat, words: nat, s: nat, c: nat)
    requires LegalSize(words) && 1 <= s < 64 * words && PowerOfTwo(s) && Rounds(k) >= 1
    requires KeepsPositives(bits, k, words, s) && c < TWO_31 && Rem(c, 64 * words) in bits
    ensures Rem(c, 64 * WordsFor(s)) in Folded(bits, s)
  {
    hide WrapI32, Probes, Folded, Rem;
    ConstantProbes(c, k, words);
    ConstantProbes(c, k, WordsFor(s));
    assert Probes(Hashes(c, 0), k, words) <= bits;
  }

  /** Below one word, the array is rounded up to 64 bits but the bits are folded to fewer: positive
      answers survive exactly when no bit on lies in the part of its word that is folded away. */
  lemma ShrinkBelowWord(bits: set<int>, k: nat, words: nat, s: nat)
    requires LegalSize(words) && 1 <= s < 64 * words && BitsOf(bits, words)
    requires PowerOfTwo(s) && s < 64 && Rounds(k) >= 1
    ensures KeepsPositives(bits, k, words, s) <==> forall b :: b in bits ==> Rem(b, 64) < s
  {
    hide KeepsPositives, Rem;
    PowerFacts(s);
    if forall b :: b in bits ==> Rem(b, 64) < s {
      forall c: nat | c < TWO_31 && Rem(c, 64 * words) in bits ensures Rem(c, 64 * WordsFor(s)) in Folded(bits, s) {
        FoldBelowWord(bits, words, s, c);
      }
      KeepsEachProbe(bits, k, words, s);
    }
    if KeepsPositives(bits, k, words, s) {
      forall b | b in bits ensures Rem(b, 64) < s {
        KeepsOneProbe(bits, k, words, s, b);
      }
    }
  }

  /** `bits` with every bit moved one old length further, as far as hashes reach. */
  ghost predicate ClosedUnder(bits: set<int>, size: nat, s: nat)
    requires s >= 1
  {
    forall b :: b in bits && b + size < TWO_31 ==> Rem(b + size, s) in Folded(bits, s)
  }

  lemma FoldedHas(bits: set<int>, s: nat, b: int)
    requires s >= 1 && b in bits
    ensures Rem(b, s) in Folded(bits, s)
  {
    hide Rem;
  }

  ghost function FoldedFrom(bits: set<int>, s: nat, r: int): (b: int)
    requires s >= 1 && r in Folded(bits, s)
    ensures b in bits && Rem(b, s) == r
  {
    hide Rem;
    var b :| b in bits && Rem(b, s) == r;
    b
  }

  lemma MovedOnce(bits: set<int>, size: nat, s: nat, b: int)
    requires s >= 1 && ClosedUnder(bits, size, s) && b in bits && b + size < TWO_31
    ensures Rem(b + size, s) in Folded(bits, s)
  {
    hide Rem, Folded;
  }

  /** Moved over and over. */
  lemma {:induction false} Orbit(bits: set<int>, size: nat, s: nat, c: nat)
    requires size >= 1 && s >= 1 && forall x :: x in bits ==> 0 <= x < size
    requires ClosedUnder(bits, size, s) && c < TWO_31 && Rem(c, size) in bits
    ensures Rem(c, s) in Folded(bits, s)
    decreases c
  {
    hide Rem, Folded, ClosedUnder;
    if c < size {
      FoldedHas(bits, s, c);
    } else {
      var before := c - size;
      RemShift(before, 1, size);
      Orbit(bits, size, s, before);
      var x := if before < size then before else FoldedFrom(bits, s, Rem(before, s));
      RemSum(before, x, size, s);
      MovedOnce(bits, size, s, x);
    }
  }

  /** From one word upwards: positive answers survive exactly when the bits one old length further on,
      as far as hashes reach, fold onto bits that are on. */
  lemma ShrinkFromWord(bits: set<int>, k: nat, words: nat, s: nat)
    requires LegalSize(words) && 1 <= s < 64 * words && BitsOf(bits, words)
    requires PowerOfTwo(s) && s >= 64 && Rounds(k) >= 1
    ensures KeepsPositives(bits, k, words, s) <==> ClosedUnder(bits, 64 * words, s)
  {
    hide KeepsPositives, Folded, Rem;
    var size := 64 * words;
    PowerFacts(s);
    if ClosedUnder(bits, size, s) {
      forall c: nat | c < TWO_31 && Rem(c, 64 * words) in bits ensures Rem(c, 64 * WordsFor(s)) in Folded(bits, s) {
        Orbit(bits, size, s, c);
      }
      KeepsEachProbe(bits, k, words, s);
    }
    if KeepsPositives(bits, k, words, s) {
      forall b | b in bits && b + size < TWO_31 ensures Rem(b + size, s) in Folded(bits, s) {
        RemShift(b, 1, size);
        assert Rem(b + size, size) == b;
        KeepsOneProbe(bits, k, words, s, b + size);
      }
    }
  }

  /** In particular all of them survive when the new size divides the old one. */
  lemma ShrinkToDivisor(bits: set<int>, k: nat, words: nat, s: nat)
    requires LegalSize(words) && 1 <= s < 64 * words && BitsOf(bits, words)
    requires PowerOfTwo(s) && s >= 64 && Rem(64 * words, s) == 0
    ensures KeepsPositives(bits, k, words, s)
  {
    hide Rem;
    PowerFacts(s);
    forall c: nat | c < TWO_31 && Rem(c, 64 * words) in bits ensures Rem(c, 64 * WordsFor(s)) in Folded(bits, s) {
      RemOfRem(c, s, 64 * words);
    }
    KeepsEachProbe(bits, k, words, s);
  }

  lemma DoubledTwo()
    ensures DoubleTo(1, 2) == 2
  {
    assert DoubleTo(1, 2) == DoubleTo(2, 2);
  }

  /** One bit on out of 128, one hash function: shrunk to two bits in a 64-bit array, bit 3 is lost. */
  lemma LostBelowWord()
    ensures ShrunkenSize(1, 1) == 2
    ensures !KeepsPositives({3}, 1, 2, 2)
  {
    hide KeepsPositives, Pow2, DoubleTo, Rem;
    DoubledTwo();
    PowOne();
    ShrinkBelowWord({3}, 1, 2, 2);
    assert 3 in {3} && Rem(3, 64) == 3;
  }

  lemma Doubled66()
    ensures DoubleTo(1, 66) == 128
  {
    assert DoubleTo(1, 66) == DoubleTo(2, 66) == DoubleTo(4, 66) == DoubleTo(8, 66) == DoubleTo(16, 66);
    assert DoubleTo(16, 66) == DoubleTo(32, 66) == DoubleTo(64, 66) == DoubleTo(128, 66) == 128;
  }

  lemma FoldedEight()
    ensures !ClosedUnder({8}, 192, 128)
  {
    hide Rem;
    RemShift(72, 1, 128);
    assert 8 in {8} && Rem(8 + 192, 128) == 72;
    assert 72 !in Folded({8}, 128);
  }

  /** One bit on out of 192, 33 hash functions: the new size 128 does not divide 192, and a hash of 200
      used to find bit 8 but looks for bit 72 afterwards. */
  lemma LostFromWord()
    ensures ShrunkenSize(33, 1) == 128
    ensures !KeepsPositives({8}, 33, 3, 128)
  {
    hide KeepsPositives, Pow2, DoubleTo;
    Doubled66();
    SmallPowers();
    PowAdd(6, 1);
    ShrinkFromWord({8}, 33, 3, 128);
    FoldedEight();
  }

  // ---------------------------------------------------------------------------------------------
  // The filter.

  lemma TrueBitsInRange(data: seq<word>)
    ensures BitsOf(TrueBits(data), |data|)
  {
    forall b | b in TrueBits(data) ensures 0 <= b < 64 * |data| { TrueBitsMember(data, b); }
  }

  /** The bits of the first `i` probes. */
  function ProbesUpTo(h: Hashes, i: int, words: nat): set<int>
    requires WrapI32(64 * words) != 0
  {
    set j | 1 <= j <= i :: Probe(h, j, words)
  }

  lemma ProbesStep(h: Hashes, i: nat, words: nat)
    requires WrapI32(64 * words) != 0
    ensures ProbesUpTo(h, i + 1, words) == ProbesUpTo(h, i, words) + {Probe(h, i + 1, words)}
  {
    hide Probe;
  }

  ghost predicate Shrunk(before: seq<word>, k: nat, after: seq<word>) {
    var s := ShrunkenSize(k, |TrueBits(before)|);
    if s == 0 || s >= 64 * |before| then after == before
    else |after| == WordsFor(s) && TrueBits(after) == Folded(TrueBits(before), s)
  }

  ghost predicate SafeToShrink(data: seq<word>, k: nat)
    requires LegalSize(|data|)
  {
    var s := ShrunkenSize(k, |TrueBits(data)|);
    1 <= s < 64 * |data| ==> KeepsPositives(TrueBits(data), k, |data|, s)
  }

  lemma ShrinkKeeps(before: seq<word>, k: nat, after: seq<word>, items: set<Hashes>)
    requires LegalSize(|before|) && LegalSize(|after|) && SafeToShrink(before, k) && Shrunk(before, k, after)
    ensures WrapI32(64 * |before|) != 0 && WrapI32(64 * |after|) != 0
    ensures (forall h :: h in items ==> MightContain(before, k, h)) ==>
            (forall h :: h in items ==> MightContain(after, k, h))
  {
    hide TrueBits, WrapI32, ShrunkenSize, Probes, Folded;
    LegalDivisor(|before|);
    LegalDivisor(|after|);
  }

  function Below(bits: set<int>, i: int): set<int> { set b | b in bits && b < i }

  lemma FoldedNone(bits: set<int>, s: nat)
    requires s >= 1 && forall b :: b in bits ==> 0 <= b
    ensures Folded(Below(bits, 0), s) == {}
  {
    assert Below(bits, 0) == {};
  }

  lemma FoldedStep(bits: set<int>, i: int, s: nat)
    requires s >= 1
    ensures Folded(Below(bits, i + 1), s) ==
            Folded(Below(bits, i), s) + (if i in bits then {Rem(i, s)} else {})
  {
    hide Rem;
    assert Below(bits, i + 1) == Below(bits, i) + if i in bits then {i} else {};
  }

  /** A new array of `s` bits, rounded up to whole words, with bit `b` of `bits` moved to `b` modulo `s`. */
  method Fold(bits: SparkBitArray, s: nat) returns (newBits: SparkBitArray)
    requires 1 <= s < TWO_31
    ensures fresh(newBits) && |newBits.data| == WordsFor(s) && LegalSize(|newBits.data|)
    ensures TrueBits(newBits.data) == Folded(TrueBits(bits.data), s)
  {
    hide TrueBits, Rem, Folded;
    var on := false;
    newBits := new SparkBitArray.WithNumBits(s);
    TrueBitsInRange(bits.data);
    FoldedNone(TrueBits(bits.data), s);
    for i := 0 to bits.BitSize()
      invariant fresh(newBits) && |newBits.data| == WordsFor(s)
      invariant TrueBits(newBits.data) == Folded(Below(TrueBits(bits.data), i), s)
    {
      on := bits.Get(i);
      FoldedStep(TrueBits(bits.data), i, s);
      if on {
        newBits.Set(Rem(i, s));
      }
    }
    assert TrueBits(bits.data) == Below(TrueBits(bits.data), bits.BitSize());
  }

  /** Rounds are counted in a signed 32-bit integer. */
  predicate InRounds(i: int, k: nat) { 1 <= i && k % TWO_32 < TWO_31 && i <= k % TWO_32 }

  lemma RoundsExactly(i: int, k: nat)
    ensures InRounds(i, k) <==> 1 <= i <= Rounds(k)
  {
  }

  /** Every bit an item is sent to is on. */
  ghost predicate AllOn(data: seq<word>, k: nat, h: Hashes) {
    forall i, b :: InRounds(i, k) && Probed(h, i, |data|, b) ==> b in TrueBits(data)
  }

  lemma ProbesExactly(h: Hashes, k: nat, words: nat, b: int)
    requires LegalSize(words) && WrapI32(64 * words) != 0
    ensures b in Probes(h, k, words) <==> exists i :: InRounds(i, k) && Probed(h, i, words, b)
  {
    hide Probe, Probed, InRounds, WrapI32, Rounds;
    if b in Probes(h, k, words) {
      var i :| 1 <= i <= Rounds(k) && Probe(h, i, words) == b;
      RoundsExactly(i, k);
      ProbeExactly(h, i, words, b);
    }
    if i :| InRounds(i, k) && Probed(h, i, words, b) {
      RoundsExactly(i, k);
      ProbeExactly(h, i, words, b);
    }
  }

  /** An item is found exactly when every bit it is sent to is on. */
  lemma FoundExactly(data: seq<word>, k: nat, h: Hashes)
    requires LegalSize(|data|) && WrapI32(64 * |data|) != 0
    ensures MightContain(data, k, h) <==> AllOn(data, k, h)
  {
    hide Probes, Probed, InRounds, TrueBits, WrapI32;
    forall b ensures b in Probes(h, k, |data|) <==> exists i :: InRounds(i, k) && Probed(h, i, |data|, b) {
      ProbesExactly(h, k, |data|, b);
    }
  }

  lemma TwoRounds(h: Hashes)
    requires WrapI32(64) != 0
    ensures Probes(h, 2, 1) == {Probe(h, 1, 1), Probe(h, 2, 1)}
  {
    hide Probe;
    assert Rounds(2) == 2;
    assert 1 <= 1 <= Rounds(2) && 1 <= 2 <= Rounds(2);
  }

  /** In 64 bits with two rounds, an item with the hashes 5 and 7 turns on the bits 12 and 19, and one with
      the hashes 5 and 9 is sent to the bits 14 and 23 and not found. */
  lemma OtherItemRejected()
    ensures WrapI32(64) != 0 && Probes(Hashes(5, 7), 2, 1) == {12, 19} && Probes(Hashes(5, 9), 2, 1) == {14, 23}
  {
    assert Probe(Hashes(5, 7), 1, 1) == 12 && Probe(Hashes(5, 7), 2, 1) == 19;
    assert Probe(Hashes(5, 9), 1, 1) == 14 && Probe(Hashes(5, 9), 2, 1) == 23;
    TwoRounds(Hashes(5, 7));
    TwoRounds(Hashes(5, 9));
  }

  class SparkBloomFilter {
    var bits: SparkBitArray
    var k: nat
    /** The hashes of everything put in, here or in a filter merged into this one. */
    ghost var inserted: set<Hashes>

    ghost predicate Valid()
      reads this, bits
    {
      LegalSize(|bits.data|)
    }

    ghost predicate NoFalseNegatives()
      requires Valid()
      reads this, bits
    {
      LegalDivisor(|bits.data|);
      forall h :: h in inserted ==> MightContain(bits.data, k, h)
    }

    constructor (numHashFunctions: nat, numBits: nat)
      requires 0 < numBits < TWO_31
      ensures Valid() && fresh(bits) && k == numHashFunctions && |bits.data| == (numBits + 63) / 64
      ensures TrueBits(bits.data) == {} && inserted == {}
      ensures NoFalseNegatives()
    {
      bits := new SparkBitArray.WithNumBits(numBits);
      k := numHashFunctions;
      inserted := {};
    }

    /** `put_long` and `put_binary`. */
    method Put<Item>(item: Item, hash: Hash<Item>)
      requires Valid()
      modifies bits, this`inserted
      ensures Valid() && |bits.data| == old(|bits.data|)
      ensures WrapI32(64 * |bits.data|) != 0
      ensures TrueBits(bits.data) == old(TrueBits(bits.data)) + Probes(HashesOf(hash, item), k, |bits.data|)
      ensures inserted == old(inserted) + {HashesOf(hash, item)}
      ensures old(NoFalseNegatives()) ==> NoFalseNegatives()
      ensures
        var h := Hashes(hash(item, 0), hash(item, hash(item, 0)));
        forall b :: b in TrueBits(bits.data) <==>
          b in old(TrueBits(bits.data)) || exists i :: InRounds(i, k) && Probed(h, i, |bits.data|, b)
    {
      hide TrueBits, WrapI32, Combined, Probe, Probed, InRounds;
      var h := HashesOf(hash, item);
      var words := |bits.data|;
      LegalDivisor(words);
      for i := 0 to Rounds(k)
        invariant |bits.data| == words && inserted == old(inserted)
        invariant TrueBits(bits.data) == old(TrueBits(bits.data)) + ProbesUpTo(h, i, words)
      {
        ProbeInRange(h, i + 1, words);
        ProbesStep(h, i, words);
        bits.Set(Probe(h, i + 1, words));
      }
      inserted := inserted + {h};
      forall b ensures b in Probes(h, k, words) <==> exists i :: InRounds(i, k) && Probed(h, i, words, b) {
        ProbesExactly(h, k, words, b);
      }
    }

    /** `might_contain_long` and `might_contain_binary`. */
    method Contains<Item>(item: Item, hash: Hash<Item>) returns (found: bool)
      requires Valid()
      ensures WrapI32(64 * |bits.data|) != 0
      ensures found == MightContain(bits.data, k, HashesOf(hash, item))
      ensures NoFalseNegatives() && HashesOf(hash, item) in inserted ==> found
      ensures found <==> AllOn(bits.data, k, Hashes(hash(item, 0), hash(item, hash(item, 0))))
    {
      hide TrueBits, WrapI32, Combined, Probe, AllOn;
      var h := HashesOf(hash, item);
      var words := |bits.data|;
      LegalDivisor(words);
      FoundExactly(bits.data, k, h);
      for i := 0 to Rounds(k)
        invariant ProbesUpTo(h, i, words) <= TrueBits(bits.data)
      {
        ProbeInRange(h, i + 1, words);
        ProbesStep(h, i, words);
        var on := bits.Get(Probe(h, i + 1, words));
        if !on {
          assert Probe(h, i + 1, words) in Probes(h, k, words);
          return false;
        }
      }
      found := true;
    }

    /** Looks up a column of values and packs the answers into bytes, lowest bit first. */
    method MightContainLongs(values: seq<int>, hash: Hash<int>) returns (buffer: seq<nat>)
      requires Valid()
      ensures WrapI32(64 * |bits.data|) != 0
      ensures |buffer| == (|values| + 7) / 8
      ensures forall i :: 0 <= i < |values| ==>
        (Bit(buffer[i / 8], i % 8) <==> MightContain(bits.data, k, HashesOf(hash, values[i])))
      ensures forall i :: 0 <= i < |values| ==>
        var h1 := hash(values[i], 0);
        Bit(buffer[i / 8], i % 8) <==> AllOn(bits.data, k, Hashes(h1, hash(values[i], h1)))
    {
      hide TrueBits, WrapI32, Combined, Probe, Bit, Or, Pow2, MightContain, AllOn;
      LegalDivisor(|bits.data|);
      buffer := seq((|values| + 7) / 8, _ => 0);
      forall i | 0 <= i < |values| ensures !Bit(buffer[i / 8], i % 8) { ZeroBit(i % 8); }
      for n := 0 to |values|
        invariant |buffer| == (|values| + 7) / 8
        invariant forall i :: 0 <= i < n ==>
          (Bit(buffer[i / 8], i % 8) <==> MightContain(bits.data, k, HashesOf(hash, values[i])))
        invariant forall i :: n <= i < |values| ==> !Bit(buffer[i / 8], i % 8)
      {
        var found := Contains(values[n], hash);
        if found {
          ghost var before := buffer;
          buffer := buffer[n / 8 := Or(buffer[n / 8], Pow2(n % 8))];
          forall i | 0 <= i < |values|
            ensures Bit(buffer[i / 8], i % 8) <==> i == n || Bit(before[i / 8], i % 8)
          {
            OrBit(before[n / 8], Pow2(n % 8), i % 8);
            Pow2Bit(n % 8, i % 8);
            assert i / 8 == n / 8 && i % 8 == n % 8 ==> i == n;
          }
        }
      }
      forall i | 0 <= i < |values|
        ensures
          var h := HashesOf(hash, values[i]);
          MightContain(bits.data, k, h) <==> AllOn(bits.data, k, h)
      {
        FoundExactly(bits.data, k, HashesOf(hash, values[i]));
      }
    }

    method PutAll(other: SparkBloomFilter)
      requires Valid() && other.Valid() && k == other.k && |bits.data| == |other.bits.data|
      modifies bits, this`inserted
      ensures Valid() && |bits.data| == old(|bits.data|)
      ensures TrueBits(bits.data) == old(TrueBits(bits.data)) + old(TrueBits(other.bits.data))
      ensures inserted == old(inserted) + old(other.inserted)
      ensures old(NoFalseNegatives()) && old(other.NoFalseNegatives()) ==> NoFalseNegatives()
    {
      hide TrueBits, WrapI32, Combined, Probe;
      inserted := inserted + other.inserted;
      bits.PutAll(other.bits);
    }

    /** Replaces the array by a smaller one when few of its bits are on. A size that wraps to zero panics
        before anything has changed. */
    method ShrinkToFit() returns (panics: bool)
      requires Valid()
      modifies this`bits
      ensures Valid() && (bits == old(bits) || fresh(bits))
      ensures panics <==> Wanted(k, |TrueBits(old(bits.data))|) > TWO_63
      ensures Shrunk(old(bits.data), k, bits.data)
      ensures old(NoFalseNegatives()) && SafeToShrink(old(bits.data), k) ==> NoFalseNegatives()
    {
      hide TrueBits, WrapI32, Probes, ShrunkenSize, Wanted, Folded, SafeToShrink, MightContain;
      var numBits := bits.BitSize();
      var trues := bits.TrueCount();
      var s := ShrunkenSize(k, trues);
      ShrunkenSizeFacts(k, trues);
      if s >= numBits {
        return false;
      }
      if s == 0 {
        return true;
      }
      ghost var before := bits.data;
      var newBits := Fold(bits, s);
      ghost var items := inserted;
      bits := newBits;
      if SafeToShrink(before, k) {
        ShrinkKeeps(before, k, bits.data, items);
      }
      panics := false;
    }
  }

  /** Without a round of probing everything is found, before and after. */
  lemma NoRounds(bits: set<int>, k: nat, words: nat, s: nat)
    requires LegalSize(words) && 1 <= s < 64 * words && Rounds(k) == 0
    ensures KeepsPositives(bits, k, words, s)
  {
    hide Rounds, Probe;
    LegalDivisor(words);
    LegalDivisor(WordsFor(s));
    forall h ensures Probes(h, k, WordsFor(s)) == {} {
    }
  }

  /** Exactly when shrinking is safe, for every filter. */
  lemma SafeToShrinkExactly(data: seq<word>, k: nat)
    requires LegalSize(|data|)
    ensures
      var bits := TrueBits(data);
      var s := ShrunkenSize(k, |bits|);
      SafeToShrink(data, k) <==>
        (1 <= s < 64 * |data| && Rounds(k) >= 1 ==>
          if s < 64 then forall b :: b in bits ==> Rem(b, 64) < s else ClosedUnder(bits, 64 * |data|, s))
  {
    hide TrueBits, KeepsPositives, ClosedUnder, ShrunkenSize, Rem, Rounds;
    var bits := TrueBits(data);
    var s := ShrunkenSize(k, |bits|);
    ShrunkenSizeFacts(k, |bits|);
    TrueBitsInRange(data);
    if 1 <= s < 64 * |data| {
      if Rounds(k) == 0 {
        NoRounds(bits, k, |data|, s);
      } else if s < 64 {
        ShrinkBelowWord(bits, k, |data|, s);
      } else {
        ShrinkFromWord(bits, k, |data|, s);
      }
    }
  }

  // ---------------------------------------------------------------------------------------------
  // Merging two filters is building one.

  function AllProbes(hs: seq<Hashes>, k: nat, words: nat): set<int>
    requires WrapI32(64 * words) != 0
  {
    if hs == [] then {} else AllProbes(hs[..|hs| - 1], k, words) + Probes(hs[|hs| - 1], k, words)
  }

  lemma {:induction false} AllProbesConcat(a: seq<Hashes>, b: seq<Hashes>, k: nat, words: nat)
    requires WrapI32(64 * words) != 0
    ensures AllProbes(a + b, k, words) == AllProbes(a, k, words) + AllProbes(b, k, words)
    decreases |b|
  {
    hide Probes, WrapI32;
    if b == [] {
      assert a + b == a;
    } else {
      var n := |b| - 1;
      assert (a + b)[..|a| + n] == a + b[..n];
      AllProbesConcat(a, b[..n], k, words);
    }
  }

  function AllHashes<Item>(hash: Hash<Item>, items: seq<Item>): seq<Hashes> {
    seq(|items|, i requires 0 <= i < |items| => HashesOf(hash, items[i]))
  }

  method Build<Item>(items: seq<Item>, hash: Hash<Item>, k: nat, numBits: nat)
    returns (f: SparkBloomFilter)
    requires 0 < numBits < TWO_31
    ensures fresh(f) && fresh(f.bits) && f.Valid() && f.NoFalseNegatives()
    ensures f.k == k && |f.bits.data| == (numBits + 63) / 64 && WrapI32(64 * |f.bits.data|) != 0
    ensures TrueBits(f.bits.data) == AllProbes(AllHashes(hash, items), k, |f.bits.data|)
  {
    hide Probes, WrapI32, TrueBits;
    f := new SparkBloomFilter(k, numBits);
    LegalDivisor(|f.bits.data|);
    var hs := AllHashes(hash, items);
    assert hs[..0] == [];
    for i := 0 to |items|
      invariant fresh(f) && fresh(f.bits) && f.Valid() && f.NoFalseNegatives()
      invariant f.k == k && |f.bits.data| == (numBits + 63) / 64
      invariant TrueBits(f.bits.data) == AllProbes(hs[..i], k, |f.bits.data|)
    {
      assert hs[..i + 1][..i] == hs[..i];
      f.Put(items[i], hash);
    }
    assert hs[..|items|] == hs;
  }

  /** Word for word: a filter of `xs` merged with a filter of `ys` is a filter of `xs + ys`. */
  method BuildMerged<Item>(xs: seq<Item>, ys: seq<Item>, hash: Hash<Item>, k: nat, numBits: nat)
    returns (merged: SparkBloomFilter, whole: SparkBloomFilter)
    requires 0 < numBits < TWO_31
    ensures merged.bits.data == whole.bits.data && merged.k == whole.k
    ensures merged.Valid() && merged.NoFalseNegatives()
  {
    hide Probes, WrapI32, TrueBits;
    whole := Build(xs + ys, hash, k, numBits);
    merged := Build(xs, hash, k, numBits);
    var other := Build(ys, hash, k, numBits);
    merged.PutAll(other);
    assert AllHashes(hash, xs + ys) == AllHashes(hash, xs) + AllHashes(hash, ys);
    AllProbesConcat(AllHashes(hash, xs), AllHashes(hash, ys), k, |whole.bits.data|);
    TrueBitsDetermine(merged.bits.data, whole.bits.data);
  }

  // ---------------------------------------------------------------------------------------------
  // Serialisation.

  /** Version, number of hash functions narrowed to 32 bits, bits. */
  function WriteFilter(k: nat, data: seq<word>): Bytes {
    BigEndian(1, 4) + BigEndian(k % TWO_32, 4) + WriteBits(data)
  }

  /** A 32-bit number widened to an unsigned 64-bit one by its sign. */
  function Widen(x: nat): nat
    requires x < TWO_32
  {
    if x < TWO_31 then x else x + (TWO_64 - TWO_32)
  }

  function ReadFilter(bytes: Bytes): Option<(nat, seq<word>, Bytes)> {
    if |bytes| < 8 || FromBigEndian(bytes[..4]) != 1 then None
    else
      match ReadBits(bytes[8..])
      case None => None
      case Some((data, rest)) =>
        BigEndianWrite(bytes[4..8]);
        Widths();
        Some((Widen(FromBigEndian(bytes[4..8])), data, rest))
  }

  /** Reading a written filter gives it back exactly when its number of hash functions survives the
      narrowing, which every number below 2^31 does. */
  lemma FilterRoundTrip(k: nat, data: seq<word>, rest: Bytes)
    requires k < TWO_64 && |data| < TWO_31
    ensures ReadFilter(WriteFilter(k, data) + rest) == Some((Widen(k % TWO_32), data, rest))
    ensures ReadFilter(WriteFilter(k, data) + rest) == Some((k, data, rest))
       <==> k < TWO_31 || k >= TWO_64 - TWO_31
  {
    hide BigEndian, FromBigEndian, Pow256, WriteBits, ReadBits;
    var bytes := WriteFilter(k, data) + rest;
    assert bytes[..4] == BigEndian(1, 4) && bytes[4..8] == BigEndian(k % TWO_32, 4);
    assert bytes[8..] == WriteBits(data) + rest;
    Widths();
    BigEndianRead(1, 4);
    BigEndianRead(k % TWO_32, 4);
    BitsRoundTrip(data, rest);
  }

  /** A count of 2^31 comes back as a count near 2^64. */
  lemma CountLost(data: seq<word>)
    requires |data| < TWO_31
    ensures ReadFilter(WriteFilter(TWO_31, data)) == Some((TWO_64 - TWO_31, data, []))
  {
    hide WriteFilter, ReadFilter;
    FilterRoundTrip(TWO_31, data, []);
    assert WriteFilter(TWO_31, data) + [] == WriteFilter(TWO_31, data);
  }

  lemma VersionBytes()
    ensures BigEndian(1, 4) == [0, 0, 0, 1]
  {
    assert BigEndian(0, 3) == BigEndian(0, 2) + [0] && BigEndian(0, 2) == BigEndian(0, 1) + [0];
    assert BigEndian(0, 1) == BigEndian(0, 0) + [0];
  }

  /** By position: the version number 1, the hash count and the bits, each number most significant byte
      first. */
  lemma FilterBytes(k: nat, data: seq<word>, i: nat)
    requires i < 4
    ensures WriteFilter(k, data)[..4] == [0, 0, 0, 1] && WriteFilter(k, data)[8..] == WriteBits(data)
    ensures WriteFilter(k, data)[4 + i] as int == k % TWO_32 / Pow256(3 - i) % 256
  {
    hide WriteBits, Pow256;
    BigEndianByte(k % TWO_32, 4, i);
    hide BigEndian;
    VersionBytes();
  }
}
