/** The bit array of the Bloom filter (`SparkBitArray`): 64-bit words, changed in place, and their
    big-endian serialisation. */
module BitArray {
  import opened Seqs
  import opened MachineInts

  type word = w: int | 0 <= w < 0x1_0000_0000_0000_0000

  // ---------------------------------------------------------------------------------------------
  // Bits of a natural number.

  predicate Bit(w: nat, k: nat) { if k == 0 then w % 2 == 1 else Bit(w / 2, k - 1) }

  function Shr(w: nat, k: nat): nat { if k == 0 then w else Shr(w / 2, k - 1) }

  function Or(a: nat, b: nat): nat
    decreases a + b
  {
    if a == 0 && b == 0 then 0
    else 2 * Or(a / 2, b / 2) + (if a % 2 == 1 || b % 2 == 1 then 1 else 0)
  }

  function And(a: nat, b: nat): nat
    decreases a + b
  {
    if a == 0 && b == 0 then 0
    else 2 * And(a / 2, b / 2) + (if a % 2 == 1 && b % 2 == 1 then 1 else 0)
  }

  function CountOnes(w: nat): nat { if w == 0 then 0 else w % 2 + CountOnes(w / 2) }

  lemma {:induction false} ShrBit(w: nat, k: nat)
    ensures Bit(w, k) <==> Shr(w, k) % 2 == 1
    decreases k
  {
    if k > 0 { ShrBit(w / 2, k - 1); }
  }

  lemma BitZero(w: nat)
    ensures Bit(w, 0) <==> w % 2 == 1
  {
  }

  lemma BitStep(w: nat, k: nat)
    requires k > 0
    ensures Bit(w, k) <==> Bit(w / 2, k - 1)
  {
  }

  lemma HalvedQuotient(w: nat, p: nat)
    requires p >= 1
    ensures w / 2 / p == w / (2 * p)
  {
    DividedTwice(w, 2, p);
  }

  /** Bit `k` has the weight 2^k. */
  lemma {:induction false} BitWeight(w: nat, k: nat)
    ensures Bit(w, k) <==> w / Pow2(k) % 2 == 1
    decreases k
  {
    hide Bit;
    if k == 0 {
      assert w / 1 == w;
      BitZero(w);
    } else {
      BitWeight(w / 2, k - 1);
      BitStep(w, k);
      HalvedQuotient(w, Pow2(k - 1));
    }
  }

  lemma {:induction false} ZeroBit(k: nat)
    ensures !Bit(0, k)
  {
    if k > 0 { ZeroBit(k - 1); }
  }

  lemma LowBits(a: nat, b: nat)
    ensures Or(a, b) / 2 == Or(a / 2, b / 2) && And(a, b) / 2 == And(a / 2, b / 2)
    ensures Or(a, b) % 2 == 1 <==> a % 2 == 1 || b % 2 == 1
    ensures And(a, b) % 2 == 1 <==> a % 2 == 1 && b % 2 == 1
  {
  }

  lemma {:induction false} OrBit(a: nat, b: nat, k: nat)
    ensures Bit(Or(a, b), k) <==> Bit(a, k) || Bit(b, k)
    ensures Bit(And(a, b), k) <==> Bit(a, k) && Bit(b, k)
    decreases k
  {
    hide Or, And;
    LowBits(a, b);
    if k > 0 {
      OrBit(a / 2, b / 2, k - 1);
    }
  }

  lemma {:induction false} Pow2Bit(k: nat, j: nat)
    ensures Bit(Pow2(k), j) <==> j == k
    decreases k
  {
    if k == 0 {
      if j > 0 { ZeroBit(j - 1); }
    } else if j > 0 {
      assert Pow2(k) / 2 == Pow2(k - 1);
      Pow2Bit(k - 1, j - 1);
    }
  }

  lemma {:induction false} Pow2Grows(a: nat, b: nat)
    requires a < b
    ensures Pow2(a) < Pow2(b)
    decreases b
  {
    if a < b - 1 { Pow2Grows(a, b - 1); }
  }

  lemma {:induction false} OrFits(a: nat, b: nat, n: nat)
    requires a < Pow2(n) && b < Pow2(n)
    ensures Or(a, b) < Pow2(n) && And(a, b) < Pow2(n)
    decreases n
  {
    if n > 0 { OrFits(a / 2, b / 2, n - 1); }
  }

  lemma WordFits()
    ensures Pow2(64) == TWO_64
  {
    hide Pow2;
    SmallPow2();
    PowAdd(4, 4);
    PowAdd(8, 8);
    PowAdd(16, 16);
    PowAdd(32, 32);
  }

  /** Numbers below 2^n are equal when their n bits are. */
  lemma {:induction false} SameBits(a: nat, b: nat, n: nat)
    requires a < Pow2(n) && b < Pow2(n)
    requires forall k :: 0 <= k < n ==> Bit(a, k) == Bit(b, k)
    ensures a == b
    decreases n
  {
    if n > 0 {
      assert Bit(a, 0) == Bit(b, 0);
      forall k | 0 <= k < n - 1 ensures Bit(a / 2, k) == Bit(b / 2, k) {
        assert Bit(a, k + 1) == Bit(b, k + 1);
      }
      SameBits(a / 2, b / 2, n - 1);
    }
  }

  // ---------------------------------------------------------------------------------------------
  // The set of bits that are on.

  function WordBits(w: nat, n: nat, base: int): set<int>
    decreases n
  {
    if n == 0 then {} else (if w % 2 == 1 then {base} else {}) + WordBits(w / 2, n - 1, base + 1)
  }

  lemma {:induction false} WordBitsMember(w: nat, n: nat, base: int, b: int)
    ensures b in WordBits(w, n, base) <==> base <= b < base + n && Bit(w, b - base)
    decreases n
  {
    if n > 0 { WordBitsMember(w / 2, n - 1, base + 1, b); }
  }

  lemma {:induction false} WordBitsCount(w: nat, n: nat, base: int)
    requires w < Pow2(n)
    ensures |WordBits(w, n, base)| == CountOnes(w)
    decreases n
  {
    if n > 0 {
      WordBitsCount(w / 2, n - 1, base + 1);
      WordBitsMember(w / 2, n - 1, base + 1, base);
    }
  }

  function TrueBits(data: seq<word>): set<int> {
    if data == [] then {}
    else
      var n := |data| - 1;
      TrueBits(data[..n]) + WordBits(data[n], 64, 64 * n)
  }

  predicate BitAt(data: seq<word>, b: nat)
    requires b < 64 * |data|
  {
    Bit(data[b / 64], b % 64)
  }

  lemma {:induction false} TrueBitsMember(data: seq<word>, b: int)
    ensures b in TrueBits(data) <==> 0 <= b < 64 * |data| && BitAt(data, b)
    decreases |data|
  {
    hide Bit, WordBits;
    if data != [] {
      var n := |data| - 1;
      TrueBitsMember(data[..n], b);
      WordBitsMember(data[n], 64, 64 * n, b);
      assert 64 * n <= b < 64 * n + 64 ==> b / 64 == n && b % 64 == b - 64 * n;
    }
  }

  /** Arrays of the same length with the same bits on are the same words. */
  lemma TrueBitsDetermine(a: seq<word>, b: seq<word>)
    requires |a| == |b| && TrueBits(a) == TrueBits(b)
    ensures a == b
  {
    hide Bit, TrueBits, Pow2;
    WordFits();
    forall i | 0 <= i < |a| ensures a[i] == b[i] {
      forall k | 0 <= k < 64 ensures Bit(a[i], k) == Bit(b[i], k) {
        assert (64 * i + k) / 64 == i && (64 * i + k) % 64 == k;
        TrueBitsMember(a, 64 * i + k);
        TrueBitsMember(b, 64 * i + k);
      }
      SameBits(a[i], b[i], 64);
    }
  }

  function Zeros(n: nat): (r: seq<word>)
    ensures |r| == n
  {
    seq(n, _ => 0)
  }

  lemma ZerosEmpty(n: nat)
    ensures TrueBits(Zeros(n)) == {}
  {
    forall b ensures b !in TrueBits(Zeros(n)) {
      TrueBitsMember(Zeros(n), b);
      if 0 <= b < 64 * n { ZeroBit(b % 64); }
    }
  }

  function OrWord(a: word, b: word): word {
    WordFits();
    OrFits(a, b, 64);
    Or(a, b)
  }

  function AndWord(a: word, b: word): word {
    WordFits();
    OrFits(a, b, 64);
    And(a, b)
  }

  function BitMask(k: nat): word
    requires k < 64
  {
    WordFits();
    Pow2Grows(k, 64);
    Pow2(k)
  }

  /** 2^31 bits at most. */
  const MAX_WORDS := 0x200_0000

  lemma {:induction false} CountAtMost(w: nat, n: nat)
    requires w < Pow2(n)
    ensures CountOnes(w) <= n
    decreases n
  {
    if n > 0 { CountAtMost(w / 2, n - 1); }
  }

  lemma CountWord(front: seq<word>, w: word)
    ensures |TrueBits(front) + WordBits(w, 64, 64 * |front|)| == |TrueBits(front)| + CountOnes(w)
    ensures CountOnes(w) <= 64
  {
    WordFits();
    WordBitsCount(w, 64, 64 * |front|);
    CountAtMost(w, 64);
    forall b ensures !(b in TrueBits(front) && b in WordBits(w, 64, 64 * |front|)) {
      TrueBitsMember(front, b);
      WordBitsMember(w, 64, 64 * |front|, b);
    }
    assert TrueBits(front) !! WordBits(w, 64, 64 * |front|);
  }

  class SparkBitArray {
    var data: seq<word>

    /** Room for `numBits` bits, rounded up to whole words. */
    constructor WithNumBits(numBits: nat)
      requires 0 < numBits < TWO_31
      ensures |data| == (numBits + 63) / 64 && 1 <= |data| <= MAX_WORDS
      ensures TrueBits(data) == {}
    {
      data := Zeros((numBits + 63) / 64);
      new;
      ZerosEmpty((numBits + 63) / 64);
    }

    constructor FromWords(words: seq<word>)
      ensures data == words
    {
      data := words;
    }

    function BitSize(): nat
      reads this
    {
      64 * |data|
    }

    method Set(index: nat)
      requires index < BitSize()
      modifies this
      ensures |data| == old(|data|)
      ensures TrueBits(data) == old(TrueBits(data)) + {index}
    {
      hide Bit, TrueBits, Or, Pow2;
      var w, k := index / 64, index % 64;
      ghost var before := data;
      data := data[w := OrWord(data[w], BitMask(k))];
      forall b ensures b in TrueBits(data) <==> b in TrueBits(before) + {index} {
        TrueBitsMember(data, b);
        TrueBitsMember(before, b);
        if 0 <= b < 64 * |data| && b / 64 == w {
          OrBit(before[w], Pow2(k), b % 64);
          Pow2Bit(k, b % 64);
        }
      }
    }

    method Get(index: nat) returns (on: bool)
      requires index < BitSize()
      ensures on == (index in TrueBits(data))
    {
      on := Shr(data[index / 64], index % 64) % 2 == 1;
      ShrBit(data[index / 64], index % 64);
      TrueBitsMember(data, index);
    }

    method PutAll(other: SparkBitArray)
      requires |data| == |other.data|
      modifies this
      ensures |data| == old(|data|)
      ensures TrueBits(data) == old(TrueBits(data)) + old(TrueBits(other.data))
    {
      ghost var before := data;
      var more := other.data;
      for i := 0 to |data|
        invariant |data| == |before|
        invariant forall j :: 0 <= j < i ==> data[j] == OrWord(before[j], more[j])
        invariant forall j :: i <= j < |data| ==> data[j] == before[j]
      {
        data := data[i := OrWord(data[i], more[i])];
      }
      forall b ensures b in TrueBits(data) <==> b in TrueBits(before) + TrueBits(more) {
        TrueBitsMember(data, b);
        TrueBitsMember(before, b);
        TrueBitsMember(more, b);
        if 0 <= b < 64 * |data| {
          OrBit(before[b / 64], more[b / 64], b % 64);
        }
      }
    }

    method Intersect(other: SparkBitArray)
      requires |data| == |other.data|
      modifies this
      ensures |data| == old(|data|)
      ensures TrueBits(data) == old(TrueBits(data)) * old(TrueBits(other.data))
    {
      ghost var before := data;
      var more := other.data;
      for i := 0 to |data|
        invariant |data| == |before|
        invariant forall j :: 0 <= j < i ==> data[j] == AndWord(before[j], more[j])
        invariant forall j :: i <= j < |data| ==> data[j] == before[j]
      {
        data := data[i := AndWord(data[i], more[i])];
      }
      forall b ensures b in TrueBits(data) <==> b in TrueBits(before) * TrueBits(more) {
        TrueBitsMember(data, b);
        TrueBitsMember(before, b);
        TrueBitsMember(more, b);
        if 0 <= b < 64 * |data| {
          OrBit(before[b / 64], more[b / 64], b % 64);
        }
      }
    }

    method TrueCount() returns (n: nat)
      ensures n == |TrueBits(data)| <= BitSize()
    {
      hide CountOnes, WordBits;
      n := 0;
      assert data[..0] == [];
      for i := 0 to |data|
        invariant n == |TrueBits(data[..i])| <= 64 * i
      {
        assert data[..i + 1][..i] == data[..i];
        CountWord(data[..i], data[i]);
        n := n + CountOnes(data[i]);
      }
      assert data[..|data|] == data;
    }
  }

  // ---------------------------------------------------------------------------------------------
  // Serialisation.

  /** `n` bytes, most significant first. */
  function BigEndian(x: nat, n: nat): (r: Bytes)
    ensures |r| == n
    decreases n
  {
    if n == 0 then [] else BigEndian(x / 256, n - 1) + [(x % 256) as byte]
  }

  function FromBigEndian(bytes: Bytes): nat {
    if bytes == [] then 0
    else 256 * FromBigEndian(bytes[..|bytes| - 1]) + bytes[|bytes| - 1] as int
  }

  lemma PowZero()
    ensures Pow256(0) == 1
  {
  }

  lemma PowStep(n: nat)
    ensures Pow256(n + 1) == 256 * Pow256(n)
  {
  }

  /** Byte `i` of `n` has the weight 256^(n - 1 - i). */
  lemma {:induction false} BigEndianByte(x: nat, n: nat, i: nat)
    requires i < n
    ensures BigEndian(x, n)[i] as int == x / Pow256(n - 1 - i) % 256
    decreases n
  {
    hide Pow256;
    if i == n - 1 {
      assert Pow256(0) == 1 by { PowZero(); }
    } else {
      BigEndianByte(x / 256, n - 1, i);
      PowStep(n - 2 - i);
      DividedTwice(x, 256, Pow256(n - 2 - i));
    }
  }

  lemma {:induction false} BigEndianRead(x: nat, n: nat)
    requires x < Pow256(n)
    ensures FromBigEndian(BigEndian(x, n)) == x
    decreases n
  {
    if n > 0 {
      var r := BigEndian(x, n);
      assert r[..n - 1] == BigEndian(x / 256, n - 1);
      BigEndianRead(x / 256, n - 1);
    }
  }

  lemma {:induction false} BigEndianWrite(bytes: Bytes)
    ensures FromBigEndian(bytes) < Pow256(|bytes|)
    ensures BigEndian(FromBigEndian(bytes), |bytes|) == bytes
    decreases |bytes|
  {
    if bytes != [] {
      BigEndianWrite(bytes[..|bytes| - 1]);
    }
  }

  lemma Widths()
    ensures Pow256(4) == TWO_32 && Pow256(8) == TWO_64
  {
    assert Pow256(2) == 65536;
    assert Pow256(6) == 65536 * TWO_32;
  }

  function WriteWords(words: seq<word>): Bytes {
    if words == [] then [] else BigEndian(words[0], 8) + WriteWords(words[1..])
  }

  /** A 32-bit length, which is the low half of a longer one, and the words. */
  function WriteBits(data: seq<word>): Bytes {
    BigEndian(|data| % TWO_32, 4) + WriteWords(data)
  }

  lemma {:induction false} WordsLength(words: seq<word>)
    ensures |WriteWords(words)| == 8 * |words|
    decreases |words|
  {
    hide BigEndian;
    if words != [] { WordsLength(words[1..]); }
  }

  lemma {:induction false} WordsByte(words: seq<word>, j: nat, i: nat)
    requires j < |words| && i < 8
    ensures |WriteWords(words)| == 8 * |words|
    ensures WriteWords(words)[8 * j + i] as int == words[j] / Pow256(7 - i) % 256
    decreases |words|
  {
    hide BigEndian, Pow256;
    WordsLength(words);
    WordsLength(words[1..]);
    var first := BigEndian(words[0], 8);
    if j == 0 {
      BigEndianByte(words[0], 8, i);
      assert WriteWords(words)[i] == first[i];
    } else {
      WordsByte(words[1..], j - 1, i);
      assert WriteWords(words)[8 * j + i] == WriteWords(words[1..])[8 * (j - 1) + i];
    }
  }

  /** By position: four bytes of length and eight bytes for each word, the most significant first. */
  lemma BitsByte(data: seq<word>, j: nat, i: nat)
    requires j < |data| && i < 8
    ensures |WriteBits(data)| == 4 + 8 * |data|
    ensures i < 4 ==> WriteBits(data)[i] as int == |data| % TWO_32 / Pow256(3 - i) % 256
    ensures WriteBits(data)[4 + 8 * j + i] as int == data[j] / Pow256(7 - i) % 256
  {
    hide BigEndian, WriteWords, Pow256;
    WordsByte(data, j, i);
    if i < 4 { BigEndianByte(|data| % TWO_32, 4, i); }
  }

  function ReadWords(bytes: Bytes, n: nat): (r: Option<(seq<word>, Bytes)>)
    ensures r.Some? ==> |r.value.0| == n
    decreases n
  {
    if n == 0 then Some(([], bytes))
    else if |bytes| < 8 then None
    else
      match ReadWords(bytes[8..], n - 1)
      case None => None
      case Some((words, rest)) =>
        BigEndianWrite(bytes[..8]);
        Widths();
        Some(([FromBigEndian(bytes[..8])] + words, rest))
  }

  /** A length with the top bit set reads as a negative number, for which no array can be allocated. */
  function ReadBits(bytes: Bytes): Option<(seq<word>, Bytes)> {
    if |bytes| < 4 then None
    else
      var n := FromBigEndian(bytes[..4]);
      if n >= TWO_31 then None else ReadWords(bytes[4..], n)
  }

  lemma {:induction false} ReadWordsWritten(words: seq<word>, rest: Bytes)
    ensures ReadWords(WriteWords(words) + rest, |words|) == Some((words, rest))
    decreases |words|
  {
    hide BigEndian, FromBigEndian, Pow256;
    if words == [] {
      assert WriteWords(words) + rest == rest;
    } else {
      var bytes := WriteWords(words) + rest;
      assert bytes[..8] == BigEndian(words[0], 8);
      assert bytes[8..] == WriteWords(words[1..]) + rest;
      ReadWordsWritten(words[1..], rest);
      Widths();
      BigEndianRead(words[0], 8);
      assert [words[0]] + words[1..] == words;
    }
  }

  lemma ReadWordsStep(bytes: Bytes, n: nat)
    requires n > 0 && ReadWords(bytes, n).Some?
    ensures |bytes| >= 8 && ReadWords(bytes[8..], n - 1).Some?
    ensures
      var (words, rest) := ReadWords(bytes, n).value;
      && words[0] == FromBigEndian(bytes[..8])
      && words[1..] == ReadWords(bytes[8..], n - 1).value.0 && rest == ReadWords(bytes[8..], n - 1).value.1
  {
    hide FromBigEndian, Pow256;
  }

  lemma {:induction false} WriteWordsRead(bytes: Bytes, n: nat)
    ensures ReadWords(bytes, n).Some? ==>
      var (words, rest) := ReadWords(bytes, n).value;
      WriteWords(words) + rest == bytes
    decreases n
  {
    hide BigEndian, FromBigEndian, Pow256;
    if n > 0 && ReadWords(bytes, n).Some? {
      ReadWordsStep(bytes, n);
      hide ReadWords;
      var (words, rest) := ReadWords(bytes, n).value;
      WriteWordsRead(bytes[8..], n - 1);
      BigEndianWrite(bytes[..8]);
      assert WriteWords(words) == bytes[..8] + WriteWords(words[1..]);
      assert bytes == bytes[..8] + bytes[8..];
      assert WriteWords(words) + rest == bytes[..8] + (WriteWords(words[1..]) + rest);
    }
  }

  /** Reading inverts writing on every array whose length fits 31 bits, and writing inverts reading. */
  lemma BitsRoundTrip(data: seq<word>, rest: Bytes)
    requires |data| < TWO_31
    ensures ReadBits(WriteBits(data) + rest) == Some((data, rest))
  {
    hide BigEndian, FromBigEndian, Pow256, WriteWords, ReadWords;
    var bytes := WriteBits(data) + rest;
    assert bytes[..4] == BigEndian(|data|, 4);
    assert bytes[4..] == WriteWords(data) + rest;
    Widths();
    BigEndianRead(|data|, 4);
    ReadWordsWritten(data, rest);
  }

  lemma BitsRoundTripBack(bytes: Bytes)
    requires ReadBits(bytes).Some?
    ensures
      var (data, rest) := ReadBits(bytes).value;
      |data| < TWO_31 && WriteBits(data) + rest == bytes
  {
    hide BigEndian, FromBigEndian, Pow256, WriteWords, ReadWords;
    var (data, rest) := ReadBits(bytes).value;
    BigEndianWrite(bytes[..4]);
    WriteWordsRead(bytes[4..], |data|);
    assert bytes == bytes[..4] + bytes[4..];
    assert WriteBits(data) + rest == bytes[..4] + (WriteWords(data) + rest);
  }
}
