/** Sequence vocabulary shared by the models. */
module Seqs {

  datatype Option<+T> = None | Some(value: T)

  newtype byte = b: int | 0 <= b < 256
  type Bytes = seq<byte>

  function Flatten<T>(xss: seq<seq<T>>): seq<T> {
    if xss == [] then [] else Flatten(xss[..|xss| - 1]) + xss[|xss| - 1]
  }

  lemma FlattenSnoc<T>(xss: seq<seq<T>>, xs: seq<T>)
    ensures Flatten(xss + [xs]) == Flatten(xss) + xs
  {
    assert (xss + [xs])[..|xss|] == xss;
  }

  lemma {:induction false} FlattenConcat<T>(xss: seq<seq<T>>, yss: seq<seq<T>>)
    ensures Flatten(xss + yss) == Flatten(xss) + Flatten(yss)
    decreases |yss|
  {
    if yss == [] {
      assert xss + yss == xss;
    } else {
      var n := |yss| - 1;
      assert (xss + yss)[..|xss| + n] == xss + yss[..n];
      FlattenConcat(xss, yss[..n]);
    }
  }

  lemma FlattenCons<T>(xss: seq<seq<T>>)
    requires xss != []
    ensures Flatten(xss) == xss[0] + Flatten(xss[1..])
  {
    assert xss == [xss[0]] + xss[1..];
    FlattenConcat([xss[0]], xss[1..]);
    FlattenSnoc([], xss[0]);
    assert [] + [xss[0]] == [xss[0]];
  }

  lemma SliceSnoc<T>(xs: seq<T>, i: nat, j: nat)
    requires i <= j < |xs|
    ensures xs[i..j] + [xs[j]] == xs[i..j + 1]
  {
  }

  lemma PrefixSnoc<T>(pre: seq<T>, xs: seq<T>, j: nat)
    requires j < |xs|
    ensures pre + xs[..j] + [xs[j]] == pre + xs[..j + 1]
  {
  }

  /** `chunks` cuts `xs` into pieces of exactly `n` elements, the last one alone possibly shorter
      but never empty. */
  ghost predicate IsChunking<T>(chunks: seq<seq<T>>, xs: seq<T>, n: nat) {
    && Flatten(chunks) == xs
    && (forall i :: 0 <= i < |chunks| - 1 ==> |chunks[i]| == n)
    && (chunks != [] ==> 1 <= |chunks[|chunks| - 1]| <= n)
  }

  lemma FirstChunk<T>(chunks: seq<seq<T>>, xs: seq<T>, n: nat)
    requires IsChunking(chunks, xs, n) && chunks != []
    ensures |chunks[0]| == if |xs| <= n then |xs| else n
    ensures |chunks[0]| <= |xs| && chunks[0] == xs[..|chunks[0]|]
    ensures IsChunking(chunks[1..], xs[|chunks[0]|..], n)
  {
    FlattenCons(chunks);
    if |chunks| > 1 {
      assert Flatten(chunks[1..]) == Flatten(chunks[1..][..|chunks| - 2]) + chunks[|chunks| - 1];
    }
  }

  /** The content and the piece size fix the pieces. */
  lemma {:induction false} ChunkingUnique<T>(a: seq<seq<T>>, b: seq<seq<T>>, xs: seq<T>, n: nat)
    requires IsChunking(a, xs, n) && IsChunking(b, xs, n)
    ensures a == b
    decreases |a|
  {
    if a == [] || b == [] {
      if a != [] { FirstChunk(a, xs, n); }
      if b != [] { FirstChunk(b, xs, n); }
    } else {
      FirstChunk(a, xs, n);
      FirstChunk(b, xs, n);
      ChunkingUnique(a[1..], b[1..], xs[|a[0]|..], n);
      assert a == [a[0]] + a[1..] && b == [b[0]] + b[1..];
    }
  }
}
