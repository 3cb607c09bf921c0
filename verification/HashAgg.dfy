/** Hash aggregation (`execute_agg_with_grouping_hash` over `AggTable`).

    Rows are grouped in an in-memory table which may spill, may be flushed early, or may be given up
    altogether, after which every row is sent on as a group of its own. The accumulators sent
    downstream are partial: a later merge per key completes them. */
module HashAgg {
  import opened Seqs
  import opened Records

  /** An aggregate whose partial accumulators can be merged, and the spill bucket of a key out of
      `buckets`. */
  datatype Mergeable<!Row, !Acc> = Mergeable(
    base: Aggregate<Row, Acc>, merge: (Acc, Acc) -> Acc, bucket: Key -> nat, buckets: nat)

  predicate UnitLaw<Row, Acc(==)>(agg: Mergeable<Row, Acc>, a: Acc) {
    agg.merge(agg.base.init, a) == a && agg.merge(a, agg.base.init) == a
  }

  predicate SwapLaw<Row, Acc(==)>(agg: Mergeable<Row, Acc>, a: Acc, b: Acc) {
    agg.merge(a, b) == agg.merge(b, a)
  }

  predicate RegroupLaw<Row, Acc(==)>(agg: Mergeable<Row, Acc>, a: Acc, b: Acc, c: Acc) {
    agg.merge(agg.merge(a, b), c) == agg.merge(a, agg.merge(b, c))
  }

  predicate RowLaw<Row, Acc(==)>(agg: Mergeable<Row, Acc>, a: Acc, row: Row) {
    agg.base.update(a, row) == agg.merge(a, agg.base.update(agg.base.init, row))
  }

  /** Merging is commutative and associative with the fresh accumulator as unit, and folding a row
      into an accumulator is merging the accumulator of that row alone. */
  ghost predicate Lawful<Row(!new), Acc(!new)>(agg: Mergeable<Row, Acc>) {
    && (forall a :: UnitLaw(agg, a))
    && (forall a, b :: SwapLaw(agg, a, b))
    && (forall a, b, c :: RegroupLaw(agg, a, b, c))
    && (forall a, row :: RowLaw(agg, a, row))
    && (forall k :: agg.bucket(k) < agg.buckets)
  }

  lemma Unit<Row(!new), Acc(!new)>(agg: Mergeable<Row, Acc>, a: Acc)
    requires Lawful(agg)
    ensures agg.merge(agg.base.init, a) == a && agg.merge(a, agg.base.init) == a
  {
    assert UnitLaw(agg, a);
  }

  lemma Regroup<Row(!new), Acc(!new)>(agg: Mergeable<Row, Acc>, a: Acc, b: Acc, c: Acc)
    requires Lawful(agg)
    ensures agg.merge(agg.merge(a, b), c) == agg.merge(a, agg.merge(b, c))
  {
    assert RegroupLaw(agg, a, b, c);
  }

  // ---------------------------------------------------------------------------------------------
  // What is to be computed.

  /** The accumulator of all the rows of one key. */
  function Total<Row, Acc>(agg: Mergeable<Row, Acc>, rows: seq<Row>, key: Key): Acc {
    if rows == [] then agg.base.init
    else
      var n := |rows| - 1;
      var t := Total(agg, rows[..n], key);
      if agg.base.key(rows[n]) == key then agg.base.update(t, rows[n]) else t
  }

  /** What a later stage gets by merging all the partial records of one key. */
  function Sum<Row, Acc>(
      agg: Mergeable<Row, Acc>, recs: seq<Record<Acc>>, key: Key): Acc
  {
    if recs == [] then agg.base.init
    else
      var n := |recs| - 1;
      var t := Sum(agg, recs[..n], key);
      if recs[n].key == key then agg.merge(t, recs[n].acc) else t
  }

  lemma {:induction false} SumConcat<Row(!new), Acc(!new)>(
      agg: Mergeable<Row, Acc>, a: seq<Record<Acc>>, b: seq<Record<Acc>>, key: Key)
    requires Lawful(agg)
    ensures Sum(agg, a + b, key) == agg.merge(Sum(agg, a, key), Sum(agg, b, key))
    decreases |b|
  {
    if b == [] {
      assert a + b == a;
      assert UnitLaw(agg, Sum(agg, a, key));
    } else {
      var n := |b| - 1;
      assert (a + b)[..|a| + n] == a + b[..n];
      SumConcat(agg, a, b[..n], key);
      assert RegroupLaw(agg, Sum(agg, a, key), Sum(agg, b[..n], key), b[n].acc);
    }
  }

  lemma UpdateIsMerge<Row(!new), Acc(!new)>(agg: Mergeable<Row, Acc>, a: Acc, b: Acc, row: Row)
    requires Lawful(agg)
    ensures agg.base.update(agg.merge(a, b), row) == agg.merge(a, agg.base.update(b, row))
  {
    assert RowLaw(agg, agg.merge(a, b), row) && RowLaw(agg, b, row);
    assert RegroupLaw(agg, a, b, agg.base.update(agg.base.init, row));
  }

  lemma {:induction false} TotalConcat<Row(!new), Acc(!new)>(
      agg: Mergeable<Row, Acc>, a: seq<Row>, b: seq<Row>, key: Key)
    requires Lawful(agg)
    ensures Total(agg, a + b, key) == agg.merge(Total(agg, a, key), Total(agg, b, key))
    decreases |b|
  {
    if b == [] {
      assert a + b == a;
      assert UnitLaw(agg, Total(agg, a, key));
    } else {
      var n := |b| - 1;
      assert (a + b)[..|a| + n] == a + b[..n];
      TotalConcat(agg, a, b[..n], key);
      UpdateIsMerge(agg, Total(agg, a, key), Total(agg, b[..n], key), b[n]);
    }
  }

  function Keys<Acc>(recs: seq<Record<Acc>>): set<Key> {
    set i | 0 <= i < |recs| :: recs[i].key
  }

  function RowKeys<Row, Acc>(agg: Mergeable<Row, Acc>, rows: seq<Row>): set<Key> {
    set i | 0 <= i < |rows| :: agg.base.key(rows[i])
  }

  ghost predicate Distinct<Acc>(recs: seq<Record<Acc>>) {
    forall i, j :: 0 <= i < j < |recs| ==> recs[i].key != recs[j].key
  }

  lemma KeysConcat<Acc>(a: seq<Record<Acc>>, b: seq<Record<Acc>>)
    ensures Keys(a + b) == Keys(a) + Keys(b)
    ensures Distinct(a) && Distinct(b) && Keys(a) !! Keys(b) ==> Distinct(a + b)
  {
    forall k | k in Keys(a) + Keys(b) ensures k in Keys(a + b) {
      if k in Keys(a) {
        var i :| 0 <= i < |a| && a[i].key == k;
        assert (a + b)[i].key == k;
      } else {
        var i :| 0 <= i < |b| && b[i].key == k;
        assert (a + b)[|a| + i].key == k;
      }
    }
    if Distinct(a) && Distinct(b) && Keys(a) !! Keys(b) {
      forall i, j | 0 <= i < j < |a + b| ensures (a + b)[i].key != (a + b)[j].key {
        if i < |a| <= j {
          assert a[i].key in Keys(a) && b[j - |a|].key in Keys(b);
        }
      }
    }
  }

  lemma RowKeysConcat<Row, Acc>(agg: Mergeable<Row, Acc>, a: seq<Row>, b: seq<Row>)
    ensures RowKeys(agg, a + b) == RowKeys(agg, a) + RowKeys(agg, b)
  {
    forall k | k in RowKeys(agg, a) + RowKeys(agg, b) ensures k in RowKeys(agg, a + b) {
      if k in RowKeys(agg, a) {
        var i :| 0 <= i < |a| && agg.base.key(a[i]) == k;
        assert agg.base.key((a + b)[i]) == k;
      } else {
        var i :| 0 <= i < |b| && agg.base.key(b[i]) == k;
        assert agg.base.key((a + b)[|a| + i]) == k;
      }
    }
  }

  // ---------------------------------------------------------------------------------------------
  // Tables with one record per key.

  /** Position of `key`, or the length when it is absent. */
  function Find<Acc>(recs: seq<Record<Acc>>, key: Key): (i: nat)
    ensures i <= |recs|
    ensures i < |recs| ==> recs[i].key == key
    ensures i == |recs| ==> key !in Keys(recs)
    ensures forall j :: 0 <= j < i ==> recs[j].key != key
  {
    if recs == [] then 0
    else if recs[0].key == key then 0
    else
      assert forall j :: 0 <= j < |recs[1..]| ==> recs[j + 1] == recs[1..][j];
      assert forall j :: 1 <= j < |recs| ==> recs[j] == recs[1..][j - 1] && (recs[1..][j - 1].key in Keys(recs[1..]));
      1 + Find(recs[1..], key)
  }

  function AccOf<Row, Acc>(
      agg: Mergeable<Row, Acc>, recs: seq<Record<Acc>>, key: Key): Acc
  {
    var i := Find(recs, key);
    if i < |recs| then recs[i].acc else agg.base.init
  }

  function Put<Acc>(recs: seq<Record<Acc>>, key: Key, acc: Acc): seq<Record<Acc>> {
    var i := Find(recs, key);
    if i < |recs| then recs[i := Record(key, acc)] else recs + [Record(key, acc)]
  }

  lemma PutKeys<Acc>(recs: seq<Record<Acc>>, key: Key, acc: Acc)
    requires Distinct(recs)
    ensures Distinct(Put(recs, key, acc))
    ensures Keys(Put(recs, key, acc)) == Keys(recs) + {key}
  {
    var i := Find(recs, key);
    var recs' := Put(recs, key, acc);
    forall k ensures k in Keys(recs') <==> k in Keys(recs) + {key} {
      if j :| 0 <= j < |recs| && recs[j].key == k { assert recs'[j].key == k; }
      assert recs'[i].key == key;
    }
    forall a, b | 0 <= a < b < |recs'| ensures recs'[a].key != recs'[b].key {
      if b == |recs| { assert recs[a].key in Keys(recs); }
    }
  }

  lemma AccAt<Row, Acc>(
      agg: Mergeable<Row, Acc>, recs: seq<Record<Acc>>, i: nat, key: Key)
    requires Distinct(recs) && i <= |recs|
    ensures i < |recs| && recs[i].key == key ==> AccOf(agg, recs, key) == recs[i].acc
    ensures key !in Keys(recs) ==> AccOf(agg, recs, key) == agg.base.init
  {
    var f := Find(recs, key);
    if f < |recs| { assert recs[f].key in Keys(recs); }
    if i < |recs| && recs[i].key == key { assert recs[i].key in Keys(recs); }
  }

  lemma PutOne<Row, Acc>(
      agg: Mergeable<Row, Acc>, recs: seq<Record<Acc>>, key: Key, acc: Acc, other: Key)
    requires Distinct(recs)
    ensures Distinct(Put(recs, key, acc))
    ensures Keys(Put(recs, key, acc)) == Keys(recs) + {key}
    ensures AccOf(agg, Put(recs, key, acc), other) == if other == key then acc else AccOf(agg, recs, other)
  {
    PutKeys(recs, key, acc);
    var i, f := Find(recs, key), Find(recs, other);
    var recs' := Put(recs, key, acc);
    AccAt(agg, recs', i, key);
    AccAt(agg, recs, f, other);
    AccAt(agg, recs', f, other);
  }

  /** In a table without repeated keys, merging the records of a key finds at most one. */
  lemma {:induction false} SumIsAcc<Row(!new), Acc(!new)>(
      agg: Mergeable<Row, Acc>, recs: seq<Record<Acc>>, key: Key)
    requires Lawful(agg) && Distinct(recs)
    ensures Sum(agg, recs, key) == AccOf(agg, recs, key)
    decreases |recs|
  {
    if recs != [] {
      var n := |recs| - 1;
      var front := recs[..n];
      SumIsAcc(agg, front, key);
      var f := Find(front, key);
      AccAt(agg, recs, n, key);
      assert UnitLaw(agg, recs[n].acc);
      if f < n {
        AccAt(agg, recs, f, key);
        assert recs[n].key != key;
      } else if recs[n].key != key {
        assert recs == front + [recs[n]];
        KeysConcat(front, [recs[n]]);
        AccAt(agg, recs, n, key);
      }
    }
  }

  // ---------------------------------------------------------------------------------------------
  // Filling a table.

  /** `recs` after upserting `rows` in order. */
  function UpsertRows<Row, Acc>(agg: Mergeable<Row, Acc>, recs: seq<Record<Acc>>, rows: seq<Row>)
    : seq<Record<Acc>>
  {
    if rows == [] then recs
    else
      var n := |rows| - 1;
      var t := UpsertRows(agg, recs, rows[..n]);
      Put(t, agg.base.key(rows[n]), agg.base.update(AccOf(agg, t, agg.base.key(rows[n])), rows[n]))
  }

  /** One record for each row. */
  function Lift<Row, Acc>(agg: Mergeable<Row, Acc>, rows: seq<Row>): seq<Record<Acc>> {
    seq(|rows|, i requires 0 <= i < |rows| => Record(agg.base.key(rows[i]), agg.base.update(agg.base.init, rows[i])))
  }

  /** `recs` after merging the records of bucket `b` among `more`, in order. */
  function MergeBucket<Row, Acc>(
      agg: Mergeable<Row, Acc>, recs: seq<Record<Acc>>, more: seq<Record<Acc>>, b: nat): seq<Record<Acc>>
  {
    if more == [] then recs
    else
      var n := |more| - 1;
      var t := MergeBucket(agg, recs, more[..n], b);
      var r := more[n];
      if agg.bucket(r.key) == b then Put(t, r.key, agg.merge(AccOf(agg, t, r.key), r.acc)) else t
  }

  lemma {:induction false} UpsertRowsKeys<Row, Acc>(
      agg: Mergeable<Row, Acc>, recs: seq<Record<Acc>>, rows: seq<Row>)
    requires Distinct(recs)
    ensures Distinct(UpsertRows(agg, recs, rows))
    ensures Keys(UpsertRows(agg, recs, rows)) == Keys(recs) + RowKeys(agg, rows)
    decreases |rows|
  {
    if rows != [] {
      var n := |rows| - 1;
      var key := agg.base.key(rows[n]);
      UpsertRowsKeys(agg, recs, rows[..n]);
      var t := UpsertRows(agg, recs, rows[..n]);
      PutOne(agg, t, key, agg.base.update(AccOf(agg, t, key), rows[n]), key);
      assert rows == rows[..n] + [rows[n]];
      RowKeysConcat(agg, rows[..n], [rows[n]]);
      assert RowKeys(agg, [rows[n]]) == {key};
    }
  }

  lemma {:induction false} UpsertRowsAcc<Row(!new), Acc(!new)>(
      agg: Mergeable<Row, Acc>, recs: seq<Record<Acc>>, rows: seq<Row>, key: Key)
    requires Lawful(agg) && Distinct(recs)
    ensures AccOf(agg, UpsertRows(agg, recs, rows), key) == agg.merge(AccOf(agg, recs, key), Total(agg, rows, key))
    decreases |rows|
  {
    if rows == [] {
      assert UnitLaw(agg, AccOf(agg, recs, key));
    } else {
      var n := |rows| - 1;
      var row := rows[n];
      UpsertRowsKeys(agg, recs, rows[..n]);
      UpsertRowsAcc(agg, recs, rows[..n], key);
      var t := UpsertRows(agg, recs, rows[..n]);
      PutOne(agg, t, agg.base.key(row), agg.base.update(AccOf(agg, t, agg.base.key(row)), row), key);
      UpdateIsMerge(agg, AccOf(agg, recs, key), Total(agg, rows[..n], key), row);
    }
  }

  lemma LiftKeys<Row, Acc>(agg: Mergeable<Row, Acc>, rows: seq<Row>)
    ensures Keys(Lift(agg, rows)) == RowKeys(agg, rows)
  {
    var l := Lift(agg, rows);
    assert forall i :: 0 <= i < |rows| ==> l[i].key == agg.base.key(rows[i]);
  }

  lemma {:induction false} LiftSum<Row(!new), Acc(!new)>(agg: Mergeable<Row, Acc>, rows: seq<Row>, key: Key)
    requires Lawful(agg)
    ensures Sum(agg, Lift(agg, rows), key) == Total(agg, rows, key)
    decreases |rows|
  {
    if rows != [] {
      var n := |rows| - 1;
      assert Lift(agg, rows)[..n] == Lift(agg, rows[..n]);
      LiftSum(agg, rows[..n], key);
      assert RowLaw(agg, Total(agg, rows[..n], key), rows[n]);
    }
  }

  function BucketKeys<Row, Acc>(agg: Mergeable<Row, Acc>, recs: seq<Record<Acc>>, b: nat): set<Key> {
    set k | k in Keys(recs) && agg.bucket(k) == b
  }

  lemma {:induction false} MergeBucketKeys<Row, Acc>(
      agg: Mergeable<Row, Acc>, recs: seq<Record<Acc>>, more: seq<Record<Acc>>, b: nat)
    requires Distinct(recs)
    ensures Distinct(MergeBucket(agg, recs, more, b))
    ensures Keys(MergeBucket(agg, recs, more, b)) == Keys(recs) + BucketKeys(agg, more, b)
    decreases |more|
  {
    if more != [] {
      var n := |more| - 1;
      var r := more[n];
      MergeBucketKeys(agg, recs, more[..n], b);
      var t := MergeBucket(agg, recs, more[..n], b);
      PutOne(agg, t, r.key, agg.merge(AccOf(agg, t, r.key), r.acc), r.key);
      assert more == more[..n] + [r];
      KeysConcat(more[..n], [r]);
      assert Keys([r]) == {r.key};
    }
  }

  lemma {:induction false} MergeBucketAcc<Row(!new), Acc(!new)>(
      agg: Mergeable<Row, Acc>, recs: seq<Record<Acc>>, more: seq<Record<Acc>>, b: nat, key: Key)
    requires Lawful(agg) && Distinct(recs)
    ensures AccOf(agg, MergeBucket(agg, recs, more, b), key) ==
            if agg.bucket(key) == b then agg.merge(AccOf(agg, recs, key), Sum(agg, more, key))
            else AccOf(agg, recs, key)
    decreases |more|
  {
    hide Lawful, AccOf, Put, Keys, Distinct;
    if more == [] {
      Unit(agg, AccOf(agg, recs, key));
    } else {
      var n := |more| - 1;
      var r := more[n];
      MergeBucketKeys(agg, recs, more[..n], b);
      MergeBucketAcc(agg, recs, more[..n], b, key);
      var t := MergeBucket(agg, recs, more[..n], b);
      PutOne(agg, t, r.key, agg.merge(AccOf(agg, t, r.key), r.acc), key);
      Regroup(agg, AccOf(agg, recs, key), Sum(agg, more[..n], key), r.acc);
    }
  }

  // ---------------------------------------------------------------------------------------------
  // Record sequences that stand for the same groups.

  /** `recs` merge to exactly the groups of `rows`. */
  ghost predicate Accounts<Row, Acc>(agg: Mergeable<Row, Acc>, recs: seq<Record<Acc>>, rows: seq<Row>) {
    && Keys(recs) == RowKeys(agg, rows)
    && (forall key :: Sum(agg, recs, key) == Total(agg, rows, key))
  }

  ghost predicate SameGroups<Row, Acc>(
      agg: Mergeable<Row, Acc>, a: seq<Record<Acc>>, b: seq<Record<Acc>>)
  {
    && Keys(a) == Keys(b)
    && (forall key :: Sum(agg, a, key) == Sum(agg, b, key))
  }

  /** `b` stands for the groups of `a` with the rows of `batch` added. */
  ghost predicate AddsRows<Row, Acc>(
      agg: Mergeable<Row, Acc>, a: seq<Record<Acc>>, batch: seq<Row>, b: seq<Record<Acc>>)
  {
    && Keys(b) == Keys(a) + RowKeys(agg, batch)
    && (forall key :: Sum(agg, b, key) == agg.merge(Sum(agg, a, key), Total(agg, batch, key)))
  }

  lemma AccountsMore<Row(!new), Acc(!new)>(
      agg: Mergeable<Row, Acc>, a: seq<Record<Acc>>, rows: seq<Row>, batch: seq<Row>, b: seq<Record<Acc>>)
    requires Lawful(agg) && Accounts(agg, a, rows) && AddsRows(agg, a, batch, b)
    ensures Accounts(agg, b, rows + batch)
  {
    RowKeysConcat(agg, rows, batch);
    forall key ensures Sum(agg, b, key) == Total(agg, rows + batch, key) {
      TotalConcat(agg, rows, batch, key);
      var same := Sum(agg, a, key);
    }
  }

  lemma AddsRowsAfter<Row(!new), Acc(!new)>(
      agg: Mergeable<Row, Acc>, pre: seq<Record<Acc>>, a: seq<Record<Acc>>, batch: seq<Row>, b: seq<Record<Acc>>)
    requires Lawful(agg) && AddsRows(agg, a, batch, b)
    ensures AddsRows(agg, pre + a, batch, pre + b)
  {
    KeysConcat(pre, a);
    KeysConcat(pre, b);
    forall key ensures Sum(agg, pre + b, key) == agg.merge(Sum(agg, pre + a, key), Total(agg, batch, key)) {
      SumConcat(agg, pre, a, key);
      SumConcat(agg, pre, b, key);
      assert RegroupLaw(agg, Sum(agg, pre, key), Sum(agg, a, key), Total(agg, batch, key));
    }
  }

  lemma SameGroupsAfter<Row(!new), Acc(!new)>(
      agg: Mergeable<Row, Acc>, pre: seq<Record<Acc>>, a: seq<Record<Acc>>, b: seq<Record<Acc>>)
    requires Lawful(agg) && SameGroups(agg, a, b)
    ensures SameGroups(agg, pre + a, pre + b)
  {
    KeysConcat(pre, a);
    KeysConcat(pre, b);
    forall key ensures Sum(agg, pre + a, key) == Sum(agg, pre + b, key) {
      SumConcat(agg, pre, a, key);
      SumConcat(agg, pre, b, key);
    }
  }

  lemma SameGroupsSwapped<Row(!new), Acc(!new)>(
      agg: Mergeable<Row, Acc>, a: seq<Record<Acc>>, b: seq<Record<Acc>>)
    requires Lawful(agg)
    ensures SameGroups(agg, a + b, b + a)
  {
    KeysConcat(a, b);
    KeysConcat(b, a);
    forall key ensures Sum(agg, a + b, key) == Sum(agg, b + a, key) {
      SumConcat(agg, a, b, key);
      SumConcat(agg, b, a, key);
      assert SwapLaw(agg, Sum(agg, a, key), Sum(agg, b, key));
    }
  }

  lemma UpsertAddsRows<Row(!new), Acc(!new)>(
      agg: Mergeable<Row, Acc>, recs: seq<Record<Acc>>, batch: seq<Row>)
    requires Lawful(agg) && Distinct(recs)
    ensures AddsRows(agg, recs, batch, UpsertRows(agg, recs, batch))
  {
    UpsertRowsKeys(agg, recs, batch);
    var recs' := UpsertRows(agg, recs, batch);
    forall key ensures Sum(agg, recs', key) == agg.merge(Sum(agg, recs, key), Total(agg, batch, key)) {
      UpsertRowsAcc(agg, recs, batch, key);
      SumIsAcc(agg, recs, key);
      SumIsAcc(agg, recs', key);
    }
  }

  lemma LiftAddsRows<Row(!new), Acc(!new)>(
      agg: Mergeable<Row, Acc>, recs: seq<Record<Acc>>, batch: seq<Row>)
    requires Lawful(agg)
    ensures AddsRows(agg, recs, batch, recs + Lift(agg, batch))
  {
    LiftKeys(agg, batch);
    KeysConcat(recs, Lift(agg, batch));
    forall key
      ensures Sum(agg, recs + Lift(agg, batch), key) == agg.merge(Sum(agg, recs, key), Total(agg, batch, key))
    {
      SumConcat(agg, recs, Lift(agg, batch), key);
      LiftSum(agg, batch, key);
    }
  }

  // ---------------------------------------------------------------------------------------------
  // Output.

  lemma LastBatchStart(n: nat, size: nat)
    requires n >= 1 && size >= 1
    ensures 0 <= (n - 1) / size * size < n <= (n - 1) / size * size + size
  {
  }

  lemma OutputStep<Row(!new), Acc(!new)>(
      agg: Mergeable<Row, Acc>, records: seq<Record<Acc>>, begin: nat, len: nat, sent: seq<Record<Acc>>)
    requires begin <= len <= |records| && Lawful(agg) && Distinct(records)
    requires SameGroups(agg, sent, records[len..]) && Distinct(sent)
    ensures SameGroups(agg, sent + records[begin..len], records[begin..])
    ensures Distinct(sent + records[begin..len])
  {
    var piece := records[begin..len];
    assert records[begin..] == piece + records[len..];
    SameGroupsSwapped(agg, sent, piece);
    SameGroupsAfter(agg, piece, sent, records[len..]);
    KeysConcat(sent, piece);
    assert Keys(sent) !! Keys(piece) by {
      assert Keys(records[len..]) !! Keys(piece);
    }
  }

  /** Sends a table that never spilled: batches of `size` records, the last ones first, so that the
      memory behind them can be released. */
  method OutputInMem<Row(!new), Acc(!new)>(agg: Mergeable<Row, Acc>, records: seq<Record<Acc>>, size: nat)
    returns (out: seq<seq<Record<Acc>>>)
    requires size >= 1 && Lawful(agg) && Distinct(records)
    ensures SameGroups(agg, Flatten(out), records) && Distinct(Flatten(out))
  {
    out := [];
    var len := |records|;
    assert records[len..] == [];
    while len > 0
      invariant len <= |records|
      invariant SameGroups(agg, Flatten(out), records[len..]) && Distinct(Flatten(out))
    {
      LastBatchStart(len, size);
      var begin := (len - 1) / size * size;
      OutputStep(agg, records, begin, len, Flatten(out));
      FlattenSnoc(out, records[begin..len]);
      out := out + [records[begin..len]];
      len := begin;
    }
    assert records[0..] == records;
  }

  /** Merges bucket `b` of all the spills into one table. */
  method MergeSpills<Row, Acc>(agg: Mergeable<Row, Acc>, spills: seq<seq<Record<Acc>>>, b: nat)
    returns (recs: seq<Record<Acc>>)
    ensures recs == MergeBucket(agg, [], Flatten(spills), b)
  {
    recs := [];
    for s := 0 to |spills|
      invariant recs == MergeBucket(agg, [], Flatten(spills[..s]), b)
    {
      ghost var before := Flatten(spills[..s]);
      var spill := spills[s];
      assert before + spill[..0] == before;
      for i := 0 to |spill|
        invariant recs == MergeBucket(agg, [], before + spill[..i], b)
      {
        PrefixSnoc(before, spill, i);
        assert (before + spill[..i] + [spill[i]])[..|before + spill[..i]|] == before + spill[..i];
        if agg.bucket(spill[i].key) == b {
          recs := Put(recs, spill[i].key, agg.merge(AccOf(agg, recs, spill[i].key), spill[i].acc));
        }
      }
      assert spill[..|spill|] == spill;
      SliceSnoc(spills, 0, s);
      FlattenSnoc(spills[..s], spill);
    }
    assert spills[..|spills|] == spills;
  }

  /** Cuts a table into batches of `size` records. */
  method Chunk<T>(xs: seq<T>, size: nat) returns (out: seq<seq<T>>)
    requires size >= 1
    ensures IsChunking(out, xs, size)
  {
    out := [];
    var begin := 0;
    assert xs[..0] == [];
    while begin < |xs|
      invariant 0 <= begin <= |xs|
      invariant Flatten(out) == xs[..begin]
      invariant forall i :: 0 <= i < |out| ==> 1 <= |out[i]| <= size
      invariant begin < |xs| ==> forall i :: 0 <= i < |out| ==> |out[i]| == size
      invariant forall i :: 0 <= i < |out| - 1 ==> |out[i]| == size
    {
      var end := if begin + size <= |xs| then begin + size else |xs|;
      FlattenSnoc(out, xs[begin..end]);
      assert xs[..begin] + xs[begin..end] == xs[..end];
      out := out + [xs[begin..end]];
      begin := end;
    }
    assert xs[..|xs|] == xs;
  }

  /** What has been sent once the buckets below `b` have been merged. */
  ghost predicate SentBuckets<Row, Acc>(
      agg: Mergeable<Row, Acc>, sent: seq<Record<Acc>>, all: seq<Record<Acc>>, b: nat)
  {
    && Distinct(sent)
    && (forall key :: key in Keys(sent) <==> key in Keys(all) && agg.bucket(key) < b)
    && (forall key :: Sum(agg, sent, key) == if agg.bucket(key) < b then Sum(agg, all, key) else agg.base.init)
  }

  lemma SendBucket<Row(!new), Acc(!new)>(
      agg: Mergeable<Row, Acc>, sent: seq<Record<Acc>>, all: seq<Record<Acc>>, b: nat)
    requires Lawful(agg) && SentBuckets(agg, sent, all, b)
    ensures SentBuckets(agg, sent + MergeBucket(agg, [], all, b), all, b + 1)
  {
    var recs := MergeBucket(agg, [], all, b);
    MergeBucketKeys(agg, [], all, b);
    KeysConcat(sent, recs);
    forall key
      ensures Sum(agg, sent + recs, key) == if agg.bucket(key) < b + 1 then Sum(agg, all, key) else agg.base.init
    {
      SumConcat(agg, sent, recs, key);
      SumIsAcc(agg, recs, key);
      MergeBucketAcc(agg, [], all, b, key);
      assert UnitLaw(agg, Sum(agg, all, key)) && UnitLaw(agg, agg.base.init);
      assert AccOf(agg, [], key) == agg.base.init;
    }
  }

  /** Sends a table that spilled: the spills are merged bucket by bucket. */
  method OutputMerged<Row(!new), Acc(!new)>(
      agg: Mergeable<Row, Acc>, spills: seq<seq<Record<Acc>>>, batchSize: nat)
    returns (out: seq<seq<Record<Acc>>>)
    requires batchSize >= 1 && Lawful(agg)
    ensures SameGroups(agg, Flatten(out), Flatten(spills)) && Distinct(Flatten(out))
  {
    out := [];
    for b := 0 to agg.buckets
      invariant SentBuckets(agg, Flatten(out), Flatten(spills), b)
    {
      var recs := MergeSpills(agg, spills, b);
      var batches := Chunk(recs, batchSize);
      SendBucket(agg, Flatten(out), Flatten(spills), b);
      FlattenConcat(out, batches);
      out := out + batches;
    }
    assert forall key :: agg.bucket(key) < agg.buckets;
  }

  // ---------------------------------------------------------------------------------------------
  // The table.

  ghost predicate Indexes<Acc>(index: map<Key, nat>, records: seq<Record<Acc>>) {
    && index.Keys == Keys(records)
    && (forall k :: k in index ==> index[k] < |records| && records[index[k]].key == k)
  }

  lemma IndexFinds<Acc>(index: map<Key, nat>, records: seq<Record<Acc>>, key: Key)
    requires Distinct(records) && Indexes(index, records)
    ensures key in index <==> Find(records, key) < |records|
    ensures key in index ==> index[key] == Find(records, key)
  {
    var f := Find(records, key);
    if f < |records| { assert records[f].key in Keys(records); }
  }

  lemma IndexKept<Acc>(index: map<Key, nat>, records: seq<Record<Acc>>, key: Key, acc: Acc)
    requires Indexes(index, records) && key in index
    ensures Indexes(index, records[index[key] := Record(key, acc)])
  {
    var after := records[index[key] := Record(key, acc)];
    assert records[index[key]].key == key;
    forall k ensures k in Keys(after) <==> k in Keys(records) {
      if i :| 0 <= i < |records| && records[i].key == k { assert after[i].key == k; }
      if i :| 0 <= i < |after| && after[i].key == k { assert records[i].key == k; }
    }
  }

  lemma IndexGrown<Acc>(index: map<Key, nat>, records: seq<Record<Acc>>, key: Key, acc: Acc)
    requires Indexes(index, records) && key !in index
    ensures Indexes(index[key := |records|], records + [Record(key, acc)])
  {
    var added := [Record(key, acc)];
    KeysConcat(records, added);
    assert added[0].key in Keys(added);
  }

  lemma IndexPut<Acc>(index: map<Key, nat>, records: seq<Record<Acc>>, key: Key, acc: Acc)
    requires Distinct(records) && Indexes(index, records)
    ensures key in index ==> Put(records, key, acc) == records[index[key] := Record(key, acc)]
    ensures key in index ==> Indexes(index, Put(records, key, acc))
    ensures key !in index ==> Put(records, key, acc) == records + [Record(key, acc)]
    ensures key !in index ==> Indexes(index[key := |records|], Put(records, key, acc))
    ensures Distinct(Put(records, key, acc))
  {
    IndexFinds(index, records, key);
    PutKeys(records, key, acc);
    if key in index {
      IndexKept(index, records, key, acc);
    } else {
      IndexGrown(index, records, key, acc);
    }
    hide Indexes, Distinct, Keys, Find;
  }

  /** What the environment decides after a batch has been added to the table: nothing; the memory
      manager makes it spill; aggregation turns out not to pay; or the memory manager asks for a
      spill where spilling is replaced by flushing. */
  datatype Signal = Proceed | MustSpill(keepHashing: bool) | TriggerSkipping | SpillSkipping

  class AggTable<Row(!new), Acc(!new)> {
    const agg: Mergeable<Row, Acc>
    /** One record per key while hashing, one record per row while merging. */
    var hashing: bool
    var records: seq<Record<Acc>>
    var index: map<Key, nat>
    var spills: seq<seq<Record<Acc>>>

    /** A table that merges has spilled before, so whenever there is no spill to merge with, the
        records in memory are grouped. */
    ghost predicate Valid()
      reads this
    {
      && (hashing ==> Distinct(records) && Indexes(index, records))
      && (!hashing ==> spills != [])
    }

    ghost function Held(): seq<Record<Acc>>
      reads this
    {
      Flatten(spills) + records
    }

    constructor (agg: Mergeable<Row, Acc>)
      ensures Valid() && this.agg == agg && Held() == []
    {
      this.agg := agg;
      hashing, records, index, spills := true, [], map[], [];
    }

    method UpdateBatch(batch: seq<Row>)
      requires Valid() && hashing
      modifies this`records, this`index
      ensures Valid() && records == UpsertRows(agg, old(records), batch)
    {
      assert batch[..0] == [];
      for i := 0 to |batch|
        invariant Distinct(records) && Indexes(index, records)
        invariant records == UpsertRows(agg, old(records), batch[..i])
      {
        var key := agg.base.key(batch[i]);
        assert batch[..i + 1][..i] == batch[..i];
        IndexFinds(index, records, key);
        IndexPut(index, records, key, agg.base.update(AccOf(agg, records, key), batch[i]));
        if key in index {
          records := records[index[key] := Record(key, agg.base.update(records[index[key]].acc, batch[i]))];
        } else {
          index := index[key := |records|];
          records := records + [Record(key, agg.base.update(agg.base.init, batch[i]))];
        }
      }
      assert batch[..|batch|] == batch;
    }

    /** One record per row: the groups held become those held before plus those of the batch. */
    method AddBatch(batch: seq<Row>)
      requires Valid() && !hashing
      modifies this`records
      ensures Valid() && |records| == |old(records)| + |batch|
      ensures Lawful(agg) ==> AddsRows(agg, old(Held()), batch, Held())
    {
      hide Lawful, AddsRows;
      ghost var before := records;
      for i := 0 to |batch|
        invariant records == before + Lift(agg, batch)[..i]
      {
        records := records + [Record(agg.base.key(batch[i]), agg.base.update(agg.base.init, batch[i]))];
      }
      assert Lift(agg, batch)[..|batch|] == Lift(agg, batch);
      assert Flatten(spills) + before + Lift(agg, batch) == Flatten(spills) + (before + Lift(agg, batch));
      if Lawful(agg) {
        LiftAddsRows(agg, Flatten(spills) + before, batch);
      }
    }

    /** Moves the records in memory to a new spill. */
    method Spill(keepHashing: bool)
      requires Valid()
      modifies this
      ensures Valid() && Held() == old(Held())
      ensures hashing == (old(hashing) && keepHashing)
    {
      FlattenSnoc(spills, records);
      spills := spills + [records];
      hashing := hashing && keepHashing;
      records, index := [], map[];
    }

    /** Adds a batch; whatever is signalled, the batch is in the table. */
    method ProcessInputBatch(batch: seq<Row>, signal: Signal)
      requires Valid() && Lawful(agg)
      modifies this
      ensures Valid() && AddsRows(agg, old(Held()), batch, Held())
    {
      if hashing {
        UpsertAddsRows(agg, records, batch);
        AddsRowsAfter(agg, Flatten(spills), records, batch, UpsertRows(agg, records, batch));
        UpdateBatch(batch);
      } else {
        AddBatch(batch);
      }
      if signal.MustSpill? {
        Spill(signal.keepHashing);
      }
    }

    /** Empties the table. The records sent have distinct keys and stand for the groups held. */
    method Output(outputBatchSize: nat, batchSize: nat) returns (out: seq<seq<Record<Acc>>>)
      requires Valid() && Lawful(agg) && outputBatchSize >= 1 && batchSize >= 1
      modifies this
      ensures Valid() && hashing && Held() == []
      ensures SameGroups(agg, Flatten(out), old(Held())) && Distinct(Flatten(out))
    {
      var inMem, spilled := records, spills;
      assert spilled == [] ==> Held() == inMem;
      assert inMem == [] ==> Held() == Flatten(spilled);
      hashing, records, index, spills := true, [], map[], [];
      if inMem == [] && spilled == [] {
        out := [];
      } else if spilled == [] {
        out := OutputInMem(agg, inMem, outputBatchSize);
      } else {
        if inMem != [] {
          FlattenSnoc(spilled, inMem);
          spilled := spilled + [inMem];
        }
        out := OutputMerged(agg, spilled, batchSize);
      }
    }
  }

  // ---------------------------------------------------------------------------------------------
  // The driver.

  predicate Aggregating(signals: seq<Signal>) {
    forall i :: 0 <= i < |signals| ==> signals[i].Proceed? || signals[i].MustSpill?
  }

  lemma AggregatingSnoc(signals: seq<Signal>, b: nat)
    requires b < |signals|
    ensures Aggregating(signals[..b + 1]) <==>
      Aggregating(signals[..b]) && (signals[b].Proceed? || signals[b].MustSpill?)
  {
    assert signals[..b + 1] == signals[..b] + [signals[b]];
  }

  lemma AccountsNothing<Row, Acc>(agg: Mergeable<Row, Acc>, batches: seq<seq<Row>>)
    ensures Accounts(agg, Flatten<Record<Acc>>([]) + [], Flatten(batches[..0]))
  {
    assert batches[..0] == [];
  }

  lemma AccountsSame<Row, Acc>(
      agg: Mergeable<Row, Acc>, a: seq<Record<Acc>>, b: seq<Record<Acc>>, rows: seq<Row>)
    requires Accounts(agg, a, rows) && SameGroups(agg, b, a)
    ensures Accounts(agg, b, rows)
  {
    forall key ensures Sum(agg, b, key) == Total(agg, rows, key) {
      var s := Sum(agg, a, key);
    }
  }

  lemma SendAll<Row(!new), Acc(!new)>(
      agg: Mergeable<Row, Acc>, out: seq<seq<Record<Acc>>>, sending: seq<seq<Record<Acc>>>,
      held: seq<Record<Acc>>, rows: seq<Row>)
    requires Lawful(agg) && SameGroups(agg, Flatten(sending), held)
    requires Accounts(agg, Flatten(out) + held, rows)
    ensures Accounts(agg, Flatten(out + sending), rows)
    ensures Accounts(agg, Flatten(out + sending) + [], rows)
  {
    FlattenConcat(out, sending);
    SameGroupsAfter(agg, Flatten(out), Flatten(sending), held);
    AccountsSame(agg, Flatten(out) + held, Flatten(out + sending), rows);
    assert Flatten(out + sending) + [] == Flatten(out + sending);
  }

  /** For every placement of the signals, merging all the records sent gives the groups of the whole
      input; as long as aggregation is not given up, every key is sent once. */
  method ExecuteHash<Row(!new), Acc(!new)>(
      agg: Mergeable<Row, Acc>, batches: seq<seq<Row>>, signals: seq<Signal>,
      outputBatchSize: nat, batchSize: nat)
    returns (out: seq<seq<Record<Acc>>>)
    requires Lawful(agg) && |signals| == |batches| && outputBatchSize >= 1 && batchSize >= 1
    ensures Accounts(agg, Flatten(out), Flatten(batches))
    ensures Aggregating(signals) ==> Distinct(Flatten(out))
  {
    hide Aggregating, Accounts, SameGroups, AddsRows, Lift, Flatten, Lawful, Distinct, AggTable<Row, Acc>.Held;
    out := [];
    var table := new AggTable<Row, Acc>(agg);
    var skipping := false;
    AccountsNothing(agg, batches);
    for b := 0 to |batches|
      invariant fresh(table) && table.Valid() && table.agg == agg
      invariant skipping ==> table.Held() == []
      invariant Aggregating(signals[..b]) ==> out == [] && !skipping
      invariant Accounts(agg, Flatten(out) + table.Held(), Flatten(batches[..b]))
    {
      var batch := batches[b];
      ghost var read, held, sent := Flatten(batches[..b]), table.Held(), Flatten(out);
      SliceSnoc(batches, 0, b);
      FlattenSnoc(batches[..b], batch);
      AggregatingSnoc(signals, b);
      if skipping {
        var lifted := Lift(agg, batch);
        LiftAddsRows(agg, sent + held, batch);
        AccountsMore(agg, sent + held, read, batch, sent + held + lifted);
        FlattenSnoc(out, lifted);
        assert sent + held + lifted == sent + lifted + held;
        out := out + [lifted];
      } else {
        table.ProcessInputBatch(batch, signals[b]);
        AddsRowsAfter(agg, sent, held, batch, table.Held());
        AccountsMore(agg, sent + held, read, batch, sent + table.Held());
        if signals[b].TriggerSkipping? || signals[b].SpillSkipping? {
          held := table.Held();
          var sending := table.Output(outputBatchSize, batchSize);
          SendAll(agg, out, sending, held, read + batch);
          out := out + sending;
          if signals[b].TriggerSkipping? {
            skipping := true;
          }
        }
      }
    }
    assert batches[..|batches|] == batches && signals[..|signals|] == signals;
    ghost var held := table.Held();
    var sending := table.Output(outputBatchSize, batchSize);
    SendAll(agg, out, sending, held, Flatten(batches));
    assert out == [] ==> out + sending == sending;
    out := out + sending;
  }

  /** A key sent once carries the complete accumulator of its group. */
  lemma SentOnceIsComplete<Row(!new), Acc(!new)>(
      agg: Mergeable<Row, Acc>, recs: seq<Record<Acc>>, rows: seq<Row>, i: nat)
    requires Lawful(agg) && Accounts(agg, recs, rows) && Distinct(recs) && i < |recs|
    ensures recs[i].acc == Total(agg, rows, recs[i].key)
  {
    SumIsAcc(agg, recs, recs[i].key);
    AccAt(agg, recs, i, recs[i].key);
  }

  // ---------------------------------------------------------------------------------------------
  // Provenance: accumulating the rows themselves shows where each of them went.

  function Provenance<Row(==)>(key: Row -> Key, bucket: Key -> nat, buckets: nat)
    : Mergeable<Row, multiset<Row>>
  {
    Mergeable(Aggregate(key, multiset{}, (a: multiset<Row>, r: Row) => a + multiset{r}),
              (a: multiset<Row>, b: multiset<Row>) => a + b, bucket, buckets)
  }

  lemma ProvenanceLawful<Row(!new)>(key: Row -> Key, bucket: Key -> nat, buckets: nat)
    requires forall k :: bucket(k) < buckets
    ensures Lawful(Provenance(key, bucket, buckets))
  {
    var agg := Provenance(key, bucket, buckets);
    forall a ensures UnitLaw(agg, a) {
      assert agg.merge(agg.base.init, a) == multiset{} + a == a;
      assert agg.merge(a, agg.base.init) == a + multiset{} == a;
    }
    forall a, b ensures SwapLaw(agg, a, b) {
      assert agg.merge(a, b) == a + b == b + a;
    }
    forall a, b, c ensures RegroupLaw(agg, a, b, c) {
      assert agg.merge(agg.merge(a, b), c) == a + b + c == a + (b + c);
    }
    forall a, row ensures RowLaw(agg, a, row) {
      assert agg.base.update(a, row) == a + multiset{row} == a + (multiset{} + multiset{row});
    }
  }

  function AllRows<Row(==)>(recs: seq<Record<multiset<Row>>>): multiset<Row> {
    if recs == [] then multiset{} else AllRows(recs[..|recs| - 1]) + recs[|recs| - 1].acc
  }

  /** Occurrences of `row` in the records of its own key; none elsewhere. */
  lemma {:induction false} RowsOfKey<Row>(
      agg: Mergeable<Row, multiset<Row>>, recs: seq<Record<multiset<Row>>>, row: Row)
    requires agg == Provenance(agg.base.key, agg.bucket, agg.buckets)
    requires forall i :: 0 <= i < |recs| && recs[i].key != agg.base.key(row) ==> recs[i].acc[row] == 0
    ensures AllRows(recs)[row] == Sum(agg, recs, agg.base.key(row))[row]
    decreases |recs|
  {
    if recs != [] {
      RowsOfKey(agg, recs[..|recs| - 1], row);
    }
  }

  lemma {:induction false} TotalCounts<Row>(agg: Mergeable<Row, multiset<Row>>, rows: seq<Row>, row: Row, key: Key)
    requires agg == Provenance(agg.base.key, agg.bucket, agg.buckets)
    ensures Total(agg, rows, key)[row] == if agg.base.key(row) == key then multiset(rows)[row] else 0
    decreases |rows|
  {
    if rows != [] {
      TotalCounts(agg, rows[..|rows| - 1], row, key);
      assert rows == rows[..|rows| - 1] + [rows[|rows| - 1]];
    }
  }

  lemma {:induction false} SumCovers<Row>(
      agg: Mergeable<Row, multiset<Row>>, recs: seq<Record<multiset<Row>>>, i: nat, row: Row)
    requires agg == Provenance(agg.base.key, agg.bucket, agg.buckets) && i < |recs|
    ensures recs[i].acc[row] <= Sum(agg, recs, recs[i].key)[row]
    decreases |recs|
  {
    if i < |recs| - 1 {
      SumCovers(agg, recs[..|recs| - 1], i, row);
    }
  }

  /** Whatever was sent, flushed early or passed through, every input row is in exactly one record. */
  lemma EachRowOnce<Row(!new)>(
      agg: Mergeable<Row, multiset<Row>>, recs: seq<Record<multiset<Row>>>, rows: seq<Row>)
    requires agg == Provenance(agg.base.key, agg.bucket, agg.buckets)
    requires Accounts(agg, recs, rows)
    ensures AllRows(recs) == multiset(rows)
  {
    forall row ensures AllRows(recs)[row] == multiset(rows)[row] {
      forall i | 0 <= i < |recs| && recs[i].key != agg.base.key(row) ensures recs[i].acc[row] == 0 {
        SumCovers(agg, recs, i, row);
        TotalCounts(agg, rows, row, recs[i].key);
      }
      RowsOfKey(agg, recs, row);
      TotalCounts(agg, rows, row, agg.base.key(row));
    }
  }

  /** Every record holds rows of its own key only. */
  ghost predicate InOwnRecords<Row(!new)>(key: Row -> Key, recs: seq<Record<multiset<Row>>>) {
    forall i, row :: 0 <= i < |recs| && row in recs[i].acc ==> key(row) == recs[i].key
  }

  lemma OwnRows<Row(!new)>(
      agg: Mergeable<Row, multiset<Row>>, recs: seq<Record<multiset<Row>>>, rows: seq<Row>)
    requires agg == Provenance(agg.base.key, agg.bucket, agg.buckets)
    requires Accounts(agg, recs, rows)
    ensures InOwnRecords(agg.base.key, recs)
  {
    forall i, row | 0 <= i < |recs| && row in recs[i].acc ensures agg.base.key(row) == recs[i].key {
      SumCovers(agg, recs, i, row);
      TotalCounts(agg, rows, row, recs[i].key);
    }
  }
}
