/** The two ways of aggregating agree, and the hash aggregation loses no row. */
module AggAgreement {
  import opened Seqs
  import opened Records
  import S = SortedAgg
  import H = HashAgg

  /** The hash aggregator's total of a key is the sorted aggregator's fold over the rows of the key. */
  lemma {:induction false} TotalIsFold<Row, Acc>(agg: H.Mergeable<Row, Acc>, rows: seq<Row>, key: Key)
    ensures H.Total(agg, rows, key) == S.Fold(agg.base, S.Select(agg.base, rows, key))
    decreases |rows|
  {
    if rows != [] {
      var n := |rows| - 1;
      var row := rows[n];
      assert rows == rows[..n] + [row];
      TotalIsFold(agg, rows[..n], key);
      S.SelectConcat(agg.base, rows[..n], [row], key);
      var chosen := S.Select(agg.base, rows[..n], key);
      if agg.base.key(row) == key {
        assert S.Select(agg.base, [row], key) == [row] + S.Select(agg.base, [], key) == [row];
        S.FoldSnoc(agg.base, chosen, row);
      } else {
        assert S.Select(agg.base, [row], key) == [] + S.Select(agg.base, [], key) == [];
        assert chosen + [] == chosen;
      }
    }
  }

  /** On input whose equal keys are adjacent, a hash aggregation that sends every key once sends exactly
      the records of the sorted aggregation, in whatever order. */
  lemma SameRecords<Row(!new), Acc(!new)>(
      agg: H.Mergeable<Row, Acc>, recs: seq<Record<Acc>>, rows: seq<Row>)
    requires H.Lawful(agg) && H.Accounts(agg, recs, rows) && H.Distinct(recs)
    requires S.Clustered(agg.base, rows)
    ensures forall r :: r in recs <==> r in S.Runs(agg.base, rows)
  {
    hide H.Lawful, S.Runs, S.Fold, S.Select, H.Total;
    var runs := S.Runs(agg.base, rows);
    S.RunsAreGroups(agg.base, rows);
    forall r | r in recs ensures r in runs {
      var i :| 0 <= i < |recs| && recs[i] == r;
      H.SentOnceIsComplete(agg, recs, rows, i);
      TotalIsFold(agg, rows, r.key);
      assert r.key in H.Keys(recs);
      assert S.Reads(agg.base, rows, r.key);
      var j :| 0 <= j < |runs| && runs[j].key == r.key;
      assert runs[j] == r;
    }
    forall r | r in runs ensures r in recs {
      var j :| 0 <= j < |runs| && runs[j] == r;
      assert S.Emits(runs, r.key);
      assert r.key in H.Keys(recs);
      var i :| 0 <= i < |recs| && recs[i].key == r.key;
      H.SentOnceIsComplete(agg, recs, rows, i);
      TotalIsFold(agg, rows, r.key);
    }
  }

  lemma {:induction false} CountedOnce<Acc>(recs: seq<Record<Acc>>, r: Record<Acc>)
    requires H.Distinct(recs)
    ensures multiset(recs)[r] == if r in recs then 1 else 0
    decreases |recs|
  {
    if recs != [] {
      var n := |recs| - 1;
      assert recs == recs[..n] + [recs[n]];
      CountedOnce(recs[..n], r);
    }
  }

  lemma SameMultiset<Acc>(a: seq<Record<Acc>>, b: seq<Record<Acc>>)
    requires H.Distinct(a) && H.Distinct(b) && forall r :: r in a <==> r in b
    ensures multiset(a) == multiset(b)
  {
    forall r ensures multiset(a)[r] == multiset(b)[r] {
      CountedOnce(a, r);
      CountedOnce(b, r);
    }
  }

  /** Both operators on one clustered input. */
  method BothWays<Row(!new), Acc(!new)>(
      agg: H.Mergeable<Row, Acc>, batches: seq<seq<Row>>, signals: seq<H.Signal>,
      outputBatchSize: nat, batchSize: nat)
    returns (sorted: seq<seq<Record<Acc>>>, hashed: seq<seq<Record<Acc>>>)
    requires H.Lawful(agg) && |signals| == |batches| && outputBatchSize >= 1 && batchSize >= 1
    requires S.Clustered(agg.base, Flatten(batches)) && H.Aggregating(signals)
    ensures multiset(Flatten(sorted)) == multiset(Flatten(hashed))
  {
    hide H.Lawful, S.Runs, S.Clustered;
    sorted := S.ExecuteSorted(agg.base, batches, batchSize);
    hashed := H.ExecuteHash(agg, batches, signals, outputBatchSize, batchSize);
    SameRecords(agg, Flatten(hashed), Flatten(batches));
    S.RunsAreGroups(agg.base, Flatten(batches));
    SameMultiset(Flatten(sorted), Flatten(hashed));
  }

  /** Conservation over every run of the driver: for every placement of spills, early flushes and the
      skip signal, the records sent hold every input row exactly as often as it was read. */
  method ExecuteProvenance<Row(!new)>(
      key: Row -> Key, bucket: Key -> nat, buckets: nat, batches: seq<seq<Row>>, signals: seq<H.Signal>,
      outputBatchSize: nat, batchSize: nat)
    returns (out: seq<seq<Record<multiset<Row>>>>)
    requires forall k :: bucket(k) < buckets
    requires |signals| == |batches| && outputBatchSize >= 1 && batchSize >= 1
    ensures H.AllRows(Flatten(out)) == multiset(Flatten(batches))
    ensures H.InOwnRecords(key, Flatten(out))
  {
    hide Flatten, H.Lawful;
    var agg := H.Provenance(key, bucket, buckets);
    H.ProvenanceLawful(key, bucket, buckets);
    out := H.ExecuteHash(agg, batches, signals, outputBatchSize, batchSize);
    H.EachRowOnce(agg, Flatten(out), Flatten(batches));
    H.OwnRows(agg, Flatten(out), Flatten(batches));
  }
}
