/** Aggregation of input that arrives clustered by its grouping key (`execute_agg_sorted`).

    Keys and accumulators of the groups being built are staged; the rows of a batch are applied to
    the accumulators lazily, one slice at a time, and the staging area is flushed whenever it is
    full, possibly in the middle of a batch. */
module SortedAgg {
  import opened Seqs
  import opened Records

  // ---------------------------------------------------------------------------------------------
  // What is to be computed: one record for each maximal run of equal keys.

  function Fold<Row, Acc>(agg: Aggregate<Row, Acc>, rows: seq<Row>): Acc {
    if rows == [] then agg.init
    else agg.update(Fold(agg, rows[..|rows| - 1]), rows[|rows| - 1])
  }

  /** Length of the longest prefix whose rows all have the key of the first one. */
  function RunLength<Row, Acc>(agg: Aggregate<Row, Acc>, rows: seq<Row>): (n: nat)
    requires rows != []
    ensures 1 <= n <= |rows|
    ensures forall i :: 0 <= i < n ==> agg.key(rows[i]) == agg.key(rows[0])
    ensures n < |rows| ==> agg.key(rows[n]) != agg.key(rows[0])
  {
    if |rows| == 1 || agg.key(rows[1]) != agg.key(rows[0]) then 1
    else 1 + RunLength(agg, rows[1..])
  }

  function Runs<Row, Acc>(agg: Aggregate<Row, Acc>, rows: seq<Row>)
    : seq<Record<Acc>>
    decreases |rows|
  {
    if rows == [] then []
    else
      var n := RunLength(agg, rows);
      [Record(agg.key(rows[0]), Fold(agg, rows[..n]))] + Runs(agg, rows[n..])
  }

  lemma FirstRun<Row, Acc>(agg: Aggregate<Row, Acc>, rows: seq<Row>, n: nat)
    requires 1 <= n <= |rows|
    requires forall i :: 0 <= i < n ==> agg.key(rows[i]) == agg.key(rows[0])
    requires n < |rows| ==> agg.key(rows[n]) != agg.key(rows[0])
    ensures RunLength(agg, rows) == n
    ensures Runs(agg, rows) == [Record(agg.key(rows[0]), Fold(agg, rows[..n]))] + Runs(agg, rows[n..])
  {
  }

  lemma FoldSnoc<Row, Acc>(agg: Aggregate<Row, Acc>, rows: seq<Row>, row: Row)
    ensures Fold(agg, rows + [row]) == agg.update(Fold(agg, rows), row)
  {
    assert (rows + [row])[..|rows|] == rows;
  }

  lemma OneRun<Row, Acc>(agg: Aggregate<Row, Acc>, rows: seq<Row>)
    requires rows != [] && forall i :: 0 <= i < |rows| ==> agg.key(rows[i]) == agg.key(rows[0])
    ensures Runs(agg, rows) == [Record(agg.key(rows[0]), Fold(agg, rows))]
  {
    hide Fold, RunLength;
    FirstRun(agg, rows, |rows|);
    assert rows[..|rows|] == rows && rows[|rows|..] == [];
  }

  /** The key of the last run is the key of the last row. */
  lemma {:induction false} LastRun<Row, Acc>(agg: Aggregate<Row, Acc>, rows: seq<Row>)
    requires rows != []
    ensures Runs(agg, rows) != []
    ensures Runs(agg, rows)[|Runs(agg, rows)| - 1].key == agg.key(rows[|rows| - 1])
    decreases |rows|
  {
    hide Fold, RunLength, Runs;
    var n := RunLength(agg, rows);
    FirstRun(agg, rows, n);
    if n == |rows| {
      OneRun(agg, rows);
    } else {
      LastRun(agg, rows[n..]);
    }
  }

  function ExtendRuns<Row, Acc>(
      agg: Aggregate<Row, Acc>, rs: seq<Record<Acc>>, row: Row): seq<Record<Acc>>
  {
    if rs != [] && rs[|rs| - 1].key == agg.key(row) then
      rs[..|rs| - 1] + [Record(agg.key(row), agg.update(rs[|rs| - 1].acc, row))]
    else
      rs + [Record(agg.key(row), agg.update(agg.init, row))]
  }

  lemma SingleRow<Row, Acc>(agg: Aggregate<Row, Acc>, row: Row)
    ensures Runs(agg, [row]) == [Record(agg.key(row), agg.update(agg.init, row))]
  {
    FirstRun(agg, [row], 1);
    assert [row][..1] == [] + [row] && [row][1..] == [];
    FoldSnoc(agg, [], row);
  }

  lemma OneRunSnoc<Row, Acc>(agg: Aggregate<Row, Acc>, rows: seq<Row>, row: Row)
    requires rows != [] && RunLength(agg, rows) == |rows|
    ensures Runs(agg, rows + [row]) == ExtendRuns(agg, Runs(agg, rows), row)
  {
    hide Fold, RunLength, Runs;
    OneRun(agg, rows);
    if agg.key(row) == agg.key(rows[0]) {
      OneRun(agg, rows + [row]);
      FoldSnoc(agg, rows, row);
    } else {
      FirstRun(agg, rows + [row], |rows|);
      assert (rows + [row])[..|rows|] == rows && (rows + [row])[|rows|..] == [row];
      SingleRow(agg, row);
    }
  }

  lemma ExtendAfter<Row, Acc>(
      agg: Aggregate<Row, Acc>, first: Record<Acc>, rs: seq<Record<Acc>>, row: Row)
    requires rs != []
    ensures ExtendRuns(agg, [first] + rs, row) == [first] + ExtendRuns(agg, rs, row)
  {
    assert ([first] + rs)[..|rs|] == [first] + rs[..|rs| - 1];
  }

  /** Reading one more row either extends the last run or opens a new one. */
  lemma {:induction false} RunsSnoc<Row, Acc>(
      agg: Aggregate<Row, Acc>, rows: seq<Row>, row: Row)
    ensures Runs(agg, rows + [row]) == ExtendRuns(agg, Runs(agg, rows), row)
    decreases |rows|
  {
    hide Fold, RunLength;
    if rows == [] {
      assert rows + [row] == [row];
      SingleRow(agg, row);
    } else if RunLength(agg, rows) == |rows| {
      OneRunSnoc(agg, rows, row);
    } else {
      var n := RunLength(agg, rows);
      var all, tail := rows + [row], rows[n..];
      FirstRun(agg, rows, n);
      FirstRun(agg, all, n);
      assert all[..n] == rows[..n] && all[n..] == tail + [row];
      RunsSnoc(agg, tail, row);
      LastRun(agg, tail);
      ExtendAfter(agg, Record(agg.key(rows[0]), Fold(agg, rows[..n])), Runs(agg, tail), row);
    }
  }

  // ---------------------------------------------------------------------------------------------
  // Runs are groups when equal keys are adjacent.

  ghost predicate Clustered<Row, Acc>(agg: Aggregate<Row, Acc>, rows: seq<Row>) {
    forall i, j, k :: 0 <= i < j < k < |rows| && agg.key(rows[i]) == agg.key(rows[k])
      ==> agg.key(rows[j]) == agg.key(rows[i])
  }

  function Select<Row, Acc>(agg: Aggregate<Row, Acc>, rows: seq<Row>, key: Key)
    : seq<Row>
  {
    if rows == [] then []
    else (if agg.key(rows[0]) == key then [rows[0]] else []) + Select(agg, rows[1..], key)
  }

  lemma {:induction false} SelectConcat<Row, Acc>(
      agg: Aggregate<Row, Acc>, a: seq<Row>, b: seq<Row>, key: Key)
    ensures Select(agg, a + b, key) == Select(agg, a, key) + Select(agg, b, key)
  {
    if a == [] {
      assert a + b == b;
    } else {
      assert (a + b)[1..] == a[1..] + b;
      SelectConcat(agg, a[1..], b, key);
    }
  }

  lemma {:induction false} SelectUniform<Row, Acc>(
      agg: Aggregate<Row, Acc>, rows: seq<Row>, key: Key)
    ensures (forall i :: 0 <= i < |rows| ==> agg.key(rows[i]) == key) ==> Select(agg, rows, key) == rows
    ensures (forall i :: 0 <= i < |rows| ==> agg.key(rows[i]) != key) ==> Select(agg, rows, key) == []
  {
    if rows != [] {
      SelectUniform(agg, rows[1..], key);
    }
  }

  ghost predicate Emits<Acc>(rs: seq<Record<Acc>>, key: Key) {
    exists i :: 0 <= i < |rs| && rs[i].key == key
  }

  ghost predicate Reads<Row, Acc>(agg: Aggregate<Row, Acc>, rows: seq<Row>, key: Key) {
    exists i :: 0 <= i < |rows| && agg.key(rows[i]) == key
  }

  lemma EmitsCons<Acc>(first: Record<Acc>, rest: seq<Record<Acc>>, key: Key)
    ensures Emits([first] + rest, key) <==> first.key == key || Emits(rest, key)
  {
    var rs := [first] + rest;
    if i :| 0 <= i < |rest| && rest[i].key == key { assert rs[i + 1].key == key; }
    if first.key == key { assert rs[0].key == key; }
  }

  lemma ReadsAcross<Row, Acc>(agg: Aggregate<Row, Acc>, rows: seq<Row>, n: nat, key: Key)
    requires 1 <= n <= |rows| && forall i :: 0 <= i < n ==> agg.key(rows[i]) == agg.key(rows[0])
    ensures Reads(agg, rows, key) <==> agg.key(rows[0]) == key || Reads(agg, rows[n..], key)
  {
    var tail := rows[n..];
    if i :| 0 <= i < |tail| && agg.key(tail[i]) == key { assert agg.key(rows[n + i]) == key; }
    if i :| n <= i < |rows| && agg.key(rows[i]) == key { assert agg.key(tail[i - n]) == key; }
  }

  lemma {:induction false} RunKeys<Row, Acc>(
      agg: Aggregate<Row, Acc>, rows: seq<Row>, key: Key)
    ensures Emits(Runs(agg, rows), key) <==> Reads(agg, rows, key)
    decreases |rows|
  {
    hide Fold, RunLength;
    if rows != [] {
      hide Emits, Reads;
      var n := RunLength(agg, rows);
      FirstRun(agg, rows, n);
      RunKeys(agg, rows[n..], key);
      EmitsCons(Record(agg.key(rows[0]), Fold(agg, rows[..n])), Runs(agg, rows[n..]), key);
      ReadsAcross(agg, rows, n, key);
    }
  }

  ghost predicate DistinctKeys<Acc>(rs: seq<Record<Acc>>) {
    forall i, j :: 0 <= i < j < |rs| ==> rs[i].key != rs[j].key
  }

  ghost predicate GroupsOf<Row, Acc>(agg: Aggregate<Row, Acc>, rs: seq<Record<Acc>>, rows: seq<Row>) {
    forall i :: 0 <= i < |rs| ==> rs[i].acc == Fold(agg, Select(agg, rows, rs[i].key))
  }

  lemma DistinctCons<Acc>(first: Record<Acc>, rest: seq<Record<Acc>>)
    requires DistinctKeys(rest) && !Emits(rest, first.key)
    ensures DistinctKeys([first] + rest)
  {
    var rs := [first] + rest;
    forall i, j | 0 <= i < j < |rs| ensures rs[i].key != rs[j].key {
      assert rs[j] == rest[j - 1];
      if i > 0 { assert rs[i] == rest[i - 1]; }
    }
  }

  lemma SelectAcross<Row, Acc>(agg: Aggregate<Row, Acc>, rows: seq<Row>, n: nat, key: Key)
    requires n <= |rows|
    ensures (forall i :: 0 <= i < n ==> agg.key(rows[i]) != key)
              ==> Select(agg, rows, key) == Select(agg, rows[n..], key)
    ensures (forall i :: 0 <= i < n ==> agg.key(rows[i]) == key) ==>
              !Reads(agg, rows[n..], key) ==> Select(agg, rows, key) == rows[..n]
  {
    assert rows == rows[..n] + rows[n..];
    SelectConcat(agg, rows[..n], rows[n..], key);
    SelectUniform(agg, rows[..n], key);
    SelectUniform(agg, rows[n..], key);
  }

  lemma GroupsCons<Row, Acc>(agg: Aggregate<Row, Acc>, rows: seq<Row>, n: nat)
    requires rows != [] && n == RunLength(agg, rows)
    requires !Reads(agg, rows[n..], agg.key(rows[0]))
    requires GroupsOf(agg, Runs(agg, rows[n..]), rows[n..])
    ensures GroupsOf(agg, Runs(agg, rows), rows)
  {
    hide Fold, RunLength, Select;
    FirstRun(agg, rows, n);
    var rs, rest := Runs(agg, rows), Runs(agg, rows[n..]);
    SelectAcross(agg, rows, n, rs[0].key);
    forall i | 1 <= i < |rs| ensures rs[i].acc == Fold(agg, Select(agg, rows, rs[i].key)) {
      assert rs[i] == rest[i - 1];
      RunKeys(agg, rows[n..], rs[i].key);
      SelectAcross(agg, rows, n, rs[i].key);
    }
  }

  lemma HeadKeyIsGone<Row, Acc>(agg: Aggregate<Row, Acc>, rows: seq<Row>)
    requires rows != [] && Clustered(agg, rows)
    ensures Clustered(agg, rows[RunLength(agg, rows)..])
    ensures !Reads(agg, rows[RunLength(agg, rows)..], agg.key(rows[0]))
  {
    var n := RunLength(agg, rows);
    forall i | n < i < |rows|
      ensures agg.key(rows[i]) != agg.key(rows[0])
    {
      var split := agg.key(rows[n]);
    }
  }

  /** GROUP BY: when equal keys are adjacent, every key of the input has exactly one record, and its
      accumulator folds all the rows of that key in input order. */
  lemma {:induction false} RunsAreGroups<Row, Acc>(agg: Aggregate<Row, Acc>, rows: seq<Row>)
    requires Clustered(agg, rows)
    ensures DistinctKeys(Runs(agg, rows))
    ensures GroupsOf(agg, Runs(agg, rows), rows)
    ensures forall key :: Emits(Runs(agg, rows), key) <==> Reads(agg, rows, key)
    decreases |rows|
  {
    forall key ensures Emits(Runs(agg, rows), key) <==> Reads(agg, rows, key) {
      RunKeys(agg, rows, key);
    }
    if rows != [] {
      var n := RunLength(agg, rows);
      var rest := Runs(agg, rows[n..]);
      HeadKeyIsGone(agg, rows);
      RunsAreGroups(agg, rows[n..]);
      FirstRun(agg, rows, n);
      DistinctCons(Runs(agg, rows)[0], rest);
      GroupsCons(agg, rows, n);
    }
  }

  // ---------------------------------------------------------------------------------------------
  // The accumulator table.

  function SizeFor(idx: seq<nat>): nat {
    if idx == [] then 0
    else
      var m := SizeFor(idx[..|idx| - 1]);
      if idx[|idx| - 1] + 1 > m then idx[|idx| - 1] + 1 else m
  }

  lemma {:induction false} SizeForBounds(idx: seq<nat>)
    ensures forall i :: 0 <= i < |idx| ==> idx[i] < SizeFor(idx)
  {
    if idx != [] {
      var front := idx[..|idx| - 1];
      SizeForBounds(front);
      assert forall i :: 0 <= i < |front| ==> idx[i] == front[i];
    }
  }

  function Grow<Acc>(init: Acc, accs: seq<Acc>, n: nat): (r: seq<Acc>)
    ensures |r| == if |accs| >= n then |accs| else n
  {
    if |accs| >= n then accs else accs + seq(n - |accs|, _ => init)
  }

  /** `accs` after row `rows[i]` has updated slot `idx[i]`, for every i in order. */
  function Apply<Row, Acc>(
      agg: Aggregate<Row, Acc>, accs: seq<Acc>, rows: seq<Row>, idx: seq<nat>): (r: seq<Acc>)
    requires |rows| == |idx|
    requires forall i :: 0 <= i < |idx| ==> idx[i] < |accs|
    ensures |r| == |accs|
  {
    if rows == [] then accs
    else
      var n := |rows| - 1;
      var t := Apply(agg, accs, rows[..n], idx[..n]);
      t[idx[n] := agg.update(t[idx[n]], rows[n])]
  }

  /** The table once the rows still waiting in the current slice have been applied. */
  function Pending<Row, Acc>(
      agg: Aggregate<Row, Acc>, accs: seq<Acc>, rows: seq<Row>, idx: seq<nat>): (r: seq<Acc>)
    requires |rows| == |idx|
  {
    SizeForBounds(idx);
    Apply(agg, Grow(agg.init, accs, SizeFor(idx)), rows, idx)
  }

  lemma {:induction false} ApplyToLonger<Row, Acc>(
      agg: Aggregate<Row, Acc>, accs: seq<Acc>, extra: seq<Acc>, rows: seq<Row>, idx: seq<nat>)
    requires |rows| == |idx|
    requires forall i :: 0 <= i < |idx| ==> idx[i] < |accs|
    ensures Apply(agg, accs + extra, rows, idx) == Apply(agg, accs, rows, idx) + extra
    decreases |rows|
  {
    if rows != [] {
      ApplyToLonger(agg, accs, extra, rows[..|rows| - 1], idx[..|rows| - 1]);
    }
  }

  lemma PendingSnoc<Row, Acc>(
      agg: Aggregate<Row, Acc>, accs: seq<Acc>, rows: seq<Row>, idx: seq<nat>, row: Row, slot: nat)
    requires |rows| == |idx|
    requires slot <= |Pending(agg, accs, rows, idx)| <= slot + 1
    ensures
      var p := Pending(agg, accs, rows, idx);
      Pending(agg, accs, rows + [row], idx + [slot]) ==
      p[..slot] + [agg.update(if slot < |p| then p[slot] else agg.init, row)]
  {
    var n := |rows|;
    var rows', idx' := rows + [row], idx + [slot];
    assert rows'[..n] == rows && idx'[..n] == idx;
    SizeForBounds(idx);
    SizeForBounds(idx');
    var small, big := Grow(agg.init, accs, SizeFor(idx)), Grow(agg.init, accs, SizeFor(idx'));
    var extra := if slot < |small| then [] else [agg.init];
    assert big == small + extra;
    ApplyToLonger(agg, small, extra, rows, idx);
    assert Pending(agg, accs, rows', idx') ==
      (Apply(agg, small, rows, idx) + extra)[slot := agg.update((Apply(agg, small, rows, idx) + extra)[slot], row)];
  }

  method EnsureSize<Acc>(init: Acc, accs: seq<Acc>, idx: seq<nat>) returns (accs': seq<Acc>)
    ensures accs' == Grow(init, accs, SizeFor(idx))
  {
    var n := 0;
    for i := 0 to |idx|
      invariant n == SizeFor(idx[..i])
    {
      assert idx[..i + 1][..i] == idx[..i];
      if idx[i] + 1 > n { n := idx[i] + 1; }
    }
    assert idx[..|idx|] == idx;
    accs' := Grow(init, accs, n);
  }

  /** Updates the accumulators with `batch[start..end]`, row `start + i` going to slot `idx[i]`. */
  method UpdateBatchSlice<Row, Acc>(
      agg: Aggregate<Row, Acc>, accs: seq<Acc>, batch: seq<Row>, start: nat, end: nat, idx: seq<nat>)
    returns (accs': seq<Acc>)
    requires start <= end <= |batch| && |idx| == end - start
    ensures accs' == Pending(agg, accs, batch[start..end], idx)
  {
    var grown := EnsureSize(agg.init, accs, idx);
    SizeForBounds(idx);
    accs' := grown;
    var rows := batch[start..end];
    for i := 0 to |rows|
      invariant accs' == Apply(agg, grown, rows[..i], idx[..i])
    {
      assert rows[..i + 1][..i] == rows[..i] && idx[..i + 1][..i] == idx[..i];
      accs' := accs'[idx[i] := agg.update(accs'[idx[i]], rows[i])];
    }
    assert rows[..|rows|] == rows && idx[..|rows|] == idx;
  }

  function Zip<Acc>(keys: seq<Key>, accs: seq<Acc>): (r: seq<Record<Acc>>)
    requires |keys| == |accs|
    ensures |r| == |keys|
    ensures forall i :: 0 <= i < |keys| ==> r[i] == Record(keys[i], accs[i])
  {
    seq(|keys|, i requires 0 <= i < |keys| && |keys| == |accs| => Record(keys[i], accs[i]))
  }

  // ---------------------------------------------------------------------------------------------
  // The driver.

  /** The groups sent and the staged ones are together the runs of the rows read so far. */
  ghost predicate Split<Row, Acc>(
      agg: Aggregate<Row, Acc>, read: seq<Row>, out: seq<seq<Record<Acc>>>,
      keys: seq<Key>, accs: seq<Acc>, batchSize: nat)
  {
    && |keys| == |accs| <= batchSize
    && (forall i :: 0 <= i < |out| ==> |out[i]| == batchSize)
    && Runs(agg, read) == Flatten(out) + Zip(keys, accs)
  }

  ghost predicate Staged<Row, Acc>(
      agg: Aggregate<Row, Acc>, read: seq<Row>, out: seq<seq<Record<Acc>>>,
      keys: seq<Key>, accs: seq<Acc>, batchSize: nat)
  {
    Split(agg, read, out, keys, accs, batchSize) && (out != [] ==> keys != [])
  }

  /** The staging area can take `row`: it has room, or `row` belongs to its last group. */
  ghost predicate Ready<Row, Acc>(
      agg: Aggregate<Row, Acc>, read: seq<Row>, out: seq<seq<Record<Acc>>>,
      keys: seq<Key>, accs: seq<Acc>, batchSize: nat, row: Row)
  {
    && Split(agg, read, out, keys, accs, batchSize)
    && (|keys| == batchSize ==> keys != [] && keys[|keys| - 1] == agg.key(row))
    && (keys == [] ==> Flatten(out) == [] || Flatten(out)[|Flatten(out)| - 1].key != agg.key(row))
  }

  /** The staging area after one more row. */
  function StageKeys(keys: seq<Key>, key: Key, same: bool): seq<Key> {
    if same then keys else keys + [key]
  }

  function StageAccs<Row, Acc>(
      agg: Aggregate<Row, Acc>, accs: seq<Acc>, row: Row, same: bool): seq<Acc>
    requires same ==> accs != []
  {
    if same then accs[..|accs| - 1] + [agg.update(accs[|accs| - 1], row)]
    else accs + [agg.update(agg.init, row)]
  }

  lemma StageRow<Row, Acc>(
      agg: Aggregate<Row, Acc>, sent: seq<Record<Acc>>, keys: seq<Key>, accs: seq<Acc>,
      row: Row, same: bool)
    requires |keys| == |accs|
    requires same == (keys != [] && keys[|keys| - 1] == agg.key(row))
    requires keys == [] ==> sent == [] || sent[|sent| - 1].key != agg.key(row)
    ensures ExtendRuns(agg, sent + Zip(keys, accs), row) ==
            sent + Zip(StageKeys(keys, agg.key(row), same), StageAccs(agg, accs, row, same))
  {
    var z := Zip(keys, accs);
    var rs := sent + z;
    var z' := Zip(StageKeys(keys, agg.key(row), same), StageAccs(agg, accs, row, same));
    if same {
      assert rs[|rs| - 1] == z[|z| - 1];
      assert rs[..|rs| - 1] == sent + z[..|z| - 1];
      assert z' == z[..|z| - 1] + [Record(agg.key(row), agg.update(accs[|accs| - 1], row))];
    } else {
      assert rs != [] ==> rs[|rs| - 1] == if z == [] then sent[|sent| - 1] else z[|z| - 1];
      assert z' == z + [Record(agg.key(row), agg.update(agg.init, row))];
    }
  }

  lemma StageStep<Row, Acc>(
      agg: Aggregate<Row, Acc>, read: seq<Row>, out: seq<seq<Record<Acc>>>,
      keys: seq<Key>, accs: seq<Acc>, batchSize: nat, row: Row, same: bool)
    requires same == (keys != [] && keys[|keys| - 1] == agg.key(row))
    requires Ready(agg, read, out, keys, accs, batchSize, row)
    ensures Staged(agg, read + [row], out, StageKeys(keys, agg.key(row), same),
                   StageAccs(agg, accs, row, same), batchSize)
  {
    RunsSnoc(agg, read, row);
    StageRow(agg, Flatten(out), keys, accs, row, same);
  }

  /** The pending slice after one more row of the batch. */
  lemma PendingStep<Row, Acc>(
      agg: Aggregate<Row, Acc>, table: seq<Acc>, batch: seq<Row>, start: nat, end: nat, idx: seq<nat>,
      accs: seq<Acc>, same: bool, slot: nat)
    requires start <= end < |batch| && |idx| == end - start
    requires accs == Pending(agg, table, batch[start..end], idx)
    requires if same then slot == |accs| - 1 else slot == |accs|
    ensures Pending(agg, table, batch[start..end + 1], idx + [slot]) == StageAccs(agg, accs, batch[end], same)
  {
    PendingSnoc(agg, table, batch[start..end], idx, batch[end], slot);
    SliceSnoc(batch, start, end);
  }

  /** Row `end` of a batch whose rows `start..end` are waiting to be applied. */
  lemma StageBatchRow<Row, Acc>(
      agg: Aggregate<Row, Acc>, read: seq<Row>, out: seq<seq<Record<Acc>>>, keys: seq<Key>, accs: seq<Acc>,
      batch: seq<Row>, start: nat, end: nat, idx: seq<nat>, batchSize: nat, same: bool, slot: nat)
    requires start <= end < |batch| && |idx| == end - start
    requires same == (keys != [] && keys[|keys| - 1] == agg.key(batch[end]))
    requires slot == if same then |keys| - 1 else |keys|
    requires Ready(agg, read, out, keys, Pending(agg, accs, batch[start..end], idx), batchSize, batch[end])
    ensures Staged(agg, read + [batch[end]], out, StageKeys(keys, agg.key(batch[end]), same),
                   Pending(agg, accs, batch[start..end + 1], idx + [slot]), batchSize)
  {
    var current := Pending(agg, accs, batch[start..end], idx);
    StageStep(agg, read, out, keys, current, batchSize, batch[end], same);
    PendingStep(agg, accs, batch, start, end, idx, current, same, slot);
  }

  /** Flushing a full staging area leaves an empty one. */
  lemma FlushStep<Row, Acc>(
      agg: Aggregate<Row, Acc>, read: seq<Row>, out: seq<seq<Record<Acc>>>,
      keys: seq<Key>, accs: seq<Acc>, batchSize: nat, row: Row)
    requires Staged(agg, read, out, keys, accs, batchSize)
    requires 1 <= batchSize <= |keys| && keys[|keys| - 1] != agg.key(row)
    ensures Ready(agg, read, out + [Zip(keys, accs)], [], [], batchSize, row)
  {
    var z := Zip(keys, accs);
    FlattenSnoc(out, z);
    assert Flatten(out + [z])[|Flatten(out + [z])| - 1] == z[|z| - 1];
    assert Flatten(out) + z == Flatten(out + [z]) + Zip<Acc>([], []);
  }

  /** One row of the batch: the body of the inner loop. */
  method PushRow<Row, Acc>(
      agg: Aggregate<Row, Acc>, ghost read: seq<Row>, batch: seq<Row>, end: nat, batchSize: nat,
      out0: seq<seq<Record<Acc>>>, keys0: seq<Key>, accs0: seq<Acc>, start0: nat, idx0: seq<nat>)
    returns (out: seq<seq<Record<Acc>>>, keys: seq<Key>, accs: seq<Acc>, start: nat, idx: seq<nat>)
    requires batchSize >= 1
    requires start0 <= end < |batch| && |idx0| == end - start0
    requires Staged(agg, read, out0, keys0, Pending(agg, accs0, batch[start0..end], idx0), batchSize)
    ensures start <= end + 1 && |idx| == end + 1 - start
    ensures Staged(agg, read + [batch[end]], out, keys,
                   Pending(agg, accs, batch[start..end + 1], idx), batchSize)
  {
    out, keys, accs, start, idx := out0, keys0, accs0, start0, idx0;
    var row := batch[end];
    var key := agg.key(row);
    var same := keys != [] && keys[|keys| - 1] == key;
    if !same {
      if |keys| >= batchSize {
        accs := UpdateBatchSlice(agg, accs, batch, start, end, idx);
        FlushStep(agg, read, out, keys, accs, batchSize, row);
        idx := [];
        start := end;
        out := out + [Zip(keys, accs)];
        keys, accs := [], [];
      }
    }
    var slot: nat := if same then |keys| - 1 else |keys|;
    StageBatchRow(agg, read, out, keys, accs, batch, start, end, idx, batchSize, same, slot);
    if !same {
      keys := keys + [key];
    }
    idx := idx + [slot];
  }

  /** One input batch: the body of the loop over the input stream. */
  method StageBatch<Row, Acc>(
      agg: Aggregate<Row, Acc>, ghost before: seq<Row>, batch: seq<Row>, batchSize: nat,
      out0: seq<seq<Record<Acc>>>, keys0: seq<Key>, accs0: seq<Acc>)
    returns (out: seq<seq<Record<Acc>>>, keys: seq<Key>, accs: seq<Acc>)
    requires batchSize >= 1
    requires Staged(agg, before, out0, keys0, accs0, batchSize)
    ensures Staged(agg, before + batch, out, keys, accs, batchSize)
  {
    hide Staged;
    out, keys, accs := out0, keys0, accs0;
    var idx: seq<nat> := [];
    var start, end := 0, 0;
    assert before + batch[..0] == before && batch[0..0] == [];
    while end < |batch|
      invariant 0 <= start <= end <= |batch| && |idx| == end - start
      invariant Staged(agg, before + batch[..end], out, keys,
                       Pending(agg, accs, batch[start..end], idx), batchSize)
    {
      out, keys, accs, start, idx :=
        PushRow(agg, before + batch[..end], batch, end, batchSize, out, keys, accs, start, idx);
      PrefixSnoc(before, batch, end);
      end := end + 1;
    }
    accs := UpdateBatchSlice(agg, accs, batch, start, end, idx);
    assert batch[..end] == batch;
  }

  /** For every batching of the input: the runs of the whole input, in order, cut into batches of
      `batchSize` records. */
  method ExecuteSorted<Row, Acc>(
      agg: Aggregate<Row, Acc>, batches: seq<seq<Row>>, batchSize: nat)
    returns (out: seq<seq<Record<Acc>>>)
    requires batchSize >= 1
    ensures IsChunking(out, Runs(agg, Flatten(batches)), batchSize)
  {
    out := [];
    var keys: seq<Key> := [];
    var accs: seq<Acc> := [];

    for b := 0 to |batches|
      invariant Staged(agg, Flatten(batches[..b]), out, keys, accs, batchSize)
    {
      out, keys, accs := StageBatch(agg, Flatten(batches[..b]), batches[b], batchSize, out, keys, accs);
      SliceSnoc(batches, 0, b);
      FlattenSnoc(batches[..b], batches[b]);
    }
    assert batches[..|batches|] == batches;
    if keys != [] {
      FlattenSnoc(out, Zip(keys, accs));
      out := out + [Zip(keys, accs)];
    }
  }
}
