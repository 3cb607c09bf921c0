/** Columnar construction of map values (`str_to_map`, `map_from_entries`): per-row key deduplication
    through a key-to-position table, and flat key, value, offset and validity arrays. */
module MapBuilder {
  import opened Seqs

  datatype Policy = Exception | LastWin

  datatype Entry<K, V> = Entry(key: K, value: V)

  // ---------------------------------------------------------------------------------------------
  // Deduplication within a row.

  predicate HasKey<K(==), V>(es: seq<Entry<K, V>>, key: K) {
    exists i :: 0 <= i < |es| && es[i].key == key
  }

  predicate DistinctKeys<K(==), V>(es: seq<Entry<K, V>>) {
    forall i, j :: 0 <= i < j < |es| ==> es[i].key != es[j].key
  }

  /** The value of the last entry with a key. */
  function LastValue<K(==), V>(es: seq<Entry<K, V>>, key: K): V
    requires HasKey(es, key)
  {
    var n := |es| - 1;
    if es[n].key == key then es[n].value
    else
      assert HasKey(es[..n], key) by {
        var i :| 0 <= i < |es| && es[i].key == key;
        assert es[..n][i].key == key;
      }
      LastValue(es[..n], key)
  }

  /** The keys in the order of their first occurrences. */
  function FirstKeys<K(==), V>(es: seq<Entry<K, V>>): seq<K> {
    if es == [] then []
    else
      var n := |es| - 1;
      if HasKey(es[..n], es[n].key) then FirstKeys(es[..n]) else FirstKeys(es[..n]) + [es[n].key]
  }

  /** `out` lists every key of `es` once, in the order of first occurrences, with its last value. */
  ghost predicate LastWins<K, V>(es: seq<Entry<K, V>>, out: seq<Entry<K, V>>) {
    && DistinctKeys(out)
    && |out| == |FirstKeys(es)|
    && forall i :: 0 <= i < |out| ==>
         out[i].key == FirstKeys(es)[i] && HasKey(es, out[i].key) && out[i].value == LastValue(es, out[i].key)
  }

  lemma HasKeySnoc<K, V>(es: seq<Entry<K, V>>, e: Entry<K, V>, key: K)
    ensures HasKey(es + [e], key) <==> HasKey(es, key) || e.key == key
  {
    var all := es + [e];
    if i :| 0 <= i < |es| && es[i].key == key { assert all[i].key == key; }
    if e.key == key { assert all[|es|].key == key; }
    if i :| 0 <= i < |all| && all[i].key == key { assert i < |es| ==> es[i].key == key; }
  }

  lemma {:induction false} FirstKeysMember<K, V>(es: seq<Entry<K, V>>, key: K)
    ensures key in FirstKeys(es) <==> HasKey(es, key)
    decreases |es|
  {
    if es != [] {
      var n := |es| - 1;
      FirstKeysMember(es[..n], key);
      HasKeySnoc(es[..n], es[n], key);
      assert es == es[..n] + [es[n]];
    }
  }

  /** The position table against the entries built so far. */
  ghost predicate Positions<K, V>(index: map<K, nat>, out: seq<Entry<K, V>>) {
    && (forall k :: k in index ==> index[k] < |out| && out[index[k]].key == k)
    && (forall i :: 0 <= i < |out| ==> out[i].key in index && index[out[i].key] == i)
  }

  lemma IndexedKeys<K, V>(es: seq<Entry<K, V>>, key: K, out: seq<Entry<K, V>>, index: map<K, nat>)
    requires LastWins(es, out) && Positions(index, out)
    ensures key in index <==> HasKey(es, key)
  {
    hide HasKey, LastValue;
    FirstKeysMember(es, key);
    if key in FirstKeys(es) {
      var i :| 0 <= i < |FirstKeys(es)| && FirstKeys(es)[i] == key;
      assert out[i].key in index;
    }
    if key in index { assert FirstKeys(es)[index[key]] == key; }
  }

  lemma FirstKeysSnoc<K, V>(es: seq<Entry<K, V>>, e: Entry<K, V>)
    ensures FirstKeys(es + [e]) == FirstKeys(es) + if HasKey(es, e.key) then [] else [e.key]
  {
    assert (es + [e])[..|es|] == es;
  }

  lemma LastValueSnoc<K, V>(es: seq<Entry<K, V>>, e: Entry<K, V>, key: K)
    requires HasKey(es, key) || e.key == key
    ensures HasKey(es + [e], key)
    ensures LastValue(es + [e], key) == if e.key == key then e.value else LastValue(es, key)
  {
    assert (es + [e])[..|es|] == es;
    HasKeySnoc(es, e, key);
  }

  lemma Overwritten<K, V>(es: seq<Entry<K, V>>, e: Entry<K, V>, out: seq<Entry<K, V>>, at: nat)
    requires LastWins(es, out) && HasKey(es, e.key) && at < |out| && out[at].key == e.key
    ensures LastWins(es + [e], out[at := Entry(e.key, e.value)])
  {
    hide HasKey, FirstKeys, LastValue;
    FirstKeysSnoc(es, e);
    var out' := out[at := Entry(e.key, e.value)];
    forall i | 0 <= i < |out'| ensures
      out'[i].key == FirstKeys(es + [e])[i] && HasKey(es + [e], out'[i].key)
      && out'[i].value == LastValue(es + [e], out'[i].key)
    {
      LastValueSnoc(es, e, out'[i].key);
    }
  }

  lemma Appended<K, V>(es: seq<Entry<K, V>>, e: Entry<K, V>, out: seq<Entry<K, V>>)
    requires LastWins(es, out) && !HasKey(es, e.key)
    ensures LastWins(es + [e], out + [e])
  {
    hide HasKey, FirstKeys, LastValue;
    FirstKeysSnoc(es, e);
    var out' := out + [e];
    forall i | 0 <= i < |out'| ensures
      out'[i].key == FirstKeys(es + [e])[i] && HasKey(es + [e], out'[i].key)
      && out'[i].value == LastValue(es + [e], out'[i].key)
    {
      LastValueSnoc(es, e, out'[i].key);
    }
  }

  /** One more entry: overwrite in place, or append. */
  lemma LastWinsSnoc<K, V>(es: seq<Entry<K, V>>, e: Entry<K, V>, out: seq<Entry<K, V>>, index: map<K, nat>)
    requires LastWins(es, out) && Positions(index, out)
    ensures e.key in index <==> HasKey(es, e.key)
    ensures e.key in index ==> LastWins(es + [e], out[index[e.key] := Entry(e.key, e.value)])
    ensures e.key !in index ==> LastWins(es + [e], out + [e])
  {
    hide LastWins, HasKey;
    IndexedKeys(es, e.key, out, index);
    if e.key in index {
      Overwritten(es, e, out, index[e.key]);
    } else {
      Appended(es, e, out);
    }
  }

  lemma LastWinsNothing<K, V>(es: seq<Entry<K, V>>)
    requires es == []
    ensures LastWins(es, [])
  {
  }

  lemma LastWinsDistinct<K, V>(es: seq<Entry<K, V>>, out: seq<Entry<K, V>>)
    requires LastWins(es, out)
    ensures DistinctKeys(out)
  {
  }

  lemma SameKey<K, V>(es: seq<Entry<K, V>>, i: nat, j: nat)
    requires i < j < |es| && es[i].key == es[j].key
    ensures !DistinctKeys(es)
  {
  }

  /** Follows the policy on the keys of one row. */
  method Dedup<K(==), V>(es: seq<Entry<K, V>>, policy: Policy) returns (r: Option<seq<Entry<K, V>>>)
    ensures r.None? <==> policy == Exception && !DistinctKeys(es)
    ensures r.Some? ==> LastWins(es, r.value)
    ensures r.Some? && policy == Exception ==> r.value == es
  {
    hide LastWins, DistinctKeys;
    assert LastWins(es[..0], []) by { LastWinsNothing(es[..0]); }
    var out: seq<Entry<K, V>> := [];
    var index: map<K, nat> := map[];
    for n := 0 to |es|
      invariant LastWins(es[..n], out) && Positions(index, out)
      invariant policy == Exception ==> out == es[..n]
    {
      var e := es[n];
      assert es[..n + 1] == es[..n] + [e];
      LastWinsSnoc(es[..n], e, out, index);
      if e.key in index {
        if policy == Exception {
          assert out[index[e.key]] == es[index[e.key]];
          SameKey(es, index[e.key], n);
          return None;
        }
        out := out[index[e.key] := Entry(e.key, e.value)];
      } else {
        index := index[e.key := |out|];
        out := out + [e];
      }
    }
    assert es[..|es|] == es;
    LastWinsDistinct(es, out);
    r := Some(out);
  }

  /** The two clauses leave one possible result. */
  lemma LastWinsUnique<K, V>(es: seq<Entry<K, V>>, a: seq<Entry<K, V>>, b: seq<Entry<K, V>>)
    requires LastWins(es, a) && LastWins(es, b)
    ensures a == b
  {
    forall i | 0 <= i < |a| ensures a[i] == b[i] {
      assert a[i].key == b[i].key;
    }
  }

  // ---------------------------------------------------------------------------------------------
  // One row of entries, some of which may be null or have a null key.

  datatype Item<K, V> = NullItem | Item(key: Option<K>, value: V)

  datatype Row<K, V> = NullRow | MapRow(entries: seq<Entry<K, V>>) | RowError

  predicate AllPresent<K, V>(items: seq<Item<K, V>>) {
    forall i :: 0 <= i < |items| ==> items[i].Item?
  }

  predicate AllKeyed<K, V>(items: seq<Item<K, V>>) {
    forall i :: 0 <= i < |items| ==> items[i].Item? && items[i].key.Some?
  }

  function Entries<K, V>(items: seq<Item<K, V>>): (es: seq<Entry<K, V>>)
    requires AllKeyed(items)
    ensures |es| == |items|
    ensures forall i :: 0 <= i < |items| ==> es[i] == Entry(items[i].key.value, items[i].value)
  {
    seq(|items|, i requires 0 <= i < |items| && AllKeyed(items) => Entry(items[i].key.value, items[i].value))
  }

  /** Number of entries before the first null one. */
  function BeforeNull<K, V>(items: seq<Item<K, V>>): (n: nat)
    ensures n <= |items| && AllPresent(items[..n]) && (n < |items| ==> items[n].NullItem?)
  {
    if items == [] || items[0].NullItem? then 0
    else
      var n := 1 + BeforeNull(items[1..]);
      assert items[..n] == [items[0]] + items[1..][..n - 1];
      n
  }

  /** The entries before the first null one decide whether the row is an error; only then does a null
      entry make the row null. */
  ghost predicate Rejects<K, V>(items: seq<Item<K, V>>, policy: Policy) {
    var front := items[..BeforeNull(items)];
    !AllKeyed(front) || (policy == Exception && !DistinctKeys(Entries(front)))
  }

  ghost predicate IsRow<K, V>(items: seq<Item<K, V>>, policy: Policy, row: Row<K, V>) {
    match row
    case RowError => Rejects(items, policy)
    case NullRow => !Rejects(items, policy) && !AllPresent(items)
    case MapRow(entries) => !Rejects(items, policy) && AllKeyed(items) && LastWins(Entries(items), entries)
  }

  /** A prefix of present entries with non-null keys that has been built into `out`. */
  ghost predicate Prefix<K, V>(
      items: seq<Item<K, V>>, n: nat, policy: Policy, out: seq<Entry<K, V>>, index: map<K, nat>)
  {
    && n <= |items| && AllKeyed(items[..n])
    && LastWins(Entries(items[..n]), out) && Positions(index, out)
    && (policy == Exception ==> out == Entries(items[..n]))
  }

  lemma {:induction false} BeforeNullAt<K, V>(items: seq<Item<K, V>>, n: nat)
    requires n <= |items| && AllPresent(items[..n])
    ensures n <= BeforeNull(items)
    ensures n == |items| || items[n].NullItem? ==> BeforeNull(items) == n
    decreases n
  {
    if n > 0 {
      assert items[0] == items[..n][0];
      assert items[1..][..n - 1] == items[..n][1..];
      BeforeNullAt(items[1..], n - 1);
    }
  }

  lemma PrefixPresent<K, V>(items: seq<Item<K, V>>, n: nat)
    requires n <= |items| && AllKeyed(items[..n])
    ensures n <= BeforeNull(items)
    ensures n == |items| || items[n].NullItem? ==> BeforeNull(items) == n
  {
    BeforeNullAt(items, n);
  }

  /** A null key, or a repeated key where that is an error, before any null entry. */
  lemma Rejected<K, V>(items: seq<Item<K, V>>, n: nat, policy: Policy, i: nat)
    requires n < |items| && AllKeyed(items[..n]) && items[n].Item?
    requires items[n].key.None? || (policy == Exception && i < n && items[i].key == items[n].key)
    ensures Rejects(items, policy)
  {
    assert items[..n + 1] == items[..n] + [items[n]];
    assert AllPresent(items[..n + 1]);
    BeforeNullAt(items, n + 1);
    var front := items[..BeforeNull(items)];
    assert front[n] == items[n];
    if AllKeyed(front) {
      assert front[i] == items[i] && Entries(front)[i].key == Entries(front)[n].key;
    }
  }

  lemma NullAt<K, V>(items: seq<Item<K, V>>, n: nat, policy: Policy, out: seq<Entry<K, V>>, index: map<K, nat>)
    requires Prefix(items, n, policy, out, index) && n < |items| && items[n].NullItem?
    ensures IsRow(items, policy, NullRow)
  {
    PrefixPresent(items, n);
  }

  lemma EntriesSnoc<K, V>(items: seq<Item<K, V>>, n: nat)
    requires n < |items| && AllKeyed(items[..n]) && items[n].Item? && items[n].key.Some?
    ensures AllKeyed(items[..n + 1])
    ensures Entries(items[..n + 1]) == Entries(items[..n]) + [Entry(items[n].key.value, items[n].value)]
  {
    assert items[..n + 1] == items[..n] + [items[n]];
  }

  lemma PositionsSnoc<K, V>(index: map<K, nat>, out: seq<Entry<K, V>>, e: Entry<K, V>)
    requires Positions(index, out)
    ensures e.key in index ==> Positions(index, out[index[e.key] := e])
    ensures e.key !in index ==> Positions(index[e.key := |out|], out + [e])
  {
  }

  lemma PrefixSnoc<K, V>(items: seq<Item<K, V>>, n: nat, policy: Policy, out: seq<Entry<K, V>>, index: map<K, nat>)
    requires Prefix(items, n, policy, out, index) && n < |items| && items[n].Item? && items[n].key.Some?
    ensures
      var e := Entry(items[n].key.value, items[n].value);
      && (e.key in index && policy == LastWin ==>
            index[e.key] < |out| && Prefix(items, n + 1, policy, out[index[e.key] := e], index))
      && (e.key !in index ==> Prefix(items, n + 1, policy, out + [e], index[e.key := |out|]))
  {
    hide LastWins;
    var e := Entry(items[n].key.value, items[n].value);
    LastWinsSnoc(Entries(items[..n]), e, out, index);
    EntriesSnoc(items, n);
    PositionsSnoc(index, out, e);
    hide Positions, Entries, AllKeyed;
  }

  lemma RepeatedKey<K, V>(items: seq<Item<K, V>>, n: nat, out: seq<Entry<K, V>>, index: map<K, nat>)
    requires Prefix(items, n, Exception, out, index) && n < |items| && items[n].Item? && items[n].key.Some?
    requires items[n].key.value in index
    ensures index[items[n].key.value] < n && items[index[items[n].key.value]].key == items[n].key
  {
    hide LastWins;
    var i := index[items[n].key.value];
    assert out[i] == Entries(items[..n])[i];
    assert items[..n][i] == items[i];
  }

  lemma PrefixNothing<K, V>(items: seq<Item<K, V>>, policy: Policy)
    ensures Prefix(items, 0, policy, [], map[])
  {
  }

  lemma PrefixDone<K, V>(items: seq<Item<K, V>>, policy: Policy, out: seq<Entry<K, V>>, index: map<K, nat>)
    requires Prefix(items, |items|, policy, out, index)
    ensures IsRow(items, policy, MapRow(out))
  {
    assert items[..|items|] == items;
    PrefixPresent(items, |items|);
  }

  lemma RejectedRow<K, V>(items: seq<Item<K, V>>, policy: Policy)
    requires Rejects(items, policy)
    ensures IsRow<K, V>(items, policy, RowError)
  {
    hide Rejects;
  }

  method BuildRow<K(==), V>(items: seq<Item<K, V>>, policy: Policy) returns (row: Row<K, V>)
    ensures IsRow(items, policy, row)
  {
    hide LastWins, Positions, Rejects, Entries, IsRow, BeforeNull;
    var out: seq<Entry<K, V>> := [];
    var index: map<K, nat> := map[];
    PrefixNothing(items, policy);
    for n := 0 to |items|
      invariant Prefix(items, n, policy, out, index)
    {
      if items[n].NullItem? {
        NullAt(items, n, policy, out, index);
        return NullRow;
      }
      if items[n].key.None? {
        Rejected(items, n, policy, 0);
        RejectedRow(items, policy);
        return RowError;
      }
      var e := Entry(items[n].key.value, items[n].value);
      PrefixSnoc(items, n, policy, out, index);
      if e.key in index {
        if policy == Exception {
          RepeatedKey(items, n, out, index);
          Rejected(items, n, policy, index[e.key]);
          RejectedRow(items, policy);
          return RowError;
        }
        out := out[index[e.key] := e];
      } else {
        index := index[e.key := |out|];
        out := out + [e];
      }
    }
    PrefixDone(items, policy, out, index);
    row := MapRow(out);
  }

  // ---------------------------------------------------------------------------------------------
  // The columnar result.

  /** Flat keys and values, and for row i the range `offsets[i]..offsets[i + 1]`. */
  datatype MapArray<K, V> = MapArray(keys: seq<K>, values: seq<V>, offsets: seq<nat>, valids: seq<bool>)

  predicate WellFormed<K, V>(a: MapArray<K, V>) {
    && |a.keys| == |a.values| && |a.offsets| == |a.valids| + 1
    && a.offsets[0] == 0 && a.offsets[|a.valids|] == |a.keys|
    && (forall i :: 0 <= i < |a.valids| ==> a.offsets[i] <= a.offsets[i + 1])
    && (forall i :: 0 <= i <= |a.valids| ==> a.offsets[i] <= |a.keys|)
  }

  function Zip<K, V>(keys: seq<K>, values: seq<V>): (es: seq<Entry<K, V>>)
    requires |keys| == |values|
    ensures |es| == |keys| && forall i :: 0 <= i < |es| ==> es[i] == Entry(keys[i], values[i])
  {
    seq(|keys|, i requires 0 <= i < |keys| && |keys| == |values| => Entry(keys[i], values[i]))
  }

  /** What a reader of the columnar form finds in row i. */
  function RowAt<K, V>(a: MapArray<K, V>, i: nat): Option<seq<Entry<K, V>>>
    requires WellFormed(a) && i < |a.valids|
  {
    if a.valids[i] then
      Some(Zip(a.keys[a.offsets[i]..a.offsets[i + 1]], a.values[a.offsets[i]..a.offsets[i + 1]]))
    else None
  }

  function KeysOf<K, V>(es: seq<Entry<K, V>>): (ks: seq<K>)
    ensures |ks| == |es| && forall i :: 0 <= i < |es| ==> ks[i] == es[i].key
  {
    seq(|es|, i requires 0 <= i < |es| => es[i].key)
  }

  function ValuesOf<K, V>(es: seq<Entry<K, V>>): (vs: seq<V>)
    ensures |vs| == |es| && forall i :: 0 <= i < |es| ==> vs[i] == es[i].value
  {
    seq(|es|, i requires 0 <= i < |es| => es[i].value)
  }

  function PushNull<K, V>(a: MapArray<K, V>): MapArray<K, V>
    requires WellFormed(a)
  {
    a.(valids := a.valids + [false], offsets := a.offsets + [a.offsets[|a.valids|]])
  }

  function PushMap<K, V>(a: MapArray<K, V>, es: seq<Entry<K, V>>): MapArray<K, V>
    requires WellFormed(a)
  {
    MapArray(a.keys + KeysOf(es), a.values + ValuesOf(es),
             a.offsets + [a.offsets[|a.valids|] + |es|], a.valids + [true])
  }

  /** `b` is `a` with one more row. */
  ghost predicate Extends<K, V>(a: MapArray<K, V>, b: MapArray<K, V>) {
    && WellFormed(a) && WellFormed(b) && |b.valids| == |a.valids| + 1
    && (forall i :: 0 <= i < |a.valids| ==> RowAt(b, i) == RowAt(a, i))
    && a.offsets <= b.offsets
  }

  /** Appending a row shows exactly that row at the end and leaves the others as they were. */
  lemma PushNullRows<K, V>(a: MapArray<K, V>)
    requires WellFormed(a)
    ensures Extends(a, PushNull(a)) && RowAt(PushNull(a), |a.valids|) == None
    ensures PushNull(a).offsets[|a.valids|] == PushNull(a).offsets[|a.valids| + 1]
  {
  }

  lemma PushMapRows<K, V>(a: MapArray<K, V>, es: seq<Entry<K, V>>)
    requires WellFormed(a)
    ensures Extends(a, PushMap(a, es)) && RowAt(PushMap(a, es), |a.valids|) == Some(es)
  {
    var b := PushMap(a, es);
    var n := |a.keys|;
    assert b.keys[n..n + |es|] == KeysOf(es) && b.values[n..n + |es|] == ValuesOf(es);
    assert Zip(KeysOf(es), ValuesOf(es)) == es;
    forall i | 0 <= i < |a.valids| ensures RowAt(b, i) == RowAt(a, i) {
      assert b.keys[a.offsets[i]..a.offsets[i + 1]] == a.keys[a.offsets[i]..a.offsets[i + 1]];
      assert b.values[a.offsets[i]..a.offsets[i + 1]] == a.values[a.offsets[i]..a.offsets[i + 1]];
    }
  }

  /** Row i of the column is what `row` asks for; a null row is an empty range. */
  ghost predicate Shows<K, V>(a: MapArray<K, V>, i: nat, row: Option<seq<Item<K, V>>>, policy: Policy)
    requires WellFormed(a) && i < |a.valids|
  {
    match RowAt(a, i)
    case None => a.offsets[i] == a.offsets[i + 1] && (row.None? || IsRow(row.value, policy, NullRow))
    case Some(es) => row.Some? && IsRow(row.value, policy, MapRow(es))
  }

  /** The first `n` rows are shown. */
  ghost predicate ShowsAll<K, V>(a: MapArray<K, V>, n: nat, rows: seq<Option<seq<Item<K, V>>>>, policy: Policy)
    requires n <= |rows|
  {
    && WellFormed(a) && |a.valids| == n
    && forall i :: 0 <= i < n ==> Shows(a, i, rows[i], policy)
  }

  lemma ShowsOneMore<K, V>(
      a: MapArray<K, V>, b: MapArray<K, V>, n: nat, rows: seq<Option<seq<Item<K, V>>>>, policy: Policy)
    requires n < |rows| && ShowsAll(a, n, rows, policy) && Extends(a, b) && Shows(b, n, rows[n], policy)
    ensures ShowsAll(b, n + 1, rows, policy)
  {
    hide IsRow, RowAt;
    forall i | 0 <= i < n + 1 ensures Shows(b, i, rows[i], policy) {
      if i < n {
        assert Shows(a, i, rows[i], policy) && RowAt(b, i) == RowAt(a, i);
        assert b.offsets[i] == a.offsets[i] && b.offsets[i + 1] == a.offsets[i + 1];
      }
    }
  }

  function NoRows<K, V>(): (a: MapArray<K, V>)
    ensures WellFormed(a) && |a.valids| == 0
  {
    MapArray([], [], [0], [])
  }

  lemma ExtendsLength<K, V>(a: MapArray<K, V>, b: MapArray<K, V>)
    requires Extends(a, b)
    ensures WellFormed(b) && |b.valids| == |a.valids| + 1
  {
  }

  lemma RowVerdict<K, V>(items: seq<Item<K, V>>, policy: Policy, row: Row<K, V>)
    requires IsRow(items, policy, row)
    ensures row.RowError? <==> Rejects(items, policy)
  {
  }

  /** Fails exactly when some row is rejected; otherwise the column decodes to the result of every row. */
  method MapFromEntries<K(==), V>(rows: seq<Option<seq<Item<K, V>>>>, policy: Policy)
    returns (r: Option<MapArray<K, V>>)
    ensures r.None? <==> exists i :: 0 <= i < |rows| && rows[i].Some? && Rejects(rows[i].value, policy)
    ensures r.Some? ==> ShowsAll(r.value, |rows|, rows, policy)
  {
    hide IsRow, Rejects, RowAt, PushNull, PushMap, WellFormed, Extends;
    var a := NoRows<K, V>();
    for n := 0 to |rows|
      invariant ShowsAll(a, n, rows, policy)
      invariant forall i :: 0 <= i < n && rows[i].Some? ==> !Rejects(rows[i].value, policy)
    {
      var b := a;
      if rows[n].None? {
        PushNullRows(a);
        b := PushNull(a);
      } else {
        var row := BuildRow(rows[n].value, policy);
        RowVerdict(rows[n].value, policy, row);
        match row
        case RowError => return None;
        case NullRow =>
          PushNullRows(a);
          b := PushNull(a);
        case MapRow(entries) =>
          PushMapRows(a, entries);
          b := PushMap(a, entries);
      }
      ExtendsLength(a, b);
      ShowsOneMore(a, b, n, rows, policy);
      a := b;
    }
    r := Some(a);
  }
}
