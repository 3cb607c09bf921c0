/** Row hashes computed column by column (`create_hashes`, `hash_array`, `create_hashes_dictionary`,
    `hash_one`). The hash function itself is a parameter. */
module SparkHash {
  import opened Seqs
  import opened MachineInts

  /** How a value is turned into bytes: booleans, integers of up to 32 bits and 32-bit dates as four
      bytes, 64-bit integers, 64-bit dates and timestamps as eight, decimals as sixteen, and everything
      else as the bytes it has. Second, milli- and microsecond timestamps with a time zone are a kind of
      their own. */
  datatype Kind = Boolean | Narrow | Wide | Zoned | Decimal | Plain

  datatype Value = Truth(b: bool) | Number(n: int) | Data(bytes: Bytes)

  function LittleEndian(x: nat, n: nat): Bytes
    decreases n
  {
    if n == 0 then [] else [(x % 256) as byte] + LittleEndian(x / 256, n - 1)
  }

  /** Two's complement in `n` bytes. */
  function Signed(x: int, n: nat): Bytes { LittleEndian(x % Pow256(n), n) }

  function FromLittleEndian(bytes: Bytes): nat {
    if bytes == [] then 0 else bytes[0] as int + 256 * FromLittleEndian(bytes[1..])
  }

  lemma {:induction false} LittleEndianRead(x: nat, n: nat)
    requires x < Pow256(n)
    ensures |LittleEndian(x, n)| == n && FromLittleEndian(LittleEndian(x, n)) == x
    decreases n
  {
    if n > 0 {
      LittleEndianRead(x / 256, n - 1);
      assert LittleEndian(x, n)[1..] == LittleEndian(x / 256, n - 1);
    }
  }

  /** Numbers are hashed as the same bytes exactly when they agree in the bits of the width. */
  lemma SignedAgree(x: int, y: int, n: nat)
    ensures Signed(x, n) == Signed(y, n) <==> x % Pow256(n) == y % Pow256(n)
  {
    LittleEndianRead(x % Pow256(n), n);
    LittleEndianRead(y % Pow256(n), n);
  }

  function Encode(kind: Kind, v: Value): Bytes {
    match v
    case Truth(b) => LittleEndian(if b then 1 else 0, 4)
    case Number(n) => Signed(n, if kind == Narrow then 4 else if kind == Decimal then 16 else 8)
    case Data(bytes) => bytes
  }

  /** Columns as they are laid out: nested ones as offsets and flat children. A dictionary has signed keys
      or unsigned ones; `Other` is a column of any type that is hashed nowhere. */
  datatype Column =
    | NullColumn(len: nat)
    | LeafColumn(kind: Kind, cells: seq<Option<Value>>)
    | ListColumn(valid: seq<bool>, offsets: seq<nat>, child: Column)
    | MapColumn(valid: seq<bool>, offsets: seq<nat>, keys: Column, values: Column)
    | StructColumn(valid: seq<bool>, fields: seq<Column>)
    | DictColumn(signed: bool, indices: seq<Option<nat>>, dict: Column)
    | Other(valid: seq<bool>)

  function Len(col: Column): nat {
    match col
    case NullColumn(len) => len
    case LeafColumn(_, cells) => |cells|
    case ListColumn(valid, _, _) => |valid|
    case MapColumn(valid, _, _, _) => |valid|
    case StructColumn(valid, _) => |valid|
    case DictColumn(_, indices, _) => |indices|
    case Other(valid) => |valid|
  }

  predicate OffsetsOk(n: nat, offsets: seq<nat>, len: nat) {
    && |offsets| == n + 1
    && (forall i, j :: 0 <= i <= j <= n ==> offsets[i] <= offsets[j])
    && (forall i :: 0 <= i <= n ==> offsets[i] <= len)
  }

  predicate Within(indices: seq<Option<nat>>, len: nat) {
    forall i :: 0 <= i < |indices| && indices[i].Some? ==> indices[i].value < len
  }

  /** Offsets, lengths and dictionary indices fit together, whatever the types. */
  predicate WellFormed(col: Column) {
    match col
    case ListColumn(valid, offsets, child) => OffsetsOk(|valid|, offsets, Len(child)) && WellFormed(child)
    case MapColumn(valid, offsets, keys, values) =>
      && OffsetsOk(|valid|, offsets, Len(keys)) && Len(keys) == Len(values)
      && WellFormed(keys) && WellFormed(values)
    case StructColumn(valid, fields) =>
      forall i :: 0 <= i < |fields| ==> WellFormed(fields[i]) && Len(fields[i]) == |valid|
    case DictColumn(_, indices, dict) => WellFormed(dict) && Within(indices, Len(dict))
    case _ => true
  }

  // ---------------------------------------------------------------------------------------------
  // What a row is, whatever its layout.

  /** A null, a value, the parts of a list, a map (keys and values alternating) or a struct, or a value of
      a type that is not supported where it stands. */
  datatype Cell = Null | Leaf(bytes: Bytes) | Group(parts: seq<Cell>) | Unsupported

  function Leaves(cell: Cell): seq<Bytes> {
    match cell
    case Leaf(bytes) => [bytes]
    case Group(parts) => AllLeaves(parts)
    case _ => []
  }

  function AllLeaves(cells: seq<Cell>): seq<Bytes> {
    if cells == [] then [] else AllLeaves(cells[..|cells| - 1]) + Leaves(cells[|cells| - 1])
  }

  /** Nothing unsupported is found in the cell. */
  predicate Supported(cell: Cell) {
    match cell
    case Unsupported => false
    case Group(parts) => forall i :: 0 <= i < |parts| ==> Supported(parts[i])
    case _ => true
  }

  predicate AllSupported(cells: seq<Cell>) { forall i :: 0 <= i < |cells| ==> Supported(cells[i]) }

  /** A cell inside another one or behind a dictionary. There, zoned timestamps and dictionaries are
      supported as little as other types; nulls are nulls in a column of any type. */
  function Decode(col: Column, idx: nat): Cell
    requires WellFormed(col) && idx < Len(col)
    decreases col, 1
  {
    match col
    case NullColumn(_) => Null
    case LeafColumn(kind, cells) =>
      if cells[idx].None? then Null
      else if kind.Zoned? then Unsupported
      else Leaf(Encode(kind, cells[idx].value))
    case ListColumn(valid, offsets, _) =>
      if valid[idx] then Group(DecodeItems(col, offsets[idx], offsets[idx + 1])) else Null
    case MapColumn(valid, offsets, _, _) =>
      if valid[idx] then Group(DecodeItems(col, offsets[idx], offsets[idx + 1])) else Null
    case StructColumn(valid, fields) =>
      if valid[idx] then Group(DecodeFields(col, |fields|, idx)) else Null
    case DictColumn(_, indices, _) => if indices[idx].Some? then Unsupported else Null
    case Other(valid) => if valid[idx] then Unsupported else Null
  }

  /** The cells a list or map holds at the child positions `lo..hi`. */
  function DecodeItems(col: Column, lo: nat, hi: nat): seq<Cell>
    requires WellFormed(col) && (col.ListColumn? || col.MapColumn?)
    requires lo <= hi <= if col.ListColumn? then Len(col.child) else Len(col.keys)
    decreases col, 0, hi
  {
    if lo == hi then []
    else if col.ListColumn? then DecodeItems(col, lo, hi - 1) + [Decode(col.child, hi - 1)]
    else DecodeItems(col, lo, hi - 1) + [Decode(col.keys, hi - 1)] + [Decode(col.values, hi - 1)]
  }

  /** The first `n` fields of a struct. */
  function DecodeFields(col: Column, n: nat, idx: nat): seq<Cell>
    requires WellFormed(col) && col.StructColumn? && n <= |col.fields| && idx < Len(col)
    decreases col, 0, n
  {
    if n == 0 then [] else DecodeFields(col, n - 1, idx) + [Decode(col.fields[n - 1], idx)]
  }

  /** The cell of a column at the top of a table, where flat columns of every kind and dictionaries with
      signed keys are supported. */
  function CellAt(col: Column, idx: nat): Cell
    requires WellFormed(col) && idx < Len(col)
  {
    match col
    case LeafColumn(kind, cells) => if cells[idx].Some? then Leaf(Encode(kind, cells[idx].value)) else Null
    case DictColumn(signed, indices, dict) =>
      if !signed then Unsupported
      else if indices[idx].Some? then Decode(dict, indices[idx].value)
      else Null
    case _ => Decode(col, idx)
  }

  predicate Table(cols: seq<Column>, len: nat) {
    forall c :: 0 <= c < |cols| ==> WellFormed(cols[c]) && Len(cols[c]) == len
  }

  function Row(cols: seq<Column>, len: nat, idx: nat): (cells: seq<Cell>)
    requires Table(cols, len) && idx < len
    ensures |cells| == |cols| && forall c :: 0 <= c < |cols| ==> cells[c] == CellAt(cols[c], idx)
  {
    seq(|cols|, c requires 0 <= c < |cols| && Table(cols, len) => CellAt(cols[c], idx))
  }

  // ---------------------------------------------------------------------------------------------
  // Hashing.

  type Hash<!T> = (Bytes, T) -> T

  /** The left fold of the hash function over byte strings. */
  function Fold<T>(h: Hash<T>, seed: T, leaves: seq<Bytes>): T {
    if leaves == [] then seed else h(leaves[|leaves| - 1], Fold(h, seed, leaves[..|leaves| - 1]))
  }

  lemma {:induction false} FoldConcat<T>(h: Hash<T>, seed: T, a: seq<Bytes>, b: seq<Bytes>)
    ensures Fold(h, seed, a + b) == Fold(h, Fold(h, seed, a), b)
    decreases |b|
  {
    if b == [] {
      assert a + b == a;
    } else {
      assert (a + b)[..|a| + |b| - 1] == a + b[..|b| - 1];
      FoldConcat(h, seed, a, b[..|b| - 1]);
    }
  }

  /** The fold over the leaves of a cell; None, a panic, when something in it is not supported. */
  function HashCell<T>(h: Hash<T>, seed: T, cell: Cell): Option<T> {
    if Supported(cell) then Some(Fold(h, seed, Leaves(cell))) else None
  }

  function HashCells<T>(h: Hash<T>, seed: T, cells: seq<Cell>): Option<T> {
    if AllSupported(cells) then Some(Fold(h, seed, AllLeaves(cells))) else None
  }

  lemma SupportedSnoc(cells: seq<Cell>, cell: Cell)
    ensures AllSupported(cells + [cell]) <==> AllSupported(cells) && Supported(cell)
  {
    hide Supported;
    if AllSupported(cells + [cell]) {
      forall i | 0 <= i < |cells| ensures Supported(cells[i]) { assert (cells + [cell])[i] == cells[i]; }
      assert (cells + [cell])[|cells|] == cell;
    }
  }

  lemma HashCellsSnoc<T>(h: Hash<T>, seed: T, cells: seq<Cell>, cell: Cell)
    ensures HashCells(h, seed, cells + [cell]) ==
      match HashCells(h, seed, cells)
      case None => None
      case Some(hash) => HashCell(h, hash, cell)
  {
    hide Supported, AllSupported, Leaves;
    SupportedSnoc(cells, cell);
    assert (cells + [cell])[..|cells|] == cells;
    FoldConcat(h, seed, AllLeaves(cells), Leaves(cell));
  }

  lemma HashLeaf<T>(h: Hash<T>, seed: T, bytes: Bytes)
    ensures HashCell(h, seed, Leaf(bytes)) == Some(h(bytes, seed))
    ensures HashCell(h, seed, Null) == Some(seed) && HashCell(h, seed, Unsupported) == None
    ensures HashCells(h, seed, []) == Some(seed)
  {
    assert [bytes][..0] == [];
    assert Fold(h, seed, []) == seed;
  }

  lemma HashGroup<T>(h: Hash<T>, seed: T, parts: seq<Cell>)
    ensures HashCell(h, seed, Group(parts)) == HashCells(h, seed, parts)
  {
  }

  lemma {:induction false} ItemsPanic<T>(h: Hash<T>, seed: T, col: Column, lo: nat, mid: nat, hi: nat)
    requires WellFormed(col) && (col.ListColumn? || col.MapColumn?)
    requires lo <= mid <= hi <= if col.ListColumn? then Len(col.child) else Len(col.keys)
    requires HashCells(h, seed, DecodeItems(col, lo, mid)).None?
    ensures HashCells(h, seed, DecodeItems(col, lo, hi)).None?
    decreases hi
  {
    hide HashCells, Decode;
    if mid < hi {
      ItemsPanic(h, seed, col, lo, mid, hi - 1);
      var before := DecodeItems(col, lo, hi - 1);
      if col.ListColumn? {
        HashCellsSnoc(h, seed, before, Decode(col.child, hi - 1));
      } else {
        HashCellsSnoc(h, seed, before, Decode(col.keys, hi - 1));
        HashCellsSnoc(h, seed, before + [Decode(col.keys, hi - 1)], Decode(col.values, hi - 1));
      }
    }
  }

  lemma {:induction false} FieldsPanic<T>(h: Hash<T>, seed: T, col: Column, m: nat, n: nat, idx: nat)
    requires WellFormed(col) && col.StructColumn? && m <= n <= |col.fields| && idx < Len(col)
    requires HashCells(h, seed, DecodeFields(col, m, idx)).None?
    ensures HashCells(h, seed, DecodeFields(col, n, idx)).None?
    decreases n
  {
    hide HashCells, Decode;
    if m < n {
      FieldsPanic(h, seed, col, m, n - 1, idx);
      HashCellsSnoc(h, seed, DecodeFields(col, n - 1, idx), Decode(col.fields[n - 1], idx));
    }
  }

  /** Folds one cell into a hash, walking the layout. A null cell is skipped before its type is looked at;
      None is the panic on a type that is not supported, and it comes exactly when the cell holds, at any
      depth, a value of such a type. */
  method HashOne<T>(col: Column, idx: nat, hash0: T, h: Hash<T>) returns (r: Option<T>)
    requires WellFormed(col) && idx < Len(col)
    ensures r == HashCell(h, hash0, Decode(col, idx))
    decreases col
  {
    hide HashCell, HashCells, Encode;
    HashLeaf(h, hash0, []);
    r := Some(hash0);
    match col
    case NullColumn(_) =>
    case LeafColumn(kind, cells) =>
      if cells[idx].Some? {
        if kind.Zoned? {
          return None;
        }
        var bytes := Encode(kind, cells[idx].value);
        HashLeaf(h, hash0, bytes);
        r := Some(h(bytes, hash0));
      }
    case ListColumn(valid, offsets, child) =>
      if valid[idx] {
        HashGroup(h, hash0, DecodeItems(col, offsets[idx], offsets[idx + 1]));
        r := HashItems(col, offsets[idx], offsets[idx + 1], hash0, h);
      }
    case MapColumn(valid, offsets, keys, values) =>
      if valid[idx] {
        HashGroup(h, hash0, DecodeItems(col, offsets[idx], offsets[idx + 1]));
        r := HashItems(col, offsets[idx], offsets[idx + 1], hash0, h);
      }
    case StructColumn(valid, fields) =>
      if valid[idx] {
        HashGroup(h, hash0, DecodeFields(col, |fields|, idx));
        r := HashFields(col, idx, hash0, h);
      }
    case DictColumn(_, indices, _) =>
      if indices[idx].Some? {
        r := None;
      }
    case Other(valid) =>
      if valid[idx] {
        r := None;
      }
  }

  /** The elements of a list, or the keys and values of a map, at the child positions `lo..hi`. */
  method HashItems<T>(col: Column, lo: nat, hi: nat, hash0: T, h: Hash<T>) returns (r: Option<T>)
    requires WellFormed(col) && (col.ListColumn? || col.MapColumn?)
    requires lo <= hi <= if col.ListColumn? then Len(col.child) else Len(col.keys)
    ensures r == HashCells(h, hash0, DecodeItems(col, lo, hi))
    decreases col, 0
  {
    hide HashCells, HashCell, Decode;
    HashLeaf(h, hash0, []);
    r := Some(hash0);
    for i := lo to hi
      invariant r.Some? && r == HashCells(h, hash0, DecodeItems(col, lo, i))
    {
      var before := DecodeItems(col, lo, i);
      if col.ListColumn? {
        HashCellsSnoc(h, hash0, before, Decode(col.child, i));
        r := HashOne(col.child, i, r.value, h);
      } else {
        HashCellsSnoc(h, hash0, before, Decode(col.keys, i));
        HashCellsSnoc(h, hash0, before + [Decode(col.keys, i)], Decode(col.values, i));
        r := HashOne(col.keys, i, r.value, h);
        if r.Some? {
          r := HashOne(col.values, i, r.value, h);
        }
      }
      if r.None? {
        ItemsPanic(h, hash0, col, lo, i + 1, hi);
        return;
      }
    }
  }

  /** The fields of a struct, one after the other. */
  method HashFields<T>(col: Column, idx: nat, hash0: T, h: Hash<T>) returns (r: Option<T>)
    requires WellFormed(col) && col.StructColumn? && idx < Len(col)
    ensures r == HashCells(h, hash0, DecodeFields(col, |col.fields|, idx))
    decreases col, 0
  {
    hide HashCells, HashCell, Decode;
    HashLeaf(h, hash0, []);
    r := Some(hash0);
    for i := 0 to |col.fields|
      invariant r.Some? && r == HashCells(h, hash0, DecodeFields(col, i, idx))
    {
      HashCellsSnoc(h, hash0, DecodeFields(col, i, idx), Decode(col.fields[i], idx));
      r := HashOne(col.fields[i], idx, r.value, h);
      if r.None? {
        FieldsPanic(h, hash0, col, i + 1, |col.fields|, idx);
        return;
      }
    }
  }

  /** The loops for flat columns, with and without nulls. */
  method HashLeaves<T>(kind: Kind, cells: seq<Option<Value>>, hashes: array<T>, h: Hash<T>)
    requires |cells| == hashes.Length
    modifies hashes
    ensures forall i :: 0 <= i < hashes.Length ==>
      Some(hashes[i]) == HashCell(h, old(hashes[i]), CellAt(LeafColumn(kind, cells), i))
  {
    hide Encode, HashCell;
    var nulls := exists i :: 0 <= i < |cells| && cells[i].None?;
    for i := 0 to hashes.Length
      invariant forall j :: 0 <= j < i ==>
        Some(hashes[j]) == HashCell(h, old(hashes[j]), CellAt(LeafColumn(kind, cells), j))
      invariant forall j :: i <= j < hashes.Length ==> hashes[j] == old(hashes[j])
    {
      HashLeaf(h, hashes[i], if cells[i].Some? then Encode(kind, cells[i].value) else []);
      if !nulls || cells[i].Some? {
        hashes[i] := h(Encode(kind, cells[i].value), hashes[i]);
      }
    }
  }

  /** A column that is hashed without a panic. A dictionary with unsigned keys is not, even when empty. */
  ghost predicate Hashable(col: Column)
    requires WellFormed(col)
  {
    && !(col.DictColumn? && !col.signed)
    && forall i :: 0 <= i < Len(col) ==> Supported(CellAt(col, i))
  }

  lemma HashedCell<T>(h: Hash<T>, seed: T, cell: Cell)
    ensures HashCell(h, seed, cell).Some? <==> Supported(cell)
  {
  }

  lemma NullCells(col: Column, i: nat)
    requires col.NullColumn? && i < Len(col)
    ensures CellAt(col, i) == Null
  {
  }

  /** Row by row: through the dictionary, or by walking a nested column. */
  method HashRows<T>(col: Column, hashes: array<T>, h: Hash<T>) returns (ok: bool)
    requires WellFormed(col) && Len(col) == hashes.Length && !col.LeafColumn? && (col.DictColumn? ==> col.signed)
    modifies hashes
    ensures ok <==> forall i :: 0 <= i < Len(col) ==> Supported(CellAt(col, i))
    ensures ok ==> forall i :: 0 <= i < hashes.Length ==>
      Some(hashes[i]) == HashCell(h, old(hashes[i]), CellAt(col, i))
  {
    hide HashCell, Decode, Supported;
    for i := 0 to hashes.Length
      invariant forall j :: 0 <= j < i ==>
        Supported(CellAt(col, j)) && Some(hashes[j]) == HashCell(h, old(hashes[j]), CellAt(col, j))
      invariant forall j :: i <= j < hashes.Length ==> hashes[j] == old(hashes[j])
    {
      HashLeaf(h, hashes[i], []);
      HashedCell(h, hashes[i], CellAt(col, i));
      var r := Some(hashes[i]);
      if !col.DictColumn? {
        r := HashOne(col, i, hashes[i], h);
      } else if col.indices[i].Some? {
        r := HashOne(col.dict, col.indices[i].value, hashes[i], h);
      }
      if r.None? {
        return false;
      }
      hashes[i] := r.value;
    }
    ok := true;
  }

  /** Folds one column into the hashes of all rows, in place; `ok` is false for a panic. */
  method HashArray<T>(col: Column, hashes: array<T>, h: Hash<T>) returns (ok: bool)
    requires WellFormed(col) && Len(col) == hashes.Length
    modifies hashes
    ensures ok <==> Hashable(col)
    ensures ok ==> forall i :: 0 <= i < hashes.Length ==>
      Some(hashes[i]) == HashCell(h, old(hashes[i]), CellAt(col, i))
  {
    hide HashCell, Encode, Decode, Supported;
    match col
    case NullColumn(_) =>
      forall i | 0 <= i < hashes.Length
        ensures Some(hashes[i]) == HashCell(h, old(hashes[i]), CellAt(col, i)) && Supported(CellAt(col, i))
      {
        NullCells(col, i);
        HashLeaf(h, hashes[i], []);
        HashedCell(h, hashes[i], Null);
      }
      return true;
    case LeafColumn(kind, cells) =>
      HashLeaves(kind, cells, hashes, h);
      forall i | 0 <= i < Len(col) ensures Supported(CellAt(col, i)) {
        HashedCell(h, old(hashes[i]), CellAt(col, i));
      }
      return true;
    case DictColumn(signed, indices, dict) =>
      if !signed {
        return false;
      }
      ok := HashRows(col, hashes, h);
    case _ =>
      ok := HashRows(col, hashes, h);
  }

  /** Column by column: unless some column panics, every row gets the fold of the hash function over its
      non-null leaves in order. */
  method CreateHashes<T>(len: nat, cols: seq<Column>, seed: T, h: Hash<T>) returns (ok: bool, hashes: array<T>)
    requires Table(cols, len)
    ensures fresh(hashes) && hashes.Length == len
    ensures ok <==> forall c :: 0 <= c < |cols| ==> Hashable(cols[c])
    ensures ok ==> forall i :: 0 <= i < len ==> Some(hashes[i]) == HashCells(h, seed, Row(cols, len, i))
  {
    hide Hashable, CellAt, HashCell, HashCells;
    hashes := new T[len](_ => seed);
    forall i | 0 <= i < len ensures Some(hashes[i]) == HashCells(h, seed, Row(cols[..0], len, i)) {
      HashLeaf(h, seed, []);
    }
    for c := 0 to |cols|
      invariant fresh(hashes) && hashes.Length == len
      invariant forall d :: 0 <= d < c ==> Hashable(cols[d])
      invariant forall i :: 0 <= i < len ==> Some(hashes[i]) == HashCells(h, seed, Row(cols[..c], len, i))
    {
      ghost var before := hashes[..];
      ok := HashArray(cols[c], hashes, h);
      if !ok {
        return;
      }
      forall i | 0 <= i < len ensures Some(hashes[i]) == HashCells(h, seed, Row(cols[..c + 1], len, i)) {
        assert Some(before[i]) == HashCells(h, seed, Row(cols[..c], len, i));
        assert Row(cols[..c + 1], len, i) == Row(cols[..c], len, i) + [CellAt(cols[c], i)];
        HashCellsSnoc(h, seed, Row(cols[..c], len, i), CellAt(cols[c], i));
      }
    }
    assert cols[..|cols|] == cols;
    ok := true;
  }

  // ---------------------------------------------------------------------------------------------
  // Dictionaries: gathering the referenced values into a column of their own.

  function Pick<T>(xs: seq<T>, none: T, index: Option<nat>): T
    requires index.Some? ==> index.value < |xs|
  {
    if index.Some? then xs[index.value] else none
  }

  function PickAll<T>(xs: seq<T>, none: T, indices: seq<Option<nat>>): (r: seq<T>)
    requires Within(indices, |xs|)
    ensures |r| == |indices| && forall i :: 0 <= i < |r| ==> r[i] == Pick(xs, none, indices[i])
  {
    seq(|indices|, i requires 0 <= i < |indices| && Within(indices, |xs|) => Pick(xs, none, indices[i]))
  }

  /** The child positions of one list or map; none for a null one. */
  function Span(valid: seq<bool>, offsets: seq<nat>, index: Option<nat>): (r: seq<Option<nat>>)
    requires |offsets| == |valid| + 1 && (forall i, j :: 0 <= i <= j <= |valid| ==> offsets[i] <= offsets[j])
    requires index.Some? ==> index.value < |valid|
    ensures
      if index.Some? && valid[index.value] then
        && |r| == offsets[index.value + 1] - offsets[index.value]
        && forall k :: 0 <= k < |r| ==> r[k] == Some(offsets[index.value] + k)
      else r == []
  {
    if index.Some? && valid[index.value] then
      var lo := offsets[index.value];
      seq(offsets[index.value + 1] - lo, k requires 0 <= k => Some(lo + k))
    else []
  }

  function Spans(valid: seq<bool>, offsets: seq<nat>, indices: seq<Option<nat>>, len: nat): seq<Option<nat>>
    requires OffsetsOk(|valid|, offsets, len) && Within(indices, |valid|)
  {
    if indices == [] then []
    else Spans(valid, offsets, indices[..|indices| - 1], len) + Span(valid, offsets, indices[|indices| - 1])
  }

  function NewOffsets(valid: seq<bool>, offsets: seq<nat>, indices: seq<Option<nat>>, len: nat): (r: seq<nat>)
    requires OffsetsOk(|valid|, offsets, len) && Within(indices, |valid|)
    ensures |r| == |indices| + 1
  {
    seq(|indices| + 1, i requires 0 <= i <= |indices| && OffsetsOk(|valid|, offsets, len) && Within(indices, |valid|) =>
      |Spans(valid, offsets, indices[..i], len)|)
  }

  lemma NewOffsetAt(valid: seq<bool>, offsets: seq<nat>, indices: seq<Option<nat>>, len: nat, i: nat)
    requires OffsetsOk(|valid|, offsets, len) && Within(indices, |valid|) && i <= |indices|
    ensures NewOffsets(valid, offsets, indices, len)[i] == |Spans(valid, offsets, indices[..i], len)|
  {
    hide Spans;
  }

  lemma {:induction false} SpansWithin(valid: seq<bool>, offsets: seq<nat>, indices: seq<Option<nat>>, len: nat)
    requires OffsetsOk(|valid|, offsets, len) && Within(indices, |valid|)
    ensures Within(Spans(valid, offsets, indices, len), len)
    decreases |indices|
  {
    if indices != [] {
      var n := |indices| - 1;
      SpansWithin(valid, offsets, indices[..n], len);
      var tail := Span(valid, offsets, indices[n]);
      assert forall k :: 0 <= k < |tail| ==> tail[k].value < offsets[indices[n].value + 1] <= len;
    }
  }

  lemma SpansSnoc(valid: seq<bool>, offsets: seq<nat>, indices: seq<Option<nat>>, len: nat, i: nat)
    requires OffsetsOk(|valid|, offsets, len) && Within(indices, |valid|) && i < |indices|
    ensures Spans(valid, offsets, indices[..i + 1], len) ==
            Spans(valid, offsets, indices[..i], len) + Span(valid, offsets, indices[i])
  {
    hide Span, OffsetsOk;
    assert indices[..i + 1][..i] == indices[..i];
  }

  lemma {:induction false} SpansPrefix(
      valid: seq<bool>, offsets: seq<nat>, indices: seq<Option<nat>>, len: nat, i: nat, j: nat)
    requires OffsetsOk(|valid|, offsets, len) && Within(indices, |valid|) && i <= j <= |indices|
    ensures Spans(valid, offsets, indices[..i], len) <= Spans(valid, offsets, indices[..j], len)
    decreases j
  {
    hide Span, Spans, OffsetsOk;
    if i < j {
      SpansPrefix(valid, offsets, indices, len, i, j - 1);
      SpansSnoc(valid, offsets, indices, len, j - 1);
    }
  }

  /** The range of row `i` holds exactly the child positions of the list it refers to. */
  lemma SpanAt(valid: seq<bool>, offsets: seq<nat>, indices: seq<Option<nat>>, len: nat, i: nat)
    requires OffsetsOk(|valid|, offsets, len) && Within(indices, |valid|) && i < |indices|
    ensures
      var all, lo, hi := Spans(valid, offsets, indices, len), |Spans(valid, offsets, indices[..i], len)|,
                         |Spans(valid, offsets, indices[..i + 1], len)|;
      lo <= hi <= |all| && all[lo..hi] == Span(valid, offsets, indices[i])
  {
    hide Span, Spans, OffsetsOk;
    SpansSnoc(valid, offsets, indices, len, i);
    SpansPrefix(valid, offsets, indices, len, i + 1, |indices|);
    assert indices[..|indices|] == indices;
  }

  /** The column a dictionary stands for: row `i` is the value that `indices[i]` refers to, nested values
      copied with their children. */
  function Gather(indices: seq<Option<nat>>, col: Column): (r: Column)
    requires WellFormed(col) && Within(indices, Len(col))
    ensures Len(r) == |indices|
    decreases col
  {
    match col
    case NullColumn(_) => NullColumn(|indices|)
    case LeafColumn(kind, cells) => LeafColumn(kind, PickAll(cells, None, indices))
    case ListColumn(valid, offsets, child) =>
      SpansWithin(valid, offsets, indices, Len(child));
      ListColumn(PickAll(valid, false, indices), NewOffsets(valid, offsets, indices, Len(child)),
                 Gather(Spans(valid, offsets, indices, Len(child)), child))
    case MapColumn(valid, offsets, keys, values) =>
      SpansWithin(valid, offsets, indices, Len(keys));
      MapColumn(PickAll(valid, false, indices), NewOffsets(valid, offsets, indices, Len(keys)),
                Gather(Spans(valid, offsets, indices, Len(keys)), keys),
                Gather(Spans(valid, offsets, indices, Len(keys)), values))
    case StructColumn(valid, fields) =>
      StructColumn(PickAll(valid, false, indices),
                   seq(|fields|, f requires 0 <= f < |fields| => Gather(indices, fields[f])))
    case DictColumn(signed, ks, dict) => DictColumn(signed, PickAll(ks, None, indices), dict)
    case Other(valid) => Other(PickAll(valid, false, indices))
  }

  lemma NewOffsetsOk(valid: seq<bool>, offsets: seq<nat>, indices: seq<Option<nat>>, len: nat)
    requires OffsetsOk(|valid|, offsets, len) && Within(indices, |valid|)
    ensures OffsetsOk(|indices|, NewOffsets(valid, offsets, indices, len), |Spans(valid, offsets, indices, len)|)
  {
    hide Spans, NewOffsets;
    var r := NewOffsets(valid, offsets, indices, len);
    forall i, j | 0 <= i <= j <= |indices| ensures r[i] <= r[j] {
      NewOffsetAt(valid, offsets, indices, len, i);
      NewOffsetAt(valid, offsets, indices, len, j);
      SpansPrefix(valid, offsets, indices, len, i, j);
    }
    NewOffsetAt(valid, offsets, indices, len, |indices|);
    assert indices[..|indices|] == indices;
  }

  lemma {:induction false} GatherWellFormed(indices: seq<Option<nat>>, col: Column)
    requires WellFormed(col) && Within(indices, Len(col))
    ensures WellFormed(Gather(indices, col))
    decreases col
  {
    hide NewOffsets, Spans, OffsetsOk;
    match col
    case ListColumn(valid, offsets, child) =>
      NewOffsetsOk(valid, offsets, indices, Len(child));
      SpansWithin(valid, offsets, indices, Len(child));
      GatherWellFormed(Spans(valid, offsets, indices, Len(child)), child);
    case MapColumn(valid, offsets, keys, values) =>
      NewOffsetsOk(valid, offsets, indices, Len(keys));
      SpansWithin(valid, offsets, indices, Len(keys));
      GatherWellFormed(Spans(valid, offsets, indices, Len(keys)), keys);
      GatherWellFormed(Spans(valid, offsets, indices, Len(keys)), values);
    case StructColumn(valid, fields) =>
      forall f | 0 <= f < |fields| ensures WellFormed(Gather(indices, fields[f])) {
        GatherWellFormed(indices, fields[f]);
      }
    case _ =>
  }

  predicate Nests(col: Column) { col.ListColumn? || col.MapColumn? }

  /** Number of child positions of a list or map column. */
  function Children(col: Column): nat
    requires Nests(col)
  {
    if col.ListColumn? then Len(col.child) else Len(col.keys)
  }

  predicate SameItem(a: Column, p: nat, b: Column, q: nat)
    requires WellFormed(a) && WellFormed(b) && Nests(a) && Nests(b) && p < Children(a) && q < Children(b)
  {
    if a.ListColumn? then b.ListColumn? && Decode(a.child, p) == Decode(b.child, q)
    else b.MapColumn? && Decode(a.keys, p) == Decode(b.keys, q) && Decode(a.values, p) == Decode(b.values, q)
  }

  ghost predicate SameItems(a: Column, lo: nat, b: Column, at: nat, n: nat)
    requires WellFormed(a) && WellFormed(b) && Nests(a) && Nests(b) && lo + n <= Children(a) && at + n <= Children(b)
  {
    forall p: nat, q: nat :: lo <= p < lo + n && q + lo == p + at ==> SameItem(a, p, b, q)
  }

  /** Equal children in two ranges of two columns make equal items. */
  lemma {:induction false} ItemsMoved(a: Column, lo: nat, b: Column, at: nat, n: nat)
    requires WellFormed(a) && WellFormed(b) && Nests(a) && Nests(b) && lo + n <= Children(a) && at + n <= Children(b)
    requires SameItems(a, lo, b, at, n)
    ensures DecodeItems(a, lo, lo + n) == DecodeItems(b, at, at + n)
    decreases n
  {
    hide Decode;
    if n > 0 {
      ItemsMoved(a, lo, b, at, n - 1);
      assert SameItem(a, lo + n - 1, b, at + n - 1);
    }
  }

  lemma {:induction false} FieldsMoved(a: Column, i: nat, b: Column, j: nat, n: nat)
    requires WellFormed(a) && WellFormed(b) && a.StructColumn? && b.StructColumn?
    requires i < Len(a) && j < Len(b) && n <= |a.fields| && |a.fields| == |b.fields|
    requires forall f :: 0 <= f < n ==> Decode(a.fields[f], i) == Decode(b.fields[f], j)
    ensures DecodeFields(a, n, i) == DecodeFields(b, n, j)
    decreases n
  {
    hide Decode;
    if n > 0 {
      FieldsMoved(a, i, b, j, n - 1);
    }
  }

  function PickCell(col: Column, index: Option<nat>): Cell
    requires WellFormed(col) && (index.Some? ==> index.value < Len(col))
  {
    if index.Some? then Decode(col, index.value) else Null
  }

  /** The children of `g` are those of `col` that `all` refers to. */
  ghost predicate Gathered(g: Column, col: Column, all: seq<Option<nat>>)
    requires WellFormed(g) && WellFormed(col) && Nests(g) && Nests(col)
  {
    && Children(g) == |all| && Within(all, Children(col))
    && forall p :: 0 <= p < |all| && all[p].Some? ==> SameItem(g, p, col, all[p].value)
  }

  ghost predicate Consecutive(all: seq<Option<nat>>, lo: nat, at: nat, n: nat)
    requires lo + n <= |all|
  {
    forall p :: lo <= p < lo + n ==> all[p] == Some(p - lo + at)
  }

  lemma SpanRange(valid: seq<bool>, offsets: seq<nat>, indices: seq<Option<nat>>, len: nat, i: nat)
    returns (lo: nat, at: nat, n: nat)
    requires OffsetsOk(|valid|, offsets, len) && Within(indices, |valid|) && i < |indices|
    requires indices[i].Some? && valid[indices[i].value]
    ensures
      var r := NewOffsets(valid, offsets, indices, len);
      var j := indices[i].value;
      r[i] == lo && r[i + 1] == lo + n && offsets[j] == at && offsets[j + 1] == at + n
    ensures at + n <= len && lo + n <= |Spans(valid, offsets, indices, len)|
    ensures Consecutive(Spans(valid, offsets, indices, len), lo, at, n)
  {
    hide Spans, NewOffsets;
    NewOffsetAt(valid, offsets, indices, len, i);
    NewOffsetAt(valid, offsets, indices, len, i + 1);
    SpanAt(valid, offsets, indices, len, i);
    var all, span := Spans(valid, offsets, indices, len), Span(valid, offsets, indices[i]);
    lo, at, n := NewOffsets(valid, offsets, indices, len)[i], offsets[indices[i].value], |span|;
    forall p | lo <= p < lo + n ensures all[p] == Some(p - lo + at) {
      assert all[p] == all[lo..lo + n][p - lo] == span[p - lo];
    }
  }

  /** A range of gathered children that refers to consecutive ones. */
  lemma RangeDecodes(g: Column, col: Column, all: seq<Option<nat>>, lo: nat, at: nat, n: nat)
    requires WellFormed(g) && WellFormed(col) && Nests(g) && Nests(col) && Gathered(g, col, all)
    requires lo + n <= |all| && at + n <= Children(col) && Consecutive(all, lo, at, n)
    ensures DecodeItems(g, lo, lo + n) == DecodeItems(col, at, at + n)
  {
    hide Decode, DecodeItems, SameItem, Children, WellFormed;
    forall p: nat, q: nat | lo <= p < lo + n && q + lo == p + at ensures SameItem(g, p, col, q) {
      assert all[p] == Some(q);
    }
    ItemsMoved(g, lo, col, at, n);
  }

  /** Row `i` of a gathered list. */
  lemma ListRow(indices: seq<Option<nat>>, col: Column, i: nat)
    requires WellFormed(col) && Within(indices, Len(col)) && i < |indices| && col.ListColumn?
    requires WellFormed(Gather(indices, col))
    requires Gathered(Gather(indices, col), col, Spans(col.valid, col.offsets, indices, Children(col)))
    ensures Decode(Gather(indices, col), i) == PickCell(col, indices[i])
  {
    hide Spans, NewOffsets, Gathered, Consecutive, DecodeItems;
    var all := Spans(col.valid, col.offsets, indices, Children(col));
    if indices[i].Some? && col.valid[indices[i].value] {
      var lo, at, n := SpanRange(col.valid, col.offsets, indices, Children(col), i);
      RangeDecodes(Gather(indices, col), col, all, lo, at, n);
    }
  }

  /** Row `i` of a gathered map. */
  lemma MapRow(indices: seq<Option<nat>>, col: Column, i: nat)
    requires WellFormed(col) && Within(indices, Len(col)) && i < |indices| && col.MapColumn?
    requires WellFormed(Gather(indices, col))
    requires Gathered(Gather(indices, col), col, Spans(col.valid, col.offsets, indices, Children(col)))
    ensures Decode(Gather(indices, col), i) == PickCell(col, indices[i])
  {
    hide Spans, NewOffsets, Gathered, Consecutive, DecodeItems;
    var all := Spans(col.valid, col.offsets, indices, Children(col));
    if indices[i].Some? && col.valid[indices[i].value] {
      var lo, at, n := SpanRange(col.valid, col.offsets, indices, Children(col), i);
      RangeDecodes(Gather(indices, col), col, all, lo, at, n);
    }
  }

  /** Every row of a gathered column is the cell its index refers to, at any depth of nesting. */
  lemma {:induction false} GatherDecodes(indices: seq<Option<nat>>, col: Column, i: nat)
    requires WellFormed(col) && Within(indices, Len(col)) && i < |indices|
    ensures WellFormed(Gather(indices, col))
    ensures Decode(Gather(indices, col), i) == PickCell(col, indices[i])
    decreases col
  {
    GatherWellFormed(indices, col);
    hide Spans, NewOffsets, Encode;
    var g := Gather(indices, col);
    match col
    case ListColumn(valid, offsets, child) =>
      var all := Spans(valid, offsets, indices, Len(child));
      SpansWithin(valid, offsets, indices, Len(child));
      forall p | 0 <= p < |all| && all[p].Some? ensures SameItem(g, p, col, all[p].value) {
        GatherDecodes(all, child, p);
      }
      ListRow(indices, col, i);
    case MapColumn(valid, offsets, keys, values) =>
      var all := Spans(valid, offsets, indices, Len(keys));
      SpansWithin(valid, offsets, indices, Len(keys));
      forall p | 0 <= p < |all| && all[p].Some? ensures SameItem(g, p, col, all[p].value) {
        GatherDecodes(all, keys, p);
        GatherDecodes(all, values, p);
      }
      MapRow(indices, col, i);
    case StructColumn(valid, fields) =>
      forall f | 0 <= f < |fields| ensures Decode(g.fields[f], i) == PickCell(fields[f], indices[i]) {
        GatherDecodes(indices, fields[f], i);
      }
      if indices[i].Some? && valid[indices[i].value] {
        FieldsMoved(g, i, col, indices[i].value, |fields|);
      }
    case _ =>
  }

  /** A zoned timestamp that is not null. */
  predicate ZonedAt(col: Column, index: Option<nat>)
    requires index.Some? ==> index.value < Len(col)
  {
    index.Some? && col.LeafColumn? && col.kind.Zoned? && col.cells[index.value].Some?
  }

  predicate RefersToZoned(indices: seq<Option<nat>>, dict: Column)
    requires Within(indices, Len(dict))
  {
    exists i :: 0 <= i < |indices| && ZonedAt(dict, indices[i])
  }

  /** Row by row, a dictionary and the column it stands for hold the same cell, unless it is a zoned
      timestamp: that is hashed in a flat column and panics behind a dictionary. */
  lemma DictionaryCells(indices: seq<Option<nat>>, dict: Column, i: nat)
    requires WellFormed(dict) && Within(indices, Len(dict)) && i < |indices| && !dict.DictColumn?
    ensures WellFormed(Gather(indices, dict))
    ensures
      var coded, plain := CellAt(DictColumn(true, indices, dict), i), CellAt(Gather(indices, dict), i);
      if ZonedAt(dict, indices[i]) then !Supported(coded) && Supported(plain) else coded == plain
  {
    hide Encode;
    GatherDecodes(indices, dict, i);
  }

  lemma GatherKind(indices: seq<Option<nat>>, dict: Column)
    requires WellFormed(dict) && Within(indices, Len(dict))
    ensures Gather(indices, dict).DictColumn? <==> dict.DictColumn?
    ensures Gather(indices, dict).LeafColumn? <==> dict.LeafColumn?
  {
  }

  lemma FlatIsSupported(col: Column, i: nat)
    requires col.LeafColumn? && i < Len(col)
    ensures Supported(CellAt(col, i))
  {
  }

  /** For dictionaries of lists, maps, structs and flat values alike: dictionary encoding a column of a table
      changes no row, no hash and no panic, if and only if the dictionary refers to no zoned timestamp; if it
      does, the encoded table panics and the plain column does not. */
  lemma DictionaryKeepsRows(cols: seq<Column>, len: nat, c: nat, indices: seq<Option<nat>>, dict: Column)
    requires Table(cols, len) && c < |cols| && cols[c] == DictColumn(true, indices, dict) && !dict.DictColumn?
    ensures WellFormed(Gather(indices, dict)) && Table(cols[c := Gather(indices, dict)], len)
    ensures !RefersToZoned(indices, dict) ==>
      && (Hashable(cols[c]) <==> Hashable(Gather(indices, dict)))
      && forall i :: 0 <= i < len ==> Row(cols, len, i) == Row(cols[c := Gather(indices, dict)], len, i)
    ensures RefersToZoned(indices, dict) ==> !Hashable(cols[c]) && Hashable(Gather(indices, dict))
  {
    GatherWellFormed(indices, dict);
    hide CellAt, Gather, Supported;
    var plain := Gather(indices, dict);
    forall i | 0 <= i < len
      ensures if ZonedAt(dict, indices[i]) then !Supported(CellAt(cols[c], i)) && Supported(CellAt(plain, i))
              else CellAt(cols[c], i) == CellAt(plain, i)
    {
      DictionaryCells(indices, dict, i);
    }
    GatherKind(indices, dict);
    if RefersToZoned(indices, dict) {
      forall i | 0 <= i < len ensures Supported(CellAt(plain, i)) { FlatIsSupported(plain, i); }
    }
  }

  predicate KeyAt(dict: Column, index: Option<nat>)
    requires dict.DictColumn? && (index.Some? ==> index.value < Len(dict))
  {
    index.Some? && dict.indices[index.value].Some?
  }

  lemma KeyIsUnsupported(indices: seq<Option<nat>>, dict: Column, i: nat)
    requires WellFormed(DictColumn(true, indices, dict)) && dict.DictColumn? && i < |indices|
    ensures Supported(CellAt(DictColumn(true, indices, dict), i)) <==> !KeyAt(dict, indices[i])
  {
  }

  /** A dictionary of dictionaries panics if and only if it refers to a key that is not null. */
  lemma DictionaryOfDictionary(indices: seq<Option<nat>>, dict: Column)
    requires WellFormed(DictColumn(true, indices, dict)) && dict.DictColumn?
    ensures Hashable(DictColumn(true, indices, dict)) <==> forall i :: 0 <= i < |indices| ==> !KeyAt(dict, indices[i])
  {
    var col := DictColumn(true, indices, dict);
    forall i | 0 <= i < |indices| ensures Supported(CellAt(col, i)) <==> !KeyAt(dict, indices[i]) {
      KeyIsUnsupported(indices, dict, i);
    }
    hide Supported, CellAt, KeyAt;
  }

  /** The hashes of a table, with one column as a dictionary and as the column it stands for. */
  method HashBothWays<T>(
      len: nat, cols: seq<Column>, c: nat, indices: seq<Option<nat>>, dict: Column, seed: T, h: Hash<T>)
    returns (ok: bool, hashes: array<T>, plainOk: bool, plain: array<T>)
    requires Table(cols, len) && c < |cols| && cols[c] == DictColumn(true, indices, dict) && !dict.DictColumn?
    ensures fresh(hashes) && fresh(plain) && hashes.Length == plain.Length == len
    ensures !RefersToZoned(indices, dict) ==> ok == plainOk && (ok ==> hashes[..] == plain[..])
    ensures RefersToZoned(indices, dict) ==> !ok
  {
    hide Hashable, HashCells, Gather, Row, RefersToZoned;
    DictionaryKeepsRows(cols, len, c, indices, dict);
    var cols' := cols[c := Gather(indices, dict)];
    ok, hashes := CreateHashes(len, cols, seed, h);
    plainOk, plain := CreateHashes(len, cols', seed, h);
    forall d | 0 <= d < |cols| && !RefersToZoned(indices, dict) ensures Hashable(cols[d]) <==> Hashable(cols'[d]) {
      if d != c { assert cols'[d] == cols[d]; }
    }
    if ok && !RefersToZoned(indices, dict) {
      forall i | 0 <= i < len ensures hashes[i] == plain[i] {
        assert Row(cols, len, i) == Row(cols', len, i);
      }
    }
  }

  /** One zoned timestamp in a dictionary panics; behind a null key, or as a null value, it does not. */
  lemma ZonedDictionary()
    ensures
      var zoned := LeafColumn(Zoned, [Some(Number(0)), None]);
      && !Hashable(DictColumn(true, [Some(0)], zoned)) && Hashable(Gather([Some(0)], zoned))
      && Hashable(DictColumn(true, [None, Some(1)], zoned))
  {
    var zoned := LeafColumn(Zoned, [Some(Number(0)), None]);
    var coded := DictColumn(true, [Some(0)], zoned);
    assert Len(coded) == 1 && CellAt(coded, 0) == Unsupported;
    GatherWellFormed([Some(0)], zoned);
    GatherKind([Some(0)], zoned);
    forall i | 0 <= i < 1 ensures Supported(CellAt(Gather([Some(0)], zoned), i)) {
      FlatIsSupported(Gather([Some(0)], zoned), i);
    }
    var nulls := DictColumn(true, [None, Some(1)], zoned);
    assert CellAt(nulls, 0) == Null && CellAt(nulls, 1) == Null;
  }

  // ---------------------------------------------------------------------------------------------
  // What the bytes and the parts of a cell are.

  lemma Widths()
    ensures Pow256(4) == 0x1_0000_0000 && Pow256(8) == 0x1_0000_0000_0000_0000
    ensures Pow256(16) == 0x1_0000_0000_0000_0000_0000_0000_0000_0000
  {
    assert Pow256(2) == 0x1_0000;
    assert Pow256(6) == 0x1_0000_0000_0000 && Pow256(10) == 0x1_0000_0000_0000_0000_0000;
    assert Pow256(12) == 0x1_0000_0000_0000_0000_0000_0000;
    assert Pow256(14) == 0x1_0000_0000_0000_0000_0000_0000_0000;
  }

  /** Bytes and range of the numbers of a kind. */
  function NumberBytes(kind: Kind): nat { if kind.Narrow? then 4 else if kind.Decimal? then 16 else 8 }

  function NumberRange(kind: Kind): nat {
    if kind.Narrow? then 0x1_0000_0000
    else if kind.Decimal? then 0x1_0000_0000_0000_0000_0000_0000_0000_0000
    else 0x1_0000_0000_0000_0000
  }

  /** Numbers are little-endian two's complement in four, eight or sixteen bytes by kind, truth values are
      four bytes that read one and zero, and other data is itself. */
  lemma EncodedValue(kind: Kind, v: Value)
    ensures
      var bytes := Encode(kind, v);
      match v
      case Number(n) => |bytes| == NumberBytes(kind) && FromLittleEndian(bytes) == n % NumberRange(kind)
      case Truth(b) => |bytes| == 4 && FromLittleEndian(bytes) == if b then 1 else 0
      case Data(data) => bytes == data
  {
    hide LittleEndian, FromLittleEndian, Pow256;
    Widths();
    match v
    case Number(n) => LittleEndianRead(n % NumberRange(kind), NumberBytes(kind));
    case Truth(b) => LittleEndianRead(if b then 1 else 0, 4);
    case Data(_) =>
  }

  lemma FirstByte(a: Bytes)
    requires a != []
    ensures a[0] as int == FromLittleEndian(a) % 256 && FromLittleEndian(a[1..]) == FromLittleEndian(a) / 256
  {
  }

  /** Little-endian numbers of one width are equal when their bytes read the same, and every byte counts by
      its position. */
  lemma {:induction false} LittleEndianDetermined(a: Bytes, b: Bytes)
    requires |a| == |b| && FromLittleEndian(a) == FromLittleEndian(b)
    ensures a == b
    decreases |a|
  {
    if a != [] {
      FirstByte(a);
      FirstByte(b);
      hide FromLittleEndian;
      LittleEndianDetermined(a[1..], b[1..]);
      assert a == [a[0]] + a[1..] && b == [b[0]] + b[1..];
    }
  }

  /** The bytes by which a value is hashed, said without an encoding. */
  ghost predicate Stands(bytes: Bytes, kind: Kind, v: Value) {
    match v
    case Number(n) => |bytes| == NumberBytes(kind) && FromLittleEndian(bytes) == n % NumberRange(kind)
    case Truth(b) => |bytes| == 4 && FromLittleEndian(bytes) == if b then 1 else 0
    case Data(data) => bytes == data
  }

  lemma StandsExactly(bytes: Bytes, kind: Kind, v: Value)
    ensures Stands(bytes, kind, v) <==> bytes == Encode(kind, v)
  {
    hide FromLittleEndian, Encode;
    EncodedValue(kind, v);
    if Stands(bytes, kind, v) && !v.Data? {
      LittleEndianDetermined(bytes, Encode(kind, v));
    }
  }

  /** A table of one flat column: null rows keep the seed, and every other row is the hash of the bytes its
      value stands for. */
  method HashColumn<T>(kind: Kind, cells: seq<Option<Value>>, seed: T, h: Hash<T>) returns (hashes: array<T>)
    ensures fresh(hashes) && hashes.Length == |cells|
    ensures forall i :: 0 <= i < |cells| && cells[i].None? ==> hashes[i] == seed
    ensures forall i, bytes :: 0 <= i < |cells| && cells[i].Some? && Stands(bytes, kind, cells[i].value) ==>
      hashes[i] == h(bytes, seed)
  {
    var col := LeafColumn(kind, cells);
    var ok;
    forall i | 0 <= i < |cells| ensures Supported(CellAt(col, i)) { FlatIsSupported(col, i); }
    ok, hashes := CreateHashes(|cells|, [col], seed, h);
    assert Hashable(col);
    forall i | 0 <= i < |cells| ensures Some(hashes[i]) == HashCell(h, seed, CellAt(col, i)) {
      assert Row([col], |cells|, i) == [] + [CellAt(col, i)];
      HashLeaf(h, seed, []);
      HashCellsSnoc(h, seed, [], CellAt(col, i));
    }
    hide HashCell, Encode, Stands;
    forall i | 0 <= i < |cells| && cells[i].None? ensures hashes[i] == seed {
      HashLeaf(h, seed, []);
    }
    forall i, bytes | 0 <= i < |cells| && cells[i].Some? && Stands(bytes, kind, cells[i].value)
      ensures hashes[i] == h(bytes, seed)
    {
      StandsExactly(bytes, kind, cells[i].value);
      HashLeaf(h, seed, bytes);
    }
  }

  lemma {:induction false} ItemsCount(col: Column, lo: nat, hi: nat)
    requires WellFormed(col) && Nests(col) && lo <= hi <= Children(col)
    ensures |DecodeItems(col, lo, hi)| == if col.ListColumn? then hi - lo else 2 * (hi - lo)
    decreases hi
  {
    hide Decode;
    if lo < hi { ItemsCount(col, lo, hi - 1); }
  }

  lemma {:induction false} ItemsAt(col: Column, lo: nat, hi: nat, j: nat)
    requires WellFormed(col) && Nests(col) && lo <= hi <= Children(col) && j < hi - lo
    ensures
      var items := DecodeItems(col, lo, hi);
      if col.ListColumn? then |items| == hi - lo && items[j] == Decode(col.child, lo + j)
      else
        && |items| == 2 * (hi - lo)
        && items[2 * j] == Decode(col.keys, lo + j) && items[2 * j + 1] == Decode(col.values, lo + j)
    decreases hi
  {
    hide Decode;
    ItemsCount(col, lo, hi - 1);
    if j < hi - 1 - lo {
      ItemsAt(col, lo, hi - 1, j);
    }
  }

  lemma {:induction false} FieldsCount(col: Column, n: nat, idx: nat)
    requires WellFormed(col) && col.StructColumn? && n <= |col.fields| && idx < Len(col)
    ensures |DecodeFields(col, n, idx)| == n
    decreases n
  {
    hide Decode;
    if n > 0 { FieldsCount(col, n - 1, idx); }
  }

  lemma {:induction false} FieldsAt(col: Column, n: nat, idx: nat, f: nat)
    requires WellFormed(col) && col.StructColumn? && n <= |col.fields| && idx < Len(col) && f < n
    ensures |DecodeFields(col, n, idx)| == n && DecodeFields(col, n, idx)[f] == Decode(col.fields[f], idx)
    decreases n
  {
    hide Decode;
    if f < n - 1 {
      FieldsAt(col, n - 1, idx, f);
    } else {
      FieldsCount(col, n - 1, idx);
    }
  }

  /** By position: part `j` of a list cell is element `j` of its range; parts 2j and 2j + 1 of a map cell are
      key j and value j of its range; part `j` of a struct cell is field `j` of the same row. */
  lemma PartsByPosition(col: Column, idx: nat, j: nat)
    requires WellFormed(col) && idx < Len(col) && (col.ListColumn? || col.MapColumn? || col.StructColumn?)
    requires col.valid[idx] && j < if col.StructColumn? then |col.fields| else col.offsets[idx + 1] - col.offsets[idx]
    ensures
      var cell := Decode(col, idx);
      && cell.Group?
      && match col
         case ListColumn(_, offsets, child) =>
           && |cell.parts| == offsets[idx + 1] - offsets[idx]
           && cell.parts[j] == Decode(child, offsets[idx] + j)
         case MapColumn(_, offsets, keys, values) =>
           && |cell.parts| == 2 * (offsets[idx + 1] - offsets[idx])
           && cell.parts[2 * j] == Decode(keys, offsets[idx] + j)
           && cell.parts[2 * j + 1] == Decode(values, offsets[idx] + j)
         case StructColumn(_, fields) => |cell.parts| == |fields| && cell.parts[j] == Decode(fields[j], idx)
  {
    if col.StructColumn? {
      FieldsAt(col, |col.fields|, idx, j);
    } else {
      ItemsAt(col, col.offsets[idx], col.offsets[idx + 1], j);
    }
    hide DecodeItems, DecodeFields;
  }
}
