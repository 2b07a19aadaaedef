/** The native column format: what a column tree writes for a list of items, and what it reads back.
    None stands for a raised exception. A column's nullable flag is passed separately from the tree,
    because low_cardinality clears the flag of its dictionary column before using it. */
module ColumnCodec {
  import opened Outcomes
  import opened Buffers
  import opened Columns
  import opened Nesting
  import opened Dictionaries
  import opened Scalars
  import opened Slicing
  import Bits
  import StructPack

  // ----- null maps -----

  function NullMarks(items: seq<Value>): (r: Bytes)
    ensures |r| == |items|
  {
    seq(|items|, i requires 0 <= i < |items| => if items[i].Null? then 1 else 0)
  }

  function NullMap(nullable: bool, items: seq<Value>): Bytes
  {
    if nullable then NullMarks(items) else []
  }

  function ReadNullMap(nullable: bool, n: nat, s: Bytes): (r: Parsed<seq<bool>>)
    ensures r.Some? ==> |r.value.0| == n
  {
    if nullable then
      var (marks, rest) :- Take(n, s);
      Some((seq(n, i requires 0 <= i < n => marks[i] != 0), rest))
    else Some((seq(n, _ => false), s))
  }

  /** `None if is_null else item`, item by item. */
  function Masked(mask: seq<bool>, items: seq<Value>): (r: seq<Value>)
    requires |mask| == |items|
    ensures |r| == |items|
  {
    seq(|items|, i requires 0 <= i < |items| => if mask[i] then Null else items[i])
  }

  // ----- arrays, tuples and maps as Python values -----

  /** The nullable flag of the innermost array, where write_data looks for it. */
  function InnermostFlag(c: Column, nullable: bool): bool
  {
    if c.Array? && c.inner.Array? then InnermostFlag(c.inner, c.inner.nullable) else nullable
  }

  /** The flattened items below the innermost array. */
  function LeafValues(c: Column, items: seq<Value>): Option<seq<Value>>
  {
    if !c.Array? then Some(items)
    else if AllIterable(items) then LeafValues(c.inner, Flatten(items))
    else None
  }

  lemma {:induction false} NoLeaves(c: Column)
    ensures LeafValues(c, []) == Some([])
  {
    if c.Array? {
      NoLeaves(c.inner);
    }
  }

  /** The null map that a nullable array puts before its offsets; readers expect none. */
  function StrayNullMap(c: Column, nullable: bool, items: seq<Value>): Option<Bytes>
  {
    if !InnermostFlag(c, nullable) then Some([])
    else
      var leaves :- LeafValues(c, items);
      Some(Zeros(|leaves|))
  }

  /** None replaced by the null value of a nullable column. */
  function Filled(c: Column, nullable: bool, items: seq<Value>): (r: seq<Value>)
    ensures |r| == |items|
  {
    seq(|items|, i requires 0 <= i < |items| => if nullable && items[i].Null? then NullValue(c) else items[i])
  }

  predicate RowsCover(rows: seq<Value>, width: nat)
  {
    forall i :: 0 <= i < |rows| ==> Iterable(rows[i]) && |Elements(rows[i])| >= width
  }

  /** Element j of every row: one output of `zip(*rows)`. */
  function ColumnAt(rows: seq<Value>, j: nat): (r: seq<Value>)
    requires RowsCover(rows, j + 1)
    ensures |r| == |rows|
  {
    seq(|rows|, i requires 0 <= i < |rows| => Elements(rows[i])[j])
  }

  /** `zip(*columns)` for columns of n items: tuples. */
  function Rows(columns: seq<seq<Value>>, n: nat): (r: seq<Value>)
    requires forall j :: 0 <= j < |columns| ==> |columns[j]| == n
    ensures |r| == n
  {
    seq(n, i requires 0 <= i < n => Row(seq(|columns|, j requires 0 <= j < |columns| => columns[j][i])))
  }

  predicate AllDicts(items: seq<Value>)
  {
    forall i :: 0 <= i < |items| ==> items[i].Dict? && |items[i].keys| == |items[i].vals|
  }

  function KeyLists(items: seq<Value>): (r: seq<Value>)
    requires AllDicts(items)
    ensures |r| == |items| && AllLists(r)
  {
    seq(|items|, i requires 0 <= i < |items| => List(items[i].keys))
  }

  function ValueLists(items: seq<Value>): (r: seq<Value>)
    requires AllDicts(items)
    ensures |r| == |items| && AllLists(r)
  {
    seq(|items|, i requires 0 <= i < |items| => List(items[i].vals))
  }

  /** `d[key] = value` on a dict: a key that is there keeps its place. */
  function Entered(d: Value, key: Value, value: Value): (r: Value)
    requires d.Dict? && |d.keys| == |d.vals|
    ensures r.Dict? && |r.keys| == |r.vals|
  {
    var k := Position(d.keys, key);
    if k < |d.keys| then Dict(d.keys, d.vals[k := value]) else Dict(d.keys + [key], d.vals + [value])
  }

  /** The dict of the first n pairs. */
  function Entries(keys: seq<Value>, vals: seq<Value>, n: nat): (r: Value)
    requires n <= |keys| && n <= |vals|
    ensures r.Dict? && |r.keys| == |r.vals|
  {
    if n == 0 then Dict([], []) else Entered(Entries(keys, vals, n - 1), keys[n - 1], vals[n - 1])
  }

  /** `dict(zip(keys, vals))`, which raises on a key without a hash. */
  function DictOf(keys: seq<Value>, vals: seq<Value>): Option<Value>
  {
    var n := Min(|keys|, |vals|);
    if AllHashable(keys[..n]) then Some(Entries(keys, vals, n)) else None
  }

  /** One dict for every pair of slices. */
  function Dicts(keyLists: seq<Value>, valueLists: seq<Value>): (r: Option<seq<Value>>)
    requires AllLists(keyLists) && AllLists(valueLists) && |keyLists| == |valueLists|
    ensures r.Some? ==> |r.value| == |keyLists|
  {
    if forall i :: 0 <= i < |keyLists| ==> DictOf(keyLists[i].items, valueLists[i].items).Some?
    then Some(seq(|keyLists|, i requires 0 <= i < |keyLists| =>
                DictOf(keyLists[i].items, valueLists[i].items).value))
    else None
  }

  // ----- writing -----

  /** Bit 9: keys follow their dictionary; bit 10: the dictionary is new. */
  const SERIALIZATION_TYPE: nat := 0x600

  function WriteUInt64s(ns: seq<nat>): Option<Bytes>
  {
    StructPack.PackAll(false, 8, ns)
  }

  function WriteInt64(n: int): Option<Bytes>
  {
    StructPack.Pack(true, 8, n)
  }

  /** write_data */
  function WriteData(c: Column, nullable: bool, items: seq<Value>): Option<Bytes>
    decreases c, 3
  {
    match c
    case Array(_, _) => Cat(StrayNullMap(c, nullable, items), WriteNested(c, items))
    case Tuple(_, _, _) => WriteBody(c, nullable, items)
    case _ => Cat(Some(NullMap(nullable, items)), WriteBody(c, nullable, items))
  }

  /** Array levels, outermost offsets first, then the null map and items of the innermost column. */
  function WriteNested(c: Column, items: seq<Value>): Option<Bytes>
    decreases c, 2
  {
    match c
    case Array(_, inner) =>
      if AllIterable(items) then Cat(WriteUInt64s(Offsets(items, 0)), WriteNested(inner, Flatten(items))) else None
    case _ =>
      Cat(Some(NullMap(c.nullable, items)), if items == [] then Some([]) else WriteBody(c, c.nullable, items))
  }

  /** _write_data of a column that is not an array. */
  function WriteBody(c: Column, nullable: bool, items: seq<Value>): Option<Bytes>
    decreases c, 1
  {
    match c
    case Scalar(_, kind) => var vs :- PrepareAll(kind, nullable, items); PackAll(kind, vs)
    case Array(_, _) => None
    case Tuple(_, _, inners) =>
      var rows := Filled(c, nullable, items);
      if rows != [] && RowsCover(rows, |inners|) then WriteColumns(inners, rows, 0) else None
    case Map(_, key, value) =>
      var dicts := Filled(c, nullable, items);
      if !AllDicts(dicts) then None
      else
        Cat(WriteUInt64s(Offsets(KeyLists(dicts), 0)),
            Cat(WriteData(key, key.nullable, Flatten(KeyLists(dicts))),
                WriteData(value, value.nullable, Flatten(ValueLists(dicts)))))
    case LowCardinality(_, d) =>
      var index := Index(d.nullable, NullValue(d), items);
      if !AllHashable(items) then None
      else if index == [] then Some([])
      else if KeyType(|index|) >= 4 then None
      else
        var keyType := KeyType(|index|);
        var keys := Keys(d.nullable, Distinct(d.nullable, items), items);
        Cat(WriteInt64(Bits.Or(keyType, SERIALIZATION_TYPE)),
            Cat(WriteInt64(|index|),
                Cat(WriteData(d, false, index),
                    Cat(WriteInt64(|items|), StructPack.PackAll(false, KeyWidth(keyType), keys)))))
  }

  function WriteColumns(inners: seq<Column>, rows: seq<Value>, j: nat): Option<Bytes>
    requires j <= |inners| && RowsCover(rows, |inners|)
    decreases inners, |inners| - j
  {
    if j == |inners| then Some([])
    else Cat(WriteData(inners[j], inners[j].nullable, ColumnAt(rows, j)), WriteColumns(inners, rows, j + 1))
  }

  /** All state prefixes come before all data. */
  function WritePrefix(c: Column): Bytes
  {
    match c
    case Scalar(_, _) => []
    case Array(_, inner) => WritePrefix(inner)
    case Tuple(_, _, inners) => WritePrefixes(inners, 0)
    case Map(_, key, value) => WritePrefix(key) + WritePrefix(value)
    case LowCardinality(_, _) => StructPack.LittleEndian(8, 1)
  }

  function WritePrefixes(inners: seq<Column>, j: nat): Bytes
    requires j <= |inners|
    decreases inners, |inners| - j
  {
    if j == |inners| then [] else WritePrefix(inners[j]) + WritePrefixes(inners, j + 1)
  }

  /** write_column, for the column of a parsed specification. */
  function WriteColumn(c: Column, items: seq<Value>): Option<Bytes>
  {
    Cat(Some(WritePrefix(c)), WriteData(c, c.nullable, items))
  }

  // ----- reading -----

  function ReadUInt64s(n: nat, s: Bytes): (r: Parsed<seq<nat>>)
    ensures r.Some? ==> |r.value.0| == n
  {
    var (vs, rest) :- StructPack.ReadInts(false, 8, n, s);
    Some((vs, rest))
  }

  function ReadUInt64(s: Bytes): Parsed<nat>
  {
    var (v, rest) :- StructPack.ReadInt(false, 8, s);
    Some((v, rest))
  }

  /** read_data */
  function ReadData(c: Column, nullable: bool, n: nat, s: Bytes): (r: Parsed<seq<Value>>)
    ensures r.Some? ==> |r.value.0| == n
    decreases c, 3
  {
    match c
    case Array(_, _) => ReadNested(c, n, s)
    case Tuple(_, _, _) => ReadBody(c, seq(n, _ => false), n, s)
    case _ =>
      var (mask, s') :- ReadNullMap(nullable, n, s);
      ReadBody(c, mask, n, s')
  }

  function ReadNested(c: Column, n: nat, s: Bytes): (r: Parsed<seq<Value>>)
    ensures r.Some? ==> |r.value.0| == n
    decreases c, 2
  {
    match c
    case Array(_, inner) =>
      var (offsets, s') :- ReadUInt64s(n, s);
      var (data, rest) :- ReadNested(inner, Total(offsets), s');
      Some((Slices(data, 0, offsets), rest))
    case _ =>
      var (mask, s') :- ReadNullMap(c.nullable, n, s);
      if n == 0 then Some(([], s')) else ReadBody(c, mask, n, s')
  }

  /** _read_data of a column that is not an array. */
  function ReadBody(c: Column, mask: seq<bool>, n: nat, s: Bytes): (r: Parsed<seq<Value>>)
    requires |mask| == n
    ensures r.Some? ==> |r.value.0| == n
    decreases c, 1
  {
    match c
    case Scalar(_, kind) =>
      var (raws, rest) :- ReadRaw(kind, n, s);
      var items :- AfterReadAll(kind, mask, raws);
      Some((items, rest))
    case Array(_, _) => None
    case Tuple(_, _, inners) =>
      var (columns, rest) :- ReadColumns(inners, 0, n, s);
      Some((Masked(mask, Rows(columns, n)), rest))
    case Map(_, key, value) =>
      var (offsets, s1) :- ReadUInt64s(n, s);
      if n == 0 then None
      else
        var (keys, s2) :- ReadData(key, key.nullable, Total(offsets), s1);
        var (vals, rest) :- ReadData(value, value.nullable, Total(offsets), s2);
        var dicts :- Dicts(Slices(keys, 0, offsets), Slices(vals, 0, offsets));
        Some((Masked(mask, dicts), rest))
    case LowCardinality(_, d) =>
      if n == 0 then Some(([], s))
      else
        var (serialization, s1) :- ReadUInt64(s);
        var keyType := Bits.And(serialization, 0xf);
        if keyType >= 4 then None
        else
          var (size, s2) :- ReadUInt64(s1);
          var (stored, s3) :- ReadData(d, false, size, s2);
          var index :- WithNullSlot(d, stored);
          var (_, s4) :- ReadUInt64(s3);
          var (keys, rest) :- StructPack.ReadInts(false, KeyWidth(keyType), n, s4);
          var items :- LookUp(index, keys);
          Some((items, rest))
  }

  /** `(None, ) + index[1:]` for a nullable dictionary; a list, which array, tuple and map columns return,
      cannot be joined to a tuple. */
  function WithNullSlot(d: Column, stored: seq<Value>): Option<seq<Value>>
  {
    if !d.nullable then Some(stored)
    else if d.Array? || d.Tuple? || d.Map? then None
    else Some([Null] + if stored == [] then [] else stored[1..])
  }

  function LookUp(index: seq<Value>, keys: seq<int>): (r: Option<seq<Value>>)
    ensures r.Some? ==> |r.value| == |keys|
  {
    if forall i :: 0 <= i < |keys| ==> 0 <= keys[i] < |index|
    then Some(seq(|keys|, i requires 0 <= i < |keys| => index[keys[i]]))
    else None
  }

  function ReadColumns(inners: seq<Column>, j: nat, n: nat, s: Bytes): (r: Parsed<seq<seq<Value>>>)
    requires j <= |inners|
    ensures r.Some? ==> |r.value.0| == |inners| - j
    ensures r.Some? ==> forall k :: 0 <= k < |r.value.0| ==> |r.value.0[k]| == n
    decreases inners, |inners| - j
  {
    if j == |inners| then Some(([], s))
    else
      var (column, s') :- ReadData(inners[j], inners[j].nullable, n, s);
      var (columns, rest) :- ReadColumns(inners, j + 1, n, s');
      Some(([column] + columns, rest))
  }

  /** What is left of the stream after the state prefixes. */
  function ReadPrefix(c: Column, s: Bytes): Option<Bytes>
  {
    match c
    case Scalar(_, _) => Some(s)
    case Array(_, inner) => ReadPrefix(inner, s)
    case Tuple(_, _, inners) => ReadPrefixes(inners, 0, s)
    case Map(_, key, value) => var s' :- ReadPrefix(key, s); ReadPrefix(value, s')
    case LowCardinality(_, _) => var (_, rest) :- ReadUInt64(s); Some(rest)
  }

  function ReadPrefixes(inners: seq<Column>, j: nat, s: Bytes): Option<Bytes>
    requires j <= |inners|
    decreases inners, |inners| - j
  {
    if j == |inners| then Some(s)
    else
      var s' :- ReadPrefix(inners[j], s);
      ReadPrefixes(inners, j + 1, s')
  }

  /** read_column, for the column of a parsed specification. */
  function ReadColumn(c: Column, n: nat, s: Bytes): (r: Parsed<seq<Value>>)
    ensures r.Some? ==> |r.value.0| == n
  {
    var s' :- ReadPrefix(c, s);
    ReadData(c, c.nullable, n, s')
  }
}
