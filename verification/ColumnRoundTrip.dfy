/** Reading a column undoes writing it, for every column tree. */
module ColumnRoundTrip {
  import opened Outcomes
  import opened Buffers
  import opened Columns
  import opened Nesting
  import opened Dictionaries
  import opened Scalars
  import opened ColumnCodec
  import Bits
  import StructPack

  // ----- which columns and values -----

  /** Column trees: a tuple has elements, the keys of maps and dictionaries have hashes, and only a leaf column
      is both nullable and a dictionary. */
  predicate WellFormed(c: Column)
  {
    match c
    case Scalar(_, _) => true
    case Array(_, inner) => WellFormed(inner)
    case Tuple(_, names, inners) => inners != [] && forall j :: 0 <= j < |inners| ==> WellFormed(inners[j])
    case Map(_, key, value) => WellFormed(key) && WellFormed(value) && HashableColumn(key)
    case LowCardinality(_, d) => WellFormed(d) && HashableColumn(d) && (d.nullable ==> d.Scalar?)
  }

  /** The values a column carries without loss: arrays are lists and tuples are tuples. */
  ghost predicate HasType(c: Column, nullable: bool, v: Value)
    decreases c
  {
    match c
    case Scalar(_, kind) => ScalarHasType(kind, nullable, v)
    case Array(_, inner) =>
      v.List? && forall i :: 0 <= i < |v.items| ==> HasType(inner, inner.nullable, v.items[i])
    case Tuple(_, _, inners) =>
      && v.Row? && |v.items| == |inners|
      && forall j :: 0 <= j < |inners| ==> HasType(inners[j], inners[j].nullable, v.items[j])
    case Map(_, key, value) =>
      && v.Dict? && |v.keys| == |v.vals|
      && NoDuplicates(v.keys)
      && (forall i :: 0 <= i < |v.keys| ==> HasType(key, key.nullable, v.keys[i]))
      && (forall i :: 0 <= i < |v.vals| ==> HasType(value, value.nullable, v.vals[i]))
    case LowCardinality(_, d) => HasType(d, d.nullable, v)
  }

  ghost predicate AllHaveType(c: Column, nullable: bool, items: seq<Value>)
  {
    forall i :: 0 <= i < |items| ==> HasType(c, nullable, items[i])
  }

  /** Columns whose reader, asked for no items, leaves exactly what the writer wrote for none. */
  predicate EmptyReadable(c: Column)
  {
    match c
    case Scalar(_, _) => true
    case Array(_, _) => true
    case Tuple(_, _, _) => false
    case Map(_, _, _) => false
    case LowCardinality(_, d) => !d.nullable
  }

  /** The shapes the format loses: an empty list handed to a column that is not EmptyReadable (only a map
      whose rows have no entries at all, or an empty top level, does so), and a nullable innermost array
      that is not empty. */
  predicate Readable(c: Column, nullable: bool, items: seq<Value>)
    decreases c, 3
  {
    if c.Array? then (!InnermostFlag(c, nullable) || LeafValues(c, items) == Some([])) && ReadableNested(c, items)
    else if items == [] then EmptyReadable(c)
    else ReadableBody(c, items)
  }

  predicate ReadableNested(c: Column, items: seq<Value>)
    decreases c, 2
  {
    if c.Array? then AllIterable(items) && ReadableNested(c.inner, Flatten(items))
    else items == [] || ReadableBody(c, items)
  }

  predicate ReadableBody(c: Column, items: seq<Value>)
    decreases c, 1
  {
    match c
    case Scalar(_, _) => true
    case Array(_, _) => false
    case Tuple(_, _, inners) =>
      && RowsCover(items, |inners|)
      && forall j :: 0 <= j < |inners| ==> Readable(inners[j], inners[j].nullable, ColumnAt(items, j))
    case Map(_, key, value) =>
      && AllDicts(items)
      && Readable(key, key.nullable, Flatten(KeyLists(items)))
      && Readable(value, value.nullable, Flatten(ValueLists(items)))
    case LowCardinality(_, d) => Readable(d, false, Index(d.nullable, NullValue(d), items))
  }

  /** The items are written and come back in front of any stream. */
  ghost predicate RoundTrips(c: Column, nullable: bool, items: seq<Value>)
  {
    && WriteData(c, nullable, items).Some?
    && forall rest: Bytes {:trigger ComesBack(c, nullable, items, rest)} :: ComesBack(c, nullable, items, rest)
  }

  ghost predicate ComesBack(c: Column, nullable: bool, items: seq<Value>, rest: Bytes)
    requires WriteData(c, nullable, items).Some?
  {
    ReadData(c, nullable, |items|, WriteData(c, nullable, items).value + rest) == Some((items, rest))
  }

  // ----- small steps -----

  lemma NullMapReads(nullable: bool, items: seq<Value>, rest: Bytes)
    requires !nullable ==> forall i :: 0 <= i < |items| ==> !items[i].Null?
    ensures ReadNullMap(nullable, |items|, NullMap(nullable, items) + rest) == Some((Nulls(items), rest))
  {
    TakeFront(NullMap(nullable, items), rest);
    if nullable {
      var marks := NullMarks(items);
      assert seq(|items|, i requires 0 <= i < |items| => marks[i] != 0) == Nulls(items);
    } else {
      assert [] + rest == rest;
      assert seq(|items|, _ => false) == Nulls(items);
    }
  }

  /** The mask of a low_cardinality column is read and thrown away. */
  lemma NullMapSkips(nullable: bool, items: seq<Value>, rest: Bytes)
    ensures var r := ReadNullMap(nullable, |items|, NullMap(nullable, items) + rest);
            r.Some? && r.value.1 == rest
  {
    TakeFront(NullMap(nullable, items), rest);
    assert [] + rest == rest;
  }

  lemma UInt64sRead(ns: seq<nat>, rest: Bytes)
    requires WriteUInt64s(ns).Some?
    ensures ReadUInt64s(|ns|, WriteUInt64s(ns).value + rest) == Some((ns, rest))
  {
    StructPack.IntsRoundTrip(false, 8, ns, rest);
  }

  /** What is written as a signed 64-bit integer is read as an unsigned one. */
  lemma Int64Reads(n: nat, rest: Bytes)
    requires WriteInt64(n).Some?
    ensures ReadUInt64(WriteInt64(n).value + rest) == Some((n, rest))
  {
    StructPack.IntRoundTrip(false, 8, n, rest);
  }

  lemma SerializationType(keyType: nat)
    requires keyType < 4
    ensures Bits.And(Bits.Or(keyType, SERIALIZATION_TYPE), 0xf) == keyType
  {
    HeaderNumber(keyType);
    LowNibble(keyType + SERIALIZATION_TYPE);
  }

  lemma HeaderNumber(keyType: nat)
    requires keyType < 4
    ensures Bits.Or(keyType, SERIALIZATION_TYPE) == keyType + SERIALIZATION_TYPE
  {
    Bits.Pow2Values();
    Bits.OrDisjoint(keyType, 3, 9);
  }

  lemma LowNibble(n: nat)
    ensures Bits.And(n, 0xf) == n % 16
  {
    Bits.AndMask(n, 4);
    assert Bits.Pow2(4) == 2 * Bits.Pow2(3) && Bits.Pow2(2) == 2 * Bits.Pow2(1);
    assert Bits.Pow2(3) == 2 * Bits.Pow2(2) && Bits.Pow2(1) == 2 * Bits.Pow2(0);
  }

  /** Keys stand where they occur first. */
  lemma {:induction false} FirstPlaceStays(keys: seq<Value>, vals: seq<Value>, n: nat)
    requires n <= |keys| && n <= |vals|
    ensures Entries(keys, vals, n).keys == Distinct(false, keys[..n])
  {
    if n > 0 {
      FirstPlaceStays(keys, vals, n - 1);
      assert keys[..n][..n - 1] == keys[..n - 1] && keys[..n][n - 1] == keys[n - 1];
    }
  }

  predicate Holds(d: Value, key: Value, value: Value)
    requires d.Dict? && |d.keys| == |d.vals|
  {
    key in d.keys && d.vals[Position(d.keys, key)] == value
  }

  lemma NewKeyHolds(d: Value, key: Value, value: Value)
    requires d.Dict? && |d.keys| == |d.vals|
    ensures Holds(Entered(d, key, value), key, value)
  {
    if key !in d.keys {
      PositionAppend(d.keys, [key], key);
      assert Position([key], key) == 0;
    }
  }

  lemma OtherKeyHolds(d: Value, key: Value, value: Value, x: Value, v: Value)
    requires d.Dict? && |d.keys| == |d.vals| && Holds(d, x, v) && x != key
    ensures Holds(Entered(d, key, value), x, v)
  {
    if key !in d.keys {
      PositionAppend(d.keys, [key], x);
    }
  }

  /** The last of repeated keys gives the value. */
  lemma {:induction false} LastValueStays(keys: seq<Value>, vals: seq<Value>, n: nat, i: nat)
    requires i < n <= |keys| && n <= |vals| && keys[i] !in keys[i + 1..n]
    ensures Holds(Entries(keys, vals, n), keys[i], vals[i])
    decreases n
  {
    var front := Entries(keys, vals, n - 1);
    if i < n - 1 {
      StillLast(keys, i, n);
      LastValueStays(keys, vals, n - 1, i);
      OtherKeyHolds(front, keys[n - 1], vals[n - 1], keys[i], vals[i]);
    } else {
      NewKeyHolds(front, keys[i], vals[i]);
    }
  }

  lemma StillLast(keys: seq<Value>, i: nat, n: nat)
    requires i < n - 1 < |keys| && keys[i] !in keys[i + 1..n]
    ensures keys[i] != keys[n - 1] && keys[i] !in keys[i + 1..n - 1]
  {
    assert keys[i + 1..n] == keys[i + 1..n - 1] + [keys[n - 1]];
  }

  lemma {:induction false} DictKeepsEntries(keys: seq<Value>, vals: seq<Value>, n: nat)
    requires n <= |keys| == |vals| && NoDuplicates(keys)
    ensures Entries(keys, vals, n) == Dict(keys[..n], vals[..n])
  {
    if n > 0 {
      DictKeepsEntries(keys, vals, n - 1);
      assert keys[..n] == keys[..n - 1] + [keys[n - 1]] && vals[..n] == vals[..n - 1] + [vals[n - 1]];
    }
  }

  /** A map's keys and values flatten to the same shape. */
  lemma {:induction false} SameShape(items: seq<Value>, base: nat)
    requires AllDicts(items)
    ensures |Flatten(KeyLists(items))| == |Flatten(ValueLists(items))|
    ensures Offsets(KeyLists(items), base) == Offsets(ValueLists(items), base)
  {
    if items != [] {
      assert KeyLists(items)[1..] == KeyLists(items[1..]) && ValueLists(items)[1..] == ValueLists(items[1..]);
      SameShape(items[1..], base + |items[0].keys|);
    }
  }

  ghost predicate ProperKeys(items: seq<Value>)
    requires AllDicts(items)
  {
    forall m :: 0 <= m < |items| ==> NoDuplicates(items[m].keys) && AllHashable(items[m].keys)
  }

  lemma DictsOfLists(items: seq<Value>)
    requires AllDicts(items) && ProperKeys(items)
    ensures Dicts(KeyLists(items), ValueLists(items)) == Some(items)
  {
    forall i | 0 <= i < |items|
      ensures DictOf(items[i].keys, items[i].vals) == Some(items[i])
    {
      var d := items[i];
      DictKeepsEntries(d.keys, d.vals, |d.keys|);
      assert d.keys[..|d.keys|] == d.keys && d.vals[..|d.vals|] == d.vals;
    }
    assert Dicts(KeyLists(items), ValueLists(items)).value == items;
  }

  /** Slicing flattened keys and values at the offsets restores the dicts. */
  lemma DictsOfFlatten(items: seq<Value>)
    requires AllDicts(items) && ProperKeys(items)
    ensures var offsets := Offsets(KeyLists(items), 0);
            var keys := Slices(Flatten(KeyLists(items)), 0, offsets);
            var vals := Slices(Flatten(ValueLists(items)), 0, offsets);
            Dicts(keys, vals) == Some(items)
  {
    SameShape(items, 0);
    SlicesOfFlatten(KeyLists(items));
    SlicesOfFlatten(ValueLists(items));
    DictsOfLists(items);
  }

  lemma RowsUndoColumns(rows: seq<Value>, columns: seq<seq<Value>>)
    requires forall i :: 0 <= i < |rows| ==> rows[i].Row? && |rows[i].items| == |columns|
    requires forall j :: 0 <= j < |columns| ==> |columns[j]| == |rows| && columns[j] == ColumnAt(rows, j)
    ensures Rows(columns, |rows|) == rows
  {
    forall i | 0 <= i < |rows|
      ensures Rows(columns, |rows|)[i] == rows[i]
    {
      assert Rows(columns, |rows|)[i].items == rows[i].items;
    }
  }

  lemma UnmaskedRows(items: seq<Value>)
    requires forall i :: 0 <= i < |items| ==> !items[i].Null?
    ensures Masked(Nulls(items), items) == items
    ensures forall c, nullable :: Filled(c, nullable, items) == items
  {
  }

  // ----- types carry over to the parts -----

  lemma FlattenedHaveType(inner: Column, items: seq<Value>)
    requires AllIterable(items)
    requires forall i, j :: 0 <= i < |items| && 0 <= j < |Elements(items[i])| ==>
      HasType(inner, inner.nullable, Elements(items[i])[j])
    ensures AllHaveType(inner, inner.nullable, Flatten(items))
  {
    FlattenForall(items, x => HasType(inner, inner.nullable, x));
  }

  /** The values of a column have hashes exactly if the column says so. */
  lemma {:induction false} TypedHashable(c: Column, nullable: bool, v: Value)
    requires WellFormed(c) && HasType(c, nullable, v)
    ensures Hashable(v) <==> HashableColumn(c)
    decreases c
  {
    match c
    case Tuple(_, _, inners) =>
      forall j | 0 <= j < |inners|
        ensures Hashable(v.items[j]) <==> HashableColumn(inners[j])
      {
        TypedHashable(inners[j], inners[j].nullable, v.items[j]);
      }
    case LowCardinality(_, d) => TypedHashable(d, d.nullable, v);
    case _ =>
  }

  lemma KeysAreHashable(c: Column, nullable: bool, items: seq<Value>)
    requires c.Map? && WellFormed(c) && AllHaveType(c, nullable, items)
    ensures AllDicts(items) && ProperKeys(items)
  {
    forall m, i | 0 <= m < |items| && 0 <= i < |items[m].keys|
      ensures Hashable(items[m].keys[i])
    {
      TypedHashable(c.key, c.key.nullable, items[m].keys[i]);
    }
  }

  // ----- the round trip -----

  lemma {:induction false} DataRoundTrip(c: Column, nullable: bool, items: seq<Value>, rest: Bytes)
    requires WellFormed(c) && AllHaveType(c, nullable, items) && Readable(c, nullable, items)
    requires WriteData(c, nullable, items).Some?
    ensures ReadData(c, nullable, |items|, WriteData(c, nullable, items).value + rest) == Some((items, rest))
    decreases c, 3
  {
    match c
    case Array(_, _) =>
      WritesNoStrayNullMap(c, nullable, items);
      NestedRoundTrip(c, items, rest);
    case Tuple(_, _, _) =>
      BodyRoundTrip(c, nullable, items, rest);
      NoNulls(items);
    case Scalar(_, _) => MaskedRoundTrip(c, nullable, items, rest);
    case Map(_, _, _) => MaskedRoundTrip(c, nullable, items, rest);
    case LowCardinality(_, _) => SkippedMaskRoundTrip(c, nullable, items, rest);
  }

  lemma NoNulls(items: seq<Value>)
    requires forall i :: 0 <= i < |items| ==> !items[i].Null?
    ensures Nulls(items) == seq(|items|, _ => false)
  {
  }

  lemma MaskedRoundTrip(c: Column, nullable: bool, items: seq<Value>, rest: Bytes)
    requires c.Scalar? || c.Map?
    requires WellFormed(c) && AllHaveType(c, nullable, items) && Readable(c, nullable, items)
    requires WriteData(c, nullable, items).Some?
    ensures ReadData(c, nullable, |items|, WriteData(c, nullable, items).value + rest) == Some((items, rest))
    decreases c, 2
  {
    var body := WriteBody(c, nullable, items).value;
    Join2(NullMap(nullable, items), body, rest);
    NullMapReads(nullable, items, body + rest);
    BodyRoundTrip(c, nullable, items, rest);
  }

  lemma SkippedMaskRoundTrip(c: Column, nullable: bool, items: seq<Value>, rest: Bytes)
    requires c.LowCardinality?
    requires WellFormed(c) && AllHaveType(c, nullable, items) && Readable(c, nullable, items)
    requires WriteData(c, nullable, items).Some?
    ensures ReadData(c, nullable, |items|, WriteData(c, nullable, items).value + rest) == Some((items, rest))
    decreases c, 2
  {
    var nulls, body := NullMap(nullable, items), WriteBody(c, nullable, items).value;
    Join2(nulls, body, rest);
    NullMapSkips(nullable, items, body + rest);
    var mask := ReadNullMap(nullable, |items|, nulls + (body + rest)).value.0;
    DictionaryRoundTrip(c, nullable, mask, items, rest);
  }

  lemma Join2(a: Bytes, b: Bytes, rest: Bytes)
    ensures a + b + rest == a + (b + rest)
  {
  }

  lemma WritesNoStrayNullMap(c: Column, nullable: bool, items: seq<Value>)
    requires c.Array? && (!InnermostFlag(c, nullable) || LeafValues(c, items) == Some([]))
    ensures WriteData(c, nullable, items) == WriteNested(c, items)
  {
    var nested := WriteNested(c, items);
    assert nested.Some? ==> [] + nested.value == nested.value;
  }

  lemma {:induction false} NestedRoundTrip(c: Column, items: seq<Value>, rest: Bytes)
    requires WellFormed(c) && AllHaveType(c, c.nullable, items) && ReadableNested(c, items)
    requires WriteNested(c, items).Some?
    ensures ReadNested(c, |items|, WriteNested(c, items).value + rest) == Some((items, rest))
    decreases c, 2
  {
    if c.Array? {
      FlattenedHaveType(c.inner, items);
      NestedRoundTrip(c.inner, Flatten(items), rest);
      LevelReads(c, items, WriteNested(c.inner, Flatten(items)).value, rest);
    } else if items == [] {
      assert WriteNested(c, items).value + rest == rest;
      NullMapSkips(c.nullable, items, rest);
    } else {
      LeafLevelRoundTrip(c, items, rest);
    }
  }

  /** One array level around a level that reads back. */
  lemma LevelReads(c: Column, items: seq<Value>, tail: Bytes, rest: Bytes)
    requires c.Array? && AllLists(items) && WriteNested(c, items).Some?
    requires WriteNested(c.inner, Flatten(items)) == Some(tail)
    requires ReadNested(c.inner, |Flatten(items)|, tail + rest) == Some((Flatten(items), rest))
    ensures ReadNested(c, |items|, WriteNested(c, items).value + rest) == Some((items, rest))
  {
    var offsets := Offsets(items, 0);
    var head := WriteUInt64s(offsets).value;
    Join2(head, tail, rest);
    UInt64sRead(offsets, tail + rest);
    TotalIsLength(items);
    SlicesOfFlatten(items);
  }

  lemma LeafLevelRoundTrip(c: Column, items: seq<Value>, rest: Bytes)
    requires !c.Array? && items != []
    requires WellFormed(c) && AllHaveType(c, c.nullable, items) && ReadableBody(c, items)
    requires WriteNested(c, items).Some?
    ensures ReadNested(c, |items|, WriteNested(c, items).value + rest) == Some((items, rest))
    decreases c, 1, 1
  {
    var body := WriteBody(c, c.nullable, items).value;
    var nulls := NullMap(c.nullable, items);
    Join2(nulls, body, rest);
    if c.LowCardinality? {
      NullMapSkips(c.nullable, items, body + rest);
      var mask := ReadNullMap(c.nullable, |items|, nulls + (body + rest)).value.0;
      DictionaryRoundTrip(c, c.nullable, mask, items, rest);
    } else {
      NullMapReads(c.nullable, items, body + rest);
      BodyRoundTrip(c, c.nullable, items, rest);
    }
  }

  lemma {:induction false} BodyRoundTrip(c: Column, nullable: bool, items: seq<Value>, rest: Bytes)
    requires WellFormed(c) && AllHaveType(c, nullable, items) && !c.LowCardinality?
    requires c.Scalar? || (items != [] && ReadableBody(c, items))
    requires WriteBody(c, nullable, items).Some?
    ensures ReadBody(c, Nulls(items), |items|, WriteBody(c, nullable, items).value + rest) == Some((items, rest))
    decreases c, 1, 0
  {
    match c
    case Scalar(_, kind) => ListRoundTrip(kind, nullable, items, rest);
    case Tuple(_, _, inners) =>
      UnmaskedRows(items);
      ColumnsHaveType(c, nullable, items);
      ColumnsRoundTrip(inners, items, 0, rest);
      TupleReads(c, nullable, items, rest);
    case Map(_, key, value) =>
      UnmaskedRows(items);
      var keys, vals := Flatten(KeyLists(items)), Flatten(ValueLists(items));
      FlattenedHaveType(key, KeyLists(items));
      FlattenedHaveType(value, ValueLists(items));
      KeysAreHashable(c, nullable, items);
      var k, v := WriteData(key, key.nullable, keys).value, WriteData(value, value.nullable, vals).value;
      DataRoundTrip(key, key.nullable, keys, v + rest);
      DataRoundTrip(value, value.nullable, vals, rest);
      MapReads(c, nullable, items, k, v, rest);
  }

  lemma ColumnsHaveType(c: Column, nullable: bool, rows: seq<Value>)
    requires c.Tuple? && AllHaveType(c, nullable, rows)
    ensures RowsCover(rows, |c.inners|)
    ensures forall k :: 0 <= k < |c.inners| ==> AllHaveType(c.inners[k], c.inners[k].nullable, ColumnAt(rows, k))
  {
  }

  /** Columns that read back make rows that read back. */
  lemma TupleReads(c: Column, nullable: bool, rows: seq<Value>, rest: Bytes)
    requires c.Tuple? && rows != []
    requires forall i :: 0 <= i < |rows| ==> rows[i].Row? && |rows[i].items| == |c.inners|
    requires WriteColumns(c.inners, rows, 0).Some?
    requires ColumnsRead(c.inners, rows, 0, WriteColumns(c.inners, rows, 0).value + rest, rest)
    ensures WriteBody(c, nullable, rows) == WriteColumns(c.inners, rows, 0)
    ensures ReadBody(c, Nulls(rows), |rows|, WriteBody(c, nullable, rows).value + rest) == Some((rows, rest))
  {
    UnmaskedRows(rows);
    var columns := ColumnsFrom(rows, |c.inners|, 0);
    forall k | 0 <= k < |c.inners|
      ensures columns[k] == ColumnAt(rows, k)
    {
      ColumnsFromAt(rows, |c.inners|, 0, k);
    }
    RowsUndoColumns(rows, columns);
  }

  lemma {:induction false} ColumnsRoundTrip(inners: seq<Column>, rows: seq<Value>, j: nat, rest: Bytes)
    requires j <= |inners| && rows != [] && RowsCover(rows, |inners|)
    requires forall k :: 0 <= k < |inners| ==> WellFormed(inners[k])
    requires forall k :: 0 <= k < |inners| ==> AllHaveType(inners[k], inners[k].nullable, ColumnAt(rows, k))
    requires forall k :: 0 <= k < |inners| ==> Readable(inners[k], inners[k].nullable, ColumnAt(rows, k))
    requires WriteColumns(inners, rows, j).Some?
    ensures ColumnsRead(inners, rows, j, WriteColumns(inners, rows, j).value + rest, rest)
    decreases inners, |inners| - j
  {
    if j == |inners| {
      assert WriteColumns(inners, rows, j).value + rest == rest;
    } else {
      var c, column := inners[j], ColumnAt(rows, j);
      var head, tail := WriteData(c, c.nullable, column).value, WriteColumns(inners, rows, j + 1).value;
      assert head + tail + rest == head + (tail + rest);
      DataRoundTrip(c, c.nullable, column, tail + rest);
      ColumnsRoundTrip(inners, rows, j + 1, rest);
      ColumnReadsFirst(inners, rows, j, head + (tail + rest), tail + rest, rest);
    }
  }

  /** Columns j and up of the rows. */
  function ColumnsFrom(rows: seq<Value>, width: nat, j: nat): (r: seq<seq<Value>>)
    requires j <= width && RowsCover(rows, width)
    ensures |r| == width - j
    decreases width - j
  {
    if j == width then [] else [ColumnAt(rows, j)] + ColumnsFrom(rows, width, j + 1)
  }

  lemma {:induction false} ColumnsFromAt(rows: seq<Value>, width: nat, j: nat, k: nat)
    requires j <= k < width && RowsCover(rows, width)
    ensures ColumnsFrom(rows, width, j)[k - j] == ColumnAt(rows, k)
    decreases k - j
  {
    if j < k {
      ColumnsFromAt(rows, width, j + 1, k);
    }
  }

  /** Reading columns j and up of the rows off s leaves rest. */
  ghost predicate ColumnsRead(inners: seq<Column>, rows: seq<Value>, j: nat, s: Bytes, rest: Bytes)
    requires j <= |inners| && RowsCover(rows, |inners|)
  {
    ReadColumns(inners, j, |rows|, s) == Some((ColumnsFrom(rows, |inners|, j), rest))
  }

  lemma ColumnReadsFirst(inners: seq<Column>, rows: seq<Value>, j: nat, s: Bytes, s': Bytes, rest: Bytes)
    requires j < |inners| && RowsCover(rows, |inners|)
    requires ReadData(inners[j], inners[j].nullable, |rows|, s) == Some((ColumnAt(rows, j), s'))
    requires ColumnsRead(inners, rows, j + 1, s', rest)
    ensures ColumnsRead(inners, rows, j, s, rest)
  {
  }

  /** Keys and values that read back make dicts that read back. */
  lemma MapReads(c: Column, nullable: bool, items: seq<Value>, k: Bytes, v: Bytes, rest: Bytes)
    requires c.Map? && items != [] && AllDicts(items) && ProperKeys(items)
    requires WriteBody(c, nullable, items).Some?
    requires var keys := Flatten(KeyLists(items));
             && WriteData(c.key, c.key.nullable, keys) == Some(k)
             && ReadData(c.key, c.key.nullable, |keys|, k + (v + rest)) == Some((keys, v + rest))
    requires var vals := Flatten(ValueLists(items));
             && WriteData(c.value, c.value.nullable, vals) == Some(v)
             && ReadData(c.value, c.value.nullable, |vals|, v + rest) == Some((vals, rest))
    ensures ReadBody(c, Nulls(items), |items|, WriteBody(c, nullable, items).value + rest) == Some((items, rest))
  {
    UnmaskedRows(items);
    var offsets := Offsets(KeyLists(items), 0);
    var o := WriteUInt64s(offsets).value;
    Join(o, k, v, rest);
    UInt64sRead(offsets, k + (v + rest));
    TotalIsLength(KeyLists(items));
    SameShape(items, 0);
    DictsOfFlatten(items);
    PartsReadAsMap(c, Nulls(items), |items|, o + (k + (v + rest)), offsets, items, rest);
  }

  lemma Join(a: Bytes, b: Bytes, c: Bytes, rest: Bytes)
    ensures a + (b + c) + rest == a + (b + (c + rest))
  {
  }

  lemma PartsReadAsMap(c: Column, mask: seq<bool>, n: nat, s: Bytes, offsets: seq<nat>, items: seq<Value>,
                       rest: Bytes)
    requires c.Map? && |mask| == n == |items| > 0
    requires var o := ReadUInt64s(n, s);
             && o.Some? && o.value.0 == offsets
             && var k := ReadData(c.key, c.key.nullable, Total(offsets), o.value.1);
             && k.Some?
             && var v := ReadData(c.value, c.value.nullable, Total(offsets), k.value.1);
             && v.Some? && v.value.1 == rest
             && Dicts(Slices(k.value.0, 0, offsets), Slices(v.value.0, 0, offsets)) == Some(items)
    ensures ReadBody(c, mask, n, s) == Some((Masked(mask, items), rest))
  {
  }

  lemma {:induction false} DictionaryRoundTrip(c: Column, nullable: bool, mask: seq<bool>, items: seq<Value>,
                                              rest: Bytes)
    requires c.LowCardinality? && WellFormed(c) && AllHaveType(c, nullable, items) && |mask| == |items|
    requires if items == [] then EmptyReadable(c) else ReadableBody(c, items)
    requires WriteBody(c, nullable, items).Some?
    ensures ReadBody(c, mask, |items|, WriteBody(c, nullable, items).value + rest) == Some((items, rest))
    decreases c, 0
  {
    var d := c.dictionary;
    if items == [] {
      assert WriteBody(c, nullable, items).value + rest == rest;
    } else {
      var index := Index(d.nullable, NullValue(d), items);
      IndexNotEmpty(d.nullable, NullValue(d), items);
      EntriesHaveType(d, items);
      var head, size, body, count, keys := DictionaryParts(c, nullable, items);
      var tail := count + (keys + rest);
      if d.nullable {
        NullableIndexReads(d.kind, Distinct(true, items), tail);
      } else {
        assert index == Distinct(false, items);
        DataRoundTrip(d, false, index, tail);
      }
      var stored := ReadData(d, false, |index|, body + tail).value.0;
      LookUpFinds(d.nullable, items);
      var slots := Keys(d.nullable, Distinct(d.nullable, items), items);
      KeysRead(KeyType(|index|), |items|, slots, count, keys, rest);
      DictionaryReads(c, mask, KeyType(|index|), stored, slots, items, head, size, body + tail, tail, rest);
      Join5(head, size, body, count, keys, rest);
    }
  }

  lemma IndexNotEmpty(nullable: bool, placeholder: Value, items: seq<Value>)
    requires items != []
    ensures Index(nullable, placeholder, items) != []
  {
    DistinctIsExact(nullable, items);
    assert items[0] in items;
  }

  lemma EntriesHaveType(d: Column, items: seq<Value>)
    requires AllHaveType(d, d.nullable, items) && (d.nullable ==> d.Scalar?)
    ensures AllHaveType(d, false, Distinct(d.nullable, items))
  {
    DistinctIsExact(d.nullable, items);
    var distinct := Distinct(d.nullable, items);
    forall k | 0 <= k < |distinct|
      ensures HasType(d, false, distinct[k])
    {
      assert distinct[k] in distinct;
      var i :| 0 <= i < |items| && items[i] == distinct[k];
      FlagOnlyAddsNull(d, d.nullable, items[i]);
    }
  }

  lemma FlagOnlyAddsNull(d: Column, nullable: bool, v: Value)
    requires HasType(d, nullable, v) && (nullable ==> d.Scalar? && !v.Null?)
    ensures HasType(d, false, v)
  {
  }

  /** A nullable dictionary's first slot holds a placeholder; whatever it reads back as is dropped. */
  lemma NullableIndexReads(kind: Kind, distinct: seq<Value>, rest: Bytes)
    requires forall i :: 0 <= i < |distinct| ==> Fits(kind, distinct[i])
    requires WriteData(Scalar(true, kind), false, [ScalarNull(kind)] + distinct).Some?
    ensures var d, index := Scalar(true, kind), [ScalarNull(kind)] + distinct;
            var r := ReadData(d, false, |index|, WriteData(d, false, index).value + rest);
            r.Some? && r.value.1 == rest && WithNullSlot(d, r.value.0) == Some([Null] + distinct)
  {
    var slot := ScalarNull(kind);
    var first, tail := NullableIndexBytes(kind, distinct);
    Join2(first, tail, rest);
    ItemRoundTrip(kind, slot, tail + rest);
    ListRoundTrip(kind, false, distinct, rest);
    var raw := ReadOne(kind, first + (tail + rest)).value.0;
    var raws := ReadRaw(kind, |distinct|, tail + rest).value.0;
    RawCons(kind, first + (tail + rest), tail + rest, raw, raws, rest);
    DropSlot(kind, raw, raws, distinct);
  }

  lemma NullableIndexBytes(kind: Kind, distinct: seq<Value>) returns (first: Bytes, tail: Bytes)
    requires WriteData(Scalar(true, kind), false, [ScalarNull(kind)] + distinct).Some?
    ensures Prepare(kind, false, ScalarNull(kind)).Some? && PrepareAll(kind, false, distinct).Some?
    ensures PackOne(kind, Prepare(kind, false, ScalarNull(kind)).value) == Some(first)
    ensures PackAll(kind, PrepareAll(kind, false, distinct).value) == Some(tail)
    ensures WriteData(Scalar(true, kind), false, [ScalarNull(kind)] + distinct) == Some(first + tail)
  {
    var index := [ScalarNull(kind)] + distinct;
    assert index[1..] == distinct;
    var vs := PrepareAll(kind, false, index).value;
    assert vs[1..] == PrepareAll(kind, false, distinct).value;
    first, tail := PackOne(kind, vs[0]).value, PackAll(kind, vs[1..]).value;
    assert [] + (first + tail) == first + tail;
  }

  lemma RawCons(kind: Kind, s: Bytes, s': Bytes, raw: Value, raws: seq<Value>, rest: Bytes)
    requires ReadOne(kind, s) == Some((raw, s')) && ReadRaw(kind, |raws|, s') == Some((raws, rest))
    ensures ReadRaw(kind, |raws| + 1, s) == Some(([raw] + raws, rest))
  {
  }

  lemma DropSlot(kind: Kind, raw: Value, raws: seq<Value>, distinct: seq<Value>)
    requires |raws| == |distinct| && forall i :: 0 <= i < |distinct| ==> !distinct[i].Null?
    requires AfterRead(kind, false, raw).Some? && AfterReadAll(kind, Nulls(distinct), raws) == Some(distinct)
    ensures var back := AfterReadAll(kind, seq(|raws| + 1, _ => false), [raw] + raws);
            back.Some? && WithNullSlot(Scalar(true, kind), back.value) == Some([Null] + distinct)
  {
    var mask := seq(|raws| + 1, _ => false);
    assert mask[1..] == Nulls(distinct);
    assert ([raw] + raws)[1..] == raws;
    assert ([AfterRead(kind, false, raw).value] + distinct)[1..] == distinct;
  }

  /** The five parts a non-empty low_cardinality column writes. */
  lemma DictionaryParts(c: Column, nullable: bool, items: seq<Value>)
      returns (head: Bytes, size: Bytes, body: Bytes, count: Bytes, keys: Bytes)
    requires c.LowCardinality? && WriteBody(c, nullable, items).Some?
    requires Index(c.dictionary.nullable, NullValue(c.dictionary), items) != []
    ensures var d := c.dictionary;
            var index := Index(d.nullable, NullValue(d), items);
            && KeyType(|index|) < 4
            && WriteInt64(Bits.Or(KeyType(|index|), SERIALIZATION_TYPE)) == Some(head)
            && WriteInt64(|index|) == Some(size)
            && WriteData(d, false, index) == Some(body)
            && WriteInt64(|items|) == Some(count)
            && StructPack.PackAll(false, KeyWidth(KeyType(|index|)),
                                  Keys(d.nullable, Distinct(d.nullable, items), items)) == Some(keys)
            && WriteBody(c, nullable, items) == Some(head + (size + (body + (count + keys))))
  {
    var d := c.dictionary;
    var index := Index(d.nullable, NullValue(d), items);
    head := WriteInt64(Bits.Or(KeyType(|index|), SERIALIZATION_TYPE)).value;
    size := WriteInt64(|index|).value;
    body := WriteData(d, false, index).value;
    count := WriteInt64(|items|).value;
    keys := StructPack.PackAll(false, KeyWidth(KeyType(|index|)),
                               Keys(d.nullable, Distinct(d.nullable, items), items)).value;
  }

  lemma KeysRead(keyType: nat, n: nat, keys: seq<nat>, count: Bytes, k: Bytes, rest: Bytes)
    requires keyType < 4 && |keys| == n
    requires WriteInt64(n) == Some(count) && StructPack.PackAll(false, KeyWidth(keyType), keys) == Some(k)
    ensures var m := ReadUInt64(count + (k + rest));
            m.Some? && StructPack.ReadInts(false, KeyWidth(keyType), n, m.value.1) == Some((keys, rest))
  {
    Int64Reads(n, k + rest);
    StructPack.IntsRoundTrip(false, KeyWidth(keyType), keys, rest);
  }

  /** A dictionary that reads back and keys that point at items in it make those items. */
  lemma DictionaryReads(c: Column, mask: seq<bool>, keyType: nat, stored: seq<Value>, keys: seq<nat>,
                        items: seq<Value>, head: Bytes, size: Bytes, s2: Bytes, s3: Bytes, rest: Bytes)
    requires c.LowCardinality? && |mask| == |items| > 0 && keyType < 4
    requires WriteInt64(Bits.Or(keyType, SERIALIZATION_TYPE)) == Some(head) && WriteInt64(|stored|) == Some(size)
    requires ReadData(c.dictionary, false, |stored|, s2) == Some((stored, s3))
    requires var m := ReadUInt64(s3);
             m.Some? && StructPack.ReadInts(false, KeyWidth(keyType), |items|, m.value.1) == Some((keys, rest))
    requires var index := WithNullSlot(c.dictionary, stored); index.Some? && LookUp(index.value, keys) == Some(items)
    ensures ReadBody(c, mask, |items|, head + (size + s2)) == Some((items, rest))
  {
    HeaderReads(keyType, |stored|, head, size, s2);
    PartsReadAsDictionary(c, mask, |items|, head + (size + s2), keyType, s2, stored, s3, keys, items, rest);
  }

  lemma Join5(a: Bytes, b: Bytes, c: Bytes, d: Bytes, e: Bytes, rest: Bytes)
    ensures a + (b + (c + (d + e))) + rest == a + (b + (c + (d + (e + rest))))
  {
    Join(a, b, c + (d + e), rest);
    Join(c, d, e, rest);
  }

  lemma HeaderReads(keyType: nat, n: nat, head: Bytes, size: Bytes, s: Bytes)
    requires keyType < 4
    requires WriteInt64(Bits.Or(keyType, SERIALIZATION_TYPE)) == Some(head) && WriteInt64(n) == Some(size)
    ensures var h := ReadUInt64(head + (size + s));
            h.Some? && Bits.And(h.value.0, 0xf) == keyType && ReadUInt64(h.value.1) == Some((n, s))
  {
    SerializationType(keyType);
    Int64Reads(Bits.Or(keyType, SERIALIZATION_TYPE), size + s);
    Int64Reads(n, s);
  }

  lemma PartsReadAsDictionary(c: Column, mask: seq<bool>, n: nat, s: Bytes, keyType: nat, s2: Bytes,
                              stored: seq<Value>, s3: Bytes, keys: seq<nat>, items: seq<Value>, rest: Bytes)
    requires c.LowCardinality? && |mask| == n > 0 && keyType < 4
    requires var h := ReadUInt64(s);
             && h.Some? && Bits.And(h.value.0, 0xf) == keyType
             && ReadUInt64(h.value.1) == Some((|stored|, s2))
    requires ReadData(c.dictionary, false, |stored|, s2) == Some((stored, s3))
    requires var m := ReadUInt64(s3);
             && m.Some? && StructPack.ReadInts(false, KeyWidth(keyType), n, m.value.1) == Some((keys, rest))
    requires var index := WithNullSlot(c.dictionary, stored);
             index.Some? && LookUp(index.value, keys) == Some(items)
    ensures ReadBody(c, mask, n, s) == Some((items, rest))
  {
  }

  /** Looking the keys up in the dictionary, NULL in its slot, gives the items. */
  lemma LookUpFinds(nullable: bool, items: seq<Value>)
    ensures LookUp(Index(nullable, Null, items), Keys(nullable, Distinct(nullable, items), items)) == Some(items)
  {
    KeysPointAtItems(nullable, Null, items);
    var index, keys := Index(nullable, Null, items), Keys(nullable, Distinct(nullable, items), items);
    forall i | 0 <= i < |items|
      ensures 0 <= keys[i] < |index| && index[keys[i]] == items[i]
    {
    }
    assert LookUp(index, keys).value == items;
  }

  lemma {:induction false} PrefixRoundTrip(c: Column, rest: Bytes)
    ensures ReadPrefix(c, WritePrefix(c) + rest) == Some(rest)
  {
    match c
    case Scalar(_, _) => assert [] + rest == rest;
    case Array(_, inner) => PrefixRoundTrip(inner, rest);
    case Tuple(_, _, inners) => PrefixesRoundTrip(inners, 0, rest);
    case Map(_, key, value) =>
      Join2(WritePrefix(key), WritePrefix(value), rest);
      PrefixRoundTrip(key, WritePrefix(value) + rest);
      PrefixRoundTrip(value, rest);
    case LowCardinality(_, _) => StructPack.IntRoundTrip(false, 8, 1, rest);
  }

  lemma {:induction false} PrefixesRoundTrip(inners: seq<Column>, j: nat, rest: Bytes)
    requires j <= |inners|
    ensures ReadPrefixes(inners, j, WritePrefixes(inners, j) + rest) == Some(rest)
    decreases inners, |inners| - j
  {
    if j == |inners| {
      assert [] + rest == rest;
    } else {
      var tail := WritePrefixes(inners, j + 1);
      Join2(WritePrefix(inners[j]), tail, rest);
      PrefixRoundTrip(inners[j], tail + rest);
      PrefixesRoundTrip(inners, j + 1, rest);
    }
  }

  /** Reading what write_column wrote, whatever follows it, returns the items and leaves exactly what follows. */
  lemma ColumnReadsBack(c: Column, items: seq<Value>, rest: Bytes)
    requires WellFormed(c) && AllHaveType(c, c.nullable, items) && Readable(c, c.nullable, items)
    requires WriteColumn(c, items).Some?
    ensures ReadColumn(c, |items|, WriteColumn(c, items).value + rest) == Some((items, rest))
  {
    var data := WriteData(c, c.nullable, items).value;
    Join2(WritePrefix(c), data, rest);
    PrefixRoundTrip(c, data + rest);
    DataRoundTrip(c, c.nullable, items, rest);
  }
}
