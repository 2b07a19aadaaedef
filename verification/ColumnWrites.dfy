/** write_column succeeds on every list of well-typed values of reasonable size. */
module ColumnWrites {
  import opened Outcomes
  import opened Columns
  import opened Nesting
  import opened Dictionaries
  import opened Scalars
  import opened ColumnCodec
  import opened ColumnRoundTrip
  import Bits
  import StructPack

  const SIZE_LIMIT: nat := 0xFFFF_FFFF

  /** The number of values in a value, itself included. */
  function Volume(v: Value): nat
  {
    match v
    case List(items) => 1 + VolumeAll(items)
    case Row(items) => 1 + VolumeAll(items)
    case Dict(keys, vals) => 1 + VolumeAll(keys) + VolumeAll(vals)
    case _ => 1
  }

  function VolumeAll(vs: seq<Value>): nat
  {
    if vs == [] then 0 else Volume(vs[0]) + VolumeAll(vs[1..])
  }

  /** A nullable dictionary stores the number 0 for NULL; only an enum can lack it. */
  predicate HasPlaceholders(c: Column)
  {
    match c
    case Scalar(_, _) => true
    case Array(_, inner) => HasPlaceholders(inner)
    case Tuple(_, _, inners) => forall j :: 0 <= j < |inners| ==> HasPlaceholders(inners[j])
    case Map(_, key, value) => HasPlaceholders(key) && HasPlaceholders(value)
    case LowCardinality(_, d) =>
      && HasPlaceholders(d)
      && (d.nullable && d.Scalar? && d.kind.Enum? ==> NameOf(d.kind.choices, 0).Some?)
  }

  lemma {:induction false} LengthIsVolume(vs: seq<Value>)
    ensures |vs| <= VolumeAll(vs)
  {
    if vs != [] {
      LengthIsVolume(vs[1..]);
    }
  }

  lemma {:induction false} VolumeAppend(a: seq<Value>, b: seq<Value>)
    ensures VolumeAll(a + b) == VolumeAll(a) + VolumeAll(b)
  {
    if a == [] {
      assert a + b == b;
    } else {
      assert (a + b)[1..] == a[1..] + b;
      VolumeAppend(a[1..], b);
    }
  }

  lemma {:induction false} FlattenVolume(items: seq<Value>)
    requires forall i :: 0 <= i < |items| ==> items[i].List? || items[i].Row?
    ensures VolumeAll(Flatten(items)) <= VolumeAll(items)
  {
    if items != [] {
      FlattenVolume(items[1..]);
      VolumeAppend(items[0].items, Flatten(items[1..]));
    }
  }

  lemma {:induction false} ElementVolume(vs: seq<Value>, j: nat)
    requires j < |vs|
    ensures Volume(vs[j]) <= VolumeAll(vs)
  {
    if j > 0 {
      ElementVolume(vs[1..], j - 1);
    }
  }

  lemma {:induction false} ColumnVolume(rows: seq<Value>, j: nat)
    requires RowsCover(rows, j + 1) && forall i :: 0 <= i < |rows| ==> rows[i].Row?
    ensures VolumeAll(ColumnAt(rows, j)) <= VolumeAll(rows)
  {
    if rows != [] {
      assert ColumnAt(rows, j)[1..] == ColumnAt(rows[1..], j);
      ColumnVolume(rows[1..], j);
      ElementVolume(rows[0].items, j);
    }
  }

  lemma {:induction false} MapVolume(items: seq<Value>)
    requires AllDicts(items)
    ensures VolumeAll(KeyLists(items)) <= VolumeAll(items) && VolumeAll(ValueLists(items)) <= VolumeAll(items)
  {
    if items != [] {
      assert KeyLists(items)[1..] == KeyLists(items[1..]) && ValueLists(items)[1..] == ValueLists(items[1..]);
      MapVolume(items[1..]);
    }
  }

  lemma {:induction false} DistinctVolume(skipNull: bool, items: seq<Value>)
    ensures VolumeAll(Distinct(skipNull, items)) <= VolumeAll(items)
  {
    if items != [] {
      var front, x := items[..|items| - 1], items[|items| - 1];
      assert items == front + [x];
      DistinctVolume(skipNull, front);
      VolumeAppend(front, [x]);
      VolumeAppend(Distinct(skipNull, front), [x]);
    }
  }

  // ----- the parts -----

  lemma OffsetsWritten(items: seq<Value>)
    requires AllIterable(items) && |Flatten(items)| < SIZE_LIMIT
    ensures WriteUInt64s(Offsets(items, 0)).Some?
  {
    OffsetsPartition(items, 0);
    StructPack.SpanValues();
    StructPack.PackAllSucceeds(false, 8, Offsets(items, 0));
  }

  lemma Int64Written(n: nat)
    requires n <= SIZE_LIMIT
    ensures WriteInt64(n).Some?
  {
    StructPack.SpanValues();
  }

  lemma {:induction false} ScalarsWritten(kind: Kind, nullable: bool, items: seq<Value>)
    requires forall i :: 0 <= i < |items| ==> ScalarHasType(kind, nullable, items[i])
    ensures PrepareAll(kind, nullable, items).Some? && PackAll(kind, PrepareAll(kind, nullable, items).value).Some?
  {
    if items != [] {
      ScalarWritten(kind, nullable, items[0]);
      ScalarsWritten(kind, nullable, items[1..]);
      var vs := PrepareAll(kind, nullable, items).value;
      assert vs[1..] == PrepareAll(kind, nullable, items[1..]).value;
    }
  }

  lemma ScalarWritten(kind: Kind, nullable: bool, x: Value)
    requires ScalarHasType(kind, nullable, x)
    ensures Prepare(kind, nullable, x).Some? && PackOne(kind, Prepare(kind, nullable, x).value).Some?
  {
    if x.Null? {
      NullWritten(kind);
    }
  }

  lemma NullWritten(kind: Kind)
    ensures PackOne(kind, ScalarNull(kind)).Some?
  {
  }

  // ----- whole columns -----

  lemma {:induction false} DataWritten(c: Column, nullable: bool, items: seq<Value>)
    requires WellFormed(c) && HasPlaceholders(c) && AllHaveType(c, nullable, items) && Readable(c, nullable, items)
    requires VolumeAll(items) < SIZE_LIMIT
    ensures WriteData(c, nullable, items).Some?
    decreases c, 3
  {
    match c
    case Array(_, _) =>
      WritesNoStrayNullMap(c, nullable, items);
      NestedWritten(c, items);
    case Tuple(_, _, _) => BodyWritten(c, nullable, items);
    case Scalar(_, _) => BodyWritten(c, nullable, items);
    case Map(_, _, _) => BodyWritten(c, nullable, items);
    case LowCardinality(_, _) => DictionaryWritten(c, nullable, items);
  }

  lemma {:induction false} NestedWritten(c: Column, items: seq<Value>)
    requires WellFormed(c) && HasPlaceholders(c) && AllHaveType(c, c.nullable, items) && ReadableNested(c, items)
    requires VolumeAll(items) < SIZE_LIMIT
    ensures WriteNested(c, items).Some?
    decreases c, 2
  {
    if c.Array? {
      FlattenVolume(items);
      LengthIsVolume(Flatten(items));
      OffsetsWritten(items);
      FlattenedHaveType(c.inner, items);
      NestedWritten(c.inner, Flatten(items));
    } else if items != [] {
      if c.LowCardinality? {
        DictionaryWritten(c, c.nullable, items);
      } else {
        BodyWritten(c, c.nullable, items);
      }
    }
  }

  lemma {:induction false} BodyWritten(c: Column, nullable: bool, items: seq<Value>)
    requires WellFormed(c) && HasPlaceholders(c) && AllHaveType(c, nullable, items) && !c.LowCardinality?
    requires c.Scalar? || (items != [] && ReadableBody(c, items))
    requires VolumeAll(items) < SIZE_LIMIT
    ensures WriteBody(c, nullable, items).Some?
    decreases c, 1
  {
    match c
    case Scalar(_, kind) => ScalarsWritten(kind, nullable, items);
    case Tuple(_, _, inners) =>
      UnmaskedRows(items);
      ColumnsHaveType(c, nullable, items);
      ColumnsWritten(inners, items, 0);
    case Map(_, _, _) => MapWritten(c, nullable, items);
  }

  lemma {:induction false} MapWritten(c: Column, nullable: bool, items: seq<Value>)
    requires c.Map? && WellFormed(c) && HasPlaceholders(c) && AllHaveType(c, nullable, items)
    requires items != [] && ReadableBody(c, items) && VolumeAll(items) < SIZE_LIMIT
    ensures WriteBody(c, nullable, items).Some?
    decreases c, 0
  {
    var ks, vs := KeyLists(items), ValueLists(items);
    UnmaskedRows(items);
    MapPartsVolume(items);
    OffsetsWritten(ks);
    FlattenedHaveType(c.key, ks);
    FlattenedHaveType(c.value, vs);
    DataWritten(c.key, c.key.nullable, Flatten(ks));
    DataWritten(c.value, c.value.nullable, Flatten(vs));
  }

  lemma MapPartsVolume(items: seq<Value>)
    requires AllDicts(items) && VolumeAll(items) < SIZE_LIMIT
    ensures VolumeAll(Flatten(KeyLists(items))) < SIZE_LIMIT && VolumeAll(Flatten(ValueLists(items))) < SIZE_LIMIT
    ensures |Flatten(KeyLists(items))| < SIZE_LIMIT
  {
    MapVolume(items);
    FlattenVolume(KeyLists(items));
    FlattenVolume(ValueLists(items));
    LengthIsVolume(Flatten(KeyLists(items)));
  }

  lemma {:induction false} ColumnsWritten(inners: seq<Column>, rows: seq<Value>, j: nat)
    requires j <= |inners| && RowsCover(rows, |inners|) && VolumeAll(rows) < SIZE_LIMIT
    requires forall i :: 0 <= i < |rows| ==> rows[i].Row?
    requires forall k :: 0 <= k < |inners| ==> WellFormed(inners[k]) && HasPlaceholders(inners[k])
    requires forall k :: 0 <= k < |inners| ==> AllHaveType(inners[k], inners[k].nullable, ColumnAt(rows, k))
    requires forall k :: 0 <= k < |inners| ==> Readable(inners[k], inners[k].nullable, ColumnAt(rows, k))
    ensures WriteColumns(inners, rows, j).Some?
    decreases inners, |inners| - j
  {
    if j < |inners| {
      ColumnVolume(rows, j);
      DataWritten(inners[j], inners[j].nullable, ColumnAt(rows, j));
      ColumnsWritten(inners, rows, j + 1);
      OneColumnMore(inners, rows, j);
    }
  }

  lemma OneColumnMore(inners: seq<Column>, rows: seq<Value>, j: nat)
    requires j < |inners| && RowsCover(rows, |inners|)
    requires WriteData(inners[j], inners[j].nullable, ColumnAt(rows, j)).Some?
    requires WriteColumns(inners, rows, j + 1).Some?
    ensures WriteColumns(inners, rows, j).Some?
  {
  }

  lemma {:induction false} DictionaryWritten(c: Column, nullable: bool, items: seq<Value>)
    requires c.LowCardinality? && WellFormed(c) && HasPlaceholders(c) && AllHaveType(c, nullable, items)
    requires if items == [] then EmptyReadable(c) else ReadableBody(c, items)
    requires VolumeAll(items) < SIZE_LIMIT
    ensures WriteBody(c, nullable, items).Some?
    decreases c, 0
  {
    var d := c.dictionary;
    var index := Index(d.nullable, NullValue(d), items);
    ItemsAreHashable(c, nullable, items);
    if d.nullable {
      NullableDictionaryWritten(c, nullable, items);
    } else if items != [] {
      EntriesHaveType(d, items);
      DistinctVolume(d.nullable, items);
      assert index == Distinct(false, items);
      DataWritten(d, false, index);
      IndexNotEmpty(d.nullable, NullValue(d), items);
      HeaderWritten(d, items);
      KeysWritten(d, items);
    }
  }

  lemma NullableDictionaryWritten(c: Column, nullable: bool, items: seq<Value>)
    requires c.LowCardinality? && WellFormed(c) && HasPlaceholders(c) && AllHaveType(c, nullable, items)
    requires c.dictionary.nullable && VolumeAll(items) < SIZE_LIMIT
    ensures WriteBody(c, nullable, items).Some?
  {
    var d := c.dictionary;
    ItemsAreHashable(c, nullable, items);
    EntriesHaveType(d, items);
    NullableIndexWritten(d.kind, Distinct(true, items));
    HeaderWritten(d, items);
    KeysWritten(d, items);
  }

  /** A nullable dictionary of an enum stores code 0 for NULL. Without a member of that code its column cannot
      be written at all, not even without None; with one, every typed list is written. */
  lemma PlaceholderDecides(c: Column, nullable: bool, items: seq<Value>)
    requires c.LowCardinality? && c.dictionary.Scalar? && c.dictionary.nullable && c.dictionary.kind.Enum?
    requires AllHaveType(c, nullable, items) && VolumeAll(items) < SIZE_LIMIT
    ensures WriteData(c, nullable, items).Some? <==> NameOf(c.dictionary.kind.choices, 0).Some?
  {
    var d := c.dictionary;
    if NameOf(d.kind.choices, 0).Some? {
      NullableDictionaryWritten(c, nullable, items);
    } else {
      var index := Index(true, NullValue(d), items);
      assert index[0] == Num(0);
      assert PrepareAll(d.kind, false, index).None?;
      assert WriteData(d, false, index).None?;
    }
  }

  lemma ItemsAreHashable(c: Column, nullable: bool, items: seq<Value>)
    requires c.LowCardinality? && WellFormed(c) && AllHaveType(c, nullable, items)
    ensures AllHashable(items)
  {
    forall i | 0 <= i < |items|
      ensures Hashable(items[i])
    {
      TypedHashable(c, nullable, items[i]);
    }
  }

  lemma NullableIndexWritten(kind: Kind, distinct: seq<Value>)
    requires forall i :: 0 <= i < |distinct| ==> Fits(kind, distinct[i])
    requires kind.Enum? ==> NameOf(kind.choices, 0).Some?
    ensures WriteData(Scalar(true, kind), false, [ScalarNull(kind)] + distinct).Some?
  {
    var index := [ScalarNull(kind)] + distinct;
    assert index[1..] == distinct;
    ScalarsWritten(kind, false, distinct);
    NullWritten(kind);
    assert Prepare(kind, false, ScalarNull(kind)) == Some(ScalarNull(kind));
    var vs := PrepareAll(kind, false, index).value;
    assert vs[1..] == PrepareAll(kind, false, distinct).value;
  }

  /** Key type and sizes are in range. */
  lemma HeaderWritten(d: Column, items: seq<Value>)
    requires VolumeAll(items) < SIZE_LIMIT && Index(d.nullable, NullValue(d), items) != []
    ensures var n := |Index(d.nullable, NullValue(d), items)|;
            && KeyType(n) < 4
            && WriteInt64(Bits.Or(KeyType(n), SERIALIZATION_TYPE)).Some?
            && WriteInt64(n).Some? && WriteInt64(|items|).Some?
  {
    var n := |Index(d.nullable, NullValue(d), items)|;
    LengthIsVolume(items);
    DistinctLength(d.nullable, items);
    KeyTypeExists(n);
    Int64Written(n);
    Int64Written(|items|);
    Int64Written(KeyType(n) + SERIALIZATION_TYPE);
    HeaderNumber(KeyType(n));
  }

  lemma KeysWritten(d: Column, items: seq<Value>)
    requires VolumeAll(items) < SIZE_LIMIT && Index(d.nullable, NullValue(d), items) != []
    ensures var n := |Index(d.nullable, NullValue(d), items)|;
            && KeyType(n) < 4
            && StructPack.PackAll(false, KeyWidth(KeyType(n)),
                                  Keys(d.nullable, Distinct(d.nullable, items), items)).Some?
  {
    var n := |Index(d.nullable, NullValue(d), items)|;
    var keys := Keys(d.nullable, Distinct(d.nullable, items), items);
    LengthIsVolume(items);
    DistinctLength(d.nullable, items);
    KeyTypeExists(n);
    KeysPointAtItems(d.nullable, NullValue(d), items);
    forall i | 0 <= i < |keys|
      ensures StructPack.Fits(false, KeyWidth(KeyType(n)), keys[i])
    {
      KeysFit(n, keys[i]);
    }
    StructPack.PackAllSucceeds(false, KeyWidth(KeyType(n)), keys);
  }

  /** Well-typed values of at most 2^32 - 2 parts are always written. */
  lemma ColumnIsWritten(c: Column, items: seq<Value>)
    requires WellFormed(c) && HasPlaceholders(c)
    requires AllHaveType(c, c.nullable, items) && Readable(c, c.nullable, items)
    requires VolumeAll(items) < SIZE_LIMIT
    ensures WriteColumn(c, items).Some?
  {
    DataWritten(c, c.nullable, items);
  }
}
