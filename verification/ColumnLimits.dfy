/** Where the column format loses data: empty columns, and maps without entries. */
module ColumnLimits {
  import opened Outcomes
  import opened Columns
  import opened Nesting
  import opened Scalars
  import opened ColumnCodec
  import opened ColumnRoundTrip

  // ----- leaf values -----

  /** A leaf column writes exactly the lists of values that have a canonical form, and reads that form. */
  lemma LeafReads(c: Column, nullable: bool, items: seq<Value>, rest: Bytes)
    requires c.Scalar?
    ensures var w := WriteData(c, nullable, items);
            && (w.Some? <==> CanonicalAll(c.kind, nullable, items).Some?)
            && (w.Some? ==>
                  ReadData(c, nullable, |items|, w.value + rest)
                  == Some((CanonicalAll(c.kind, nullable, items).value, rest)))
  {
    AllPackedExactly(c.kind, nullable, items);
    if WriteData(c, nullable, items).Some? {
      var nulls, body := NullMap(nullable, items), WriteBody(c, nullable, items).value;
      Join2(nulls, body, rest);
      MaskReads(nullable, items, body + rest);
      ListReadsBack(c.kind, nullable, items, rest);
      var back := CanonicalAll(c.kind, nullable, items).value;
      assert ReadBody(c, MaskOf(nullable, items), |items|, body + rest) == Some((back, rest));
      assert ReadData(c, nullable, |items|, nulls + (body + rest)) == Some((back, rest));
    }
  }

  predicate Packable(kind: Kind, nullable: bool, items: seq<Value>)
  {
    var vs := PrepareAll(kind, nullable, items);
    vs.Some? && PackAll(kind, vs.value).Some?
  }

  predicate PackableItem(kind: Kind, nullable: bool, x: Value)
  {
    var v := Prepare(kind, nullable, x);
    v.Some? && PackOne(kind, v.value).Some?
  }

  lemma PackableFirst(kind: Kind, nullable: bool, items: seq<Value>)
    requires items != []
    ensures Packable(kind, nullable, items)
       <==> PackableItem(kind, nullable, items[0]) && Packable(kind, nullable, items[1..])
  {
    if Prepare(kind, nullable, items[0]).Some? && PrepareAll(kind, nullable, items[1..]).Some? {
      var v, vs := Prepare(kind, nullable, items[0]).value, PrepareAll(kind, nullable, items[1..]).value;
      assert ([v] + vs)[1..] == vs;
    }
  }

  lemma CanonicalFirst(kind: Kind, nullable: bool, items: seq<Value>)
    requires items != []
    ensures CanonicalAll(kind, nullable, items).Some?
       <==> CanonicalItem(kind, nullable, items[0]).Some? && CanonicalAll(kind, nullable, items[1..]).Some?
  {
    var xs := items[1..];
    assert forall i :: 1 <= i < |items| ==> items[i] == xs[i - 1];
    assert forall i :: 0 <= i < |xs| ==> xs[i] == items[i + 1];
  }

  lemma {:induction false} AllPackedExactly(kind: Kind, nullable: bool, items: seq<Value>)
    ensures Packable(kind, nullable, items) <==> CanonicalAll(kind, nullable, items).Some?
  {
    if items != [] {
      PackableFirst(kind, nullable, items);
      CanonicalFirst(kind, nullable, items);
      OnePackedExactly(kind, nullable, items[0]);
      AllPackedExactly(kind, nullable, items[1..]);
    }
  }

  lemma OnePackedExactly(kind: Kind, nullable: bool, x: Value)
    ensures PackableItem(kind, nullable, x) <==> CanonicalItem(kind, nullable, x).Some?
  {
    PackedExactly(kind, x);
  }

  /** Exactly the typed values of a leaf column come back: fixed strings that end in NUL lose it, an enum alias
      comes back as the first name of its code, and bytes that are text come back as text. */
  lemma LeafExactly(c: Column, nullable: bool, items: seq<Value>)
    requires c.Scalar?
    ensures RoundTrips(c, nullable, items) <==> WriteData(c, nullable, items).Some? && AllHaveType(c, nullable, items)
  {
    TypedExactly(c.kind, nullable, items);
    if WriteData(c, nullable, items).Some? {
      forall rest: Bytes
        ensures ComesBack(c, nullable, items, rest) <==> AllTyped(c.kind, nullable, items)
      {
        LeafReads(c, nullable, items, rest);
      }
      assert ComesBack(c, nullable, items, []) <==> AllTyped(c.kind, nullable, items);
    }
  }

  lemma MaskReads(nullable: bool, items: seq<Value>, rest: Bytes)
    ensures ReadNullMap(nullable, |items|, NullMap(nullable, items) + rest) == Some((MaskOf(nullable, items), rest))
  {
    if nullable {
      NullMapReads(true, items, rest);
      assert MaskOf(true, items) == Nulls(items);
    } else {
      assert [] + rest == rest;
      assert MaskOf(false, items) == seq(|items|, _ => false);
    }
  }

  // ----- columns of no items -----

  /** Asked for no items, a reader takes no bytes. */
  lemma {:induction false} NothingForNothing(c: Column, nullable: bool, s: Bytes)
    ensures ReadData(c, nullable, 0, s).Some? ==> ReadData(c, nullable, 0, s) == Some(([], s))
    decreases c, 3
  {
    match c
    case Array(_, _) => NothingNested(c, s);
    case Tuple(_, _, inners) => NothingInColumns(inners, 0, s);
    case _ =>
  }

  lemma {:induction false} NothingNested(c: Column, s: Bytes)
    ensures ReadNested(c, 0, s) == Some(([], s))
  {
    if c.Array? {
      NothingNested(c.inner, s);
    }
  }

  lemma {:induction false} NothingInColumns(inners: seq<Column>, j: nat, s: Bytes)
    requires j <= |inners|
    ensures var r := ReadColumns(inners, j, 0, s); r.Some? ==> r.value.1 == s
    decreases inners, |inners| - j
  {
    if j < |inners| {
      NothingForNothing(inners[j], inners[j].nullable, s);
      NothingInColumns(inners, j + 1, s);
    }
  }

  lemma {:induction false} NothingReadable(c: Column)
    ensures ReadableNested(c, [])
  {
    if c.Array? {
      NothingReadable(c.inner);
    }
  }

  lemma EmptyWrite(c: Column, nullable: bool)
    requires EmptyReadable(c)
    ensures WriteData(c, nullable, []) == Some([])
  {
    assert NullMap(nullable, []) == [];
    CatNothing(Some([]));
    if c.Array? {
      NothingWritten(c);
      NoLeaves(c);
      assert Zeros(0) == [];
    }
  }

  lemma {:induction false} NothingWritten(c: Column)
    ensures WriteNested(c, []) == Some([])
  {
    CatNothing(Some([]));
    if c.Array? {
      NothingWritten(c.inner);
      assert WriteUInt64s([]) == Some([]);
    } else {
      assert NullMap(c.nullable, []) == [];
    }
  }

  /** Exactly the EmptyReadable columns round-trip without items: a tuple column cannot be written, a map
      column cannot be read, and a nullable low_cardinality column writes a dictionary nobody reads. */
  lemma EmptyRoundTripsExactly(c: Column, nullable: bool)
    requires WellFormed(c)
    ensures RoundTrips(c, nullable, []) <==> EmptyReadable(c)
  {
    if EmptyReadable(c) {
      EmptyWrite(c, nullable);
      forall rest: Bytes
        ensures ComesBack(c, nullable, [], rest)
      {
        NothingReadable(c);
        DataRoundTrip(c, nullable, [], rest);
      }
    } else if c.Tuple? {
      assert Filled(c, nullable, []) == [];
      assert WriteBody(c, nullable, []).None?;
    } else if WriteData(c, nullable, []).Some? {
      assert !ComesBack(c, nullable, [], []) by {
        EmptyMisread(c, nullable);
      }
    }
  }

  lemma EmptyMisread(c: Column, nullable: bool)
    requires !EmptyReadable(c) && !c.Tuple? && WriteData(c, nullable, []).Some?
    ensures ReadData(c, nullable, 0, WriteData(c, nullable, []).value + []) != Some(([], []))
  {
    if c.LowCardinality? {
      var head, size, dict, count, keys := DictionaryParts(c, nullable, []);
      assert |head| == 8;
      NothingForNothing(c, nullable, WriteData(c, nullable, []).value + []);
    }
  }

  // ----- maps without entries -----

  /** The rows come back in front of any stream. */
  ghost predicate MapRoundTrips(c: Column, nullable: bool, items: seq<Value>)
  {
    && WriteBody(c, nullable, items).Some?
    && forall rest: Bytes {:trigger MapLeaves(c, nullable, items, rest)} :: MapLeaves(c, nullable, items, rest)
  }

  ghost predicate MapLeaves(c: Column, nullable: bool, items: seq<Value>, rest: Bytes)
    requires WriteBody(c, nullable, items).Some?
  {
    ReadBody(c, Nulls(items), |items|, WriteBody(c, nullable, items).value + rest) == Some((items, rest))
  }

  ghost predicate NoEntries(items: seq<Value>)
  {
    AllDicts(items) && forall i :: 0 <= i < |items| ==> items[i].keys == []
  }

  lemma {:induction false} NoEntriesFlatten(items: seq<Value>)
    requires NoEntries(items)
    ensures Flatten(KeyLists(items)) == [] && Flatten(ValueLists(items)) == []
  {
    if items != [] {
      assert KeyLists(items)[1..] == KeyLists(items[1..]) && ValueLists(items)[1..] == ValueLists(items[1..]);
      NoEntriesFlatten(items[1..]);
    }
  }

  lemma EmptyMapsSurvive(c: Column, nullable: bool, items: seq<Value>)
    requires c.Map? && WellFormed(c.key) && WellFormed(c.value) && items != [] && NoEntries(items)
    requires EmptyReadable(c.key) && EmptyReadable(c.value)
    ensures MapRoundTrips(c, nullable, items)
  {
    EmptyMapWritten(c, nullable, items);
    NoEntriesFlatten(items);
    EmptyWrite(c.key, c.key.nullable);
    EmptyWrite(c.value, c.value.nullable);
    EmptyRoundTripsExactly(c.key, c.key.nullable);
    EmptyRoundTripsExactly(c.value, c.value.nullable);
    forall rest: Bytes
      ensures MapLeaves(c, nullable, items, rest)
    {
      assert [] + rest == rest && [] + ([] + rest) == rest;
      assert ComesBack(c.key, c.key.nullable, [], rest) && ComesBack(c.value, c.value.nullable, [], rest);
      MapReads(c, nullable, items, [], [], rest);
    }
  }

  lemma EmptyMapWritten(c: Column, nullable: bool, items: seq<Value>)
    requires c.Map? && items != [] && NoEntries(items) && EmptyReadable(c.key) && EmptyReadable(c.value)
    ensures WriteBody(c, nullable, items).Some?
  {
    NoEntriesFlatten(items);
    UnmaskedRows(items);
    EmptyWrite(c.key, c.key.nullable);
    EmptyWrite(c.value, c.value.nullable);
    ZeroOffsets(items);
  }

  lemma SurvivingPartsAreReadable(inner: Column)
    requires WellFormed(inner) && WriteData(inner, inner.nullable, []) == Some([])
    requires forall rest: Bytes {:trigger ComesBack(inner, inner.nullable, [], rest)} ::
               ReadData(inner, inner.nullable, 0, rest) == Some(([], rest))
    ensures EmptyReadable(inner)
  {
    forall rest: Bytes
      ensures ComesBack(inner, inner.nullable, [], rest)
    {
      assert [] + rest == rest;
    }
    EmptyRoundTripsExactly(inner, inner.nullable);
  }

  lemma SurvivingMapsAreReadable(c: Column, nullable: bool, items: seq<Value>)
    requires c.Map? && WellFormed(c.key) && WellFormed(c.value) && items != [] && NoEntries(items)
    requires MapRoundTrips(c, nullable, items)
    ensures EmptyReadable(c.key) && EmptyReadable(c.value)
  {
    assert MapLeaves(c, nullable, items, []);
    EmptyMapParts(c, nullable, items, []);
    forall rest: Bytes
      ensures ReadData(c.key, c.key.nullable, 0, rest) == Some(([], rest))
      ensures ReadData(c.value, c.value.nullable, 0, rest) == Some(([], rest))
    {
      assert MapLeaves(c, nullable, items, rest);
      EmptyMapParts(c, nullable, items, rest);
    }
    SurvivingPartsAreReadable(c.key);
    SurvivingPartsAreReadable(c.value);
  }

  /** Rows of empty dicts survive exactly when the key and the value column both round-trip without items. */
  lemma EmptyMapsExactly(c: Column, nullable: bool, items: seq<Value>)
    requires c.Map? && WellFormed(c.key) && WellFormed(c.value) && items != [] && NoEntries(items)
    ensures MapRoundTrips(c, nullable, items) <==> EmptyReadable(c.key) && EmptyReadable(c.value)
  {
    if EmptyReadable(c.key) && EmptyReadable(c.value) {
      EmptyMapsSurvive(c, nullable, items);
    }
    if MapRoundTrips(c, nullable, items) {
      SurvivingMapsAreReadable(c, nullable, items);
    }
  }

  lemma {:induction false} ZeroOffsets(items: seq<Value>)
    requires NoEntries(items)
    ensures WriteUInt64s(Offsets(KeyLists(items), 0)).Some?
  {
    if items != [] {
      assert KeyLists(items)[1..] == KeyLists(items[1..]);
      ZeroOffsets(items[1..]);
    }
  }

  lemma EmptyMapParts(c: Column, nullable: bool, items: seq<Value>, rest: Bytes)
    requires c.Map? && items != [] && NoEntries(items) && WriteBody(c, nullable, items).Some?
    requires MapLeaves(c, nullable, items, rest)
    ensures WriteData(c.key, c.key.nullable, []) == Some([]) && WriteData(c.value, c.value.nullable, []) == Some([])
    ensures ReadData(c.key, c.key.nullable, 0, rest) == Some(([], rest))
    ensures ReadData(c.value, c.value.nullable, 0, rest) == Some(([], rest))
  {
    NoEntriesFlatten(items);
    UnmaskedRows(items);
    var offsets := Offsets(KeyLists(items), 0);
    var o := WriteUInt64s(offsets).value;
    var k, v := WriteData(c.key, c.key.nullable, []).value, WriteData(c.value, c.value.nullable, []).value;
    Join(o, k, v, rest);
    var s := k + (v + rest);
    UInt64sRead(offsets, s);
    TotalIsLength(KeyLists(items));
    NothingForNothing(c.key, c.key.nullable, s);
    NothingForNothing(c.value, c.value.nullable, s);
    assert |s| == |k| + |v| + |rest|;
  }
}
