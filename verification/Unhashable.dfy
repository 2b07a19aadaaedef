/** Lists and dicts have no hash: maps with such keys come back only without entries, dictionaries of such
    values not at all. */
module Unhashable {
  import opened Outcomes
  import opened Columns
  import opened Dictionaries
  import opened Nesting
  import opened Scalars
  import opened Slicing
  import opened ColumnCodec
  import opened ColumnRoundTrip
  import opened ColumnLimits

  // ----- columns of a tuple -----

  lemma {:induction false} ColumnWritten(inners: seq<Column>, rows: seq<Value>, i: nat, j: nat)
    requires i <= j < |inners| && RowsCover(rows, |inners|) && WriteColumns(inners, rows, i).Some?
    ensures WriteData(inners[j], inners[j].nullable, ColumnAt(rows, j)).Some?
    decreases j - i
  {
    if i < j {
      ColumnWritten(inners, rows, i + 1, j);
    }
  }

  /** Where in the stream a column of a tuple was read. */
  lemma {:induction false} ColumnSource(inners: seq<Column>, i: nat, j: nat, n: nat, s: Bytes) returns (from: Bytes)
    requires i <= j < |inners| && ReadColumns(inners, i, n, s).Some?
    ensures var r := ReadData(inners[j], inners[j].nullable, n, from);
            r.Some? && r.value.0 == ReadColumns(inners, i, n, s).value.0[j - i]
    decreases j - i
  {
    if i == j {
      from := s;
    } else {
      var (_, s') := ReadData(inners[i], inners[i].nullable, n, s).value;
      from := ColumnSource(inners, i + 1, j, n, s');
    }
  }

  // ----- values that were written and read -----

  /** A column without hashes was written a value and has read it back: the value has no hash. Rows given where
      lists are declared have one, but what is read is a list. */
  lemma {:induction false} UnhashableValue(c: Column, nullable: bool, written: seq<Value>, n: nat, s: Bytes, x: Value)
    requires WellFormed(c) && !HashableColumn(c)
    requires WriteData(c, nullable, written).Some? && x in written
    requires ReadData(c, nullable, n, s).Some? && x in ReadData(c, nullable, n, s).value.0
    ensures !Hashable(x)
    decreases c
  {
    match c
    case Array(_, _) =>
    case Map(_, _, _) =>
      var i :| 0 <= i < |written| && written[i] == x;
      assert Filled(c, nullable, written)[i].Dict?;
    case Tuple(_, _, inners) => UnhashableRow(c, nullable, written, n, s, x);
  }

  /** The parts of a row that was read, and of one that was written, are in the columns. */
  lemma RowWasRead(c: Column, nullable: bool, n: nat, s: Bytes, j: nat, x: Value) returns (from: Bytes)
    requires c.Tuple? && j < |c.inners| && ReadData(c, nullable, n, s).Some? && x in ReadData(c, nullable, n, s).value.0
    ensures x.Row? && |x.items| == |c.inners|
    ensures var r := ReadData(c.inners[j], c.inners[j].nullable, n, from); r.Some? && x.items[j] in r.value.0
  {
    var columns := ReadColumns(c.inners, 0, n, s).value.0;
    var read := ReadData(c, nullable, n, s).value.0;
    var k :| 0 <= k < n && read[k] == x;
    assert x == Rows(columns, n)[k];
    assert columns[j][k] == x.items[j];
    from := ColumnSource(c.inners, 0, j, n, s);
  }

  lemma RowWasWritten(c: Column, nullable: bool, written: seq<Value>, j: nat, x: Value)
    requires c.Tuple? && j < |c.inners| && WriteData(c, nullable, written).Some? && x in written
    requires x.Row? && |x.items| == |c.inners|
    ensures var rows := Filled(c, nullable, written);
            && RowsCover(rows, |c.inners|) && x.items[j] in ColumnAt(rows, j)
            && WriteData(c.inners[j], c.inners[j].nullable, ColumnAt(rows, j)).Some?
  {
    var rows := Filled(c, nullable, written);
    var i :| 0 <= i < |written| && written[i] == x;
    assert rows[i] == x && ColumnAt(rows, j)[i] == x.items[j];
    ColumnWritten(c.inners, rows, 0, j);
  }

  lemma UnhashableRow(c: Column, nullable: bool, written: seq<Value>, n: nat, s: Bytes, x: Value)
    requires c.Tuple? && WellFormed(c) && !HashableColumn(c)
    requires WriteData(c, nullable, written).Some? && x in written
    requires ReadData(c, nullable, n, s).Some? && x in ReadData(c, nullable, n, s).value.0
    ensures !Hashable(x)
    decreases c, 0
  {
    var j :| 0 <= j < |c.inners| && !HashableColumn(c.inners[j]);
    var inner := c.inners[j];
    var from := RowWasRead(c, nullable, n, s, j, x);
    RowWasWritten(c, nullable, written, j, x);
    var column := ColumnAt(Filled(c, nullable, written), j);
    UnhashableValue(inner, inner.nullable, column, n, from, x.items[j]);
    UnhashablePart(x, j);
  }

  lemma UnhashablePart(x: Value, j: nat)
    requires x.Row? && j < |x.items| && !Hashable(x.items[j])
    ensures !Hashable(x)
  {
  }

  // ----- maps -----

  lemma {:induction false} EntriesFrom(keys: seq<Value>, vals: seq<Value>, n: nat, x: Value)
    requires n <= |keys| && n <= |vals| && x in Entries(keys, vals, n).keys
    ensures x in keys[..n]
  {
    if n > 0 {
      assert keys[..n] == keys[..n - 1] + [keys[n - 1]];
      if x != keys[n - 1] {
        EntriesFrom(keys, vals, n - 1, x);
      }
    }
  }

  lemma {:induction false} SlicesFrom(data: seq<Value>, begin: nat, ends: seq<nat>, m: nat, x: Value)
    requires m < |ends| && x in Slices(data, begin, ends)[m].items
    ensures x in data
    decreases ends
  {
    if m > 0 {
      SlicesFrom(data, ends[0], ends[1..], m - 1, x);
    }
  }

  lemma {:induction false} FlattenHas(items: seq<Value>, m: nat, x: Value)
    requires AllIterable(items) && m < |items| && x in Elements(items[m])
    ensures x in Flatten(items)
  {
    if m > 0 {
      FlattenHas(items[1..], m - 1, x);
    }
  }

  lemma KeyOfDict(keys: seq<Value>, vals: seq<Value>, x: Value)
    requires DictOf(keys, vals).Some? && x in DictOf(keys, vals).value.keys
    ensures Hashable(x) && x in keys
  {
    var n := Min(|keys|, |vals|);
    EntriesFrom(keys, vals, n, x);
    var i :| 0 <= i < n && keys[..n][i] == x;
    assert keys[i] == x;
  }

  lemma KeyIsFlattened(items: seq<Value>, m: nat)
    requires AllDicts(items) && m < |items| && items[m].keys != []
    ensures items[m].keys[0] in Flatten(KeyLists(items))
  {
    assert Elements(KeyLists(items)[m]) == items[m].keys;
    FlattenHas(KeyLists(items), m, items[m].keys[0]);
  }

  /** A key of a dict that dict(zip(...)) built has a hash and is one of the keys read. */
  lemma KeyWasRead(keys: seq<Value>, vals: seq<Value>, offsets: seq<nat>, dicts: seq<Value>, m: nat, x: Value)
    requires Dicts(Slices(keys, 0, offsets), Slices(vals, 0, offsets)) == Some(dicts)
    requires m < |dicts| && x in dicts[m].keys
    ensures Hashable(x) && x in keys
  {
    var ks, vs := Slices(keys, 0, offsets)[m].items, Slices(vals, 0, offsets)[m].items;
    assert DictOf(ks, vs) == Some(dicts[m]);
    KeyOfDict(ks, vs, x);
    SlicesFrom(keys, 0, offsets, m, x);
  }

  /** The dicts and the keys behind the rows of a map. */
  lemma MapParts(c: Column, items: seq<Value>, s: Bytes, rest: Bytes)
      returns (keys: seq<Value>, vals: seq<Value>, offsets: seq<nat>, from: Bytes)
    requires c.Map? && items != [] && AllDicts(items)
    requires ReadBody(c, Nulls(items), |items|, s) == Some((items, rest))
    ensures Dicts(Slices(keys, 0, offsets), Slices(vals, 0, offsets)) == Some(items)
    ensures var r := ReadData(c.key, c.key.nullable, |keys|, from); r.Some? && r.value.0 == keys
  {
    var o := ReadUInt64s(|items|, s).value;
    offsets, from := o.0, o.1;
    var k := ReadData(c.key, c.key.nullable, Total(offsets), from).value;
    var v := ReadData(c.value, c.value.nullable, Total(offsets), k.1).value;
    keys, vals := k.0, v.0;
    var dicts := Dicts(Slices(keys, 0, offsets), Slices(vals, 0, offsets)).value;
    assert forall i :: 0 <= i < |items| ==> Masked(Nulls(items), dicts)[i] == dicts[i];
    assert Masked(Nulls(items), dicts) == dicts;
  }

  lemma MapWritesDicts(c: Column, nullable: bool, items: seq<Value>)
    requires c.Map? && WriteBody(c, nullable, items).Some?
    ensures AllDicts(items) && WriteData(c.key, c.key.nullable, Flatten(KeyLists(items))).Some?
  {
    var dicts := Filled(c, nullable, items);
    forall i | 0 <= i < |items|
      ensures items[i] == dicts[i]
    {
      assert dicts[i].Dict?;
    }
    assert dicts == items;
  }

  lemma NoEntriesReturn(c: Column, nullable: bool, items: seq<Value>)
    requires c.Map? && WellFormed(c.key) && !HashableColumn(c.key) && items != []
    requires MapRoundTrips(c, nullable, items)
    ensures NoEntries(items)
  {
    MapWritesDicts(c, nullable, items);
    assert MapLeaves(c, nullable, items, []);
    var keys, vals, offsets, from := MapParts(c, items, WriteBody(c, nullable, items).value + [], []);
    forall m | 0 <= m < |items|
      ensures items[m].keys == []
    {
      NoEntryReturns(c.key, items, keys, vals, offsets, from, m);
    }
  }

  lemma NoEntryReturns(key: Column, items: seq<Value>, keys: seq<Value>, vals: seq<Value>, offsets: seq<nat>,
                       from: Bytes, m: nat)
    requires WellFormed(key) && !HashableColumn(key) && AllDicts(items) && m < |items|
    requires WriteData(key, key.nullable, Flatten(KeyLists(items))).Some?
    requires Dicts(Slices(keys, 0, offsets), Slices(vals, 0, offsets)) == Some(items)
    requires var r := ReadData(key, key.nullable, |keys|, from); r.Some? && r.value.0 == keys
    ensures items[m].keys == []
  {
    if items[m].keys != [] {
      var x := items[m].keys[0];
      KeyWasRead(keys, vals, offsets, items, m, x);
      KeyIsFlattened(items, m);
      UnhashableValue(key, key.nullable, Flatten(KeyLists(items)), |keys|, from, x);
    }
  }

  /** Whatever the rows of a map with array or map keys: they come back if and only if they are dicts without
      entries and both inner columns round-trip without items. */
  lemma UnhashableKeysExactly(c: Column, nullable: bool, items: seq<Value>)
    requires c.Map? && WellFormed(c.key) && WellFormed(c.value) && !HashableColumn(c.key) && items != []
    ensures MapRoundTrips(c, nullable, items)
       <==> NoEntries(items) && EmptyReadable(c.key) && EmptyReadable(c.value)
  {
    if MapRoundTrips(c, nullable, items) {
      NoEntriesReturn(c, nullable, items);
    }
    if NoEntries(items) {
      EmptyMapsExactly(c, nullable, items);
    }
  }

  // ----- dictionaries -----

  lemma DictionaryItemWasRead(c: Column, mask: seq<bool>, n: nat, s: Bytes, i: nat) returns (size: nat, from: Bytes)
    requires c.LowCardinality? && !c.dictionary.nullable && |mask| == n && i < n
    requires ReadBody(c, mask, n, s).Some?
    ensures var r := ReadData(c.dictionary, false, size, from);
            r.Some? && ReadBody(c, mask, n, s).value.0[i] in r.value.0
  {
    var (_, s1) := ReadUInt64(s).value;
    var header := ReadUInt64(s1).value;
    size, from := header.0, header.1;
  }

  lemma DictionaryMisreads(c: Column, nullable: bool, mask: seq<bool>, items: seq<Value>, s: Bytes)
    requires c.LowCardinality? && WellFormed(c.dictionary) && !HashableColumn(c.dictionary) && items != []
    requires |mask| == |items| && WriteBody(c, nullable, items).Some?
    ensures var r := ReadBody(c, mask, |items|, s); r.Some? ==> r.value.0 != items
  {
    var d := c.dictionary;
    var r := ReadBody(c, mask, |items|, s);
    if r.Some? && r.value.0 == items {
      if d.nullable {
        ListIndexFails(c, mask, |items|, s);
      }
      var size, from := DictionaryItemWasRead(c, mask, |items|, s, 0);
      DictionaryWasWritten(c, nullable, items);
      UnhashableValue(d, false, Distinct(false, items), size, from, items[0]);
    }
  }

  /** A list cannot be joined to the tuple that holds None. */
  lemma ListIndexFails(c: Column, mask: seq<bool>, n: nat, s: Bytes)
    requires c.LowCardinality? && c.dictionary.nullable && |mask| == n > 0
    requires c.dictionary.Array? || c.dictionary.Tuple? || c.dictionary.Map?
    ensures ReadBody(c, mask, n, s) == None
  {
  }

  lemma DictionaryWasWritten(c: Column, nullable: bool, items: seq<Value>)
    requires c.LowCardinality? && !c.dictionary.nullable && items != [] && WriteBody(c, nullable, items).Some?
    ensures Hashable(items[0]) && items[0] in Distinct(false, items)
    ensures WriteData(c.dictionary, false, Distinct(false, items)).Some?
  {
    DistinctIsExact(false, items);
    assert items[0] in items;
    assert Index(false, NullValue(c.dictionary), items) == Distinct(false, items);
  }

  lemma NothingReturns(c: Column, nullable: bool, items: seq<Value>)
    requires c.LowCardinality? && WellFormed(c.dictionary) && !HashableColumn(c.dictionary) && items != []
    ensures !RoundTrips(c, nullable, items)
  {
    if RoundTrips(c, nullable, items) {
      assert ComesBack(c, nullable, items, []);
      var (mask, s) := ReadNullMap(nullable, |items|, WriteData(c, nullable, items).value + []).value;
      DictionaryMisreads(c, nullable, mask, items, s);
    }
  }

  /** Whatever the items of a low_cardinality over arrays or maps: they come back if and only if there are none,
      and the dictionary is not nullable. */
  lemma UnhashableDictionaryExactly(c: Column, nullable: bool, items: seq<Value>)
    requires c.LowCardinality? && WellFormed(c.dictionary) && !HashableColumn(c.dictionary)
    ensures RoundTrips(c, nullable, items) <==> items == [] && !c.dictionary.nullable
  {
    if items != [] {
      NothingReturns(c, nullable, items);
    } else if c.dictionary.nullable {
      if WriteData(c, nullable, []).Some? {
        EmptyMisread(c, nullable);
        assert !ComesBack(c, nullable, [], []);
      }
    } else {
      EmptyWrite(c, nullable);
      forall rest: Bytes
        ensures ComesBack(c, nullable, [], rest)
      {
        assert [] + rest == rest;
        NullMapSkips(nullable, [], rest);
      }
    }
  }
}
