/** Column objects change when they write: what a second write through the same object does. */
module SingleUse {
  import opened Outcomes
  import opened Columns
  import opened Nesting
  import opened Dictionaries
  import opened Scalars
  import opened ColumnCodec
  import opened ColumnRoundTrip
  import ColumnLimits
  import ColumnWrites
  import Utf8

  // ----- column objects after a write -----

  /** The column object that write_data leaves behind when it succeeds. An array has wrapped its nested column in
      itself once more; low_cardinality has cleared the nullable flag of its dictionary. */
  function AfterData(c: Column, nullable: bool, items: seq<Value>): Column
    decreases c, 3
  {
    match c
    case Array(_, inner) => Array(false, Array(nullable, AfterNested(inner, Flatten(items))))
    case _ => AfterBody(c, nullable, items)
  }

  /** Below an array the levels are not wrapped, and a column without items is not written. */
  function AfterNested(c: Column, items: seq<Value>): Column
    decreases c, 2
  {
    match c
    case Array(nullable, inner) => Array(nullable, AfterNested(inner, Flatten(items)))
    case _ => if items == [] then c else AfterBody(c, c.nullable, items)
  }

  function AfterBody(c: Column, nullable: bool, items: seq<Value>): Column
    decreases c, 1
  {
    match c
    case Scalar(_, _) => c
    case Array(_, _) => c
    case Tuple(flag, names, inners) =>
      var rows := Filled(c, nullable, items);
      Tuple(flag, names, seq(|inners|, j requires 0 <= j < |inners| =>
        AfterData(inners[j], inners[j].nullable, if RowsCover(rows, j + 1) then ColumnAt(rows, j) else [])))
    case Map(flag, key, value) =>
      var dicts := Filled(c, nullable, items);
      if !AllDicts(dicts) then c
      else
        Map(flag, AfterData(key, key.nullable, Flatten(KeyLists(dicts))),
            AfterData(value, value.nullable, Flatten(ValueLists(dicts))))
    case LowCardinality(flag, d) =>
      var index := Index(d.nullable, NullValue(d), items);
      if index == [] then c else LowCardinality(flag, SetFlag(AfterData(d, false, index), false))
  }

  /** Columns that a write leaves as they are: no array and no nullable dictionary in them. */
  predicate Lasting(c: Column)
  {
    match c
    case Scalar(_, _) => true
    case Array(_, _) => false
    case Tuple(_, _, inners) => forall j :: 0 <= j < |inners| ==> Lasting(inners[j])
    case Map(_, key, value) => Lasting(key) && Lasting(value)
    case LowCardinality(_, d) => !d.nullable && Lasting(d)
  }

  lemma {:induction false} LastingStays(c: Column, nullable: bool, items: seq<Value>)
    requires Lasting(c)
    ensures AfterData(c, nullable, items) == c
    decreases c
  {
    match c
    case Scalar(_, _) =>
    case Tuple(_, _, inners) =>
      var rows := Filled(c, nullable, items);
      forall j | 0 <= j < |inners|
        ensures AfterBody(c, nullable, items).inners[j] == inners[j]
      {
        LastingStays(inners[j], inners[j].nullable, if RowsCover(rows, j + 1) then ColumnAt(rows, j) else []);
      }
      assert AfterBody(c, nullable, items).inners == inners;
    case Map(_, key, value) =>
      var dicts := Filled(c, nullable, items);
      if AllDicts(dicts) {
        LastingStays(key, key.nullable, Flatten(KeyLists(dicts)));
        LastingStays(value, value.nullable, Flatten(ValueLists(dicts)));
      }
    case LowCardinality(_, d) => LastingStays(d, false, Index(d.nullable, NullValue(d), items));
  }

  // ----- arrays -----

  /** Every value replaced by the list of what iterating over it yields. */
  function Listed(values: seq<Value>): (r: seq<Value>)
    ensures |r| == |values| && AllLists(r)
  {
    seq(|values|, i requires 0 <= i < |values| => List(Elements(values[i])))
  }

  /** The elements of every row replaced so. */
  function ListedRows(rows: seq<Value>): (r: seq<Value>)
    ensures |r| == |rows| && AllLists(r)
  {
    seq(|rows|, i requires 0 <= i < |rows| => List(Listed(Elements(rows[i]))))
  }

  lemma ListedTail(values: seq<Value>)
    requires values != []
    ensures Listed(values)[1..] == Listed(values[1..])
    ensures Elements(Listed(values)[0]) == Elements(values[0])
  {
  }

  lemma ListedRowsTail(rows: seq<Value>)
    requires rows != []
    ensures ListedRows(rows)[1..] == ListedRows(rows[1..])
    ensures Elements(ListedRows(rows)[0]) == Listed(Elements(rows[0]))
  {
  }

  lemma ListedAppend(a: seq<Value>, b: seq<Value>)
    ensures Listed(a + b) == Listed(a) + Listed(b)
  {
  }

  lemma {:induction false} ListedFlatten(values: seq<Value>)
    ensures Flatten(Listed(values)) == Flatten(values)
    decreases |values|
  {
    if values != [] {
      ListedTail(values);
      ListedFlatten(values[1..]);
    }
  }

  lemma {:induction false} ListedRowsFlatten(rows: seq<Value>)
    ensures Flatten(ListedRows(rows)) == Listed(Flatten(rows))
    decreases |rows|
  {
    if rows != [] {
      ListedRowsTail(rows);
      ListedRowsFlatten(rows[1..]);
      ListedAppend(Elements(rows[0]), Flatten(rows[1..]));
    }
  }

  lemma ListedLengths(values: seq<Value>)
    ensures SameLengths(Listed(values), values) && SameLengths(ListedRows(values), values)
  {
  }

  /** Writing through the same array column again, whatever was written first, takes every element for a list: it
      fails exactly where an element cannot be iterated over or its parts cannot be written, and otherwise what is
      written are the parts of the elements, those of a string being its characters. */
  lemma ArrayIsSingleUse(c: Column, before: seq<Value>, rows: seq<Value>)
    requires c.Array? && AllIterable(rows)
    ensures var again := AfterData(c, c.nullable, before);
            WriteData(again, false, rows)
            == if AllIterable(Flatten(rows)) then WriteData(again, false, ListedRows(rows)) else None
  {
    var again := AfterData(c, c.nullable, before);
    if AllIterable(Flatten(rows)) {
      ListedRowsFlatten(rows);
      ListedFlatten(Flatten(rows));
      ListedLengths(rows);
      ListedLengths(Flatten(rows));
      SameOffsets(ListedRows(rows), rows, 0);
      SameOffsets(Listed(Flatten(rows)), Flatten(rows), 0);
      SameTwoLevels(again, rows, ListedRows(rows));
    } else {
      assert WriteNested(again.inner, Flatten(rows)) == None;
    }
  }

  /** Two array levels see no more of their rows than the offsets and the items below. */
  lemma SameTwoLevels(c: Column, rows: seq<Value>, rows': seq<Value>)
    requires c.Array? && c.inner.Array? && AllIterable(rows) && AllIterable(rows')
    requires AllIterable(Flatten(rows)) && AllIterable(Flatten(rows'))
    requires Offsets(rows, 0) == Offsets(rows', 0)
    requires Offsets(Flatten(rows), 0) == Offsets(Flatten(rows'), 0)
    requires Flatten(Flatten(rows)) == Flatten(Flatten(rows'))
    ensures WriteData(c, false, rows) == WriteData(c, false, rows')
  {
    assert WriteNested(c.inner, Flatten(rows)) == WriteNested(c.inner, Flatten(rows'));
    assert LeafValues(c.inner, Flatten(rows)) == LeafValues(c.inner, Flatten(rows'));
  }

  const STRINGS := Array(false, Scalar(false, Text))
  const STRING_LISTS := Array(false, STRINGS)

  predicate AllStrings(values: seq<Value>)
  {
    forall i :: 0 <= i < |values| ==> values[i].Str?
  }

  /** So strings are silently spelled out: what is written through an array(string) used before are lists of
      characters, as a column of type array(array(string)) reads them. A reader of the declared array(string)
      takes the lengths of the strings for the strings. */
  lemma SecondWriteSpells(before: seq<Value>, rows: seq<Value>, rest: Bytes)
    requires AllLists(rows) && AllStrings(Flatten(rows))
    requires ColumnWrites.VolumeAll(ListedRows(rows)) < ColumnWrites.SIZE_LIMIT
    ensures var w := WriteData(AfterData(STRINGS, false, before), false, rows);
            w.Some? && ReadData(STRING_LISTS, false, |rows|, w.value + rest) == Some((ListedRows(rows), rest))
  {
    ArrayIsSingleUse(STRINGS, before, rows);
    SpelledHasType(rows);
    ColumnWrites.DataWritten(STRING_LISTS, false, ListedRows(rows));
    DataRoundTrip(STRING_LISTS, false, ListedRows(rows), rest);
  }

  lemma SpelledHasType(rows: seq<Value>)
    requires AllStrings(Flatten(rows))
    ensures var again, spelled := STRING_LISTS, ListedRows(rows);
            && |spelled| == |rows| && WellFormed(again) && ColumnWrites.HasPlaceholders(again)
            && AllHaveType(again, false, spelled) && Readable(again, false, spelled)
  {
    var again, spelled := STRING_LISTS, ListedRows(rows);
    ListedRowsFlatten(rows);
    forall i | 0 <= i < |rows|
      ensures HasType(again, false, spelled[i])
    {
      StringsInRow(rows, i);
      RowSpelled(Elements(rows[i]));
    }
  }

  lemma {:induction false} StringsInRow(rows: seq<Value>, i: nat)
    requires i < |rows| && AllStrings(Flatten(rows))
    ensures AllStrings(Elements(rows[i]))
    decreases i
  {
    var first, others := Elements(rows[0]), Flatten(rows[1..]);
    assert forall k :: 0 <= k < |first| ==> first[k] == Flatten(rows)[k];
    assert forall k :: 0 <= k < |others| ==> others[k] == Flatten(rows)[|first| + k];
    if i > 0 {
      StringsInRow(rows[1..], i - 1);
    }
  }

  lemma RowSpelled(row: seq<Value>)
    requires AllStrings(row)
    ensures HasType(STRING_LISTS, false, List(Listed(row)))
  {
    forall k | 0 <= k < |row|
      ensures HasType(STRING_LISTS.inner, false, Listed(row)[k])
    {
      CharactersHaveType(row[k].text);
    }
  }

  lemma CharactersHaveType(text: string)
    ensures AllHaveType(Scalar(false, Text), false, Characters(text))
  {
    forall i | 0 <= i < |text|
      ensures |Utf8.Encode([text[i]])| <= 4
    {
      assert Utf8.Encode([text[i]]) == Utf8.EncodeChar(text[i]) + Utf8.Encode("");
    }
  }

  lemma {:induction false} NoneIsNotPacked(kind: Kind, items: seq<Value>)
    requires !kind.Boolean? && Null in items
    ensures PrepareAll(kind, false, items).Some? ==> PackAll(kind, PrepareAll(kind, false, items).value).None?
  {
    if items[0] != Null && PrepareAll(kind, false, items).Some? {
      NoneIsNotPacked(kind, items[1..]);
      var vs := PrepareAll(kind, false, items).value;
      assert vs[1..] == PrepareAll(kind, false, items[1..]).value;
    }
  }

  // ----- dictionaries -----

  /** A used low_cardinality column over leaf values has lost the nullable flag of its dictionary. */
  lemma AfterDictionary(c: Column, before: seq<Value>)
    requires c.LowCardinality? && c.dictionary.Scalar?
    ensures AfterData(c, c.nullable, before) == LowCardinality(c.nullable, Scalar(false, c.dictionary.kind))
  {
    var d := c.dictionary;
    assert c == LowCardinality(c.nullable, Scalar(d.nullable, d.kind));
    var index := Index(d.nullable, NullValue(d), before);
    assert AfterData(d, false, index) == d;
    assert AfterData(c, c.nullable, before) == AfterBody(c, c.nullable, before);
    if d.nullable {
      assert index[0] == NullValue(d);
    }
  }

  /** Without the flag None is an entry like any other, and only a boolean column packs it, as False. */
  predicate Packs(kind: Kind, v: Value)
  {
    Fits(kind, v) || (kind.Boolean? && v.Null?)
  }

  predicate AllPack(kind: Kind, items: seq<Value>)
  {
    forall i :: 0 <= i < |items| ==> Packs(kind, items[i])
  }

  /** Entries as they are read back. */
  function Unpacked(v: Value): Value
  {
    if v.Null? then Bool(false) else v
  }

  function AllUnpacked(items: seq<Value>): (r: seq<Value>)
    ensures |r| == |items|
  {
    seq(|items|, i requires 0 <= i < |items| => Unpacked(items[i]))
  }

  /** The dictionary written is read back, None as False. */
  lemma EntriesRead(kind: Kind, flag: bool, index: seq<Value>, rest: Bytes)
    requires AllPack(kind, index)
    ensures var w := WriteData(Scalar(false, kind), false, index);
            w.Some? && ReadData(Scalar(flag, kind), false, |index|, w.value + rest) == Some((AllUnpacked(index), rest))
  {
    forall i | 0 <= i < |index|
      ensures Canonical(kind, index[i]) == Some(Unpacked(index[i]))
    {
      FitsExactly(kind, index[i]);
    }
    assert CanonicalAll(kind, false, index).value == AllUnpacked(index);
    ColumnLimits.LeafReads(Scalar(false, kind), false, index, rest);
  }

  /** What a column of the declared type reads: its slot 0 means None, but holds the first value. */
  function Reread(items: seq<Value>): (r: seq<Value>)
    ensures |r| == |items|
  {
    seq(|items|, i requires 0 <= i < |items| => if items[i] == items[0] then Null else Unpacked(items[i]))
  }

  lemma {:induction false} FirstEntry(items: seq<Value>)
    requires items != []
    ensures Distinct(false, items) != [] && Distinct(false, items)[0] == items[0]
  {
    if |items| > 1 {
      FirstEntry(items[..|items| - 1]);
    }
  }

  lemma SlotZeroIsNone(items: seq<Value>)
    requires items != []
    ensures var index := Distinct(false, items);
            LookUp([Null] + AllUnpacked(index)[1..], Keys(false, index, items)) == Some(Reread(items))
  {
    var index := Distinct(false, items);
    var keys, slots := Keys(false, index, items), [Null] + AllUnpacked(index)[1..];
    FirstEntry(items);
    DistinctIsExact(false, items);
    forall i | 0 <= i < |items|
      ensures 0 <= keys[i] < |slots| && slots[keys[i]] == Reread(items)[i]
    {
      assert items[i] in items;
      assert index[keys[i]] == items[i];
      if keys[i] > 0 {
        assert index[0] != index[keys[i]];
      }
    }
    assert LookUp(slots, keys).value == Reread(items);
  }

  /** Typed items can be packed without the flag exactly if they have no None or are booleans. */
  lemma TypedPack(c: Column, items: seq<Value>)
    requires c.LowCardinality? && c.dictionary.Scalar? && AllHaveType(c, c.nullable, items)
    requires c.dictionary.kind.Boolean? || Null !in items
    ensures AllPack(c.dictionary.kind, Distinct(false, items)) && AllHashable(items)
  {
    DistinctIsExact(false, items);
    var index := Distinct(false, items);
    forall i | 0 <= i < |index|
      ensures Packs(c.dictionary.kind, index[i])
    {
      assert index[i] in index;
      var j :| 0 <= j < |items| && items[j] == index[i];
      assert HasType(c, c.nullable, items[j]);
    }
    ColumnWrites.ItemsAreHashable(c, c.nullable, items);
  }

  /** The second write of items, some at least. */
  lemma SecondWritten(c: Column, items: seq<Value>)
    requires c.LowCardinality? && c.dictionary.Scalar? && AllHaveType(c, c.nullable, items) && items != []
    requires c.dictionary.kind.Boolean? || Null !in items
    requires ColumnWrites.VolumeAll(items) < ColumnWrites.SIZE_LIMIT
    ensures WriteBody(LowCardinality(c.nullable, Scalar(false, c.dictionary.kind)), c.nullable, items).Some?
  {
    var d := Scalar(false, c.dictionary.kind);
    TypedPack(c, items);
    FirstEntry(items);
    assert Index(false, NullValue(d), items) == Distinct(false, items);
    EntriesRead(d.kind, false, Distinct(false, items), []);
    ColumnWrites.HeaderWritten(d, items);
    ColumnWrites.KeysWritten(d, items);
  }

  /** Its body, read by a column of the declared type. */
  lemma SecondBodyReads(c: Column, mask: seq<bool>, items: seq<Value>, rest: Bytes)
    requires c.LowCardinality? && c.dictionary.Scalar? && c.dictionary.nullable && AllHaveType(c, c.nullable, items)
    requires c.dictionary.kind.Boolean? || Null !in items
    requires items != [] && |mask| == |items|
    requires WriteBody(LowCardinality(c.nullable, Scalar(false, c.dictionary.kind)), c.nullable, items).Some?
    ensures var w := WriteBody(LowCardinality(c.nullable, Scalar(false, c.dictionary.kind)), c.nullable, items).value;
            ReadBody(c, mask, |items|, w + rest) == Some((Reread(items), rest))
  {
    var again := LowCardinality(c.nullable, Scalar(false, c.dictionary.kind));
    var index := Distinct(false, items);
    TypedPack(c, items);
    FirstEntry(items);
    assert Index(false, NullValue(again.dictionary), items) == index;
    var head, size, body, count, keys := DictionaryParts(again, c.nullable, items);
    EntriesRead(c.dictionary.kind, true, index, count + (keys + rest));
    SlotZeroIsNone(items);
    assert c.dictionary == Scalar(true, c.dictionary.kind);
    var tail := count + (keys + rest);
    KeysRead(KeyType(|index|), |items|, Keys(false, index, items), count, keys, rest);
    DictionaryReads(c, mask, KeyType(|index|), AllUnpacked(index), Keys(false, index, items), Reread(items),
                    head, size, body + tail, tail, rest);
    Join5(head, size, body, count, keys, rest);
  }

  /** What the second write wrote is read, where the first value stood None now stands, and None as False. */
  lemma SecondWriteReads(c: Column, before: seq<Value>, items: seq<Value>, rest: Bytes)
    requires c.LowCardinality? && c.dictionary.Scalar? && c.dictionary.nullable && AllHaveType(c, c.nullable, items)
    requires c.dictionary.kind.Boolean? || Null !in items
    requires items != [] && ColumnWrites.VolumeAll(items) < ColumnWrites.SIZE_LIMIT
    ensures var w := WriteData(AfterData(c, c.nullable, before), c.nullable, items);
            w.Some? && ReadData(c, c.nullable, |items|, w.value + rest) == Some((Reread(items), rest))
  {
    AfterDictionary(c, before);
    SecondWritten(c, items);
    var again := LowCardinality(c.nullable, Scalar(false, c.dictionary.kind));
    var nulls, body := NullMap(c.nullable, items), WriteBody(again, c.nullable, items).value;
    Join2(nulls, body, rest);
    NullMapSkips(c.nullable, items, body + rest);
    var mask := ReadNullMap(c.nullable, |items|, nulls + (body + rest)).value.0;
    SecondBodyReads(c, mask, items, rest);
  }

  /** A column used before writes the items so that a column of the declared type reads them back. */
  ghost predicate SecondComesBack(c: Column, before: seq<Value>, items: seq<Value>)
  {
    var w := WriteData(AfterData(c, c.nullable, before), c.nullable, items);
    && w.Some?
    && forall rest: Bytes {:trigger SecondReads(c, items, w.value, rest)} :: SecondReads(c, items, w.value, rest)
  }

  ghost predicate SecondReads(c: Column, items: seq<Value>, w: Bytes, rest: Bytes)
  {
    ReadData(c, c.nullable, |items|, w + rest) == Some((items, rest))
  }

  /** None can no longer be written, except as False. */
  lemma NoneFails(c: Column, before: seq<Value>, items: seq<Value>)
    requires c.LowCardinality? && c.dictionary.Scalar? && !c.dictionary.kind.Boolean? && Null in items
    ensures WriteData(AfterData(c, c.nullable, before), c.nullable, items) == None
  {
    AfterDictionary(c, before);
    var d := Scalar(false, c.dictionary.kind);
    var index := Index(false, NullValue(d), items);
    DistinctIsExact(false, items);
    assert index == Distinct(false, items);
    NoneIsNotPacked(d.kind, index);
    assert WriteData(d, false, index) == None;
  }

  lemma NothingComesBack(c: Column, before: seq<Value>)
    requires c.LowCardinality? && c.dictionary.Scalar?
    ensures SecondComesBack(c, before, [])
  {
    AfterDictionary(c, before);
    var again := LowCardinality(c.nullable, Scalar(false, c.dictionary.kind));
    ColumnLimits.EmptyWrite(again, c.nullable);
    forall rest: Bytes
      ensures SecondReads(c, [], [], rest)
    {
      assert [] + rest == rest;
      NullMapSkips(c.nullable, [], rest);
    }
  }

  lemma PlainComesBack(c: Column, before: seq<Value>, items: seq<Value>)
    requires c.LowCardinality? && c.dictionary.Scalar? && !c.dictionary.nullable && AllHaveType(c, c.nullable, items)
    requires ColumnWrites.VolumeAll(items) < ColumnWrites.SIZE_LIMIT
    ensures SecondComesBack(c, before, items)
  {
    LastingStays(c, c.nullable, before);
    assert Readable(c.dictionary, false, Index(false, NullValue(c.dictionary), items));
    assert WellFormed(c.dictionary) && HashableColumn(c.dictionary) && ColumnWrites.HasPlaceholders(c.dictionary);
    ColumnWrites.DataWritten(c, c.nullable, items);
    var w := WriteData(c, c.nullable, items).value;
    forall rest: Bytes
      ensures SecondReads(c, items, w, rest)
    {
      DataRoundTrip(c, c.nullable, items, rest);
    }
  }

  lemma FirstDecides(c: Column, before: seq<Value>, items: seq<Value>)
    requires c.LowCardinality? && c.dictionary.Scalar? && c.dictionary.nullable && AllHaveType(c, c.nullable, items)
    requires c.dictionary.kind.Boolean? || Null !in items
    requires items != [] && ColumnWrites.VolumeAll(items) < ColumnWrites.SIZE_LIMIT
    ensures SecondComesBack(c, before, items) <==> items[0].Null?
  {
    var w := WriteData(AfterData(c, c.nullable, before), c.nullable, items);
    SecondWriteReads(c, before, items, []);
    RereadSame(items);
    if items[0].Null? {
      forall rest: Bytes
        ensures SecondReads(c, items, w.value, rest)
      {
        SecondWriteReads(c, before, items, rest);
      }
    } else {
      assert !SecondReads(c, items, w.value, []);
    }
  }

  lemma RereadSame(items: seq<Value>)
    requires items != []
    ensures Reread(items) == items <==> items[0].Null?
  {
    assert Reread(items)[0] == Null;
    if items[0].Null? {
      assert forall i :: 0 <= i < |items| ==> Reread(items)[i] == items[i];
    }
  }

  /** Items written through a low_cardinality column over leaf values that was used before come back exactly if the
      dictionary is not nullable, there are no items, or they are booleans of which the first is None. Otherwise
      None cannot be written any more, and without it the first value is silently read as None. */
  lemma DictionaryIsSingleUse(c: Column, before: seq<Value>, items: seq<Value>)
    requires c.LowCardinality? && c.dictionary.Scalar? && AllHaveType(c, c.nullable, items)
    requires ColumnWrites.VolumeAll(items) < ColumnWrites.SIZE_LIMIT
    ensures SecondComesBack(c, before, items)
       <==> || !c.dictionary.nullable || items == []
            || (c.dictionary.kind.Boolean? && items[0].Null?)
  {
    if items == [] {
      NothingComesBack(c, before);
    } else if !c.dictionary.nullable {
      PlainComesBack(c, before, items);
    } else if !c.dictionary.kind.Boolean? && Null in items {
      NoneFails(c, before, items);
    } else {
      FirstDecides(c, before, items);
    }
  }
}
