/** The reading side of the column classes, proved against the column format. */
module ColumnReader {
  import opened Outcomes
  import opened Buffers
  import opened Columns
  import opened Nesting
  import opened Dictionaries
  import opened Scalars
  import opened ColumnCodec
  import opened Levels
  import Bits
  import StructPack
  import Varint

  /** A read that may raise: the value specified, and exactly the rest of the stream left; after a
      failure nothing more is read. */
  ghost predicate Takes<T>(before: Bytes, after: Bytes, got: Option<T>, expected: Parsed<T>)
  {
    if got.Some? then expected == Some((got.value, after)) else expected.None?
  }

  /** A list whose first elements have been read already, followed by the rest of it. */
  function Resumed<T>(done: seq<T>, tail: Parsed<seq<T>>): Parsed<seq<T>>
  {
    if tail.None? then None else Some((done + tail.value.0, tail.value.1))
  }

  lemma ResumedStart<T>(tail: Parsed<seq<T>>)
    ensures Resumed([], tail) == tail
  {
    assert tail.Some? ==> [] + tail.value.0 == tail.value.0;
  }

  lemma ResumedTwice<T>(a: seq<T>, b: seq<T>, tail: Parsed<seq<T>>)
    ensures Resumed(a, Resumed(b, tail)) == Resumed(a + b, tail)
  {
    assert tail.Some? ==> a + (b + tail.value.0) == a + b + tail.value.0;
  }

  lemma ResumedEnd<T>(a: seq<T>, s: Bytes)
    ensures Resumed(a, Some(([], s))) == Some((a, s))
  {
    assert a + [] == a;
  }

  method TakeUInt64s(n: nat, r: Reader) returns (offsets: Option<seq<nat>>)
    modifies r
    ensures Takes(old(r.data), r.data, offsets, ReadUInt64s(n, old(r.data)))
  {
    var ints :- TakeInts(8, n, r);
    offsets := Some(ints);
  }

  /** Unsigned integers of a fixed width. */
  method TakeInts(width: nat, n: nat, r: Reader) returns (ints: Option<seq<nat>>)
    modifies r
    ensures Takes(old(r.data), r.data, ints, StructPack.ReadInts(false, width, n, old(r.data)))
  {
    var vs: seq<nat> := [];
    ghost var all := StructPack.ReadInts(false, width, n, r.data);
    ResumedStart(all);
    for i := 0 to n
      invariant all == Resumed(vs, StructPack.ReadInts(false, width, n - i, r.data))
    {
      var v :- StructPack.TakeInt(false, width, r);
      ResumedTwice(vs, [v], StructPack.ReadInts(false, width, n - i - 1, r.data));
      vs := vs + [v];
    }
    ResumedEnd(vs, r.data);
    ints := Some(vs);
  }

  method TakeNullMap(nullable: bool, n: nat, r: Reader) returns (mask: Option<seq<bool>>)
    modifies r
    ensures Takes(old(r.data), r.data, mask, ReadNullMap(nullable, n, old(r.data)))
  {
    if nullable {
      var marks :- r.Read(n);
      mask := Some(seq(n, i requires 0 <= i < n => marks[i] != 0));
    } else {
      mask := Some(seq(n, _ => false));
    }
  }

  // ----- leaf columns -----

  method TakeItem(kind: Kind, r: Reader) returns (v: Option<Value>)
    modifies r
    ensures Takes(old(r.data), r.data, v, ReadOne(kind, old(r.data)))
  {
    match kind
    case UInt(width) =>
      var n :- StructPack.TakeInt(false, width, r);
      v := Some(Num(n));
    case SInt(width) =>
      var n :- StructPack.TakeInt(true, width, r);
      v := Some(Num(n));
    case Boolean =>
      var b :- r.Read(1);
      v := Some(Bool(b[0] != 0));
    case Text =>
      var length :- Varint.ReadVarint(r);
      var bytes :- r.Read(length);
      v := Some(Decoded(bytes, bytes));
    case FixedText(length) =>
      var bytes :- r.Read(length);
      v := Some(Decoded(Strip(bytes), bytes));
    case Enum(width, _) =>
      var n :- StructPack.TakeInt(true, width, r);
      v := Some(Num(n));
  }

  /** read_items of a leaf column. */
  method TakeItems(kind: Kind, n: nat, r: Reader) returns (items: Option<seq<Value>>)
    modifies r
    ensures Takes(old(r.data), r.data, items, ReadRaw(kind, n, old(r.data)))
  {
    var vs: seq<Value> := [];
    ghost var all := ReadRaw(kind, n, r.data);
    ResumedStart(all);
    for i := 0 to n
      invariant all == Resumed(vs, ReadRaw(kind, n - i, r.data))
    {
      var v :- TakeItem(kind, r);
      ResumedTwice(vs, [v], ReadRaw(kind, n - i - 1, r.data));
      vs := vs + [v];
    }
    ResumedEnd(vs, r.data);
    items := Some(vs);
  }

  /** Enum codes become names, null map entries become None. */
  method AfterReadItems(kind: Kind, mask: seq<bool>, raws: seq<Value>) returns (items: Option<seq<Value>>)
    requires |mask| == |raws|
    ensures items == AfterReadAll(kind, mask, raws)
  {
    var vs: seq<Value> := [];
    var all := AfterReadAll(kind, mask, raws);
    assert mask[0..] == mask && raws[0..] == raws;
    PrependTwice<Value>([], [], all);
    for i := 0 to |raws|
      invariant all == Prepend(vs, AfterReadAll(kind, mask[i..], raws[i..]))
    {
      assert mask[i..][1..] == mask[i + 1..] && raws[i..][1..] == raws[i + 1..];
      var v := AfterRead(kind, mask[i], raws[i]);
      if v.None? {
        return None;
      }
      PrependTwice(vs, [v.value], AfterReadAll(kind, mask[i + 1..], raws[i + 1..]));
      vs := vs + [v.value];
    }
    PrependTwice<Value>(vs, [], None);
    items := Some(vs);
  }

  // ----- arrays -----

  /** All offsets level by level, then the leaf items, then the nesting from the innermost level out. */
  method TakeArray(c: Column, n: nat, r: Reader) returns (items: Option<seq<Value>>)
    requires c.Array?
    modifies r
    ensures Takes(old(r.data), r.data, items, ReadNested(c, n, old(r.data)))
    decreases c, 3
  {
    ghost var start := r.data;
    LevelsReadNested(c, n, start);
    var levels :- TakeLevels(c, n, r);
    var (series, leaf, leaves) := levels;
    var data :- TakeLeaf(leaf, leaves, r);
    series := [[n]] + series;
    ghost var leafItems := data;
    for i := |series| downto 0
      invariant data == Rebuild(series[i..], leafItems)
    {
      assert series[i..][1..] == series[i + 1..];
      data := Slices(data, 0, series[i]);
    }
    assert series[0..] == series && series[1..] == levels.0;
    assert data == Slices(Rebuild(levels.0, leafItems), 0, [n]);
    var whole := data[0].items;
    assert whole == Rebuild(levels.0, leafItems);
    items := Some(whole);
  }

  /** Offsets of every level, the column below them and the number of its items. */
  method TakeLevels(c: Column, n: nat, r: Reader) returns (levels: Option<(seq<seq<nat>>, Column, nat)>)
    requires c.Array?
    modifies r
    ensures levels.None? ==> ReadLevels(c, n, old(r.data)).None?
    ensures levels.Some? ==>
      && levels.value.1 == LeafColumn(c) && !levels.value.1.Array? && levels.value.1 < c
      && levels.value.0 != []  && |levels.value.0[0]| == n
      && ReadLevels(c, n, old(r.data)) == Some(((levels.value.0, levels.value.2), r.data))
  {
    var nested, size := c, n;
    var series: seq<seq<nat>> := [];
    ghost var all := ReadLevels(c, n, r.data);
    DeeperTwice([], [], all);
    while nested.Array?
      invariant nested == c || nested < c
      invariant LeafColumn(nested) == LeafColumn(c)
      invariant all == Deeper(series, ReadLevels(nested, size, r.data))
      invariant if series == [] then nested == c && size == n else nested < c && |series[0]| == n
      decreases nested
    {
      var offsets :- TakeUInt64s(size, r);
      DeeperTwice(series, offsets, ReadLevels(nested.inner, Total(offsets), r.data));
      series := series + [offsets];
      size := Total(offsets);
      nested := nested.inner;
    }
    assert series + [] == series;
    levels := Some((series, nested, size));
  }

  function Deeper(series: seq<seq<nat>>, r: Parsed<(seq<seq<nat>>, nat)>): Parsed<(seq<seq<nat>>, nat)>
  {
    if r.None? then None else Some(((series + r.value.0.0, r.value.0.1), r.value.1))
  }

  lemma DeeperTwice(a: seq<seq<nat>>, b: seq<nat>, r: Parsed<(seq<seq<nat>>, nat)>)
    ensures Deeper(a, Deeper([b], r)) == Deeper(a + [b], r)
    ensures Deeper([], r) == r
  {
    if r.Some? {
      assert a + ([b] + r.value.0.0) == a + [b] + r.value.0.0;
      assert [] + r.value.0.0 == r.value.0.0;
    }
  }

  method TakeLeaf(c: Column, n: nat, r: Reader) returns (items: Option<seq<Value>>)
    requires !c.Array?
    modifies r
    ensures Takes(old(r.data), r.data, items, ReadLeaf(c, n, old(r.data)))
    decreases c, 2
  {
    var mask :- TakeNullMap(c.nullable, n, r);
    if n == 0 {
      return Some([]);
    }
    items := TakeBody(c, mask, n, r);
  }

  // ----- tuples -----

  method TakeColumns(inners: seq<Column>, n: nat, r: Reader) returns (columns: Option<seq<seq<Value>>>)
    modifies r
    ensures Takes(old(r.data), r.data, columns, ReadColumns(inners, 0, n, old(r.data)))
    decreases inners
  {
    var cs: seq<seq<Value>> := [];
    ghost var all := ReadColumns(inners, 0, n, r.data);
    ResumedStart(all);
    for j := 0 to |inners|
      invariant all == Resumed(cs, ReadColumns(inners, j, n, r.data))
    {
      var column :- TakeData(inners[j], inners[j].nullable, n, r);
      ResumedTwice(cs, [column], ReadColumns(inners, j + 1, n, r.data));
      cs := cs + [column];
    }
    ResumedEnd(cs, r.data);
    columns := Some(cs);
  }

  // ----- low_cardinality -----

  method TakeLowCardinality(c: Column, mask: seq<bool>, n: nat, r: Reader) returns (items: Option<seq<Value>>)
    requires c.LowCardinality? && |mask| == n
    modifies r
    ensures Takes(old(r.data), r.data, items, ReadBody(c, mask, n, old(r.data)))
    decreases c, 0
  {
    if n == 0 {
      return Some([]);
    }
    var d := c.dictionary;
    var serialization :- StructPack.TakeInt(false, 8, r);
    var keyType := Bits.And(serialization, 0xf);
    if keyType >= 4 {
      return None;
    }
    var size :- StructPack.TakeInt(false, 8, r);
    var stored :- TakeData(d, false, size, r);
    var index :- WithNullSlot(d, stored);
    var _ :- StructPack.TakeInt(false, 8, r);
    var keys :- TakeInts(KeyWidth(keyType), n, r);
    items := LookUp(index, keys);
  }

  // ----- whole columns -----

  /** _read_data of a column that is not an array. */
  method TakeBody(c: Column, mask: seq<bool>, n: nat, r: Reader) returns (items: Option<seq<Value>>)
    requires !c.Array? && |mask| == n
    modifies r
    ensures Takes(old(r.data), r.data, items, ReadBody(c, mask, n, old(r.data)))
    decreases c, 1
  {
    match c
    case Scalar(_, kind) =>
      var raws :- TakeItems(kind, n, r);
      items := AfterReadItems(kind, mask, raws);
    case Tuple(_, _, inners) =>
      var columns :- TakeColumns(inners, n, r);
      items := Some(Masked(mask, Rows(columns, n)));
    case Map(_, key, value) =>
      var offsets :- TakeUInt64s(n, r);
      if n == 0 {
        return None;
      }
      var total := offsets[n - 1];
      var keys :- TakeData(key, key.nullable, total, r);
      var vals :- TakeData(value, value.nullable, total, r);
      var dicts := Dicts(Slices(keys, 0, offsets), Slices(vals, 0, offsets));
      items := if dicts.Some? then Some(Masked(mask, dicts.value)) else None;
    case LowCardinality(_, _) =>
      items := TakeLowCardinality(c, mask, n, r);
  }

  /** read_data */
  method TakeData(c: Column, nullable: bool, n: nat, r: Reader) returns (items: Option<seq<Value>>)
    modifies r
    ensures Takes(old(r.data), r.data, items, ReadData(c, nullable, n, old(r.data)))
    decreases c, 4
  {
    if c.Array? {
      items := TakeArray(c, n, r);
    } else if c.Tuple? {
      items := TakeBody(c, seq(n, _ => false), n, r);
    } else {
      var mask :- TakeNullMap(nullable, n, r);
      items := TakeBody(c, mask, n, r);
    }
  }

  method TakeStatePrefix(c: Column, r: Reader) returns (ok: bool)
    modifies r
    ensures ReadPrefix(c, old(r.data)) == if ok then Some(r.data) else None
    decreases c
  {
    match c
    case Scalar(_, _) => ok := true;
    case Array(_, inner) => ok := TakeStatePrefix(inner, r);
    case Tuple(_, _, inners) => ok := TakeStatePrefixes(inners, r);
    case Map(_, key, value) =>
      ok := TakeStatePrefix(key, r);
      if ok {
        ok := TakeStatePrefix(value, r);
      }
    case LowCardinality(_, _) =>
      var version := StructPack.TakeInt(false, 8, r);
      ok := version.Some?;
  }

  method TakeStatePrefixes(inners: seq<Column>, r: Reader) returns (ok: bool)
    modifies r
    ensures ReadPrefixes(inners, 0, old(r.data)) == if ok then Some(r.data) else None
    decreases inners
  {
    for j := 0 to |inners|
      invariant ReadPrefixes(inners, 0, old(r.data)) == ReadPrefixes(inners, j, r.data)
    {
      ok := TakeStatePrefix(inners[j], r);
      if !ok {
        return;
      }
    }
    ok := true;
  }

  /** read_column, for the column of a parsed specification. */
  method TakeColumn(c: Column, n: nat, r: Reader) returns (items: Option<seq<Value>>)
    modifies r
    ensures Takes(old(r.data), r.data, items, ReadColumn(c, n, old(r.data)))
  {
    var ok := TakeStatePrefix(c, r);
    if !ok {
      return None;
    }
    items := TakeData(c, c.nullable, n, r);
  }
}
