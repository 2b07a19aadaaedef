/** The writing side of the column classes: loops over mutable lists, proved against the column format. */
module ColumnWriter {
  import opened Outcomes
  import opened Buffers
  import opened Columns
  import opened Nesting
  import opened Dictionaries
  import opened Scalars
  import opened ColumnCodec
  import opened Levels
  import Bits
  import StructPack
  import Varint

  method ListOf(items: seq<Value>) returns (a: array<Value>)
    ensures fresh(a) && a[..] == items
  {
    a := new Value[|items|](i requires 0 <= i < |items| => items[i]);
  }

  method WriteBytes(bytes: Option<Bytes>, w: Writer) returns (ok: bool)
    modifies w
    ensures Emits(old(w.data), w.data, ok, bytes)
    ensures !ok ==> w.data == old(w.data)
  {
    if bytes.None? {
      return false;
    }
    w.Write(bytes.value);
    ok := true;
  }

  // ----- prepare_items -----

  lemma {:induction false} PrepareAllPointwise(kind: Kind, nullable: bool, items: seq<Value>)
    ensures PrepareAll(kind, nullable, items).Some? <==>
            forall i :: 0 <= i < |items| ==> Prepare(kind, nullable, items[i]).Some?
    ensures var vs := PrepareAll(kind, nullable, items);
            vs.Some? ==> forall i :: 0 <= i < |items| ==> Prepare(kind, nullable, items[i]) == Some(vs.value[i])
  {
    if items != [] {
      PrepareAllPointwise(kind, nullable, items[1..]);
      assert forall i :: 1 <= i < |items| ==> items[i] == items[1..][i - 1];
    }
  }

  function Prepared(c: Column, nullable: bool, items: seq<Value>): Option<seq<Value>>
  {
    if c.Scalar? then PrepareAll(c.kind, nullable, items) else Some(Filled(c, nullable, items))
  }

  /** Overwrites the list: null values in place of None, codes in place of enum names. */
  method PrepareItems(c: Column, nullable: bool, items: array<Value>) returns (ok: bool)
    modifies items
    ensures ok <==> Prepared(c, nullable, old(items[..])).Some?
    ensures ok ==> Some(items[..]) == Prepared(c, nullable, old(items[..]))
  {
    ghost var before := items[..];
    var nullsMap := new bool[items.Length](_ => false);
    for i := 0 to items.Length
      invariant forall k :: 0 <= k < i ==> items[k] == if nullable && before[k].Null? then NullValue(c) else before[k]
      invariant forall k :: i <= k < items.Length ==> items[k] == before[k]
      invariant forall k :: 0 <= k < items.Length ==> nullsMap[k] == (k < i && nullable && before[k].Null?)
    {
      if items[i].Null? && nullable {
        nullsMap[i] := true;
        items[i] := NullValue(c);
      }
    }
    assert items[..] == Filled(c, nullable, before);
    if c.Scalar? && c.kind.Enum? {
      ok := BeforeWriteItems(c, nullable, before, items, nullsMap);
    } else {
      ok := true;
      if c.Scalar? {
        FilledIsPrepared(c, nullable, before);
      }
    }
  }

  lemma FilledIsPrepared(c: Column, nullable: bool, items: seq<Value>)
    requires c.Scalar? && !c.kind.Enum?
    ensures PrepareAll(c.kind, nullable, items) == Some(Filled(c, nullable, items))
  {
    PrepareAllPointwise(c.kind, nullable, items);
    assert PrepareAll(c.kind, nullable, items).value == Filled(c, nullable, items);
  }

  /** Enum names become codes; entries marked in the null map become the null value. */
  method BeforeWriteItems(c: Column, nullable: bool, ghost before: seq<Value>,
                          items: array<Value>, nullsMap: array<bool>) returns (ok: bool)
    requires c.Scalar? && c.kind.Enum? && items.Length == nullsMap.Length == |before|
    requires items[..] == Filled(c, nullable, before)
    requires forall k :: 0 <= k < |before| ==> nullsMap[k] == (nullable && before[k].Null?)
    modifies items
    ensures ok <==> PrepareAll(c.kind, nullable, before).Some?
    ensures ok ==> Some(items[..]) == PrepareAll(c.kind, nullable, before)
  {
    PrepareAllPointwise(c.kind, nullable, before);
    ghost var filled := items[..];
    for i := 0 to items.Length
      invariant forall k :: i <= k < items.Length ==> items[k] == filled[k]
      invariant forall k :: 0 <= k < i ==> Prepare(c.kind, nullable, before[k]) == Some(items[k])
    {
      if nullsMap[i] {
        items[i] := ScalarNull(c.kind);
      } else {
        var code := Prepare(c.kind, false, items[i]);
        if code.None? {
          return false;
        }
        items[i] := code.value;
      }
    }
    assert PrepareAll(c.kind, nullable, before).value == items[..];
    ok := true;
  }

  // ----- leaf columns -----

  /** Numbers are packed in one go; strings are written one after the other. */
  method WriteItems(kind: Kind, items: seq<Value>, w: Writer) returns (ok: bool)
    modifies w
    ensures Emits(old(w.data), w.data, ok, PackAll(kind, items))
  {
    if !kind.Text? {
      ok := WriteBytes(PackAll(kind, items), w);
      return;
    }
    ghost var whole := PackAll(kind, items);
    assert items[0..] == items;
    for i := 0 to |items|
      invariant Pending(old(w.data), w.data, whole, PackAll(kind, items[i..]))
    {
      assert items[i..][1..] == items[i + 1..];
      var now := w.data;
      ok := WriteString(items[i], w);
      if !ok {
        Abort(old(w.data), now, w.data, whole, PackOne(kind, items[i]), PackAll(kind, items[i + 1..]));
        return;
      }
      Advance(old(w.data), now, w.data, whole, PackOne(kind, items[i]), PackAll(kind, items[i + 1..]));
    }
    ok := true;
  }

  /** Length, then bytes. */
  method WriteString(item: Value, w: Writer) returns (ok: bool)
    modifies w
    ensures Emits(old(w.data), w.data, ok, PackOne(Text, item))
  {
    var bytes := BytesOf(item);
    if bytes.None? {
      return false;
    }
    ok := Varint.WriteVarint(|bytes.value|, w);
    if ok {
      w.Write(bytes.value);
    }
  }

  // ----- arrays -----

  /** The null map of a nullable array, then the offsets of every level, breadth first. */
  method WriteSizes(c: Column, nullable: bool, items: seq<Value>, w: Writer) returns (ok: bool)
    requires c.Array?
    modifies w
    ensures Emits(old(w.data), w.data, ok, SizesOf(c, nullable, items))
  {
    OffsetsNeedLists(c, items);
    var collected := CollectSizes(c, nullable, items);
    if collected.None? {
      return false;
    }
    var (sizes, level, flag) := collected.value;
    ghost var start, stray := w.data, StrayNullMap(c, nullable, items);
    if flag && level != [] {
      w.Write(Zeros(|level|));
    }
    ghost var now, whole := w.data, SizesOf(c, nullable, items);
    NoZeros(start);
    Advance(start, start, now, whole, stray, WriteUInt64s(sizes));
    ok := WriteBytes(WriteUInt64s(sizes), w);
    Finish(start, now, w.data, ok, whole, WriteUInt64s(sizes));
  }

  lemma NoZeros(s: Bytes)
    ensures s + Zeros(0) == s && s + [] == s
  {
  }

  /** The offsets of all levels, the items below the innermost one, and its nullable flag. */
  method CollectSizes(c: Column, nullable: bool, items: seq<Value>)
      returns (r: Option<(seq<nat>, seq<Value>, bool)>)
    requires c.Array?
    ensures r.None? ==> LevelOffsets(c, items).None?
    ensures r.Some? ==>
      && LevelOffsets(c, items) == Some(r.value.0) && LeafValues(c, items) == Some(r.value.1)
      && InnermostFlag(c, nullable) == r.value.2
  {
    var nested, ownFlag, flag, level := c, nullable, nullable, items;
    var sizes: seq<nat> := [];
    PrependTwice<nat>([], [], LevelOffsets(c, items));
    while nested.Array?
      invariant LevelOffsets(c, items) == Prepend(sizes, LevelOffsets(nested, level))
      invariant LeafValues(c, items) == LeafValues(nested, level)
      invariant InnermostFlag(c, nullable) == if nested.Array? then InnermostFlag(nested, ownFlag) else flag
      decreases nested
    {
      var flat :- FlattenLevel(level);
      var (offsets, newValue) := flat;
      LevelBelow(nested, ownFlag, level);
      PrependTwice(sizes, offsets, LevelOffsets(nested.inner, newValue));
      sizes := sizes + offsets;
      flag := ownFlag;
      nested, level := nested.inner, newValue;
      ownFlag := nested.nullable;
    }
    PrependTwice<nat>(sizes, [], None);
    r := Some((sizes, level, flag));
  }

  lemma LevelBelow(c: Column, nullable: bool, items: seq<Value>)
    requires c.Array? && AllIterable(items)
    ensures LevelOffsets(c, items) == Prepend(Offsets(items, 0), LevelOffsets(c.inner, Flatten(items)))
    ensures LeafValues(c, items) == LeafValues(c.inner, Flatten(items))
    ensures InnermostFlag(c, nullable) == if c.inner.Array? then InnermostFlag(c.inner, c.inner.nullable) else nullable
  {
  }

  /** One level of _write_sizes: a running offset, and the items of the next level; `len(x)` raises. */
  method FlattenLevel(value: seq<Value>) returns (r: Option<(seq<nat>, seq<Value>)>)
    ensures r.Some? <==> AllIterable(value)
    ensures r.Some? ==> r.value == (Offsets(value, 0), Flatten(value))
  {
    var offset: nat := 0;
    var sizes: seq<nat>, newValue: seq<Value> := [], [];
    ghost var left := value;
    NothingFlattened(value);
    for i := 0 to |value|
      invariant forall k :: 0 <= k < i ==> Iterable(value[k])
      invariant From(value, i, left) && Flattens(value, left, newValue, sizes, offset)
    {
      var x := value[i];
      if !Iterable(x) {
        return None;
      }
      NextFrom(value, i, left);
      ItemFlattens(value, x, left, left[1..], newValue, sizes, offset, offset + |Elements(x)|);
      offset := offset + |Elements(x)|;
      sizes := sizes + [offset];
      newValue := newValue + Elements(x);
      left := left[1..];
    }
    AllFlattened(value, newValue, sizes, offset);
    r := Some((sizes, newValue));
  }

  /** What is left of a list from position i on. */
  ghost predicate From(value: seq<Value>, i: nat, left: seq<Value>)
  {
    i <= |value| && value[i..] == left
  }

  lemma NextFrom(value: seq<Value>, i: nat, left: seq<Value>)
    requires From(value, i, left) && i < |value|
    ensures left != [] && left[0] == value[i] && From(value, i + 1, left[1..])
  {
  }

  /** What was flattened so far, in front of what the items that are left give. */
  ghost predicate Flattens(value: seq<Value>, left: seq<Value>, newValue: seq<Value>, sizes: seq<nat>, offset: nat)
  {
    Flatten(value) == newValue + Flatten(left) && Offsets(value, 0) == sizes + Offsets(left, offset)
  }

  lemma NothingFlattened(value: seq<Value>)
    ensures Flattens(value, value, [], [], 0)
  {
  }

  lemma AllFlattened(value: seq<Value>, newValue: seq<Value>, sizes: seq<nat>, offset: nat)
    requires Flattens(value, [], newValue, sizes, offset)
    ensures Flatten(value) == newValue && Offsets(value, 0) == sizes
  {
  }

  lemma ItemFlattens(value: seq<Value>, x: Value, left: seq<Value>, others: seq<Value>, newValue: seq<Value>,
                     sizes: seq<nat>, offset: nat, next: nat)
    requires Flattens(value, left, newValue, sizes, offset)
    requires left != [] && left[0] == x && left[1..] == others && next == offset + |Elements(x)|
    ensures Flattens(value, others, newValue + Elements(x), sizes + [next], next)
  {
    OneLevelItem(x, left, others, newValue, sizes, offset, next);
  }

  /** What the first item left adds to the items and the offsets. */
  lemma OneLevelItem(x: Value, left: seq<Value>, others: seq<Value>, newValue: seq<Value>, sizes: seq<nat>,
                     offset: nat, next: nat)
    requires left != [] && left[0] == x && left[1..] == others && next == offset + |Elements(x)|
    ensures newValue + Flatten(left) == newValue + Elements(x) + Flatten(others)
    ensures sizes + Offsets(left, offset) == sizes + [next] + Offsets(others, next)
  {
    OffsetsFirst(left, others, offset);
    Regroup(newValue, Elements(x), Flatten(others));
    Regroup(sizes, [next], Offsets(others, next));
  }

  function SizesOf(c: Column, nullable: bool, items: seq<Value>): Option<Bytes>
  {
    var offsets :- LevelOffsets(c, items);
    Cat(StrayNullMap(c, nullable, items), WriteUInt64s(offsets))
  }

  /** The null map of the innermost column, found by flattening level after level. */
  method WriteNullsData(nested: Column, value: seq<Value>, w: Writer)
    requires LeafValues(nested, value).Some?
    modifies w
    ensures w.data == old(w.data) + NullMap(LeafColumn(nested).nullable, LeafValues(nested, value).value)
  {
    if nested.Array? {
      WriteNullsData(nested.inner, Flatten(value), w);
    } else if nested.nullable {
      w.Write(NullMarks(value));
    }
  }

  /** The leaf items, unless some level has run empty. */
  method WriteLeafData(nested: Column, value: seq<Value>, w: Writer) returns (ok: bool)
    requires LeafValues(nested, value).Some?
    modifies w
    ensures var leaf, leaves := LeafColumn(nested), LeafValues(nested, value).value;
            Emits(old(w.data), w.data, ok, if leaves == [] then Some([]) else WriteBody(leaf, leaf.nullable, leaves))
    decreases nested, 2
  {
    if value == [] {
      NoLeaves(nested);
      ok := true;
    } else if nested.Array? {
      ok := WriteLeafData(nested.inner, Flatten(value), w);
    } else {
      var list := ListOf(value);
      ok := WriteBodyOf(nested, nested.nullable, list, w);
    }
  }

  method WriteArray(c: Column, nullable: bool, items: seq<Value>, w: Writer) returns (ok: bool)
    requires c.Array?
    modifies w
    ensures Emits(old(w.data), w.data, ok, WriteData(c, nullable, items))
    decreases c, 3
  {
    OffsetsNeedLists(c, items);
    SizesFirst(c, nullable, items);
    ghost var start := w.data;
    ok := WriteSizes(c, nullable, items, w);
    if !ok {
      return;
    }
    ghost var sized, whole := w.data, WriteData(c, nullable, items);
    ghost var leaf, leaves := LeafColumn(c), LeafValues(c, items).value;
    Advance(start, start, sized, whole, SizesOf(c, nullable, items), WriteLeaf(leaf, leaves));
    WriteNullsData(c, items, w);
    ghost var now := w.data;
    ghost var body := if leaves == [] then Some([]) else WriteBody(leaf, leaf.nullable, leaves);
    Advance(start, sized, now, whole, Some(NullMap(leaf.nullable, leaves)), body);
    ok := WriteLeafData(c, items, w);
    Finish(start, now, w.data, ok, whole, body);
  }

  /** Sizes, then null map and leaf items: that is the array. */
  lemma SizesFirst(c: Column, nullable: bool, items: seq<Value>)
    requires c.Array?
    ensures LeafValues(c, items).None? ==> WriteData(c, nullable, items) == None
    ensures LeafValues(c, items).Some? ==>
      WriteData(c, nullable, items)
      == Cat(SizesOf(c, nullable, items), WriteLeaf(LeafColumn(c), LeafValues(c, items).value))
  {
    LevelsWriteNested(c, items);
    OffsetsNeedLists(c, items);
    var leaves := LeafValues(c, items);
    if leaves.Some? {
      CatAssociative(StrayNullMap(c, nullable, items), WriteUInt64s(LevelOffsets(c, items).value),
                     WriteLeaf(LeafColumn(c), leaves.value));
    }
  }

  lemma {:induction false} OffsetsNeedLists(c: Column, items: seq<Value>)
    ensures LevelOffsets(c, items).Some? <==> LeafValues(c, items).Some?
  {
    if c.Array? && AllIterable(items) {
      OffsetsNeedLists(c.inner, Flatten(items));
    }
  }

  // ----- tuples -----

  /** `zip(*items)`: an empty list or a short row leaves some nested column without items. */
  method WriteTuple(c: Column, nullable: bool, items: array<Value>, w: Writer) returns (ok: bool)
    requires c.Tuple?
    modifies items, w
    ensures Emits(old(w.data), w.data, ok, WriteBody(c, nullable, old(items[..])))
    decreases c, 0
  {
    ok := PrepareItems(c, nullable, items);
    var rows, inners := items[..], c.inners;
    if rows == [] || !RowsCover(rows, |inners|) {
      return false;
    }
    ghost var whole := WriteColumns(inners, rows, 0);
    for j := 0 to |inners|
      invariant Pending(old(w.data), w.data, whole, WriteColumns(inners, rows, j))
    {
      ghost var now, first := w.data, WriteData(inners[j], inners[j].nullable, ColumnAt(rows, j));
      var column := ListOf(ColumnAt(rows, j));
      ok := WriteDataOf(inners[j], inners[j].nullable, column, w);
      if !ok {
        Abort(old(w.data), now, w.data, whole, first, WriteColumns(inners, rows, j + 1));
        return;
      }
      Advance(old(w.data), now, w.data, whole, first, WriteColumns(inners, rows, j + 1));
    }
    ok := true;
  }

  // ----- maps -----

  method WriteMap(c: Column, nullable: bool, items: array<Value>, w: Writer) returns (ok: bool)
    requires c.Map?
    modifies items, w
    ensures Emits(old(w.data), w.data, ok, WriteBody(c, nullable, old(items[..])))
    decreases c, 0
  {
    ok := PrepareItems(c, nullable, items);
    var parts := SplitDicts(items[..]);
    if parts.None? {
      return false;
    }
    var (offsets, keys, values) := parts.value;
    ghost var k, v := WriteData(c.key, c.key.nullable, keys), WriteData(c.value, c.value.nullable, values);
    ghost var whole := Cat(WriteUInt64s(offsets), Cat(k, v));
    assert WriteBody(c, nullable, old(items[..])) == whole;
    ghost var now := w.data;
    ok := WriteBytes(WriteUInt64s(offsets), w);
    if !ok {
      return;
    }
    Advance(old(w.data), now, w.data, whole, WriteUInt64s(offsets), Cat(k, v));
    now := w.data;
    var keyList := ListOf(keys);
    ok := WriteDataOf(c.key, c.key.nullable, keyList, w);
    if !ok {
      Abort(old(w.data), now, w.data, whole, k, v);
      return;
    }
    Advance(old(w.data), now, w.data, whole, k, v);
    now := w.data;
    var valueList := ListOf(values);
    ok := WriteDataOf(c.value, c.value.nullable, valueList, w);
    Finish(old(w.data), now, w.data, ok, whole, v);
  }

  /** What the pass over the dicts has collected. */
  datatype Parts = Parts(offsets: seq<nat>, keys: seq<Value>, values: seq<Value>, total: nat)

  function WithDict(parts: Parts, x: Value): Parts
    requires x.Dict?
  {
    var total := parts.total + |x.keys|;
    Parts(parts.offsets + [total], parts.keys + x.keys, parts.values + x.vals, total)
  }

  /** Running totals, all keys and all values, in one pass. */
  method SplitDicts(dicts: seq<Value>) returns (r: Option<(seq<nat>, seq<Value>, seq<Value>)>)
    ensures r.Some? <==> AllDicts(dicts)
    ensures r.Some? ==>
      r.value == (Offsets(KeyLists(dicts), 0), Flatten(KeyLists(dicts)), Flatten(ValueLists(dicts)))
  {
    var parts := Parts([], [], [], 0);
    ghost var left := dicts;
    NothingSplit(dicts);
    for i := 0 to |dicts|
      invariant forall k :: 0 <= k < i ==> dicts[k].Dict? && |dicts[k].keys| == |dicts[k].vals|
      invariant From(dicts, i, left) && Splits(dicts, left, parts)
    {
      var x := dicts[i];
      if !x.Dict? || |x.keys| != |x.vals| {
        return None;
      }
      NextFrom(dicts, i, left);
      OneDict(dicts, x, left, left[1..], parts);
      parts := WithDict(parts, x);
      left := left[1..];
    }
    AllSplit(dicts, parts);
    r := Some((parts.offsets, parts.keys, parts.values));
  }

  /** What was split off so far, in front of what the dicts that are left give. */
  ghost predicate Splits(dicts: seq<Value>, left: seq<Value>, parts: Parts)
  {
    AllDicts(dicts) ==>
      && AllDicts(left)
      && Flatten(KeyLists(dicts)) == parts.keys + Flatten(KeyLists(left))
      && Flatten(ValueLists(dicts)) == parts.values + Flatten(ValueLists(left))
      && Offsets(KeyLists(dicts), 0) == parts.offsets + Offsets(KeyLists(left), parts.total)
  }

  lemma NothingSplit(dicts: seq<Value>)
    ensures Splits(dicts, dicts, Parts([], [], [], 0))
  {
  }

  lemma AllSplit(dicts: seq<Value>, parts: Parts)
    requires AllDicts(dicts) && Splits(dicts, [], parts)
    ensures Flatten(KeyLists(dicts)) == parts.keys && Flatten(ValueLists(dicts)) == parts.values
    ensures Offsets(KeyLists(dicts), 0) == parts.offsets
  {
    assert KeyLists([]) == [] && ValueLists([]) == [];
  }

  lemma OneDict(dicts: seq<Value>, x: Value, left: seq<Value>, others: seq<Value>, parts: Parts)
    requires Splits(dicts, left, parts)
    requires x.Dict? && left != [] && left[0] == x && left[1..] == others
    ensures Splits(dicts, others, WithDict(parts, x))
  {
    if AllDicts(dicts) {
      var next := parts.total + |x.keys|;
      assert KeyLists(left)[1..] == KeyLists(others) && ValueLists(left)[1..] == ValueLists(others);
      OneLevelItem(List(x.keys), KeyLists(left), KeyLists(others), parts.keys, parts.offsets, parts.total, next);
      OneLevelItem(List(x.vals), ValueLists(left), ValueLists(others), parts.values, [], 0, |x.vals|);
    }
  }

  // ----- low_cardinality -----

  method WriteLowCardinality(c: Column, nullable: bool, items: seq<Value>, w: Writer) returns (ok: bool)
    requires c.LowCardinality?
    modifies w
    ensures Emits(old(w.data), w.data, ok, WriteBody(c, nullable, items))
    decreases c, 0
  {
    var d := c.dictionary;
    var built := BuildDictionary(d.nullable, NullValue(d), items);
    if built.None? {
      return false;
    }
    var (index, keys) := built.value;
    if index == [] {
      return true;
    }
    var keyType := KeyType(|index|);
    if keyType >= 4 {
      return false;
    }
    var head := Cat(WriteInt64(Bits.Or(keyType, SERIALIZATION_TYPE)), WriteInt64(|index|));
    var tail := Cat(WriteInt64(|items|), StructPack.PackAll(false, KeyWidth(keyType), keys));
    ghost var body, whole := WriteData(d, false, index), WriteBody(c, nullable, items);
    assert whole == Cat(head, Cat(body, tail)) by {
      CatAssociative(WriteInt64(Bits.Or(keyType, SERIALIZATION_TYPE)), WriteInt64(|index|), Cat(body, tail));
    }
    ghost var now := w.data;
    ok := WriteBytes(head, w);
    if !ok {
      return;
    }
    Advance(old(w.data), now, w.data, whole, head, Cat(body, tail));
    now := w.data;
    var list := ListOf(index);
    ok := WriteDataOf(d, false, list, w);
    if !ok {
      Abort(old(w.data), now, w.data, whole, body, tail);
      return;
    }
    Advance(old(w.data), now, w.data, whole, body, tail);
    now := w.data;
    ok := WriteBytes(tail, w);
    Finish(old(w.data), now, w.data, ok, whole, tail);
  }

  /** One pass over the items with a hash table from value to key; a value without a hash raises. */
  method BuildDictionary(nullable: bool, placeholder: Value, items: seq<Value>)
      returns (r: Option<(seq<Value>, seq<nat>)>)
    ensures r.Some? <==> AllHashable(items)
    ensures r.Some? ==>
      r.value == (Index(nullable, placeholder, items), Keys(nullable, Distinct(nullable, items), items))
  {
    var slots := if nullable then [placeholder] else [];
    var index, keys: seq<nat> := slots, [];
    var keyByElement: map<Value, nat> := map[];
    ghost var done: seq<Value> := [];
    assert slots + [] == slots;
    for i := 0 to |items|
      invariant |done| == i && done + items[i..] == items
      invariant forall k :: 0 <= k < i ==> Hashable(items[k])
      invariant index == slots + Distinct(nullable, done)
      invariant keys == Keys(nullable, Distinct(nullable, done), done)
      invariant keyByElement == TableOf(Distinct(nullable, done))
    {
      if !Hashable(items[i]) {
        return None;
      }
      index, keys, keyByElement := AddItem(nullable, slots, items[i], index, keys, keyByElement, done);
      MoveOne(done, items);
      done := done + [items[i]];
    }
    assert done + [] == done;
    r := Some((index, keys));
  }

  /** A turn of the loop: the key of the item, and its entry if it is new. */
  method AddItem(nullable: bool, ghost slots: seq<Value>, x: Value, index: seq<Value>, keys: seq<nat>,
                 table: map<Value, nat>, ghost done: seq<Value>)
      returns (index': seq<Value>, keys': seq<nat>, table': map<Value, nat>)
    requires index == slots + Distinct(nullable, done) && keys == Keys(nullable, Distinct(nullable, done), done)
    requires table == TableOf(Distinct(nullable, done))
    ensures index' == slots + Distinct(nullable, done + [x])
    ensures keys' == Keys(nullable, Distinct(nullable, done + [x]), done + [x])
    ensures table' == TableOf(Distinct(nullable, done + [x]))
  {
    KeysStable(nullable, done, x);
    var key, isNew;
    key, table', isNew := KeyFor(nullable, x, table, done);
    index', keys' := index, keys + [key];
    if isNew {
      index' := index + [x];
      Regroup(slots, Distinct(nullable, done), [x]);
    }
  }

  lemma MoveOne(done: seq<Value>, items: seq<Value>)
    requires |done| < |items| && done + items[|done|..] == items
    ensures done + [items[|done|]] + items[|done| + 1..] == items
  {
  }

  /** The key of one item, handed out anew when its value is. */
  method KeyFor(nullable: bool, x: Value, table: map<Value, nat>, ghost done: seq<Value>)
      returns (key: nat, table': map<Value, nat>, isNew: bool)
    requires table == TableOf(Distinct(nullable, done))
    ensures isNew <==> Present(nullable, x) && x !in Distinct(nullable, done)
    ensures var distinct := Distinct(nullable, done);
            var after := if isNew then distinct + [x] else distinct;
            table' == TableOf(after) && key == Key(nullable, after, x)
  {
    table', isNew := table, false;
    ghost var distinct := Distinct(nullable, done);
    DistinctIsExact(nullable, done);
    TableNumbers(distinct, x);
    if nullable && x.Null? {
      return 0, table, false;
    }
    if x in table {
      key := table[x];
    } else {
      key := |table|;
      table', isNew := table[x := key], true;
      NewEntry(distinct, x);
    }
    if nullable {
      key := key + 1;
    }
  }

  lemma NewEntry(distinct: seq<Value>, x: Value)
    requires x !in distinct
    ensures TableOf(distinct + [x]) == TableOf(distinct)[x := |distinct|]
    ensures Position(distinct + [x], x) == |distinct|
  {
    assert (distinct + [x])[..|distinct|] == distinct;
    PositionAppend(distinct, [x], x);
  }

  /** The table that numbers the dictionary entries in order. */
  function TableOf(distinct: seq<Value>): map<Value, nat>
  {
    if distinct == [] then map[]
    else
      var last := |distinct| - 1;
      TableOf(distinct[..last])[distinct[last] := last]
  }

  lemma {:induction false} TableNumbers(distinct: seq<Value>, x: Value)
    requires NoDuplicates(distinct)
    ensures |TableOf(distinct)| == |distinct|
    ensures x in TableOf(distinct) <==> x in distinct
    ensures x in distinct ==> TableOf(distinct)[x] == Position(distinct, x)
  {
    if distinct != [] {
      var front, last := distinct[..|distinct| - 1], distinct[|distinct| - 1];
      assert distinct == front + [last];
      TableNumbers(front, x);
      TableNumbers(front, last);
      PositionAppend(front, [last], x);
    }
  }

  /** Keys handed out earlier stay right when the dictionary grows. */
  lemma KeysStable(nullable: bool, items: seq<Value>, x: Value)
    ensures var before, after := Distinct(nullable, items), Distinct(nullable, items + [x]);
            && after == (if (nullable && x.Null?) || x in before then before else before + [x])
            && Keys(nullable, after, items + [x]) == Keys(nullable, before, items) + [Key(nullable, after, x)]
  {
    assert (items + [x])[..|items|] == items;
    var before, after := Distinct(nullable, items), Distinct(nullable, items + [x]);
    forall y | y in before
      ensures Position(after, y) == Position(before, y)
    {
      PositionAppend(before, [x], y);
    }
    forall i | 0 <= i < |items|
      ensures Key(nullable, after, items[i]) == Key(nullable, before, items[i])
    {
      DistinctIsExact(nullable, items);
      assert items[i] in items;
    }
  }

  // ----- whole columns -----

  /** _write_data of a column that is not an array. */
  method WriteBodyOf(c: Column, nullable: bool, items: array<Value>, w: Writer) returns (ok: bool)
    requires !c.Array?
    modifies items, w
    ensures Emits(old(w.data), w.data, ok, WriteBody(c, nullable, old(items[..])))
    decreases c, 1
  {
    match c
    case Scalar(_, kind) =>
      ok := PrepareItems(c, nullable, items);
      if ok {
        ok := WriteItems(kind, items[..], w);
      }
    case Tuple(_, _, _) => ok := WriteTuple(c, nullable, items, w);
    case Map(_, _, _) => ok := WriteMap(c, nullable, items, w);
    case LowCardinality(_, _) => ok := WriteLowCardinality(c, nullable, items[..], w);
  }

  /** write_data. The null map is taken from the list before prepare_items overwrites it. */
  method WriteDataOf(c: Column, nullable: bool, items: array<Value>, w: Writer) returns (ok: bool)
    modifies items, w
    ensures Emits(old(w.data), w.data, ok, WriteData(c, nullable, old(items[..])))
    decreases c, 4
  {
    if c.Array? {
      ok := WriteArray(c, nullable, items[..], w);
    } else if c.Tuple? {
      ok := WriteBodyOf(c, nullable, items, w);
    } else {
      ghost var start, marks, body := w.data, NullMap(nullable, items[..]), WriteBody(c, nullable, items[..]);
      if nullable {
        w.Write(NullMarks(items[..]));
      }
      ghost var now := w.data;
      Advance(start, start, now, Cat(Some(marks), body), Some(marks), body);
      ok := WriteBodyOf(c, nullable, items, w);
      Finish(start, now, w.data, ok, Cat(Some(marks), body), body);
    }
  }

  method WriteStatePrefixes(inners: seq<Column>, w: Writer)
    modifies w
    ensures w.data == old(w.data) + WritePrefixes(inners, 0)
    decreases inners
  {
    ghost var start, whole := w.data, WritePrefixes(inners, 0);
    for j := 0 to |inners|
      invariant Pending(start, w.data, Some(whole), Some(WritePrefixes(inners, j)))
    {
      ghost var now := w.data;
      WriteStatePrefix(inners[j], w);
      Advance(start, now, w.data, Some(whole), Some(WritePrefix(inners[j])), Some(WritePrefixes(inners, j + 1)));
    }
  }

  method WriteStatePrefix(c: Column, w: Writer)
    modifies w
    ensures w.data == old(w.data) + WritePrefix(c)
    decreases c
  {
    match c
    case Scalar(_, _) =>
    case Array(_, inner) => WriteStatePrefix(inner, w);
    case Tuple(_, _, inners) => WriteStatePrefixes(inners, w);
    case Map(_, key, value) =>
      WriteStatePrefix(key, w);
      WriteStatePrefix(value, w);
    case LowCardinality(_, _) => w.Write(StructPack.LittleEndian(8, 1));
  }

  /** write_column, for the column of a parsed specification. */
  method WriteColumnOf(c: Column, items: array<Value>, w: Writer) returns (ok: bool)
    modifies items, w
    ensures Emits(old(w.data), w.data, ok, WriteColumn(c, old(items[..])))
  {
    ghost var start, prefix, data := w.data, WritePrefix(c), WriteData(c, c.nullable, items[..]);
    WriteStatePrefix(c, w);
    ghost var now := w.data;
    Advance(start, start, now, Cat(Some(prefix), data), Some(prefix), data);
    ok := WriteDataOf(c, c.nullable, items, w);
    Finish(start, now, w.data, ok, Cat(Some(prefix), data), data);
  }
}
