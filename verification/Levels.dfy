/** The level-by-level view of arrays: all offsets first, breadth first, then the leaf items. It means
    the same as the recursive format. */
module Levels {
  import opened Outcomes
  import opened Columns
  import opened Nesting
  import opened ColumnCodec
  import StructPack

  /** The column below all array levels. */
  function LeafColumn(c: Column): Column
  {
    if c.Array? then LeafColumn(c.inner) else c
  }

  // ----- writing -----

  /** The offsets of every level in the order they are written. */
  function LevelOffsets(c: Column, items: seq<Value>): Option<seq<nat>>
  {
    if !c.Array? then Some([])
    else if !AllIterable(items) then None
    else Prepend(Offsets(items, 0), LevelOffsets(c.inner, Flatten(items)))
  }

  function WriteLeaf(c: Column, leaves: seq<Value>): Option<Bytes>
  {
    Cat(Some(NullMap(c.nullable, leaves)), if leaves == [] then Some([]) else WriteBody(c, c.nullable, leaves))
  }

  function WriteLevels(c: Column, items: seq<Value>): Option<Bytes>
  {
    var offsets :- LevelOffsets(c, items);
    var leaves :- LeafValues(c, items);
    Cat(WriteUInt64s(offsets), WriteLeaf(LeafColumn(c), leaves))
  }

  lemma {:induction false} PackAppend(a: seq<nat>, b: seq<nat>)
    ensures WriteUInt64s(a + b) == Cat(WriteUInt64s(a), WriteUInt64s(b))
  {
    if a == [] {
      assert a + b == b;
      CatNothing(WriteUInt64s(b));
    } else {
      assert (a + b)[1..] == a[1..] + b;
      PackAppend(a[1..], b);
      CatAssociative(StructPack.Pack(false, 8, a[0]), WriteUInt64s(a[1..]), WriteUInt64s(b));
    }
  }

  /** Writing level by level writes what the recursive format prescribes. */
  lemma {:induction false} LevelsWriteNested(c: Column, items: seq<Value>)
    ensures WriteLevels(c, items) == WriteNested(c, items)
  {
    if !c.Array? {
      CatNothing(WriteLeaf(c, items));
    } else if AllIterable(items) {
      var flat := Flatten(items);
      LevelsWriteNested(c.inner, flat);
      var offsets, leaves := LevelOffsets(c.inner, flat), LeafValues(c.inner, flat);
      if offsets.Some? && leaves.Some? {
        PackAppend(Offsets(items, 0), offsets.value);
        CatAssociative(WriteUInt64s(Offsets(items, 0)), WriteUInt64s(offsets.value),
                       WriteLeaf(LeafColumn(c), leaves.value));
      }
    }
  }

  // ----- reading -----

  /** The offsets of every level, and the number of leaf items. */
  function ReadLevels(c: Column, n: nat, s: Bytes): Parsed<(seq<seq<nat>>, nat)>
  {
    if !c.Array? then Some((([], n), s))
    else
      var (offsets, s') :- ReadUInt64s(n, s);
      var (levels, rest) :- ReadLevels(c.inner, Total(offsets), s');
      Some((([offsets] + levels.0, levels.1), rest))
  }

  function ReadLeaf(c: Column, n: nat, s: Bytes): (r: Parsed<seq<Value>>)
    ensures r.Some? ==> |r.value.0| == n
  {
    var (mask, s') :- ReadNullMap(c.nullable, n, s);
    if n == 0 then Some(([], s')) else ReadBody(c, mask, n, s')
  }

  /** The innermost level sliced first, the outermost last. */
  function Rebuild(series: seq<seq<nat>>, data: seq<Value>): (r: seq<Value>)
    ensures |r| == if series == [] then |data| else |series[0]|
  {
    if series == [] then data else Slices(Rebuild(series[1..], data), 0, series[0])
  }

  function ReadByLevels(c: Column, n: nat, s: Bytes): Parsed<seq<Value>>
  {
    var (levels, s') :- ReadLevels(c, n, s);
    var (data, rest) :- ReadLeaf(LeafColumn(c), levels.1, s');
    Some((Rebuild(levels.0, data), rest))
  }

  /** Reading level by level reads what the recursive format prescribes. */
  lemma {:induction false} LevelsReadNested(c: Column, n: nat, s: Bytes)
    ensures ReadByLevels(c, n, s) == ReadNested(c, n, s)
  {
    if c.Array? {
      var r := ReadUInt64s(n, s);
      if r.Some? {
        var (offsets, s') := r.value;
        LevelsReadNested(c.inner, Total(offsets), s');
        var inner := ReadLevels(c.inner, Total(offsets), s');
        if inner.Some? {
          assert ([offsets] + inner.value.0.0)[1..] == inner.value.0.0;
        }
      }
    }
  }
}
