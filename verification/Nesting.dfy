/** Flattening lists of iterables into offsets and items, and cutting them apart again. */
module Nesting {
  import opened Columns
  import opened Outcomes
  import opened Slicing

  predicate AllLists(items: seq<Value>)
  {
    forall i :: 0 <= i < |items| ==> items[i].List?
  }

  /** Values that have a length and can be iterated over: strings and bytes too, and dicts by their keys. */
  predicate Iterable(v: Value)
  {
    v.List? || v.Row? || v.Str? || v.Raw? || v.Dict?
  }

  /** What iterating over a value yields; nothing where it raises. */
  function Elements(v: Value): seq<Value>
  {
    match v
    case List(items) => items
    case Row(items) => items
    case Str(text) => Characters(text)
    case Raw(bytes) => Numbers(bytes)
    case Dict(keys, _) => keys
    case _ => []
  }

  predicate IsEmpty(v: Value)
  {
    Iterable(v) && Elements(v) == []
  }

  /** What iterating over a string yields: strings of one character. */
  function Characters(text: string): (r: seq<Value>)
    ensures |r| == |text|
  {
    seq(|text|, i requires 0 <= i < |text| => Str([text[i]]))
  }

  /** What iterating over bytes yields: numbers. */
  function Numbers(bytes: Bytes): (r: seq<Value>)
    ensures |r| == |bytes|
  {
    seq(|bytes|, i requires 0 <= i < |bytes| => Num(bytes[i]))
  }

  predicate AllIterable(items: seq<Value>)
  {
    forall i :: 0 <= i < |items| ==> Iterable(items[i])
  }

  /** One level of nesting removed. */
  function Flatten(items: seq<Value>): seq<Value>
  {
    if items == [] then [] else Elements(items[0]) + Flatten(items[1..])
  }

  /** Running totals of the lengths, starting from base. */
  function Offsets(items: seq<Value>, base: nat): (r: seq<nat>)
    ensures |r| == |items|
  {
    if items == [] then []
    else
      var offset := base + |Elements(items[0])|;
      [offset] + Offsets(items[1..], offset)
  }

  /** `[data[b:e] for b, e in pairwise([begin] + ends)]` */
  function Slices(data: seq<Value>, begin: nat, ends: seq<nat>): (r: seq<Value>)
    ensures |r| == |ends| && AllLists(r)
    decreases ends
  {
    if ends == [] then [] else [List(Slice(data, begin, ends[0]))] + Slices(data, ends[0], ends[1..])
  }

  /** The last offset of a level, which is the number of items of the next one. */
  function Total(offsets: seq<nat>): nat
  {
    if offsets == [] then 0 else offsets[|offsets| - 1]
  }

  /** The first offset and the others. */
  lemma OffsetsFirst(items: seq<Value>, others: seq<Value>, base: nat)
    requires items != [] && items[1..] == others
    ensures var offset := base + |Elements(items[0])|;
            && Offsets(items, base) == [offset] + Offsets(others, offset)
            && base + |Flatten(items)| == offset + |Flatten(others)|
  {
  }

  /** Offsets depend on nothing but the lengths. */
  predicate SameLengths(xs: seq<Value>, ys: seq<Value>)
  {
    |xs| == |ys| && forall i :: 0 <= i < |xs| ==> |Elements(xs[i])| == |Elements(ys[i])|
  }

  lemma {:induction false} SameOffsets(xs: seq<Value>, ys: seq<Value>, base: nat)
    requires SameLengths(xs, ys)
    ensures Offsets(xs, base) == Offsets(ys, base)
    decreases |xs|
  {
    if xs != [] {
      OffsetsFirst(xs, xs[1..], base);
      OffsetsFirst(ys, ys[1..], base);
      SameOffsets(xs[1..], ys[1..], base + |Elements(xs[0])|);
    }
  }

  /** Numbers that never decrease, from low to high. */
  ghost predicate Rises(numbers: seq<nat>, low: nat, high: nat)
  {
    && (forall i :: 0 <= i < |numbers| ==> low <= numbers[i] <= high)
    && (forall i, j :: 0 <= i <= j < |numbers| ==> numbers[i] <= numbers[j])
  }

  lemma RisesFrom(low: nat, first: nat, others: seq<nat>, high: nat)
    requires low <= first <= high && Rises(others, first, high)
    ensures Rises([first] + others, low, high)
  {
  }

  /** Offsets never decrease and end at the length of the flattened items. */
  lemma {:induction false} OffsetsPartition(items: seq<Value>, base: nat)
    ensures Rises(Offsets(items, base), base, base + |Flatten(items)|)
    ensures items != [] ==> Total(Offsets(items, base)) == base + |Flatten(items)|
    decreases items
  {
    if items != [] {
      var offset, others := base + |Elements(items[0])|, items[1..];
      OffsetsPartition(others, offset);
      OffsetsFirst(items, others, base);
      RisesFrom(base, offset, Offsets(others, offset), base + |Flatten(items)|);
    }
  }

  lemma TotalIsLength(items: seq<Value>)
    ensures Total(Offsets(items, 0)) == |Flatten(items)|
  {
    OffsetsPartition(items, 0);
  }

  /** The first list, cut off the front of the data that is left. */
  lemma SliceFirst(data: seq<Value>, begin: nat, head: seq<Value>, tail: seq<Value>)
    requires begin <= |data| && data[begin..] == head + tail
    ensures begin + |head| <= |data| && data[begin + |head|..] == tail
    ensures Slice(data, begin, begin + |head|) == head
  {
    assert data[begin..][|head|..] == tail && data[begin..][..|head|] == head;
  }

  /** Cutting the flattened items at the offsets restores the nesting, wherever in the data they start. */
  lemma {:induction false} SlicesUndoFlatten(data: seq<Value>, begin: nat, items: seq<Value>)
    requires AllLists(items) && begin <= |data| && data[begin..] == Flatten(items)
    ensures Slices(data, begin, Offsets(items, begin)) == items
    decreases items
  {
    if items != [] {
      var head, others := items[0].items, items[1..];
      SliceFirst(data, begin, head, Flatten(others));
      SlicesUndoFlatten(data, begin + |head|, others);
      OffsetsFirst(items, others, begin);
      assert [List(head)] + others == items;
    }
  }

  lemma SlicesOfFlatten(items: seq<Value>)
    requires AllLists(items)
    ensures Slices(Flatten(items), 0, Offsets(items, 0)) == items
  {
    SlicesUndoFlatten(Flatten(items), 0, items);
  }

  /** What holds of every element of every list holds of every flattened item. */
  lemma {:induction false} FlattenForall(items: seq<Value>, p: Value -> bool)
    requires forall i, j :: 0 <= i < |items| && 0 <= j < |Elements(items[i])| ==> p(Elements(items[i])[j])
    ensures forall k :: 0 <= k < |Flatten(items)| ==> p(Flatten(items)[k])
  {
    if items != [] {
      assert forall i :: 0 <= i < |items[1..]| ==> items[1..][i] == items[1 + i];
      FlattenForall(items[1..], p);
    }
  }

  lemma Regroup<T>(a: seq<T>, b: seq<T>, c: seq<T>)
    ensures a + (b + c) == a + b + c
  {
  }
}
