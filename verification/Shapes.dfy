/** Lists given where tuples are declared, and tuples where arrays are: the same bytes are written, and what
    is read has the declared shape. */
module Shapes {
  import opened Outcomes
  import opened Columns
  import opened Nesting
  import opened ColumnCodec
  import opened ColumnRoundTrip

  predicate Sequence(v: Value)
  {
    v.List? || v.Row?
  }

  /** The same value up to lists and tuples in the places of arrays and tuples; where a hash is taken, in keys
      and dictionaries, the values are equal. */
  predicate Alike(c: Column, a: Value, b: Value)
    decreases c
  {
    a == b ||
    match c
    case Scalar(_, _) => false
    case Array(_, inner) =>
      && Sequence(a) && Sequence(b) && |a.items| == |b.items|
      && forall i :: 0 <= i < |a.items| ==> Alike(inner, a.items[i], b.items[i])
    case Tuple(_, _, inners) =>
      && Sequence(a) && Sequence(b) && |a.items| == |b.items| == |inners|
      && forall j :: 0 <= j < |inners| ==> Alike(inners[j], a.items[j], b.items[j])
    case Map(_, _, value) =>
      && a.Dict? && b.Dict? && a.keys == b.keys && |a.vals| == |b.vals|
      && forall i :: 0 <= i < |a.vals| ==> Alike(value, a.vals[i], b.vals[i])
    case LowCardinality(_, _) => false
  }

  predicate AllAlike(c: Column, xs: seq<Value>, ys: seq<Value>)
  {
    |xs| == |ys| && forall i :: 0 <= i < |xs| ==> Alike(c, xs[i], ys[i])
  }

  // ----- the parts of values that are alike -----

  lemma AlikeElements(c: Column, a: Value, b: Value)
    requires c.Array? && Alike(c, a, b)
    ensures Iterable(a) <==> Iterable(b)
    ensures AllAlike(c.inner, Elements(a), Elements(b))
  {
  }

  lemma AlikeIterable(c: Column, xs: seq<Value>, ys: seq<Value>)
    requires c.Array? && AllAlike(c, xs, ys)
    ensures AllIterable(xs) <==> AllIterable(ys)
  {
    forall i | 0 <= i < |xs|
      ensures Iterable(xs[i]) <==> Iterable(ys[i])
    {
      AlikeElements(c, xs[i], ys[i]);
    }
  }

  lemma AlikeAppend(c: Column, a: seq<Value>, b: seq<Value>, a': seq<Value>, b': seq<Value>)
    requires AllAlike(c, a, a') && AllAlike(c, b, b')
    ensures AllAlike(c, a + b, a' + b')
  {
  }

  lemma {:induction false} AlikeFlatten(c: Column, xs: seq<Value>, ys: seq<Value>)
    requires c.Array? && AllAlike(c, xs, ys)
    ensures AllAlike(c.inner, Flatten(xs), Flatten(ys))
    decreases xs
  {
    if xs != [] {
      AlikeElements(c, xs[0], ys[0]);
      AlikeFlatten(c, xs[1..], ys[1..]);
      AlikeAppend(c.inner, Elements(xs[0]), Flatten(xs[1..]), Elements(ys[0]), Flatten(ys[1..]));
    }
  }

  lemma AlikeOffsets(c: Column, xs: seq<Value>, ys: seq<Value>, base: nat)
    requires c.Array? && AllAlike(c, xs, ys)
    ensures Offsets(xs, base) == Offsets(ys, base)
  {
    forall i | 0 <= i < |xs|
      ensures |Elements(xs[i])| == |Elements(ys[i])|
    {
      AlikeElements(c, xs[i], ys[i]);
    }
    SameOffsets(xs, ys, base);
  }

  lemma {:induction false} AlikeLeaves(c: Column, xs: seq<Value>, ys: seq<Value>)
    requires AllAlike(c, xs, ys)
    ensures LeafValues(c, xs).Some? <==> LeafValues(c, ys).Some?
    ensures LeafValues(c, xs).Some? ==> |LeafValues(c, xs).value| == |LeafValues(c, ys).value|
  {
    if c.Array? {
      AlikeIterable(c, xs, ys);
      if AllIterable(xs) {
        AlikeFlatten(c, xs, ys);
        AlikeLeaves(c.inner, Flatten(xs), Flatten(ys));
      }
    }
  }

  lemma AlikeFilled(c: Column, nullable: bool, xs: seq<Value>, ys: seq<Value>)
    requires AllAlike(c, xs, ys)
    ensures AllAlike(c, Filled(c, nullable, xs), Filled(c, nullable, ys))
    ensures NullMap(nullable, xs) == NullMap(nullable, ys)
  {
    forall i | 0 <= i < |xs|
      ensures xs[i].Null? <==> ys[i].Null?
    {
      assert Alike(c, xs[i], ys[i]);
    }
    assert NullMarks(xs) == NullMarks(ys);
  }

  lemma AlikeRows(c: Column, xs: seq<Value>, ys: seq<Value>)
    requires c.Tuple? && AllAlike(c, xs, ys)
    ensures RowsCover(xs, |c.inners|) <==> RowsCover(ys, |c.inners|)
    ensures RowsCover(xs, |c.inners|) ==>
      forall j :: 0 <= j < |c.inners| ==> AllAlike(c.inners[j], ColumnAt(xs, j), ColumnAt(ys, j))
  {
    forall i | 0 <= i < |xs|
      ensures Iterable(xs[i]) <==> Iterable(ys[i])
      ensures Iterable(xs[i]) ==> |Elements(xs[i])| == |Elements(ys[i])|
    {
      assert Alike(c, xs[i], ys[i]);
    }
    if RowsCover(xs, |c.inners|) {
      forall j, i | 0 <= j < |c.inners| && 0 <= i < |xs|
        ensures Alike(c.inners[j], ColumnAt(xs, j)[i], ColumnAt(ys, j)[i])
      {
        assert Alike(c, xs[i], ys[i]);
      }
    }
  }

  lemma {:induction false} AlikeDicts(c: Column, xs: seq<Value>, ys: seq<Value>)
    requires c.Map? && AllAlike(c, xs, ys)
    ensures AllDicts(xs) <==> AllDicts(ys)
    ensures AllDicts(xs) ==> KeyLists(xs) == KeyLists(ys)
    ensures AllDicts(xs) ==> AllAlike(c.value, Flatten(ValueLists(xs)), Flatten(ValueLists(ys)))
    decreases xs
  {
    forall i | 0 <= i < |xs|
      ensures xs[i].Dict? <==> ys[i].Dict?
      ensures xs[i].Dict? ==> xs[i].keys == ys[i].keys && AllAlike(c.value, xs[i].vals, ys[i].vals)
    {
      assert Alike(c, xs[i], ys[i]);
    }
    if xs != [] && AllDicts(xs) {
      assert ValueLists(xs)[1..] == ValueLists(xs[1..]) && ValueLists(ys)[1..] == ValueLists(ys[1..]);
      AlikeDicts(c, xs[1..], ys[1..]);
    }
  }

  // ----- writing -----

  /** A column writes the same bytes for values that are alike, or fails on both. */
  lemma {:induction false} WrittenAlike(c: Column, nullable: bool, xs: seq<Value>, ys: seq<Value>)
    requires AllAlike(c, xs, ys)
    ensures WriteData(c, nullable, xs) == WriteData(c, nullable, ys)
    decreases c, 3
  {
    AlikeFilled(c, nullable, xs, ys);
    if c.Array? {
      AlikeLeaves(c, xs, ys);
      NestedAlike(c, xs, ys);
    } else {
      BodyAlike(c, nullable, xs, ys);
    }
  }

  lemma {:induction false} NestedAlike(c: Column, xs: seq<Value>, ys: seq<Value>)
    requires AllAlike(c, xs, ys)
    ensures WriteNested(c, xs) == WriteNested(c, ys)
    decreases c, 2
  {
    if c.Array? {
      AlikeIterable(c, xs, ys);
      if AllIterable(xs) {
        AlikeFlatten(c, xs, ys);
        AlikeOffsets(c, xs, ys, 0);
        NestedAlike(c.inner, Flatten(xs), Flatten(ys));
      }
    } else {
      AlikeFilled(c, c.nullable, xs, ys);
      BodyAlike(c, c.nullable, xs, ys);
    }
  }

  lemma {:induction false} BodyAlike(c: Column, nullable: bool, xs: seq<Value>, ys: seq<Value>)
    requires !c.Array? && AllAlike(c, xs, ys)
    ensures WriteBody(c, nullable, xs) == WriteBody(c, nullable, ys)
    decreases c, 1
  {
    AlikeFilled(c, nullable, xs, ys);
    var rows, rows' := Filled(c, nullable, xs), Filled(c, nullable, ys);
    match c
    case Tuple(_, _, inners) =>
      AlikeRows(c, rows, rows');
      if RowsCover(rows, |inners|) {
        ColumnsAlike(inners, rows, rows', 0);
      }
    case Map(_, _, value) =>
      AlikeDicts(c, rows, rows');
      if AllDicts(rows) {
        WrittenAlike(value, value.nullable, Flatten(ValueLists(rows)), Flatten(ValueLists(rows')));
      }
    case Scalar(_, _) => assert xs == ys;
    case LowCardinality(_, _) => assert xs == ys;
  }

  lemma {:induction false} ColumnsAlike(inners: seq<Column>, xs: seq<Value>, ys: seq<Value>, j: nat)
    requires j <= |inners| && RowsCover(xs, |inners|) && RowsCover(ys, |inners|)
    requires forall k :: 0 <= k < |inners| ==> AllAlike(inners[k], ColumnAt(xs, k), ColumnAt(ys, k))
    ensures WriteColumns(inners, xs, j) == WriteColumns(inners, ys, j)
    decreases inners, |inners| - j
  {
    if j < |inners| {
      WrittenAlike(inners[j], inners[j].nullable, ColumnAt(xs, j), ColumnAt(ys, j));
      ColumnsAlike(inners, xs, ys, j + 1);
    }
  }

  /** Values that are alike to typed ones are read back as the typed ones. */
  lemma ShapesReadBack(c: Column, given: seq<Value>, items: seq<Value>, rest: Bytes)
    requires WellFormed(c) && AllHaveType(c, c.nullable, items) && Readable(c, c.nullable, items)
    requires AllAlike(c, given, items) && WriteColumn(c, given).Some?
    ensures ReadColumn(c, |given|, WriteColumn(c, given).value + rest) == Some((items, rest))
  {
    WrittenAlike(c, c.nullable, given, items);
    ColumnReadsBack(c, items, rest);
  }
}
