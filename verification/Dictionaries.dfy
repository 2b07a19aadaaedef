/** The dictionary of a low_cardinality column: its distinct values and the key of every item. */
module Dictionaries {
  import opened Columns
  import Bits
  import StructPack

  /** Distinct items in order of first occurrence; None is no dictionary entry when skipNull is set. */
  function Distinct(skipNull: bool, items: seq<Value>): seq<Value>
  {
    if items == [] then []
    else
      var front, x := items[..|items| - 1], items[|items| - 1];
      var d := Distinct(skipNull, front);
      if (skipNull && x.Null?) || x in d then d else d + [x]
  }

  /** The dictionary written: slot 0 of a nullable column stands for NULL. */
  function Index(nullable: bool, placeholder: Value, items: seq<Value>): seq<Value>
  {
    (if nullable then [placeholder] else []) + Distinct(nullable, items)
  }

  /** Position of the first occurrence of x, or |s|. */
  function Position(s: seq<Value>, x: Value): (k: nat)
    ensures k <= |s| && (k < |s| <==> x in s)
    ensures k < |s| ==> s[k] == x && x !in s[..k]
  {
    if s == [] then 0
    else if s[0] == x then 0
    else
      var k := Position(s[1..], x);
      assert k < |s| - 1 ==> s[..k + 1] == [s[0]] + s[1..][..k];
      k + 1
  }

  function Key(nullable: bool, distinct: seq<Value>, x: Value): nat
  {
    if nullable && x.Null? then 0 else Position(distinct, x) + if nullable then 1 else 0
  }

  function Keys(nullable: bool, distinct: seq<Value>, items: seq<Value>): (r: seq<nat>)
    ensures |r| == |items|
  {
    seq(|items|, i requires 0 <= i < |items| => Key(nullable, distinct, items[i]))
  }

  // ----- the key type -----

  function FloorLog2(n: nat): nat
    requires n > 0
  {
    if n == 1 then 0 else 1 + FloorLog2(n / 2)
  }

  /** `int(log(n, 2) / 8)` with the logarithm exact. */
  function KeyType(n: nat): nat
    requires n > 0
  {
    FloorLog2(n) / 8
  }

  /** Bytes of a key: UInt8 to UInt64 for types 0 to 3. */
  function KeyWidth(keyType: nat): nat
    requires keyType < 4
  {
    [1, 2, 4, 8][keyType]
  }

  // ----- properties of the dictionary -----

  predicate Present(skipNull: bool, x: Value)
  {
    !(skipNull && x.Null?)
  }

  /** The dictionary lists exactly the values present, each once. */
  lemma {:induction false} DistinctIsExact(skipNull: bool, items: seq<Value>)
    ensures NoDuplicates(Distinct(skipNull, items))
    ensures forall x :: x in Distinct(skipNull, items) <==> x in items && Present(skipNull, x)
  {
    if items != [] {
      var front, x := items[..|items| - 1], items[|items| - 1];
      DistinctIsExact(skipNull, front);
      assert items == front + [x];
    }
  }

  /** Values come in the order of their first occurrences. */
  lemma {:induction false} DistinctKeepsOrder(skipNull: bool, items: seq<Value>, p: nat, q: nat)
    requires p < q < |Distinct(skipNull, items)|
    ensures var d := Distinct(skipNull, items); Position(items, d[p]) < Position(items, d[q])
  {
    var front, x := items[..|items| - 1], items[|items| - 1];
    var d := Distinct(skipNull, front);
    assert items == front + [x];
    DistinctIsExact(skipNull, front);
    PositionAppend(front, [x], d[p]);
    if q < |d| {
      DistinctKeepsOrder(skipNull, front, p, q);
      PositionAppend(front, [x], d[q]);
    } else {
      PositionAppend(front, [x], x);
    }
  }

  lemma {:induction false} PositionAppend(a: seq<Value>, b: seq<Value>, x: Value)
    ensures Position(a + b, x) == if x in a then Position(a, x) else |a| + Position(b, x)
  {
    if a == [] {
      assert a + b == b;
    } else {
      assert (a + b)[1..] == a[1..] + b;
      PositionAppend(a[1..], b, x);
    }
  }

  /** Every key points at its item: NULL at slot 0, any other value at an entry equal to it. */
  lemma KeysPointAtItems(nullable: bool, placeholder: Value, items: seq<Value>)
    ensures var d := Distinct(nullable, items);
            var index := Index(nullable, placeholder, items);
            var keys := Keys(nullable, d, items);
            forall i :: 0 <= i < |items| ==>
              && keys[i] < |index|
              && (nullable ==> (keys[i] == 0 <==> items[i].Null?))
              && (Present(nullable, items[i]) ==> index[keys[i]] == items[i])
  {
    DistinctIsExact(nullable, items);
    var d := Distinct(nullable, items);
    forall i | 0 <= i < |items| && Present(nullable, items[i])
      ensures items[i] in d
    {
      assert items[i] in items;
    }
  }

  lemma {:induction false} DistinctLength(skipNull: bool, items: seq<Value>)
    ensures |Distinct(skipNull, items)| <= |items|
  {
    if items != [] {
      DistinctLength(skipNull, items[..|items| - 1]);
    }
  }

  lemma {:induction false} FloorLog2Bounds(n: nat)
    requires n > 0
    ensures Bits.Pow2(FloorLog2(n)) <= n < Bits.Pow2(FloorLog2(n) + 1)
  {
    if n > 1 {
      FloorLog2Bounds(n / 2);
    }
  }

  /** A key type exists exactly for dictionaries of fewer than 2^32 entries. */
  lemma KeyTypeExists(n: nat)
    requires n > 0
    ensures KeyType(n) < 4 <==> n < 0x1_0000_0000
  {
    FloorLog2Bounds(n);
    Bits.Pow2Values();
    if FloorLog2(n) < 32 {
      Bits.Pow2Monotone(FloorLog2(n) + 1, 32);
    } else {
      Bits.Pow2Monotone(32, FloorLog2(n));
    }
  }

  /** Every key of a dictionary of n entries fits the width chosen for n. */
  lemma KeysFit(n: nat, key: nat)
    requires 0 < n < 0x1_0000_0000 && key < n
    ensures KeyType(n) < 4 && StructPack.Fits(false, KeyWidth(KeyType(n)), key)
  {
    KeyTypeExists(n);
    FloorLog2Bounds(n);
    Bits.Pow2Values();
    Bits.Pow2Monotone(FloorLog2(n) + 1, 8 * (KeyType(n) + 1));
    StructPack.SpanValues();
  }
}
