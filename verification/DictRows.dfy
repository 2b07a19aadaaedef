/** Rows given as dicts become positional rows, through nested columns to any depth. */
module DictRows {
  import opened Outcomes
  import opened Blocks
  import opened Columns
  import opened Nesting
  import opened SpecText
  import Dictionaries

  type Declared = seq<(string, string)>

  /** `row[name]`; anything but a dict that has the name raises. */
  function Get(row: Value, name: string): Option<Value>
  {
    if row.Dict? then KeyedItem(row, Str(name)) else None
  }

  predicate IsNested(spec: string)
  {
    "nested" <= spec
  }

  /** A number above the length of every type. */
  function Bound(columns: Declared): (n: nat)
    ensures TypesBelow(columns, n)
  {
    if columns == [] then 0
    else
      var rest := Bound(columns[1..]);
      assert forall k :: 1 <= k < |columns| ==> columns[k] == columns[1..][k - 1];
      if |columns[0].1| < rest then rest else |columns[0].1| + 1
  }

  // ----- the rewriting -----

  /** _pure_mutate_dicts_to_rows, for types shorter than the bound. */
  function RowsOf(columns: Declared, bound: nat, rows: seq<Value>): (r: Option<seq<Value>>)
    requires TypesBelow(columns, bound)
    ensures r.Some? ==> |r.value| == |rows|
    decreases bound, 2, |rows|
  {
    if rows == [] then Some([])
    else
      var cells :- CellsOf(columns, bound, rows[0]);
      var rest :- RowsOf(columns, bound, rows[1..]);
      Some([List(cells)] + rest)
  }

  /** The cells of one row, in the order of the columns. */
  function CellsOf(columns: Declared, bound: nat, row: Value): (r: Option<seq<Value>>)
    requires TypesBelow(columns, bound)
    ensures r.Some? ==> |r.value| == |columns|
    decreases bound, 1, |columns|
  {
    if columns == [] then Some([])
    else
      var value :- Get(row, columns[0].0);
      var cell :- CellOf(columns[0].1, value);
      var rest :- CellsOf(columns[1..], bound, row);
      Some([cell] + rest)
  }

  /** A value of a nested column is a list of dicts itself. Only a list can be overwritten; other values that can
      be iterated over pass while there is nothing in them to overwrite. */
  function CellOf(spec: string, value: Value): Option<Value>
    decreases |spec|, 3
  {
    if !IsNested(spec) then Some(value)
    else
      var columns :- InnerTypes(6, spec);
      if !value.List? then (if IsEmpty(value) then Some(value) else None)
      else
        var rows :- RowsOf(columns, |spec|, value.items);
        Some(List(rows))
  }

  function DictsToRows(columns: Declared, rows: seq<Value>): Option<seq<Value>>
  {
    RowsOf(columns, Bound(columns), rows)
  }

  // ----- what the rewriting means -----

  /** The positional row and the dict say the same, whatever the order of the keys and whatever else the dict
      holds: the values of plain columns are equal, and nested values are lists of the same length whose
      elements say the same. */
  ghost predicate Says(columns: Declared, bound: nat, positional: Value, keyed: Value)
    requires TypesBelow(columns, bound)
    decreases bound, 1, 0
  {
    && positional.List? && |positional.items| == |columns|
    && forall k :: 0 <= k < |columns| ==>
         var u := Get(keyed, columns[k].0);
         u.Some? && SaysCell(columns[k].1, positional.items[k], u.value)
  }

  ghost predicate SaysCell(spec: string, cell: Value, value: Value)
    decreases |spec|, 3, 0
  {
    if !IsNested(spec) then cell == value
    else
      var columns := InnerTypes(6, spec);
      && columns.Some?
      && if !value.List? then IsEmpty(value) && cell == value
         else
           && cell.List? && |cell.items| == |value.items|
           && forall i :: 0 <= i < |cell.items| ==> Says(columns.value, |spec|, cell.items[i], value.items[i])
  }

  lemma {:induction false} CellMeans(spec: string, cell: Value, value: Value)
    ensures CellOf(spec, value) == Some(cell) <==> SaysCell(spec, cell, value)
    decreases |spec|, 3, 0
  {
    if IsNested(spec) && InnerTypes(6, spec).Some? && value.List? && cell.List? {
      RowsMean(InnerTypes(6, spec).value, |spec|, cell.items, value.items);
    }
  }

  lemma {:induction false} RowsMean(columns: Declared, bound: nat, rows: seq<Value>, keyed: seq<Value>)
    requires TypesBelow(columns, bound)
    ensures RowsOf(columns, bound, keyed) == Some(rows)
       <==> |rows| == |keyed| && forall i :: 0 <= i < |rows| ==> Says(columns, bound, rows[i], keyed[i])
    decreases bound, 2, |keyed|
  {
    if keyed != [] && |rows| == |keyed| {
      RowMeans(columns, bound, rows[0], keyed[0]);
      RowsMean(columns, bound, rows[1..], keyed[1..]);
      ConsEqual(CellsOf(columns, bound, keyed[0]), RowsOf(columns, bound, keyed[1..]), rows);
      assert forall i :: 1 <= i < |rows| ==> rows[i] == rows[1..][i - 1] && keyed[i] == keyed[1..][i - 1];
      assert forall i :: 0 <= i < |rows[1..]| ==> rows[1..][i] == rows[i + 1] && keyed[1..][i] == keyed[i + 1];
    }
  }

  lemma ConsEqual(cells: Option<seq<Value>>, rest: Option<seq<Value>>, rows: seq<Value>)
    requires rows != []
    ensures cells.Some? && rest.Some? && [List(cells.value)] + rest.value == rows
       <==> cells.Some? && rows[0] == List(cells.value) && rest == Some(rows[1..])
  {
    if cells.Some? && rest.Some? && [List(cells.value)] + rest.value == rows {
      assert ([List(cells.value)] + rest.value)[1..] == rest.value;
    }
  }

  lemma {:induction false} RowMeans(columns: Declared, bound: nat, row: Value, keyed: Value)
    requires TypesBelow(columns, bound)
    ensures (CellsOf(columns, bound, keyed).Some? && row == List(CellsOf(columns, bound, keyed).value))
       <==> Says(columns, bound, row, keyed)
    decreases bound, 1, |columns|
  {
    if row.List? && |row.items| == |columns| {
      CellsMean(columns, bound, row.items, keyed);
    }
  }

  lemma FirstCell(columns: Declared, bound: nat, cells: seq<Value>, keyed: Value)
    requires TypesBelow(columns, bound) && |cells| == |columns| && columns != []
    ensures CellsOf(columns, bound, keyed) == Some(cells)
       <==> var u := Get(keyed, columns[0].0);
            && u.Some? && CellOf(columns[0].1, u.value) == Some(cells[0])
            && CellsOf(columns[1..], bound, keyed) == Some(cells[1..])
  {
    if CellsOf(columns, bound, keyed).Some? {
      var cell := CellOf(columns[0].1, Get(keyed, columns[0].0).value).value;
      var rest := CellsOf(columns[1..], bound, keyed).value;
      assert ([cell] + rest)[1..] == rest;
    }
    assert [cells[0]] + cells[1..] == cells;
  }

  lemma {:induction false} CellsMean(columns: Declared, bound: nat, cells: seq<Value>, keyed: Value)
    requires TypesBelow(columns, bound) && |cells| == |columns|
    ensures CellsOf(columns, bound, keyed) == Some(cells)
       <==> forall k :: 0 <= k < |columns| ==>
              var u := Get(keyed, columns[k].0); u.Some? && SaysCell(columns[k].1, cells[k], u.value)
    decreases bound, 0, |columns|
  {
    if columns != [] {
      CellsMean(columns[1..], bound, cells[1..], keyed);
      FirstCell(columns, bound, cells, keyed);
      var u := Get(keyed, columns[0].0);
      if u.Some? {
        CellMeans(columns[0].1, cells[0], u.value);
      }
      SplitFirst(columns, cells);
    }
  }

  lemma SplitFirst(columns: Declared, cells: seq<Value>)
    requires |cells| == |columns| && columns != []
    ensures forall k :: 1 <= k < |columns| ==> columns[k] == columns[1..][k - 1] && cells[k] == cells[1..][k - 1]
    ensures forall k :: 0 <= k < |columns[1..]| ==> columns[1..][k] == columns[k + 1] && cells[1..][k] == cells[k + 1]
  {
  }

  /** The block built from dicts has exactly the positional rows that say the same, as many at every level. */
  lemma DictsBecomeRows(columns: Declared, rows: seq<Value>, keyed: seq<Value>)
    ensures DictsToRows(columns, keyed) == Some(rows)
       <==> |rows| == |keyed| && forall i :: 0 <= i < |rows| ==> Says(columns, Bound(columns), rows[i], keyed[i])
  {
    RowsMean(columns, Bound(columns), rows, keyed);
  }

  // ----- the order of the keys -----

  predicate IsDict(row: Value)
  {
    row.Dict? && |row.keys| == |row.vals| && forall i, j :: 0 <= i < j < |row.keys| ==> row.keys[i] != row.keys[j]
  }

  /** Dicts that differ in the order of their keys, at every level of nesting: the same keys, and under every
      declared name the same value or, in a nested column, lists of dicts that differ so. */
  ghost predicate SameUpToKeyOrder(columns: Declared, bound: nat, a: Value, b: Value)
    requires TypesBelow(columns, bound)
    decreases bound, 1, 0
  {
    && IsDict(a) && IsDict(b) && (forall key :: key in a.keys <==> key in b.keys)
    && forall k :: 0 <= k < |columns| && Get(a, columns[k].0).Some? && Get(b, columns[k].0).Some? ==>
         SameCell(columns[k].1, Get(a, columns[k].0).value, Get(b, columns[k].0).value)
  }

  ghost predicate SameCell(spec: string, u: Value, v: Value)
    decreases |spec|, 3, 0
  {
    || u == v
    || (&& IsNested(spec) && InnerTypes(6, spec).Some? && u.List? && v.List? && |u.items| == |v.items|
        && forall i :: 0 <= i < |u.items| ==>
             SameUpToKeyOrder(InnerTypes(6, spec).value, |spec|, u.items[i], v.items[i]))
  }

  ghost predicate AllSame(columns: Declared, bound: nat, a: seq<Value>, b: seq<Value>)
    requires TypesBelow(columns, bound)
  {
    |a| == |b| && forall i :: 0 <= i < |a| ==> SameUpToKeyOrder(columns, bound, a[i], b[i])
  }

  lemma SameGets(columns: Declared, bound: nat, a: Value, b: Value, k: nat)
    requires TypesBelow(columns, bound) && SameUpToKeyOrder(columns, bound, a, b) && k < |columns|
    ensures Get(a, columns[k].0).Some? <==> Get(b, columns[k].0).Some?
  {
    var key := Str(columns[k].0);
    assert key in a.keys <==> key in b.keys;
  }

  lemma {:induction false} SameCells(columns: Declared, bound: nat, a: Value, b: Value)
    requires TypesBelow(columns, bound) && SameUpToKeyOrder(columns, bound, a, b)
    ensures CellsOf(columns, bound, a) == CellsOf(columns, bound, b)
    decreases bound, 1, |columns|
  {
    if columns != [] {
      SameGets(columns, bound, a, b, 0);
      if Get(a, columns[0].0).Some? {
        CellKeyOrder(columns[0].1, Get(a, columns[0].0).value, Get(b, columns[0].0).value);
      }
      assert forall k :: 0 <= k < |columns[1..]| ==> columns[1..][k] == columns[k + 1];
      SameCells(columns[1..], bound, a, b);
    }
  }

  lemma {:induction false} CellKeyOrder(spec: string, u: Value, v: Value)
    requires SameCell(spec, u, v)
    ensures CellOf(spec, u) == CellOf(spec, v)
    decreases |spec|, 3, 0
  {
    if u != v {
      KeyOrderIrrelevant(InnerTypes(6, spec).value, |spec|, u.items, v.items);
    }
  }

  /** Reordering the keys of rows, and of the rows nested in them to any depth, changes nothing. */
  lemma {:induction false} KeyOrderIrrelevant(columns: Declared, bound: nat, a: seq<Value>, b: seq<Value>)
    requires TypesBelow(columns, bound) && AllSame(columns, bound, a, b)
    ensures RowsOf(columns, bound, a) == RowsOf(columns, bound, b)
    decreases bound, 2, |a|
  {
    if a != [] {
      SameCells(columns, bound, a[0], b[0]);
      assert forall i :: 0 <= i < |a[1..]| ==> a[1..][i] == a[i + 1] && b[1..][i] == b[i + 1];
      KeyOrderIrrelevant(columns, bound, a[1..], b[1..]);
    }
  }

  // ----- which rows can be rewritten -----

  /** A dict that holds every declared name, with a list of such dicts under the name of a nested column. */
  predicate Complete(columns: Declared, bound: nat, keyed: Value)
    requires TypesBelow(columns, bound)
    decreases bound, 1, 0
  {
    forall k :: 0 <= k < |columns| ==>
      Get(keyed, columns[k].0).Some? && CompleteCell(columns[k].1, Get(keyed, columns[k].0).value)
  }

  predicate CompleteCell(spec: string, value: Value)
    decreases |spec|, 3, 0
  {
    IsNested(spec) ==>
      && InnerTypes(6, spec).Some?
      && if !value.List? then IsEmpty(value)
         else forall i :: 0 <= i < |value.items| ==> Complete(InnerTypes(6, spec).value, |spec|, value.items[i])
  }

  lemma {:induction false} CellCompletes(spec: string, value: Value)
    ensures CellOf(spec, value).Some? <==> CompleteCell(spec, value)
    decreases |spec|, 3, 0
  {
    if IsNested(spec) && InnerTypes(6, spec).Some? && value.List? {
      RowsComplete(InnerTypes(6, spec).value, |spec|, value.items);
    }
  }

  lemma {:induction false} CellsComplete(columns: Declared, bound: nat, keyed: Value)
    requires TypesBelow(columns, bound)
    ensures CellsOf(columns, bound, keyed).Some? <==> Complete(columns, bound, keyed)
    decreases bound, 1, |columns|
  {
    if columns != [] {
      assert forall k :: 0 <= k < |columns[1..]| ==> columns[1..][k] == columns[k + 1];
      assert forall k :: 1 <= k < |columns| ==> columns[k] == columns[1..][k - 1];
      CellsComplete(columns[1..], bound, keyed);
      if Get(keyed, columns[0].0).Some? {
        CellCompletes(columns[0].1, Get(keyed, columns[0].0).value);
      }
    }
  }

  /** Rows are rewritten exactly if each is complete. */
  lemma {:induction false} RowsComplete(columns: Declared, bound: nat, keyed: seq<Value>)
    requires TypesBelow(columns, bound)
    ensures RowsOf(columns, bound, keyed).Some? <==> forall i :: 0 <= i < |keyed| ==> Complete(columns, bound, keyed[i])
    decreases bound, 2, |keyed|
  {
    if keyed != [] {
      CellsComplete(columns, bound, keyed[0]);
      assert forall i :: 0 <= i < |keyed[1..]| ==> keyed[1..][i] == keyed[i + 1];
      assert forall i :: 1 <= i < |keyed| ==> keyed[i] == keyed[1..][i - 1];
      RowsComplete(columns, bound, keyed[1..]);
    }
  }

  // ----- writing a positional row as a dict -----

  /** Positional rows that fit the columns, and columns whose names do not repeat, at every level. */
  ghost predicate Fits(columns: Declared, bound: nat, row: Value)
    requires TypesBelow(columns, bound)
    decreases bound, 1, 0
  {
    && row.List? && |row.items| == |columns|
    && (forall j, k :: 0 <= j < k < |columns| ==> columns[j].0 != columns[k].0)
    && forall k :: 0 <= k < |columns| ==> FitsCell(columns[k].1, row.items[k])
  }

  ghost predicate FitsCell(spec: string, cell: Value)
    decreases |spec|, 3, 0
  {
    IsNested(spec) ==>
      var columns := InnerTypes(6, spec);
      columns.Some? && cell.List? && forall i :: 0 <= i < |cell.items| ==> Fits(columns.value, |spec|, cell.items[i])
  }

  ghost function AsDict(columns: Declared, bound: nat, row: Value): Value
    requires TypesBelow(columns, bound) && Fits(columns, bound, row)
    decreases bound, 1, 0
  {
    Dict(seq(|columns|, k requires 0 <= k < |columns| => Str(columns[k].0)),
         seq(|columns|, k requires 0 <= k < |columns| => AsDictCell(columns[k].1, row.items[k])))
  }

  ghost function AsDictCell(spec: string, cell: Value): Value
    requires FitsCell(spec, cell)
    decreases |spec|, 3, 0
  {
    if !IsNested(spec) then cell
    else
      var columns := InnerTypes(6, spec).value;
      List(seq(|cell.items|, i requires 0 <= i < |cell.items| => AsDict(columns, |spec|, cell.items[i])))
  }

  lemma GetNamed(columns: Declared, bound: nat, row: Value, k: nat)
    requires TypesBelow(columns, bound) && Fits(columns, bound, row) && k < |columns|
    ensures Get(AsDict(columns, bound, row), columns[k].0) == Some(AsDictCell(columns[k].1, row.items[k]))
  {
    var d := AsDict(columns, bound, row);
    var p := Dictionaries.Position(d.keys, Str(columns[k].0));
    assert d.keys[k] == Str(columns[k].0);
    assert p < |d.keys| && d.keys[p] == d.keys[k];
    assert p == k;
  }

  lemma {:induction false} DictSays(columns: Declared, bound: nat, row: Value)
    requires TypesBelow(columns, bound) && Fits(columns, bound, row)
    ensures Says(columns, bound, row, AsDict(columns, bound, row))
    decreases bound, 1, 0
  {
    forall k | 0 <= k < |columns|
      ensures var u := Get(AsDict(columns, bound, row), columns[k].0);
              u.Some? && SaysCell(columns[k].1, row.items[k], u.value)
    {
      GetNamed(columns, bound, row, k);
      DictCellSays(columns[k].1, row.items[k]);
    }
  }

  lemma {:induction false} DictCellSays(spec: string, cell: Value)
    requires FitsCell(spec, cell)
    ensures SaysCell(spec, cell, AsDictCell(spec, cell))
    decreases |spec|, 3, 0
  {
    if IsNested(spec) {
      var columns := InnerTypes(6, spec).value;
      forall i | 0 <= i < |cell.items|
        ensures Says(columns, |spec|, cell.items[i], AsDictCell(spec, cell).items[i])
      {
        DictSays(columns, |spec|, cell.items[i]);
      }
    }
  }

  // ----- the block -----

  /** RowOrientedBlock(...) of dict rows; only positional rows have their width checked. */
  function NewDictBlock(columns: Declared, keyed: seq<Value>, info: Info): Option<Block>
  {
    var rows :- DictsToRows(columns, keyed);
    Some(RowBlock(columns, rows, info))
  }

  /** RowOrientedBlock(...): the first row decides whether the rows are taken for dicts. */
  function NewBlock(columns: Declared, data: seq<Value>, info: Info): Option<Block>
  {
    if data != [] && data[0].Dict? then NewDictBlock(columns, data, info) else NewRowBlock(columns, data, info)
  }

  /** The block of the rows written as dicts is the block of the rows. */
  lemma SameBlock(columns: Declared, rows: seq<Value>, info: Info)
    requires forall i :: 0 <= i < |rows| ==> Fits(columns, Bound(columns), rows[i])
    ensures var keyed := seq(|rows|, i requires 0 <= i < |rows| => AsDict(columns, Bound(columns), rows[i]));
            NewBlock(columns, keyed, info) == NewBlock(columns, rows, info) == Some(RowBlock(columns, rows, info))
  {
    var keyed := seq(|rows|, i requires 0 <= i < |rows| => AsDict(columns, Bound(columns), rows[i]));
    forall i | 0 <= i < |rows|
      ensures Says(columns, Bound(columns), rows[i], keyed[i])
    {
      DictSays(columns, Bound(columns), rows[i]);
    }
    DictsBecomeRows(columns, rows, keyed);
  }

  // ----- the loops -----

  /** _pure_mutate_dicts_to_rows: the list is overwritten row by row; a row that raises stops it halfway. */
  method MutateDictsToRows(data: array<Value>, columns: Declared, bound: nat) returns (ok: bool)
    requires TypesBelow(columns, bound)
    modifies data
    ensures ok == RowsOf(columns, bound, old(data[..])).Some?
    ensures ok ==> data[..] == RowsOf(columns, bound, old(data[..])).value
    decreases bound, 2, 0
  {
    ghost var whole := data[..];
    assert whole[0..] == whole && data[..0] == [];
    PrependTwice([], [], RowsOf(columns, bound, whole));
    for i := 0 to data.Length
      invariant data[i..] == whole[i..]
      invariant RowsOf(columns, bound, whole) == Prepend(data[..i], RowsOf(columns, bound, whole[i..]))
    {
      assert data[i..][0] == whole[i..][0];
      assert whole[i..][1..] == whole[i + 1..];
      var newData := RowCells(data[i], columns, bound);
      if newData.None? {
        return false;
      }
      PrependTwice(data[..i], [List(newData.value)], RowsOf(columns, bound, whole[i + 1..]));
      ghost var later := data[i + 1..];
      data[i] := List(newData.value);
      assert data[i + 1..] == later;
      assert data[..i + 1] == data[..i] + [List(newData.value)];
    }
    assert data[..data.Length] == data[..] && data[..] + [] == data[..];
    ok := true;
  }

  method RowCells(row: Value, columns: Declared, bound: nat) returns (newData: Option<seq<Value>>)
    requires TypesBelow(columns, bound)
    ensures newData == CellsOf(columns, bound, row)
    decreases bound, 1, 0
  {
    var cells := [];
    assert columns[0..] == columns;
    PrependTwice([], [], CellsOf(columns, bound, row));
    for k := 0 to |columns|
      invariant CellsOf(columns, bound, row) == Prepend(cells, CellsOf(columns[k..], bound, row))
    {
      assert columns[k..][0] == columns[k] && columns[k..][1..] == columns[k + 1..];
      var value := Get(row, columns[k].0);
      if value.None? {
        return None;
      }
      var cell := CellIn(columns[k].1, value.value);
      if cell.None? {
        return None;
      }
      PrependTwice(cells, [cell.value], CellsOf(columns[k + 1..], bound, row));
      cells := cells + [cell.value];
    }
    assert cells + [] == cells;
    newData := Some(cells);
  }

  method CellIn(spec: string, value: Value) returns (cell: Option<Value>)
    ensures cell == CellOf(spec, value)
    decreases |spec|, 3, 0
  {
    if !IsNested(spec) {
      return Some(value);
    }
    var columns := InnerTypes(6, spec);
    if columns.None? {
      return None;
    }
    if !value.List? {
      return if IsEmpty(value) then Some(value) else None;
    }
    var list := new Value[|value.items|](i requires 0 <= i < |value.items| => value.items[i]);
    assert list[..] == value.items;
    var ok := MutateDictsToRows(list, columns.value, |spec|);
    cell := if ok then Some(List(list[..])) else None;
  }
}
