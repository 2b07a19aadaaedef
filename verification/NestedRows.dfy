/** Dict rows of declared columns: the rewriting in terms of what is declared instead of its text. */
module NestedRows {
  import opened Outcomes
  import opened Blocks
  import opened Columns
  import opened DictRows
  import opened SpecText
  import SpecParser

  /** What a column is declared as: a printed type, or nested(name type, ...) of any depth. */
  datatype Declaration = Plain(column: Column) | Group(fields: seq<Field>)

  datatype Field = Field(name: string, part: Declaration)

  function Text(d: Declaration): string
    decreases d, 1
  {
    match d
    case Plain(c) => SpecParser.Print(c)
    case Group(fields) => "nested(" + Listing(Texts(fields)) + ")"
  }

  function Texts(fields: seq<Field>): (r: Declared)
    ensures |r| == |fields|
    decreases fields, 0
  {
    seq(|fields|, k requires 0 <= k < |fields| => (fields[k].name, Text(fields[k].part)))
  }

  /** Declarations whose text is understood: printable types, and names without commas or spaces in nested ones. */
  ghost predicate Spelled(d: Declaration)
  {
    match d
    case Plain(c) => SpecParser.Printable(c)
    case Group(fields) =>
      && fields != []
      && forall k :: 0 <= k < |fields| ==>
           && Quiet(fields[k].name) && (fields[k].name == "" || Trimmed(fields[k].name))
           && Spelled(fields[k].part)
  }

  // ----- what is to become of a value -----

  /** Values of printed types stay as they are. Those of nested columns are lists, rewritten row by row; anything
      else must have nothing in it to rewrite. */
  function Rewritten(d: Declaration, value: Value): Option<Value>
    decreases d, 2
  {
    match d
    case Plain(_) => Some(value)
    case Group(fields) =>
      if !value.List? then (if Hollow(value) then Some(value) else None)
      else
        var rows :- AllRewritten(fields, value.items);
        Some(List(rows))
  }

  /** What can be iterated over, is no list, and yields nothing. */
  predicate Hollow(v: Value)
  {
    v == Row([]) || v == Str("") || v == Raw([]) || (v.Dict? && v.keys == [])
  }

  function AllRewritten(fields: seq<Field>, keyed: seq<Value>): Option<seq<Value>>
    decreases fields, 1
  {
    if forall i :: 0 <= i < |keyed| ==> RowRewritten(fields, keyed[i]).Some?
    then Some(seq(|keyed|, i requires 0 <= i < |keyed| => RowRewritten(fields, keyed[i]).value))
    else None
  }

  /** The cell of field k of a dict. */
  function FieldOf(fields: seq<Field>, k: nat, keyed: Value): Option<Value>
    requires k < |fields|
    decreases fields, 0, 0
  {
    var value :- Get(keyed, fields[k].name);
    Rewritten(fields[k].part, value)
  }

  /** A dict that has every name becomes the list of what its values become, in the order declared. */
  function RowRewritten(fields: seq<Field>, keyed: Value): Option<Value>
    decreases fields, 0, 1
  {
    if forall k :: 0 <= k < |fields| ==> FieldOf(fields, k, keyed).Some?
    then Some(List(seq(|fields|, k requires 0 <= k < |fields| => FieldOf(fields, k, keyed).value)))
    else None
  }

  // ----- the texts -----

  /** No printed type starts as nested ones do. */
  lemma PrintedIsPlain(c: Column)
    requires SpecParser.Printable(c)
    ensures !("nested" <= SpecParser.Print(c))
  {
    var s := SpecParser.Print(c);
    if c.nullable {
      assert s[1] == 'u';
    } else {
      match c
      case Scalar(_, kind) => KindIsPlain(kind);
      case _ => assert s[0] != 'n';
    }
  }

  lemma KindIsPlain(kind: Kind)
    ensures SpecParser.KindText(kind)[0] != 'n'
  {
  }

  lemma {:induction false} TextIsQuiet(d: Declaration)
    requires Spelled(d)
    ensures Quiet(Text(d)) && Trimmed(Text(d))
    decreases d, 1
  {
    match d
    case Plain(c) => SpecParser.PrintIsQuiet(c);
    case Group(fields) =>
      TextsAreElements(fields);
      ListingIsTrimmed(Texts(fields));
      SpecParser.Wrapped("nested", "nested(", Listing(Texts(fields)));
  }

  lemma {:induction false} TextsAreElements(fields: seq<Field>)
    requires Spelled(Group(fields))
    ensures Elements(Texts(fields))
    decreases fields, 0
  {
    var es := Texts(fields);
    forall k | 0 <= k < |es|
      ensures Element(es[k])
    {
      TextIsQuiet(fields[k].part);
    }
    SpecParser.AllElements(es);
  }

  lemma NestedSpelling(body: string)
    ensures "nested(" + body + ")" == "nested" + "(" + body + ")" + "" && "nested" <= "nested(" + body + ")"
  {
  }

  /** The text of a nested column, taken apart, is the list of its fields. */
  lemma GroupIsCut(fields: seq<Field>)
    requires Spelled(Group(fields))
    ensures var spec := Text(Group(fields)); "nested" <= spec && InnerTypes(6, spec) == Some(Texts(fields))
  {
    var body := Listing(Texts(fields));
    var spec := Text(Group(fields));
    TextsAreElements(fields);
    TypesOfListing("nested", Texts(fields), "");
    NestedSpelling(body);
  }

  // ----- the rewriting -----

  /** The rewriting by text is the rewriting by declaration, at every depth. */
  lemma {:induction false} CellByDeclaration(d: Declaration, value: Value)
    requires Spelled(d)
    ensures CellOf(Text(d), value) == Rewritten(d, value)
    decreases d, 3
  {
    match d
    case Plain(c) => PrintedIsPlain(c);
    case Group(fields) =>
      GroupIsCut(fields);
      if value.List? {
        RowsByDeclaration(fields, |Text(d)|, value.items);
      }
  }

  lemma {:induction false} RowsByDeclaration(fields: seq<Field>, bound: nat, keyed: seq<Value>)
    requires (forall k :: 0 <= k < |fields| ==> Spelled(fields[k].part)) && TypesBelow(Texts(fields), bound)
    ensures RowsOf(Texts(fields), bound, keyed) == AllRewritten(fields, keyed)
    decreases fields, 2, |keyed|
  {
    if keyed == [] {
      assert AllRewritten(fields, keyed).value == [];
    } else {
      RowByDeclaration(fields, bound, keyed[0]);
      RowsByDeclaration(fields, bound, keyed[1..]);
      FirstRewritten(fields, keyed);
    }
  }

  lemma FirstRewritten(fields: seq<Field>, keyed: seq<Value>)
    requires keyed != []
    ensures var first, others := RowRewritten(fields, keyed[0]), AllRewritten(fields, keyed[1..]);
            AllRewritten(fields, keyed)
            == if first.Some? && others.Some? then Some([first.value] + others.value) else None
  {
    var first, others := RowRewritten(fields, keyed[0]), AllRewritten(fields, keyed[1..]);
    assert forall i :: 0 <= i < |keyed[1..]| ==> keyed[1..][i] == keyed[i + 1];
    assert forall i :: 1 <= i < |keyed| ==> keyed[i] == keyed[1..][i - 1];
    if first.Some? && others.Some? {
      assert AllRewritten(fields, keyed).value == [first.value] + others.value;
    }
  }

  lemma {:induction false} RowByDeclaration(fields: seq<Field>, bound: nat, keyed: Value)
    requires (forall k :: 0 <= k < |fields| ==> Spelled(fields[k].part)) && TypesBelow(Texts(fields), bound)
    ensures RowRewritten(fields, keyed)
         == (var cells := CellsOf(Texts(fields), bound, keyed); if cells.None? then None else Some(List(cells.value)))
    decreases fields, 1
  {
    forall k | 0 <= k < |fields|
      ensures FieldOf(fields, k, keyed)
           == (var u := Get(keyed, Texts(fields)[k].0); if u.None? then None else CellOf(Texts(fields)[k].1, u.value))
    {
      if Get(keyed, fields[k].name).Some? {
        CellByDeclaration(fields[k].part, Get(keyed, fields[k].name).value);
      }
    }
    CellByCell(Texts(fields), bound, keyed);
    if RowRewritten(fields, keyed).Some? {
      var cells := CellsOf(Texts(fields), bound, keyed).value;
      assert RowRewritten(fields, keyed).value.items == cells;
    }
  }

  /** The cells of a row are what each column gives. */
  lemma {:induction false} CellByCell(columns: Declared, bound: nat, keyed: Value)
    requires TypesBelow(columns, bound)
    ensures var cells := CellsOf(columns, bound, keyed);
            && (cells.Some? <==> forall k :: 0 <= k < |columns| ==>
                  Get(keyed, columns[k].0).Some? && CellOf(columns[k].1, Get(keyed, columns[k].0).value).Some?)
            && (cells.Some? ==> forall k :: 0 <= k < |columns| ==>
                  Get(keyed, columns[k].0).Some?
                  && Some(cells.value[k]) == CellOf(columns[k].1, Get(keyed, columns[k].0).value))
    decreases |columns|
  {
    if columns != [] {
      CellByCell(columns[1..], bound, keyed);
      assert forall k :: 1 <= k < |columns| ==> columns[k] == columns[1..][k - 1];
      assert forall k :: 0 <= k < |columns[1..]| ==> columns[1..][k] == columns[k + 1];
    }
  }

  /** The bare word is taken for a nested column, and names no fields. */
  lemma BareWordFails(value: Value)
    ensures CellOf("nested", value) == None
  {
  }

  /** A block of dicts under declared columns: the dicts become lists of their values in the order declared, those of
      nested columns rewritten so again, those of printed types untouched; or there is no block. */
  lemma DeclaredRows(fields: seq<Field>, keyed: seq<Value>, info: Info)
    requires keyed != [] && keyed[0].Dict? && forall k :: 0 <= k < |fields| ==> Spelled(fields[k].part)
    ensures var rows := AllRewritten(fields, keyed);
            NewBlock(Texts(fields), keyed, info)
            == if rows.None? then None else Some(RowBlock(Texts(fields), rows.value, info))
  {
    RowsByDeclaration(fields, Bound(Texts(fields)), keyed);
  }
}
