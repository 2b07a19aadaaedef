/** Building the column tree from a type specification. */
module SpecParser {
  import opened Outcomes
  import opened Columns
  import opened Numerals
  import opened EnumOptions
  import opened SpecText

  // ----- the parser -----

  /** The branches of get_column_by_spec. Elsewhere stands for the types this model leaves out. */
  datatype Form = TextForm | FixedTextForm | EnumForm | Elsewhere | ArrayForm | TupleForm | NestedForm
    | NullableForm | LowCardinalityForm | AggregateForm | MapForm | LeafForm

  function FormOf(spec: string): Form
  {
    if spec == "string" then TextForm
    else if "fixed_string" <= spec then FixedTextForm
    else if "enum" <= spec then EnumForm
    else if "datetime" <= spec || "decimal" <= spec then Elsewhere
    else if "array" <= spec then ArrayForm
    else if "tuple" <= spec then TupleForm
    else if "json" <= spec then Elsewhere
    else if "nested" <= spec then NestedForm
    else if "nullable" <= spec then NullableForm
    else if "low_cardinality" <= spec then LowCardinalityForm
    else if "simple_aggregate_function" <= spec then AggregateForm
    else if "map" <= spec then MapForm
    else LeafForm
  }

  /** column_by_type, for the types of this model; a KeyError becomes None. */
  function LeafKind(spec: string): Option<Kind>
  {
    if spec == "uint8" then Some(UInt(1))
    else if spec == "uint16" then Some(UInt(2))
    else if spec == "uint32" then Some(UInt(4))
    else if spec == "uint64" then Some(UInt(8))
    else if spec == "int8" then Some(SInt(1))
    else if spec == "int16" then Some(SInt(2))
    else if spec == "int32" then Some(SInt(4))
    else if spec == "int64" then Some(SInt(8))
    else if spec == "bool" then Some(Boolean)
    else None
  }

  function WithoutOpening(s: string): string
  {
    if s == "" then "" else (if s[0] == '(' then "" else [s[0]]) + WithoutOpening(s[1..])
  }

  function FixedTextKind(spec: string): Option<Kind>
  {
    var length :- ParseInt(WithoutOpening(DropLast(spec, 12)));
    if length < 0 then None else Some(FixedText(length))
  }

  function EnumKind(spec: string): Option<Kind>
  {
    if "enum8" <= spec then
      var choices :- ParseOptions(DropLast(spec, 6));
      Some(Enum(1, choices))
    else
      var choices :- ParseOptions(DropLast(spec, 7));
      Some(Enum(2, choices))
  }

  /** `s.split(',', 1)[1]` */
  function AfterComma(s: string): (r: Option<string>)
    ensures r.Some? ==> |r.value| < |s|
  {
    if s == "" then None else if s[0] == ',' then Some(s[1..]) else AfterComma(s[1..])
  }

  function Names(types: seq<(string, string)>): (r: seq<string>)
  {
    seq(|types|, k requires 0 <= k < |types| => types[k].0)
  }

  function Specs(types: seq<(string, string)>): (r: seq<string>)
  {
    seq(|types|, k requires 0 <= k < |types| => types[k].1)
  }

  /** What create_nested_column hands to create_array_column. */
  function AsArrayOfTuples(inner: string): string
  {
    "array(tuple(" + inner + "))"
  }

  lemma ArrayOfTuplesInner(inner: string)
    ensures DropLast(AsArrayOfTuples(inner), 6) == "tuple(" + inner + ")"
    ensures FormOf("tuple(" + inner + ")") == TupleForm
  {
    assert AsArrayOfTuples(inner) == "array(" + ("tuple(" + inner + ")") + ")";
    TupleHead(inner + ")");
    assert "tuple(" + (inner + ")") == "tuple(" + inner + ")";
  }

  /** get_column_by_spec; None for an exception, or a type this model leaves out. */
  function Parse(spec: string): Option<Column>
    decreases |spec|, if FormOf(spec) == NestedForm then 2 else 1, 0
  {
    match FormOf(spec)
    case TextForm => Some(Scalar(false, Text))
    case FixedTextForm =>
      var kind :- FixedTextKind(spec);
      Some(Scalar(false, kind))
    case EnumForm =>
      var kind :- EnumKind(spec);
      Some(Scalar(false, kind))
    case Elsewhere => None
    case ArrayForm =>
      var inner :- Parse(DropLast(spec, 6));
      Some(Array(false, inner))
    case TupleForm =>
      var types :- InnerTypes(5, spec);
      if types == [] then None
      else
        var inners :- ParseAll(Specs(types), |spec|);
        Some(Tuple(false, Names(types), inners))
    case NestedForm =>
      var inner :- InnerSpec(6, spec);
      ArrayOfTuplesInner(inner);
      var tuple :- Parse(DropLast(AsArrayOfTuples(inner), 6));
      Some(Array(false, tuple))
    case NullableForm =>
      var inner :- Parse(DropLast(spec, 9));
      Some(SetFlag(inner, true))
    case LowCardinalityForm =>
      var inner :- Parse(DropLast(spec, 16));
      Some(LowCardinality(false, inner))
    case AggregateForm =>
      var inner :- AfterComma(DropLast(spec, 24));
      Parse(Strip(inner))
    case MapForm =>
      var types :- InnerColumns(3, spec);
      if |types| != 2 then None
      else
        var key :- Parse(Strip(types[0]));
        var value :- Parse(Strip(types[1]));
        Some(Map(false, key, value))
    case LeafForm =>
      var kind :- LeafKind(spec);
      Some(Scalar(false, kind))
  }

  function ParseAll(specs: seq<string>, bound: nat): (r: Option<seq<Column>>)
    requires forall k :: 0 <= k < |specs| ==> |specs[k]| < bound
    ensures r.Some? ==> |r.value| == |specs|
    decreases bound, 0, |specs|
  {
    if specs == [] then Some([])
    else
      var first :- Parse(specs[0]);
      var rest :- ParseAll(specs[1..], bound);
      Some([first] + rest)
  }

  /** Which branch a specification takes is settled by its first letters. */
  lemma TupleHead(rest: string)
    ensures FormOf("tuple(" + rest) == TupleForm
  {
    assert ("tuple(" + rest)[0] == 't' && "tuple" <= "tuple(" + rest;
  }

  lemma FixedTextHead(rest: string)
    ensures FormOf("fixed_string(" + rest) == FixedTextForm
  {
    assert "fixed_string" <= "fixed_string(" + rest;
  }

  lemma ArrayHead(rest: string)
    ensures FormOf("array(" + rest) == ArrayForm
  {
    assert ("array(" + rest)[0] == 'a' && "array" <= "array(" + rest;
  }

  lemma LowCardinalityHead(rest: string)
    ensures FormOf("low_cardinality(" + rest) == LowCardinalityForm
  {
    assert ("low_cardinality(" + rest)[0] == 'l' && "low_cardinality" <= "low_cardinality(" + rest;
  }

  lemma AggregateHead(rest: string)
    ensures FormOf("simple_aggregate_function(" + rest) == AggregateForm
  {
    var s := "simple_aggregate_function(" + rest;
    assert s[0] == 's' && s[1] == 'i' && "simple_aggregate_function" <= s;
  }

  lemma MapHead(rest: string)
    ensures FormOf("map(" + rest) == MapForm
  {
    assert ("map(" + rest)[0] == 'm' && "map" <= "map(" + rest;
  }

  lemma EnumHead(rest: string)
    ensures FormOf("enum8(" + rest) == EnumForm && "enum8" <= "enum8(" + rest
    ensures FormOf("enum16(" + rest) == EnumForm && !("enum8" <= "enum16(" + rest)
  {
    assert ("enum8(" + rest)[0] == 'e' && "enum" <= "enum8(" + rest;
    assert ("enum16(" + rest)[0] == 'e' && "enum" <= "enum16(" + rest;
    assert ("enum16(" + rest)[4] == '1';
  }

  lemma NestedHead(rest: string)
    ensures FormOf("nested(" + rest) == NestedForm
    ensures FormOf("nullable(" + rest) == NullableForm
  {
    assert ("nested(" + rest)[0] == 'n' && "nested" <= "nested(" + rest;
    assert ("nullable(" + rest)[0] == 'n' && ("nullable(" + rest)[1] == 'u' && "nullable" <= "nullable(" + rest;
  }

  /** The rewriting of nested never makes the text longer, and makes it shorter unless nothing but one
      character follows the word. */
  lemma NestedShrinks(spec: string)
    requires FormOf(spec) == NestedForm && InnerSpec(6, spec).Some?
    ensures var text := DropLast(AsArrayOfTuples(InnerSpec(6, spec).value), 6);
            |text| <= |spec| && (|text| < |spec| <==> |spec| >= 8)
  {
    ArrayOfTuplesInner(InnerSpec(6, spec).value);
  }

  // ----- the printer -----

  function KindText(kind: Kind): string
  {
    match kind
    case UInt(width) =>
      if width == 1 then "uint8" else if width == 2 then "uint16" else if width == 4 then "uint32" else "uint64"
    case SInt(width) =>
      if width == 1 then "int8" else if width == 2 then "int16" else if width == 4 then "int32" else "int64"
    case Boolean => "bool"
    case Text => "string"
    case FixedText(length) => "fixed_string(" + Show(length) + ")"
    case Enum(width, choices) => (if width == 1 then "enum8(" else "enum16(") + Render(choices, EscapeAll) + ")"
  }

  /** A column tree as a type specification, ", " between the parts of a list. */
  function Print(c: Column): string
    decreases c, 1
  {
    if c.nullable then "nullable(" + PrintBare(c) + ")" else PrintBare(c)
  }

  function PrintBare(c: Column): string
    decreases c, 0
  {
    match c
    case Scalar(_, kind) => KindText(kind)
    case Array(_, inner) => "array(" + Print(inner) + ")"
    case Tuple(_, names, inners) =>
      "tuple(" + Listing(seq(|inners|, j requires 0 <= j < |inners| =>
        (if j < |names| then names[j] else "", Print(inners[j])))) + ")"
    case Map(_, key, value) => "map(" + (Print(key) + ", " + Print(value)) + ")"
    case LowCardinality(_, d) => "low_cardinality(" + Print(d) + ")"
  }

  ghost predicate PrintableKind(kind: Kind)
  {
    match kind
    case UInt(width) => width == 1 || width == 2 || width == 4 || width == 8
    case SInt(width) => width == 1 || width == 2 || width == 4 || width == 8
    case Enum(width, choices) =>
      && (width == 1 || width == 2)
      && DistinctNames(choices)
      && forall k :: 0 <= k < |choices| ==> Balanced(choices[k].name)
    case _ => true
  }

  /** Trees a specification can spell: brackets match inside names, and element names have no comma or
      space outside brackets. */
  ghost predicate Printable(c: Column)
  {
    match c
    case Scalar(_, kind) => PrintableKind(kind)
    case Array(_, inner) => Printable(inner)
    case Tuple(_, names, inners) =>
      && inners != [] && |names| == |inners|
      && (forall j :: 0 <= j < |names| ==> Quiet(names[j]) && (names[j] == "" || Trimmed(names[j])))
      && forall j :: 0 <= j < |inners| ==> Printable(inners[j])
    case Map(_, key, value) => Printable(key) && Printable(value)
    case LowCardinality(_, d) => Printable(d)
  }

  // ----- what is printed is quiet -----

  lemma BracketsAreTrimmed(head: string, body: string)
    requires Trimmed(head)
    ensures Trimmed(head + body + ")")
  {
    assert !IsSpace(')');
  }

  lemma {:induction false} EscapedLevel(name: string, depth: nat)
    ensures Level(EscapeAll(name), depth, true) == Level(name, depth, true)
    decreases name
  {
    if name != "" {
      var head := if name[0] == '\'' || name[0] == '\\' then ['\\', name[0]] else [name[0]];
      var tail := EscapeAll(name[1..]);
      LevelAppend(head, tail, depth, true);
      OneChar(name[0], depth, true);
      OneChar('\\', depth, true);
      if name[0] == '\'' || name[0] == '\\' {
        assert head[1..] == [name[0]];
      }
      if Level([name[0]], depth, true).Some? {
        EscapedLevel(name[1..], Level([name[0]], depth, true).value);
      }
    }
  }

  lemma ShownIsWord(n: int)
    ensures Word(Show(n))
  {
    ShowChars(n);
  }

  lemma WordIsBalanced(s: string)
    requires Word(s)
    ensures Balanced(s)
  {
    WordIsQuiet(s);
    QuietIsBalanced(s);
  }

  lemma ChoiceIsBalanced(choice: Choice)
    requires Balanced(choice.name)
    ensures Balanced(RenderChoice(EscapeAll(choice.name), choice.code))
  {
    var e, code := EscapeAll(choice.name), Show(choice.code);
    EscapedLevel(choice.name, 0);
    ShownIsWord(choice.code);
    WordIsBalanced(code);
    WordIsBalanced("'");
    SpacedIsBalanced();
    BalancedAppend("'", e);
    BalancedAppend("'" + e, "' = ");
    BalancedAppend("'" + e + "' = ", code);
  }

  lemma SpacedIsBalanced()
    ensures Balanced("' = ") && Balanced(", ")
  {
    WordIsBalanced("'");
    WordIsBalanced("=");
    OneChar(' ', 0, true);
    OneChar(',', 0, true);
    BalancedAppend("'", " ");
    BalancedAppend("' ", "=");
    BalancedAppend("' =", " ");
    BalancedAppend(",", " ");
    assert "'" + " " == "' " && "' " + "=" == "' =" && "' =" + " " == "' = " && "," + " " == ", ";
  }

  lemma {:induction false} ChoicesAreBalanced(choices: seq<Choice>)
    requires forall k :: 0 <= k < |choices| ==> Balanced(choices[k].name)
    ensures Balanced(Render(choices, EscapeAll))
  {
    if choices != [] {
      var first, rest := RenderChoice(EscapeAll(choices[0].name), choices[0].code), Render(choices[1..], EscapeAll);
      ChoiceIsBalanced(choices[0]);
      ChoicesAreBalanced(choices[1..]);
      SpacedIsBalanced();
      BalancedAppend(first, ", ");
      BalancedAppend(first + ", ", rest);
    }
  }

  lemma FixedTextIsQuiet(length: nat)
    ensures Quiet(KindText(FixedText(length))) && Trimmed(KindText(FixedText(length)))
  {
    ShownIsWord(length);
    WordIsBalanced(Show(length));
    Wrapped("fixed_string", "fixed_string(", Show(length));
  }

  lemma EnumIsQuiet(width: nat, body: string)
    requires Balanced(body)
    ensures Quiet((if width == 1 then "enum8(" else "enum16(") + body + ")")
    ensures Trimmed((if width == 1 then "enum8(" else "enum16(") + body + ")")
  {
    if width == 1 {
      Wrapped("enum8", "enum8(", body);
    } else {
      Wrapped("enum16", "enum16(", body);
    }
  }

  lemma KindTextIsQuiet(kind: Kind)
    requires PrintableKind(kind)
    ensures Quiet(KindText(kind)) && Trimmed(KindText(kind))
  {
    match kind
    case FixedText(length) => FixedTextIsQuiet(length);
    case Enum(width, choices) =>
      ChoicesAreBalanced(choices);
      EnumIsQuiet(width, Render(choices, EscapeAll));
    case _ =>
      assert forall ch :: 'a' <= ch <= 'z' || '0' <= ch <= '9' ==> !IsSpace(ch);
      WordIsQuiet(KindText(kind));
  }

  /** head(body) where the head includes its bracket. */
  lemma Wrapped(word: string, head: string, body: string)
    requires head == word + "(" && Word(word) && Trimmed(head) && Balanced(body)
    ensures Quiet(head + body + ")") && Trimmed(head + body + ")")
  {
    BracketsAreQuiet(word, body);
    BracketsAreTrimmed(head, body);
  }

  lemma WordIsQuietIn(word: string, head: string, body: string)
    requires head == word + "(" && Word(word) && Trimmed(head) && Quiet(body)
    ensures Quiet(head + body + ")") && Trimmed(head + body + ")")
  {
    QuietIsBalanced(body);
    Wrapped(word, head, body);
  }

  lemma NullableIsQuiet(body: string)
    requires Quiet(body)
    ensures Quiet("nullable(" + body + ")") && Trimmed("nullable(" + body + ")")
  {
    WordIsQuietIn("nullable", "nullable(", body);
  }

  lemma ArrayIsQuiet(body: string)
    requires Quiet(body)
    ensures Quiet("array(" + body + ")") && Trimmed("array(" + body + ")")
  {
    WordIsQuietIn("array", "array(", body);
  }

  lemma LowCardinalityIsQuiet(body: string)
    requires Quiet(body)
    ensures Quiet("low_cardinality(" + body + ")") && Trimmed("low_cardinality(" + body + ")")
  {
    WordIsQuietIn("low_cardinality", "low_cardinality(", body);
  }

  function Printed(names: seq<string>, inners: seq<Column>): (r: seq<(string, string)>)
  {
    seq(|inners|, j requires 0 <= j < |inners| => (if j < |names| then names[j] else "", Print(inners[j])))
  }

  lemma TupleIsPrinted(c: Column)
    requires c.Tuple?
    ensures PrintBare(c) == "tuple(" + Listing(Printed(c.names, c.inners)) + ")"
  {
    var inners := c.inners;
    assert seq(|inners|, j requires 0 <= j < |inners| => (if j < |c.names| then c.names[j] else "", Print(inners[j])))
        == Printed(c.names, inners);
  }

  /** What is printed never separates anything outside brackets, so it can stand in any list. */
  lemma {:induction false} PrintIsQuiet(c: Column)
    requires Printable(c)
    ensures Quiet(Print(c)) && Trimmed(Print(c))
    decreases c, 1
  {
    BareIsQuiet(c);
    if c.nullable {
      NullableIsQuiet(PrintBare(c));
    }
  }

  lemma {:induction false} BareIsQuiet(c: Column)
    requires Printable(c)
    ensures Quiet(PrintBare(c)) && Trimmed(PrintBare(c))
    decreases c, 0
  {
    match c
    case Scalar(_, kind) => KindTextIsQuiet(kind);
    case Array(_, inner) =>
      PrintIsQuiet(inner);
      ArrayIsQuiet(Print(inner));
    case Tuple(_, names, inners) =>
      PrintedAreElements(c);
      TupleIsQuiet(c);
    case Map(_, key, value) =>
      PrintIsQuiet(key);
      PrintIsQuiet(value);
      MapIsQuiet(Print(key), Print(value));
    case LowCardinality(_, d) =>
      PrintIsQuiet(d);
      LowCardinalityIsQuiet(Print(d));
  }

  lemma TupleIsQuiet(c: Column)
    requires c.Tuple? && c.inners != [] && Elements(Printed(c.names, c.inners))
    ensures Quiet(PrintBare(c)) && Trimmed(PrintBare(c))
  {
    var es := Printed(c.names, c.inners);
    TupleIsPrinted(c);
    ListingIsTrimmed(es);
    TupleTextIsQuiet(Listing(es));
  }

  lemma TupleTextIsQuiet(body: string)
    requires Balanced(body)
    ensures Quiet("tuple(" + body + ")") && Trimmed("tuple(" + body + ")")
  {
    Wrapped("tuple", "tuple(", body);
  }

  lemma MapIsQuiet(a: string, b: string)
    requires Quiet(a) && Quiet(b)
    ensures Quiet("map(" + (a + ", " + b) + ")") && Trimmed("map(" + (a + ", " + b) + ")")
  {
    PairIsBalanced(a, b);
    Wrapped("map", "map(", a + ", " + b);
  }

  lemma {:induction false} PrintedAreElements(c: Column)
    requires c.Tuple? && Printable(c)
    ensures Elements(Printed(c.names, c.inners))
    decreases c, -1
  {
    var es := Printed(c.names, c.inners);
    forall j | 0 <= j < |es|
      ensures Element(es[j])
    {
      PrintIsQuiet(c.inners[j]);
    }
    AllElements(es);
  }

  lemma {:induction false} AllElements(es: seq<(string, string)>)
    requires forall j :: 0 <= j < |es| ==> Element(es[j])
    ensures Elements(es)
  {
    if es != [] {
      AllElements(es[1..]);
    }
  }

  // ----- parsing what was printed -----

  lemma BetweenBrackets(head: string, body: string)
    ensures DropLast(head + body + ")", |head|) == body
  {
  }

  lemma {:induction false} NoOpening(s: string)
    requires Word(s)
    ensures WithoutOpening(s) == s && WithoutOpening("(" + s) == s
  {
    assert ("(" + s)[1..] == s;
    if s != "" {
      NoOpening(s[1..]);
      assert [s[0]] + s[1..] == s;
    }
  }

  lemma ParseKind(kind: Kind)
    requires PrintableKind(kind)
    ensures Parse(KindText(kind)) == Some(Scalar(false, kind))
  {
    match kind
    case FixedText(length) =>
      ParseFixedText(length);
    case Enum(width, choices) =>
      ParseEnum(width, choices);
    case _ =>
      ParseLeaf(kind);
  }

  lemma ParseLeaf(kind: Kind)
    requires PrintableKind(kind) && !kind.FixedText? && !kind.Enum?
    ensures Parse(KindText(kind)) == Some(Scalar(false, kind))
  {
    var s := KindText(kind);
    if !kind.Text? {
      assert s[0] == 'u' || s[0] == 'i' || s[0] == 'b';
      assert FormOf(s) == LeafForm;
      assert LeafKind(s) == Some(kind);
    }
  }

  lemma ParseFixedText(length: nat)
    ensures Parse(KindText(FixedText(length))) == Some(Scalar(false, FixedText(length)))
  {
    var shown := Show(length);
    var s := "fixed_string(" + shown + ")";
    assert s == "fixed_string(" + (shown + ")") && s == "fixed_string" + ("(" + shown) + ")";
    FixedTextHead(shown + ")");
    BetweenBrackets("fixed_string", "(" + shown);
    ShownIsWord(length);
    NoOpening(shown);
    ParseShow(length);
  }

  lemma ParseEnum(width: nat, choices: seq<Choice>)
    requires width == 1 || width == 2
    requires DistinctNames(choices)
    ensures Parse(KindText(Enum(width, choices))) == Some(Scalar(false, Enum(width, choices)))
  {
    var body := Render(choices, EscapeAll);
    var head := if width == 1 then "enum8(" else "enum16(";
    assert head + body + ")" == head + (body + ")");
    EnumHead(body + ")");
    BetweenBrackets(head, body);
    ParseRendered(choices);
  }

  /** Parsing inverts printing, for every tree a specification can spell. */
  lemma {:induction false} ParsePrint(c: Column)
    requires Printable(c)
    ensures Parse(Print(c)) == Some(c)
    decreases c, 1
  {
    ParseBare(c);
    if c.nullable {
      NullableText(PrintBare(c));
      ParsesAsNullable(Print(c), PrintBare(c));
      assert SetFlag(SetFlag(c, false), true) == c;
    }
  }

  lemma {:induction false} ParseBare(c: Column)
    requires Printable(c)
    ensures Parse(PrintBare(c)) == Some(SetFlag(c, false))
    decreases c, 0
  {
    match c
    case Scalar(_, kind) => ParseKind(kind);
    case Array(_, inner) =>
      ParsePrint(inner);
      ParseArray(Print(inner));
    case Tuple(_, _, _) =>
      TupleBehind(c, "");
      assert PrintBare(c) + "" == PrintBare(c);
    case Map(_, key, value) =>
      MapBehind(c, "");
      assert PrintBare(c) + "" == PrintBare(c);
    case LowCardinality(_, d) =>
      ParsePrint(d);
      LowCardinalityText(Print(d));
      ParsesAsLowCardinality(PrintBare(c), Print(d));
  }

  lemma ParseArray(inner: string)
    ensures Parse("array(" + inner + ")")
         == (var c := Parse(inner); if c.None? then None else Some(Array(false, c.value)))
  {
    assert "array(" + inner + ")" == "array(" + (inner + ")");
    ArrayHead(inner + ")");
    BetweenBrackets("array(", inner);
  }

  lemma LowCardinalityText(inner: string)
    ensures var s := "low_cardinality(" + inner + ")"; FormOf(s) == LowCardinalityForm && DropLast(s, 16) == inner
  {
    assert "low_cardinality(" + inner + ")" == "low_cardinality(" + (inner + ")");
    LowCardinalityHead(inner + ")");
    BetweenBrackets("low_cardinality(", inner);
  }

  lemma ParsesAsLowCardinality(s: string, inner: string)
    requires FormOf(s) == LowCardinalityForm && DropLast(s, 16) == inner
    ensures Parse(s) == if Parse(inner).None? then None else Some(LowCardinality(false, Parse(inner).value))
  {
  }

  lemma NullableText(inner: string)
    ensures var s := "nullable(" + inner + ")"; FormOf(s) == NullableForm && DropLast(s, 9) == inner
  {
    assert "nullable(" + inner + ")" == "nullable(" + (inner + ")");
    NestedHead(inner + ")");
    BetweenBrackets("nullable(", inner);
  }

  lemma ParsesAsNullable(s: string, inner: string)
    requires FormOf(s) == NullableForm && DropLast(s, 9) == inner
    ensures Parse(s) == if Parse(inner).None? then None else Some(SetFlag(Parse(inner).value, true))
  {
  }

  lemma MapText(a: string, b: string, after: string)
    requires Quiet(a) && Quiet(b)
    ensures var s := "map(" + (a + ", " + b) + ")" + after; FormOf(s) == MapForm && InnerColumns(3, s) == Some([a, b])
  {
    var body := a + ", " + b;
    var s := "map(" + body + ")" + after;
    assert s == "map(" + (body + ")" + after) && s == "map" + "(" + body + ")" + after;
    MapHead(body + ")" + after);
    ColumnsOfPair("map", a, b, after);
  }

  lemma ParseMap(a: string, b: string, after: string)
    requires Quiet(a) && Quiet(b) && Trimmed(a) && Trimmed(b)
    requires Parse(a).Some? && Parse(b).Some?
    ensures Parse("map(" + (a + ", " + b) + ")" + after) == Some(Map(false, Parse(a).value, Parse(b).value))
  {
    MapText(a, b, after);
    TrimmedStays(a);
    TrimmedStays(b);
    ParsesAsMap("map(" + (a + ", " + b) + ")" + after, a, b);
  }

  lemma ParsesAsMap(s: string, a: string, b: string)
    requires FormOf(s) == MapForm && InnerColumns(3, s) == Some([a, b]) && Strip(a) == a && Strip(b) == b
    requires Parse(a).Some? && Parse(b).Some?
    ensures Parse(s) == Some(Map(false, Parse(a).value, Parse(b).value))
  {
  }

  lemma {:induction false} ParseEach(es: seq<(string, string)>, inners: seq<Column>, bound: nat)
    requires |es| == |inners| && forall j :: 0 <= j < |es| ==> |es[j].1| < bound && Parse(es[j].1) == Some(inners[j])
    ensures ParseAll(Specs(es), bound) == Some(inners)
    decreases |es|
  {
    if es != [] {
      ParseEach(es[1..], inners[1..], bound);
      assert Specs(es)[1..] == Specs(es[1..]);
      assert [inners[0]] + inners[1..] == inners;
    }
  }

  lemma TupleText(es: seq<(string, string)>, after: string)
    requires es != [] && Elements(es)
    ensures var s := "tuple(" + Listing(es) + ")" + after; FormOf(s) == TupleForm && InnerTypes(5, s) == Some(es)
  {
    var body := Listing(es);
    var s := "tuple(" + body + ")" + after;
    assert s == "tuple(" + (body + ")" + after) && s == "tuple" + "(" + body + ")" + after;
    TupleHead(body + ")" + after);
    TypesOfListing("tuple", es, after);
  }

  lemma ParsesAsTuple(s: string, es: seq<(string, string)>)
    requires FormOf(s) == TupleForm && InnerTypes(5, s) == Some(es) && es != []
    ensures var inners := ParseAll(Specs(es), |s|);
            Parse(s) == if inners.None? then None else Some(Tuple(false, Names(es), inners.value))
  {
  }

  lemma ParseTuple(es: seq<(string, string)>, inners: seq<Column>, after: string)
    requires es != [] && Elements(es) && |es| == |inners|
    requires forall j :: 0 <= j < |es| ==> Parse(es[j].1) == Some(inners[j])
    ensures Parse("tuple(" + Listing(es) + ")" + after) == Some(Tuple(false, Names(es), inners))
  {
    var s := "tuple(" + Listing(es) + ")" + after;
    TupleText(es, after);
    ParsesAsTuple(s, es);
    ParseEach(es, inners, |s|);
  }

  // ----- the derived forms -----

  lemma NestedText(inner: string)
    requires Balanced(inner)
    ensures var s := "nested(" + inner + ")"; FormOf(s) == NestedForm && InnerSpec(6, s) == Some(inner)
  {
    var s := "nested(" + inner + ")";
    assert s == "nested(" + (inner + ")") && s == "nested" + "(" + inner + ")" + "";
    NestedHead(inner + ")");
    InnerOfBrackets("nested", inner, "");
  }

  lemma ParsesAsNested(s: string, inner: string)
    requires FormOf(s) == NestedForm && InnerSpec(6, s) == Some(inner)
    ensures var tuple := Parse("tuple(" + inner + ")");
            Parse(s) == if tuple.None? then None else Some(Array(false, tuple.value))
  {
    ArrayOfTuplesInner(inner);
  }

  lemma ArrayTupleText(inner: string)
    ensures "array(tuple(" + inner + "))" == "array(" + ("tuple(" + inner + ")") + ")"
  {
  }

  /** nested(x, ...) is array(tuple(x, ...)), brackets permitting. */
  lemma NestedIsArrayOfTuples(inner: string)
    requires Balanced(inner)
    ensures Parse("nested(" + inner + ")") == Parse("array(tuple(" + inner + "))")
  {
    NestedText(inner);
    ParsesAsNested("nested(" + inner + ")", inner);
    ParseArray("tuple(" + inner + ")");
    ArrayTupleText(inner);
  }

  lemma {:induction false} FirstComma(a: string, b: string)
    requires ',' !in a
    ensures AfterComma(a + "," + b) == Some(b)
  {
    var s := a + "," + b;
    if a == "" {
      assert s[1..] == b;
    } else {
      assert s[1..] == a[1..] + "," + b;
      FirstComma(a[1..], b);
    }
  }

  /** The slice starts two characters early, inside the word; only what follows the comma is used. */
  lemma AggregateText(f: string, text: string)
    requires ',' !in f && Trimmed(text)
    ensures var s := "simple_aggregate_function(" + (f + ", " + text) + ")";
            FormOf(s) == AggregateForm && AfterComma(DropLast(s, 24)) == Some(" " + text)
  {
    var body := f + ", " + text;
    var s := "simple_aggregate_function(" + body + ")";
    assert s == "simple_aggregate_function(" + (body + ")");
    AggregateHead(body + ")");
    var tail := ("n(" + f) + "," + (" " + text);
    assert "simple_aggregate_functio" + tail == "simple_aggregate_function(" + body;
    BetweenBrackets("simple_aggregate_functio", tail);
    FirstComma("n(" + f, " " + text);
  }

  lemma ParsesAsAggregate(s: string, inner: string)
    requires FormOf(s) == AggregateForm && AfterComma(DropLast(s, 24)) == Some(inner)
    ensures Parse(s) == Parse(Strip(inner))
  {
  }

  /** An aggregate function column is a column of its second argument. */
  lemma AggregateIsItsType(f: string, c: Column)
    requires ',' !in f && Printable(c)
    ensures Parse("simple_aggregate_function(" + (f + ", " + Print(c)) + ")") == Some(c)
  {
    var text := Print(c);
    PrintIsQuiet(c);
    AggregateText(f, text);
    ParsesAsAggregate("simple_aggregate_function(" + (f + ", " + text) + ")", " " + text);
    StripAfterSpace(text);
    ParsePrint(c);
  }

  lemma ParseTwo(a: string, b: string, bound: nat)
    requires |a| < bound && |b| < bound
    ensures ParseAll([a, b], bound)
         == if Parse(a).None? || Parse(b).None? then None else Some([Parse(a).value, Parse(b).value])
  {
    assert [a, b][1..] == [b] && [b][1..] == [];
    assert ParseAll([], bound) == Some([]);
    if Parse(b).Some? {
      assert [Parse(b).value] + [] == [Parse(b).value];
      if Parse(a).Some? {
        assert [Parse(a).value] + [Parse(b).value] == [Parse(a).value, Parse(b).value];
      }
    }
    assert ParseAll([b], bound) == if Parse(b).None? then None else Some([Parse(b).value]);
  }

  // ----- types with something behind them -----

  /** A chain of arrays, nullables and low_cardinalities around a tuple or a map. */
  predicate EndsInBrackets(c: Column)
  {
    match c
    case Scalar(_, _) => false
    case Array(_, inner) => EndsInBrackets(inner)
    case Tuple(_, _, _) => true
    case Map(_, _, _) => true
    case LowCardinality(_, d) => EndsInBrackets(d)
  }

  /** The leaf at the end of such a chain, if there is one, is no enum without members. */
  predicate HasMembers(c: Column)
  {
    match c
    case Scalar(_, kind) => kind.Enum? ==> kind.choices != []
    case Array(_, inner) => HasMembers(inner)
    case Tuple(_, _, _) => true
    case Map(_, _, _) => true
    case LowCardinality(_, d) => HasMembers(d)
  }

  predicate Behind(after: string)
  {
    after != "" && (after[0] == ',' || after[0] == ')')
  }

  /** Inside a wrapping type: its bracket comes first, and the last character is cut off. */
  function Inside(after: string): string
    requires after != ""
  {
    ")" + after[..|after| - 1]
  }

  lemma DropBehind(head: string, body: string, after: string)
    requires after != ""
    ensures DropLast(head + body + ")" + after, |head|) == body + Inside(after)
    ensures head + body + ")" + after == head + (body + ")" + after)
  {
    var s := head + body + ")" + after;
    assert s[|head|..|s| - 1] == body + Inside(after);
  }

  lemma LeafNames(s: string)
    requires ')' in s || ',' in s
    ensures LeafKind(s) == None
  {
  }

  lemma {:induction false} OpeningKeepsClosing(s: string)
    requires ')' in s
    ensures ')' in WithoutOpening(s)
  {
    if s[0] != ')' {
      assert s == [s[0]] + s[1..];
      OpeningKeepsClosing(s[1..]);
    }
  }

  lemma PlainForm(s: string)
    requires |s| >= 2 && s != "string"
    requires s[0] == 'u' || s[0] == 'i' || s[0] == 'b' || (s[0] == 's' && s[1] == 't')
    ensures FormOf(s) == LeafForm
  {
    StartsOtherwise(s, "fixed_string", 0);
    StartsOtherwise(s, "enum", 0);
    StartsOtherwise(s, "datetime", 0);
    StartsOtherwise(s, "decimal", 0);
    StartsOtherwise(s, "array", 0);
    StartsOtherwise(s, "tuple", 0);
    StartsOtherwise(s, "json", 0);
    StartsOtherwise(s, "nested", 0);
    StartsOtherwise(s, "nullable", 0);
    StartsOtherwise(s, "low_cardinality", 0);
    StartsOtherwise(s, "map", 0);
    StartsOtherwise(s, "simple_aggregate_function", if s[0] == 's' then 1 else 0);
  }

  lemma StartsOtherwise(s: string, word: string, k: nat)
    requires k < |s| && k < |word| && s[k] != word[k]
    ensures !(word <= s)
  {
  }

  lemma PlainBehind(kind: Kind, after: string)
    requires PrintableKind(kind) && !kind.FixedText? && !kind.Enum? && Behind(after)
    ensures Parse(KindText(kind) + after) == None
  {
    var name := KindText(kind);
    var s := name + after;
    assert s[|name|] == after[0] && s[0] == name[0] && s[1] == name[1];
    LeafNames(s);
    assert |name| >= 4 && (name[0] == 'u' || name[0] == 'i' || name[0] == 'b' || (name[0] == 's' && name[1] == 't'));
    assert s != "string" by {
      assert forall k :: 0 <= k < 6 ==> "string"[k] != ',' && "string"[k] != ')';
    }
    PlainForm(s);
  }

  lemma FixedTextBehind(length: nat, after: string)
    requires Behind(after)
    ensures Parse(KindText(FixedText(length)) + after) == None
  {
    var shown := Show(length);
    var s := KindText(FixedText(length)) + after;
    DropBehind("fixed_string", "(" + shown, after);
    assert s == "fixed_string" + ("(" + shown) + ")" + after;
    assert s == "fixed_string(" + (shown + ")" + after);
    FixedTextHead(shown + ")" + after);
    var text := "(" + shown + Inside(after);
    assert text[|shown| + 1] == ')';
    OpeningKeepsClosing(text);
    NotANumber(WithoutOpening(text), ')');
    assert FixedTextKind(s) == None;
  }

  lemma EnumBehind(width: nat, choices: seq<Choice>, after: string)
    requires (width == 1 || width == 2) && DistinctNames(choices) && choices != [] && Behind(after)
    ensures Parse(KindText(Enum(width, choices)) + after) == None
  {
    var body := Render(choices, EscapeAll);
    var head := if width == 1 then "enum8(" else "enum16(";
    DropBehind(head, body, after);
    EnumHead(body + ")" + after);
    OptionsThenBracket(choices, after[..|after| - 1]);
  }

  lemma LeafBehind(kind: Kind, after: string)
    requires PrintableKind(kind) && (kind.Enum? ==> kind.choices != []) && Behind(after)
    ensures Parse(KindText(kind) + after) == None
  {
    match kind
    case FixedText(length) => FixedTextBehind(length, after);
    case Enum(width, choices) => EnumBehind(width, choices, after);
    case _ => PlainBehind(kind, after);
  }

  /** Behind a tuple or a map, and behind what wraps one, anything is ignored; behind any other type nothing
      is understood. */
  lemma {:induction false} ParseBehind(c: Column, after: string)
    requires Printable(c) && HasMembers(c) && Behind(after)
    ensures Parse(Print(c) + after) == if EndsInBrackets(c) then Some(c) else None
    decreases c, 1
  {
    if c.nullable {
      var bare := PrintBare(c);
      DropBehind("nullable(", bare, after);
      NestedHead(bare + ")" + after);
      BareBehind(c, Inside(after));
      ParsesAsNullable(Print(c) + after, bare + Inside(after));
      assert SetFlag(SetFlag(c, false), true) == c;
    } else {
      BareBehind(c, after);
      assert SetFlag(c, false) == c;
    }
  }

  lemma {:induction false} BareBehind(c: Column, after: string)
    requires Printable(c) && HasMembers(c) && Behind(after)
    ensures Parse(PrintBare(c) + after) == if EndsInBrackets(c) then Some(SetFlag(c, false)) else None
    decreases c, 0
  {
    match c
    case Scalar(_, kind) => LeafBehind(kind, after);
    case Array(_, inner) =>
      ParseBehind(inner, Inside(after));
      ArrayBehind(Print(inner), after);
    case Tuple(_, names, inners) => TupleBehind(c, after);
    case Map(_, key, value) => MapBehind(c, after);
    case LowCardinality(_, d) =>
      ParseBehind(d, Inside(after));
      LowCardinalityBehind(Print(d), after);
  }

  lemma LowCardinalityBehind(inner: string, after: string)
    requires after != ""
    ensures var c := Parse(inner + Inside(after));
            var s := "low_cardinality(" + inner + ")" + after;
            Parse(s) == if c.None? then None else Some(LowCardinality(false, c.value))
  {
    DropBehind("low_cardinality(", inner, after);
    LowCardinalityHead(inner + ")" + after);
    ParsesAsLowCardinality("low_cardinality(" + inner + ")" + after, inner + Inside(after));
  }

  lemma ArrayBehind(inner: string, after: string)
    requires after != ""
    ensures var c := Parse(inner + Inside(after));
            Parse("array(" + inner + ")" + after) == if c.None? then None else Some(Array(false, c.value))
  {
    DropBehind("array(", inner, after);
    ArrayHead(inner + ")" + after);
    ParsesAsArray("array(" + inner + ")" + after, inner + Inside(after));
  }

  lemma ParsesAsArray(s: string, inner: string)
    requires FormOf(s) == ArrayForm && DropLast(s, 6) == inner
    ensures Parse(s) == if Parse(inner).None? then None else Some(Array(false, Parse(inner).value))
  {
  }

  lemma {:induction false} TupleBehind(c: Column, after: string)
    requires c.Tuple? && Printable(c)
    ensures Parse(PrintBare(c) + after) == Some(SetFlag(c, false))
    decreases c, -1
  {
    var es := Printed(c.names, c.inners);
    PrintedAreElements(c);
    forall j | 0 <= j < |c.inners|
      ensures Parse(es[j].1) == Some(c.inners[j])
    {
      ParsePrint(c.inners[j]);
    }
    TupleIsPrinted(c);
    assert Names(es) == c.names;
    ParseTuple(es, c.inners, after);
  }

  lemma {:induction false} MapBehind(c: Column, after: string)
    requires c.Map? && Printable(c)
    ensures Parse(PrintBare(c) + after) == Some(SetFlag(c, false))
    decreases c, -1
  {
    ParsePrint(c.key);
    ParsePrint(c.value);
    PrintIsQuiet(c.key);
    PrintIsQuiet(c.value);
    ParseMap(Print(c.key), Print(c.value), after);
  }

  // ----- a comma without a space -----

  /** After a bare comma the second type is taken to start where the first one did. */
  lemma CommaMerges(a: string, b: string)
    requires Quiet(a) && Quiet(b) && Trimmed(a) && Trimmed(b)
    ensures Parse("tuple(" + (a + "," + b) + ")")
         == if Parse(a).None? || Parse(a + "," + b).None? then None
            else Some(Tuple(false, ["", ""], [Parse(a).value, Parse(a + "," + b).value]))
  {
    var both := a + "," + b;
    var s := "tuple(" + both + ")";
    var es := [("", a), ("", both)];
    assert s == "tuple(" + (both + ")");
    TupleHead(both + ")");
    CommaAloneMerges(a, b);
    ParsesAsTuple(s, es);
    assert Names(es) == ["", ""];
    assert Specs(es) == [a, both];
    ParseTwo(a, both, |s|);
  }

  /** The ", " matters: with a bare comma between two types a tuple is understood if and only if the first is a
      tuple or a map, or wraps one, and then the first stands in for the second. */
  lemma BareComma(a: Column, b: Column)
    requires Printable(a) && Printable(b) && HasMembers(a)
    ensures Parse("tuple(" + (Print(a) + "," + Print(b)) + ")")
         == if EndsInBrackets(a) then Some(Tuple(false, ["", ""], [a, a])) else None
  {
    PrintIsQuiet(a);
    PrintIsQuiet(b);
    CommaMerges(Print(a), Print(b));
    ParsePrint(a);
    ParseBehind(a, "," + Print(b));
    assert Print(a) + ("," + Print(b)) == Print(a) + "," + Print(b);
  }

  /** So the tuple written is the tuple read only if both types are the same one, in brackets. */
  lemma BareCommaExactly(a: Column, b: Column)
    requires Printable(a) && Printable(b) && HasMembers(a)
    ensures Parse("tuple(" + (Print(a) + "," + Print(b)) + ")") == Some(Tuple(false, ["", ""], [a, b]))
       <==> a == b && EndsInBrackets(a)
  {
    BareComma(a, b);
    assert [a, a][1] == a && [a, b][1] == b;
  }
}
