/** Leaf columns: integers, booleans, strings and enums. */
module Scalars {
  import opened Outcomes
  import opened Buffers
  import opened Columns
  import Bits
  import StructPack
  import Utf8
  import Varint

  // ----- enum members -----

  function CodeOf(choices: seq<Choice>, name: string): (r: Option<int>)
    ensures r.None? ==> forall k :: 0 <= k < |choices| ==> choices[k].name != name
    ensures r.Some? ==> exists k :: 0 <= k < |choices| && choices[k] == Choice(name, r.value)
                                    && forall j :: 0 <= j < k ==> choices[j].name != name
  {
    if choices == [] then None
    else if choices[0].name == name then
      assert choices[0] == Choice(name, choices[0].code);
      Some(choices[0].code)
    else
      var r := CodeOf(choices[1..], name);
      assert forall k :: 1 <= k < |choices| ==> choices[k] == choices[1..][k - 1];
      assert forall k :: 0 <= k < |choices[1..]| ==> choices[1..][k] == choices[k + 1];
      r
  }

  /** The name of a code: the first member that has it; later ones are aliases. */
  function NameOf(choices: seq<Choice>, code: int): (r: Option<string>)
    ensures r.None? ==> forall k :: 0 <= k < |choices| ==> choices[k].code != code
    ensures r.Some? ==> exists k :: 0 <= k < |choices| && choices[k] == Choice(r.value, code)
                                    && forall j :: 0 <= j < k ==> choices[j].code != code
  {
    if choices == [] then None
    else if choices[0].code == code then
      assert choices[0] == Choice(choices[0].name, code);
      Some(choices[0].name)
    else
      var r := NameOf(choices[1..], code);
      assert forall k :: 1 <= k < |choices| ==> choices[k] == choices[1..][k - 1];
      assert forall k :: 0 <= k < |choices[1..]| ==> choices[1..][k] == choices[k + 1];
      r
  }

  // ----- writing -----

  /** What prepare_items and before_write_items leave in place of an item. */
  function Prepare(kind: Kind, nullable: bool, x: Value): Option<Value>
  {
    if x.Null? && nullable then Some(ScalarNull(kind))
    else if kind.Enum? then
      match x
      case Str(name) => var code :- CodeOf(kind.choices, name); Some(Num(code))
      case Num(code) => if NameOf(kind.choices, code).Some? then Some(x) else None
      case _ => None
    else Some(x)
  }

  function PrepareAll(kind: Kind, nullable: bool, items: seq<Value>): (r: Option<seq<Value>>)
    ensures r.Some? ==> |r.value| == |items|
  {
    if items == [] then Some([])
    else
      var head :- Prepare(kind, nullable, items[0]);
      var tail :- PrepareAll(kind, nullable, items[1..]);
      Some([head] + tail)
  }

  predicate Truthy(v: Value)
  {
    match v
    case Null => false
    case Num(n) => n != 0
    case Bool(b) => b
    case Str(text) => text != ""
    case Raw(bytes) => bytes != []
    case List(items) => items != []
    case Row(items) => items != []
    case Dict(keys, _) => keys != []
  }

  function IntOf(v: Value): Option<int>
  {
    match v
    case Num(n) => Some(n)
    case Bool(b) => Some(if b then 1 else 0)
    case _ => None
  }

  function BytesOf(v: Value): Option<Bytes>
  {
    match v
    case Str(text) => Some(Utf8.Encode(text))
    case Raw(bytes) => Some(bytes)
    case _ => None
  }

  function PackOne(kind: Kind, v: Value): Option<Bytes>
  {
    match kind
    case UInt(width) => var n :- IntOf(v); StructPack.Pack(false, width, n)
    case SInt(width) => var n :- IntOf(v); StructPack.Pack(true, width, n)
    case Boolean => Some([if Truthy(v) then 1 else 0])
    case Text => var bytes :- BytesOf(v); Cat(Varint.Written(|bytes|), Some(bytes))
    case FixedText(length) =>
      var bytes :- BytesOf(v);
      if |bytes| > length then None else Some(bytes + Zeros(length - |bytes|))
    case Enum(width, _) => var n :- IntOf(v); StructPack.Pack(true, width, n)
  }

  function PackAll(kind: Kind, vs: seq<Value>): Option<Bytes>
  {
    if vs == [] then Some([]) else Cat(PackOne(kind, vs[0]), PackAll(kind, vs[1..]))
  }

  function Zeros(n: nat): (r: Bytes)
    ensures |r| == n
  {
    seq(n, _ => 0)
  }

  // ----- reading -----

  /** Without the zeros at the end. */
  function Strip(s: Bytes): (r: Bytes)
    ensures r <= s && (r != [] ==> r[|r| - 1] != 0) && forall i :: |r| <= i < |s| ==> s[i] == 0
  {
    if s != [] && s[|s| - 1] == 0 then Strip(s[..|s| - 1]) else s
  }

  /** Text when the bytes are UTF-8, the bytes themselves otherwise. */
  function Decoded(s: Bytes, otherwise: Bytes): Value
  {
    match Utf8.Decode(s)
    case Some(text) => Str(text)
    case None => Raw(otherwise)
  }

  function ReadOne(kind: Kind, s: Bytes): Parsed<Value>
  {
    match kind
    case UInt(width) => var (n, rest) :- StructPack.ReadInt(false, width, s); Some((Num(n), rest))
    case SInt(width) => var (n, rest) :- StructPack.ReadInt(true, width, s); Some((Num(n), rest))
    case Boolean => var (b, rest) :- Take(1, s); Some((Bool(b[0] != 0), rest))
    case Text =>
      var (length, s') :- Varint.Read(s);
      var (bytes, rest) :- Take(length, s');
      Some((Decoded(bytes, bytes), rest))
    case FixedText(length) =>
      var (bytes, rest) :- Take(length, s);
      Some((Decoded(Strip(bytes), bytes), rest))
    case Enum(width, _) => var (n, rest) :- StructPack.ReadInt(true, width, s); Some((Num(n), rest))
  }

  function ReadRaw(kind: Kind, n: nat, s: Bytes): (r: Parsed<seq<Value>>)
    ensures r.Some? ==> |r.value.0| == n
  {
    if n == 0 then Some(([], s))
    else
      var (v, s') :- ReadOne(kind, s);
      var (vs, rest) :- ReadRaw(kind, n - 1, s');
      Some(([v] + vs, rest))
  }

  /** after_read_items on one item: None where the null map says so, names for enum codes. */
  function AfterRead(kind: Kind, isNull: bool, raw: Value): Option<Value>
  {
    if isNull then Some(Null)
    else if kind.Enum? then
      var n :- IntOf(raw);
      var name :- NameOf(kind.choices, n);
      Some(Str(name))
    else Some(raw)
  }

  function AfterReadAll(kind: Kind, mask: seq<bool>, raws: seq<Value>): (r: Option<seq<Value>>)
    requires |mask| == |raws|
    ensures r.Some? ==> |r.value| == |raws|
  {
    if raws == [] then Some([])
    else
      var head :- AfterRead(kind, mask[0], raws[0]);
      var tail :- AfterReadAll(kind, mask[1..], raws[1..]);
      Some([head] + tail)
  }

  // ----- the values a leaf column carries without loss -----

  /** Bytes come back as bytes only if they are no UTF-8, and only padded to full length already. */
  predicate Fits(kind: Kind, v: Value)
  {
    match kind
    case UInt(width) => v.Num? && StructPack.Fits(false, width, v.n)
    case SInt(width) => v.Num? && StructPack.Fits(true, width, v.n)
    case Boolean => v.Bool?
    case Text =>
      || (v.Str? && |Utf8.Encode(v.text)| < Bits.U64)
      || (v.Raw? && |v.bytes| < Bits.U64 && Utf8.Decode(v.bytes).None?)
    case FixedText(length) =>
      || (v.Str? && |Utf8.Encode(v.text)| <= length && (v.text != "" ==> v.text[|v.text| - 1] != '\0'))
      || (v.Raw? && |v.bytes| == length && Utf8.Decode(Strip(v.bytes)).None?)
    case Enum(width, choices) =>
      v.Str? && var code := CodeOf(choices, v.text);
                code.Some? && StructPack.Fits(true, width, code.value) && NameOf(choices, code.value) == Some(v.text)
  }

  /** A value that counts as false. */
  predicate Blank(x: Value)
  {
    || x == Null || x == Num(0) || x == Bool(false) || x == Str("") || x == Raw([]) || x == List([]) || x == Row([])
    || (x.Dict? && x.keys == [])
  }

  function TextOr(bytes: Bytes, otherwise: Bytes): Value
  {
    if Utf8.Decode(bytes).Some? then Str(Utf8.Decode(bytes).value) else Raw(otherwise)
  }

  function CanonicalInt(signed: bool, width: nat, x: Value): Option<Value>
  {
    var n := if x.Num? then x.n else if x == Bool(true) then 1 else 0;
    if (x.Num? || x.Bool?) && StructPack.Fits(signed, width, n) then Some(Num(n)) else None
  }

  /** What a value has become when it has been written and read; None for a value the column refuses. */
  function Canonical(kind: Kind, x: Value): Option<Value>
  {
    match kind
    case UInt(width) => CanonicalInt(false, width, x)
    case SInt(width) => CanonicalInt(true, width, x)
    case Boolean => Some(Bool(!Blank(x)))
    case Text =>
      if x.Str? && |Utf8.Encode(x.text)| < Bits.U64 then Some(x)
      else if x.Raw? && |x.bytes| < Bits.U64 then Some(TextOr(x.bytes, x.bytes))
      else None
    case FixedText(length) =>
      if x.Str? && |Utf8.Encode(x.text)| <= length then Some(Str(TrimNuls(x.text)))
      else if x.Raw? && |x.bytes| <= length then Some(TextOr(Strip(x.bytes), x.bytes + Zeros(length - |x.bytes|)))
      else None
    case Enum(width, choices) =>
      var code :- if x.Num? then Some(x.n) else if x.Str? then CodeOf(choices, x.text) else None;
      var name :- NameOf(choices, code);
      if StructPack.Fits(true, width, code) then Some(Str(name)) else None
  }

  /** None stays None in a nullable column. */
  function CanonicalItem(kind: Kind, nullable: bool, x: Value): Option<Value>
  {
    if nullable && x.Null? then Some(Null) else Canonical(kind, x)
  }

  function CanonicalAll(kind: Kind, nullable: bool, items: seq<Value>): Option<seq<Value>>
  {
    if forall i :: 0 <= i < |items| ==> CanonicalItem(kind, nullable, items[i]).Some?
    then Some(seq(|items|, i requires 0 <= i < |items| => CanonicalItem(kind, nullable, items[i]).value))
    else None
  }

  predicate ScalarHasType(kind: Kind, nullable: bool, v: Value)
  {
    (nullable && v.Null?) || Fits(kind, v)
  }

  // ----- round trip -----

  lemma {:induction false} EncodeAppend(a: string, b: string)
    ensures Utf8.Encode(a + b) == Utf8.Encode(a) + Utf8.Encode(b)
  {
    if a == "" {
      assert a + b == b;
    } else {
      assert (a + b)[1..] == a[1..] + b;
      EncodeAppend(a[1..], b);
    }
  }

  /** The UTF-8 form of a text ends in a zero byte exactly when the text ends in NUL. */
  lemma LastByte(text: string)
    requires text != ""
    ensures Utf8.Encode(text) != []
    ensures var s := Utf8.Encode(text); s[|s| - 1] == 0 <==> text[|text| - 1] == '\0'
  {
    var front, last := text[..|text| - 1], text[|text| - 1];
    assert text == front + [last];
    EncodeAppend(front, [last]);
    assert Utf8.Encode([last]) == Utf8.EncodeChar(last) + Utf8.Encode("");
    assert last as int == 0 <==> last == '\0';
  }

  lemma {:induction false} StripPadding(s: Bytes, n: nat)
    ensures Strip(s + Zeros(n)) == Strip(s)
  {
    var t := s + Zeros(n);
    if n == 0 {
      assert t == s;
    } else {
      assert t[..|t| - 1] == s + Zeros(n - 1);
      StripPadding(s, n - 1);
    }
  }

  /** The packed form of x is read back whole, as the canonical form of x. */
  ghost predicate ReadsBack(kind: Kind, x: Value, packed: Bytes, rest: Bytes)
  {
    var r := ReadOne(kind, packed + rest);
    && r.Some?
    && r.value.1 == rest
    && Canonical(kind, x).Some?
    && AfterRead(kind, false, r.value.0) == Canonical(kind, x)
  }

  lemma IntReadsBack(kind: Kind, x: Value, v: Value, rest: Bytes)
    requires kind.UInt? || kind.SInt? || kind.Enum?
    requires Prepare(kind, false, x) == Some(v) && PackOne(kind, v).Some?
    ensures ReadsBack(kind, x, PackOne(kind, v).value, rest)
  {
    StructPack.IntRoundTrip(!kind.UInt?, kind.width, IntOf(v).value, rest);
    if kind.Enum? && x.Str? {
      CodeHasName(kind.choices, x.text);
    }
  }

  lemma TextReadsBack(v: Value, rest: Bytes)
    requires PackOne(Text, v).Some?
    ensures ReadsBack(Text, v, PackOne(Text, v).value, rest)
  {
    var bytes := BytesOf(v).value;
    FirstPacked(Varint.Encode(|bytes|), bytes, rest);
    Varint.RoundTrip(|bytes|, bytes + rest);
    TakeFront(bytes, rest);
    if v.Str? {
      Utf8.RoundTrip(v.text);
    }
  }

  lemma FixedTextReadsBack(length: nat, v: Value, rest: Bytes)
    requires PackOne(FixedText(length), v).Some?
    ensures ReadsBack(FixedText(length), v, PackOne(FixedText(length), v).value, rest)
  {
    var bytes := BytesOf(v).value;
    var padded := bytes + Zeros(length - |bytes|);
    TakeFront(padded, rest);
    StripPadding(bytes, length - |bytes|);
    if v.Str? {
      StrippedText(v.text, padded);
    }
    ReadBackAs(FixedText(length), v, padded, Decoded(Strip(padded), padded), rest);
  }

  lemma ReadBackAs(kind: Kind, x: Value, packed: Bytes, raw: Value, rest: Bytes)
    requires !kind.Enum? && ReadOne(kind, packed + rest) == Some((raw, rest)) && Canonical(kind, x) == Some(raw)
    ensures ReadsBack(kind, x, packed, rest)
  {
  }

  /** What is left of a padded text is the text if and only if it does not end in NUL. */
  lemma StrippedText(text: string, padded: Bytes)
    requires Strip(padded) == Strip(Utf8.Encode(text))
    ensures Decoded(Strip(padded), padded) == Str(TrimNuls(text))
  {
    StripText(text);
    Utf8.RoundTrip(TrimNuls(text));
  }

  lemma PaddedBytes(bytes: Bytes, length: nat)
    requires |bytes| <= length
    ensures bytes + Zeros(length - |bytes|) == bytes <==> |bytes| == length
  {
    assert |bytes + Zeros(length - |bytes|)| == length;
  }

  /** The text without the NULs at its end. */
  function TrimNuls(text: string): (r: string)
    ensures |r| <= |text| && (r == text <==> text == "" || text[|text| - 1] != '\0')
  {
    if text != "" && text[|text| - 1] == '\0' then TrimNuls(text[..|text| - 1]) else text
  }

  lemma {:induction false} StripText(text: string)
    ensures Strip(Utf8.Encode(text)) == Utf8.Encode(TrimNuls(text))
  {
    if text != "" {
      var front, last := text[..|text| - 1], text[|text| - 1];
      if last == '\0' {
        NulAtEnd(front);
        assert text == front + [last];
        StripPadding(Utf8.Encode(front), 1);
        StripText(front);
      } else {
        LastByte(text);
      }
    }
  }

  lemma NulAtEnd(front: string)
    ensures Utf8.Encode(front + ['\0']) == Utf8.Encode(front) + Zeros(1)
  {
    EncodeAppend(front, ['\0']);
    assert Utf8.Encode(['\0']) == [0] + Utf8.Encode("");
    assert Zeros(1) == [0];
  }

  /** Every packed item that is not a placeholder for None is read back whole and in canonical form: integers as they
      are, booleans by their truth, enum members as the first name of their code, text without the NULs at its end
      where it is padded, and bytes as text if they are. */
  lemma ItemRoundTrip(kind: Kind, x: Value, rest: Bytes)
    requires Prepare(kind, false, x).Some? && PackOne(kind, Prepare(kind, false, x).value).Some?
    ensures ReadsBack(kind, x, PackOne(kind, Prepare(kind, false, x).value).value, rest)
  {
    var v := Prepare(kind, false, x).value;
    match kind
    case UInt(_) => IntReadsBack(kind, x, v, rest);
    case SInt(_) => IntReadsBack(kind, x, v, rest);
    case Boolean => TakeFront(PackOne(kind, v).value, rest);
    case Text => TextReadsBack(v, rest);
    case FixedText(length) => FixedTextReadsBack(length, v, rest);
    case Enum(_, _) => IntReadsBack(kind, x, v, rest);
  }

  /** The placeholder for None takes up exactly its own bytes. */
  lemma PlaceholderReadsBack(kind: Kind, rest: Bytes)
    requires PackOne(kind, ScalarNull(kind)).Some?
    ensures ReadOne(kind, PackOne(kind, ScalarNull(kind)).value + rest).Some?
    ensures ReadOne(kind, PackOne(kind, ScalarNull(kind)).value + rest).value.1 == rest
  {
    if kind.Enum? {
      StructPack.IntRoundTrip(true, kind.width, 0, rest);
    } else {
      ItemRoundTrip(kind, ScalarNull(kind), rest);
    }
  }

  lemma {:induction false} CodeHasName(choices: seq<Choice>, name: string)
    requires CodeOf(choices, name).Some?
    ensures NameOf(choices, CodeOf(choices, name).value).Some?
  {
    if choices[0].name != name {
      CodeHasName(choices[1..], name);
    }
  }

  function Nulls(items: seq<Value>): (r: seq<bool>)
    ensures |r| == |items|
  {
    seq(|items|, i requires 0 <= i < |items| => items[i].Null?)
  }

  /** The null map a reader is given: marks only where the column is nullable. */
  function MaskOf(nullable: bool, items: seq<Value>): (r: seq<bool>)
    ensures |r| == |items|
  {
    seq(|items|, i requires 0 <= i < |items| => nullable && items[i].Null?)
  }

  /** Exactly the values that have a canonical form are packed. */
  lemma PackedExactly(kind: Kind, x: Value)
    ensures (Prepare(kind, false, x).Some? && PackOne(kind, Prepare(kind, false, x).value).Some?)
       <==> Canonical(kind, x).Some?
  {
    if kind.Enum? && x.Str? && CodeOf(kind.choices, x.text).Some? {
      CodeHasName(kind.choices, x.text);
    }
  }

  /** Exactly the values that fit are canonical. */
  lemma FitsExactly(kind: Kind, x: Value)
    ensures Fits(kind, x) <==> Canonical(kind, x) == Some(x)
  {
    match kind
    case FixedText(length) =>
      if x.Raw? && |x.bytes| <= length {
        PaddedBytes(x.bytes, length);
      }
    case Enum(_, choices) =>
      if x.Str? && CodeOf(choices, x.text).Some? {
        CodeHasName(choices, x.text);
      }
    case _ =>
  }

  /** A packed item, None or not: the stream after it is intact and the item comes back in canonical form. */
  lemma OneReadsBack(kind: Kind, nullable: bool, x: Value, rest: Bytes) returns (raw: Value)
    requires Prepare(kind, nullable, x).Some? && PackOne(kind, Prepare(kind, nullable, x).value).Some?
    ensures ReadOne(kind, PackOne(kind, Prepare(kind, nullable, x).value).value + rest) == Some((raw, rest))
    ensures AfterRead(kind, nullable && x.Null?, raw) == CanonicalItem(kind, nullable, x)
    ensures CanonicalItem(kind, nullable, x).Some?
  {
    var packed := PackOne(kind, Prepare(kind, nullable, x).value).value;
    if nullable && x.Null? {
      PlaceholderReadsBack(kind, rest);
    } else {
      ItemRoundTrip(kind, x, rest);
    }
    raw := ReadOne(kind, packed + rest).value.0;
  }

  predicate AllTyped(kind: Kind, nullable: bool, items: seq<Value>)
  {
    forall i :: 0 <= i < |items| ==> ScalarHasType(kind, nullable, items[i])
  }

  /** The items are read off s up to rest in canonical form. */
  ghost predicate ListBack(kind: Kind, nullable: bool, items: seq<Value>, s: Bytes, rest: Bytes)
  {
    var r := ReadRaw(kind, |items|, s);
    && r.Some? && r.value.1 == rest
    && CanonicalAll(kind, nullable, items).Some?
    && AfterReadAll(kind, MaskOf(nullable, items), r.value.0) == CanonicalAll(kind, nullable, items)
  }

  /** A list of packed items is read back whole and in canonical form. */
  lemma {:induction false} ListReadsBack(kind: Kind, nullable: bool, items: seq<Value>, rest: Bytes)
    requires PrepareAll(kind, nullable, items).Some? && PackAll(kind, PrepareAll(kind, nullable, items).value).Some?
    ensures ListBack(kind, nullable, items, PackAll(kind, PrepareAll(kind, nullable, items).value).value + rest, rest)
  {
    if items == [] {
      assert [] + rest == rest;
      assert CanonicalAll(kind, nullable, items).value == [];
    } else {
      var x, xs, vs := items[0], items[1..], PrepareAll(kind, nullable, items).value;
      assert vs[1..] == PrepareAll(kind, nullable, xs).value;
      var first, tail := PackOne(kind, vs[0]).value, PackAll(kind, vs[1..]).value;
      FirstPacked(first, tail, rest);
      var raw := OneReadsBack(kind, nullable, x, tail + rest);
      ListReadsBack(kind, nullable, xs, rest);
      var raws := ReadRaw(kind, |xs|, tail + rest).value.0;
      ListCons(kind, nullable, x, xs, raw, raws, first + (tail + rest), tail + rest, rest);
      assert [x] + xs == items;
    }
  }

  lemma FirstPacked(first: Bytes, tail: Bytes, rest: Bytes)
    ensures first + tail + rest == first + (tail + rest)
  {
  }

  lemma ListCons(kind: Kind, nullable: bool, x: Value, xs: seq<Value>, raw: Value, raws: seq<Value>, s: Bytes,
                 s': Bytes, rest: Bytes)
    requires ReadOne(kind, s) == Some((raw, s')) && ReadRaw(kind, |xs|, s') == Some((raws, rest))
    requires CanonicalItem(kind, nullable, x).Some? && CanonicalAll(kind, nullable, xs).Some?
    requires AfterRead(kind, nullable && x.Null?, raw) == CanonicalItem(kind, nullable, x)
    requires AfterReadAll(kind, MaskOf(nullable, xs), raws) == CanonicalAll(kind, nullable, xs)
    ensures ListBack(kind, nullable, [x] + xs, s, rest)
  {
    ReadRawCons(kind, |xs|, s, raw, s');
    AfterReadCons(kind, nullable, x, xs, raw, raws, CanonicalItem(kind, nullable, x).value,
                  CanonicalAll(kind, nullable, xs).value);
    CanonicalCons(kind, nullable, x, xs);
    BackCons(kind, nullable, [x] + xs, [raw] + raws, s, rest);
  }

  lemma BackCons(kind: Kind, nullable: bool, items: seq<Value>, raws: seq<Value>, s: Bytes, rest: Bytes)
    requires |raws| == |items| && ReadRaw(kind, |items|, s) == Some((raws, rest))
    requires CanonicalAll(kind, nullable, items).Some?
    requires AfterReadAll(kind, MaskOf(nullable, items), raws) == CanonicalAll(kind, nullable, items)
    ensures ListBack(kind, nullable, items, s, rest)
  {
  }

  lemma ReadRawCons(kind: Kind, n: nat, s: Bytes, raw: Value, s': Bytes)
    requires ReadOne(kind, s) == Some((raw, s')) && ReadRaw(kind, n, s').Some?
    ensures var tail := ReadRaw(kind, n, s').value; ReadRaw(kind, n + 1, s) == Some(([raw] + tail.0, tail.1))
  {
  }

  lemma CanonicalCons(kind: Kind, nullable: bool, x: Value, xs: seq<Value>)
    requires CanonicalItem(kind, nullable, x).Some? && CanonicalAll(kind, nullable, xs).Some?
    ensures CanonicalAll(kind, nullable, [x] + xs)
         == Some([CanonicalItem(kind, nullable, x).value] + CanonicalAll(kind, nullable, xs).value)
  {
    var all := [x] + xs;
    assert forall i :: 1 <= i < |all| ==> all[i] == xs[i - 1];
    assert CanonicalAll(kind, nullable, all).value
        == [CanonicalItem(kind, nullable, x).value] + CanonicalAll(kind, nullable, xs).value;
  }

  lemma AfterReadCons(kind: Kind, nullable: bool, x: Value, xs: seq<Value>, raw: Value, raws: seq<Value>,
                      first: Value, others: seq<Value>)
    requires |raws| == |xs| && AfterRead(kind, nullable && x.Null?, raw) == Some(first)
    requires AfterReadAll(kind, MaskOf(nullable, xs), raws) == Some(others)
    ensures AfterReadAll(kind, MaskOf(nullable, [x] + xs), [raw] + raws) == Some([first] + others)
  {
    assert ([raw] + raws)[1..] == raws;
    assert MaskOf(nullable, [x] + xs)[1..] == MaskOf(nullable, xs);
  }

  /** Exactly the lists of typed items are canonical. */
  lemma TypedExactly(kind: Kind, nullable: bool, items: seq<Value>)
    ensures AllTyped(kind, nullable, items) <==> CanonicalAll(kind, nullable, items) == Some(items)
  {
    forall i | 0 <= i < |items|
      ensures ScalarHasType(kind, nullable, items[i]) <==> CanonicalItem(kind, nullable, items[i]) == Some(items[i])
    {
      FitsExactly(kind, items[i]);
    }
    if AllTyped(kind, nullable, items) {
      assert CanonicalAll(kind, nullable, items).value == items;
    }
  }

  /** A list of typed leaf values, None included where the column is nullable, survives the trip. */
  lemma ListRoundTrip(kind: Kind, nullable: bool, items: seq<Value>, rest: Bytes)
    requires AllTyped(kind, nullable, items)
    requires PrepareAll(kind, nullable, items).Some? && PackAll(kind, PrepareAll(kind, nullable, items).value).Some?
    ensures var packed := PackAll(kind, PrepareAll(kind, nullable, items).value).value;
            var r := ReadRaw(kind, |items|, packed + rest);
            r.Some? && r.value.1 == rest && AfterReadAll(kind, Nulls(items), r.value.0) == Some(items)
  {
    ListReadsBack(kind, nullable, items, rest);
    TypedExactly(kind, nullable, items);
    assert Nulls(items) == MaskOf(nullable, items);
  }
}
