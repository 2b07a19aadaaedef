/** What the bytes are, where the reader does not care: header flags, marks, placeholders, versions, method bytes. */
module WireFormat {
  import opened Outcomes
  import opened Blocks
  import opened Columns
  import opened Compressed
  import opened Dictionaries
  import opened Nesting
  import opened Scalars
  import opened ColumnCodec
  import opened ColumnRoundTrip
  import Bits
  import ColumnLimits
  import Native
  import NullableArrays
  import StructPack
  import Varint

  predicate AllZero(s: Bytes)
  {
    forall i :: 0 <= i < |s| ==> s[i] == 0
  }

  // ----- integers -----

  function Power256(i: nat): (r: nat)
    ensures r > 0
  {
    if i == 0 then 1 else 256 * Power256(i - 1)
  }

  /** Every byte times its power of 256, the first the least. */
  function Weighed(s: Bytes): nat
  {
    if s == [] then 0 else Weighed(s[..|s| - 1]) + s[|s| - 1] * Power256(|s| - 1)
  }

  lemma {:induction false} BytesAreWeighed(s: Bytes)
    ensures StructPack.FromLittleEndian(s) == Weighed(s)
  {
    if s != [] {
      var front, last := s[..|s| - 1], s[|s| - 1..];
      assert s == front + last && last[1..] == [];
      BytesAreWeighed(front);
      NullableArrays.Concatenated(front, last);
      SpanIsPower(|front|);
    }
  }

  /** What stands for an integer of some width weighs as much. */
  lemma IntegerWeighs(signed: bool, width: nat, v: int)
    requires StructPack.Pack(signed, width, v).Some?
    ensures var w := StructPack.Pack(signed, width, v).value;
            |w| == width && Weighed(w) == if v < 0 then v + Power256(width) else v
  {
    SpanIsPower(width);
    StructPack.LittleEndianRoundTrip(width, if v < 0 then v + StructPack.Span(width) else v);
    BytesAreWeighed(StructPack.Pack(signed, width, v).value);
  }

  lemma {:induction false} SpanIsPower(width: nat)
    ensures StructPack.Span(width) == Power256(width)
  {
    if width > 0 {
      SpanIsPower(width - 1);
    }
  }

  /** The ranges of the integer columns. */
  lemma Ranges(v: int)
    ensures StructPack.Pack(false, 1, v).Some? <==> 0 <= v <= 255
    ensures StructPack.Pack(false, 2, v).Some? <==> 0 <= v <= 65535
    ensures StructPack.Pack(false, 4, v).Some? <==> 0 <= v <= 4294967295
    ensures StructPack.Pack(false, 8, v).Some? <==> 0 <= v <= 18446744073709551615
    ensures StructPack.Pack(true, 1, v).Some? <==> -128 <= v <= 127
    ensures StructPack.Pack(true, 2, v).Some? <==> -32768 <= v <= 32767
    ensures StructPack.Pack(true, 4, v).Some? <==> -2147483648 <= v <= 2147483647
    ensures StructPack.Pack(true, 8, v).Some? <==> -9223372036854775808 <= v <= 9223372036854775807
  {
    StructPack.SpanValues();
  }

  // ----- columns -----

  /** The null map of a nullable column comes first: a byte for every item, one for None and zero for a value. */
  lemma NullMapMarks(c: Column, items: seq<Value>, i: nat)
    requires !c.Array? && !c.Tuple? && i < |items| && WriteData(c, true, items).Some?
    ensures var w := WriteData(c, true, items).value;
            |w| >= |items| && w[i] == if items[i] == Null then 1 else 0
  {
    assert WriteData(c, true, items).value[..|items|] == NullMarks(items);
  }

  /** A boolean column writes one byte for every value: one for a true one, zero for a false one. */
  lemma BooleanBytes(items: seq<Value>, i: nat)
    requires i < |items|
    ensures var w := WriteData(Scalar(false, Boolean), false, items);
            w.Some? && |w.value| == |items| && w.value[i] == if Blank(items[i]) then 0 else 1
  {
    BooleansPacked(items);
    var packed := PackAll(Boolean, items).value;
    assert [] + packed == packed;
  }

  lemma {:induction false} BooleansPacked(items: seq<Value>)
    ensures PrepareAll(Boolean, false, items) == Some(items)
    ensures PackAll(Boolean, items) == Some(Truths(items))
  {
    if items != [] {
      BooleansPacked(items[1..]);
      assert [items[0]] + items[1..] == items;
      assert PackOne(Boolean, items[0]) == Some([Truths(items)[0]]);
      assert [Truths(items)[0]] + Truths(items[1..]) == Truths(items);
    }
  }

  function Truths(items: seq<Value>): (r: Bytes)
    ensures |r| == |items|
  {
    seq(|items|, i requires 0 <= i < |items| => if Blank(items[i]) then 0 else 1)
  }

  /** The header of a dictionary: a number whose low byte is the key type, the number of bytes above the first that
      the number of entries takes, and which has bits 9 and 10 set and no other; then the number of entries. */
  lemma DictionaryHeader(c: Column, nullable: bool, items: seq<Value>)
    requires c.LowCardinality? && WriteBody(c, nullable, items).Some?
    requires Index(c.dictionary.nullable, NullValue(c.dictionary), items) != []
    ensures var w, n := WriteBody(c, nullable, items).value,
                        |Index(c.dictionary.nullable, NullValue(c.dictionary), items)|;
            && |w| >= 16
            && var h := StructPack.FromLittleEndian(w[..8]);
               && h / 256 == 6 && Power256(h % 256) <= n < Power256(h % 256 + 1)
               && StructPack.FromLittleEndian(w[8..16]) == n
  {
    var n := |Index(c.dictionary.nullable, NullValue(c.dictionary), items)|;
    var head, size, body, count, keys := DictionaryParts(c, nullable, items);
    AtTheFront(head, size, body + (count + keys));
    HeaderBytes(KeyType(n), head);
    StructPack.LittleEndianRoundTrip(8, n);
    KeyTypeIsBytes(n);
  }

  lemma AtTheFront(head: Bytes, size: Bytes, rest: Bytes)
    requires |head| == 8 && |size| == 8
    ensures var w := head + (size + rest); |w| >= 16 && w[..8] == head && w[8..16] == size
  {
  }

  lemma HeaderBytes(keyType: nat, head: Bytes)
    requires keyType < 4 && WriteInt64(Bits.Or(keyType, SERIALIZATION_TYPE)) == Some(head)
    ensures var h := StructPack.FromLittleEndian(head); h / 256 == 6 && h % 256 == keyType
  {
    HeaderNumber(keyType);
    StructPack.LittleEndianRoundTrip(8, keyType + 0x600);
  }

  /** The key type is the number of bytes that a number takes, less one. */
  lemma KeyTypeIsBytes(n: nat)
    requires n > 0
    ensures Power256(KeyType(n)) <= n < Power256(KeyType(n) + 1)
  {
    var k := KeyType(n);
    FloorLog2Bounds(n);
    PowersAgree(k);
    PowersAgree(k + 1);
    Bits.Pow2Monotone(8 * k, FloorLog2(n));
    Bits.Pow2Monotone(FloorLog2(n) + 1, 8 * (k + 1));
  }

  lemma {:induction false} PowersAgree(k: nat)
    ensures Bits.Pow2(8 * k) == Power256(k)
  {
    if k > 0 {
      PowersAgree(k - 1);
      var m := 8 * (k - 1);
      assert Bits.Pow2(m + 8) == 2 * Bits.Pow2(m + 7) && Bits.Pow2(m + 7) == 2 * Bits.Pow2(m + 6);
      assert Bits.Pow2(m + 6) == 2 * Bits.Pow2(m + 5) && Bits.Pow2(m + 5) == 2 * Bits.Pow2(m + 4);
      assert Bits.Pow2(m + 4) == 2 * Bits.Pow2(m + 3) && Bits.Pow2(m + 3) == 2 * Bits.Pow2(m + 2);
      assert Bits.Pow2(m + 2) == 2 * Bits.Pow2(m + 1) && Bits.Pow2(m + 1) == 2 * Bits.Pow2(m);
    }
  }

  /** The data of a dictionary ends with the number of items in eight bytes and a key for every item: of one byte below
      256 entries, two below 65536, four below 16777216, and eight from there on. */
  lemma DictionaryTail(c: Column, nullable: bool, items: seq<Value>)
    requires c.LowCardinality? && WriteBody(c, nullable, items).Some?
    requires Index(c.dictionary.nullable, NullValue(c.dictionary), items) != []
    ensures var d, w := c.dictionary, WriteBody(c, nullable, items).value;
            var n := |Index(d.nullable, NullValue(d), items)|;
            var count := StructPack.Pack(true, 8, |items|);
            var keys := StructPack.PackAll(false, BytesFor(n), Keys(d.nullable, Distinct(d.nullable, items), items));
            count.Some? && keys.Some? && EndsWith(w, count.value + keys.value)
  {
    var head, size, body, count, keys := DictionaryParts(c, nullable, items);
    WidthOfKeys(|Index(c.dictionary.nullable, NullValue(c.dictionary), items)|);
    AtTheEnd(head, size, body, count + keys);
  }

  predicate EndsWith(s: Bytes, tail: Bytes)
  {
    |tail| <= |s| && s[|s| - |tail|..] == tail
  }

  function BytesFor(n: nat): nat
  {
    if n < 0x100 then 1 else if n < 0x1_0000 then 2 else if n < 0x100_0000 then 4 else 8
  }

  lemma WidthOfKeys(n: nat)
    requires n > 0 && KeyType(n) < 4
    ensures KeyWidth(KeyType(n)) == BytesFor(n)
  {
    KeyTypeIsBytes(n);
    assert Power256(2) == 256 * Power256(1) && Power256(3) == 256 * Power256(2) && Power256(4) == 256 * Power256(3);
  }

  lemma AtTheEnd(a: Bytes, b: Bytes, c: Bytes, tail: Bytes)
    ensures EndsWith(a + (b + (c + tail)), tail)
  {
    assert a + (b + (c + tail)) == a + b + c + tail;
  }

  /** In front of all data stands the number one for every dictionary that is not inside another. */
  lemma {:induction false} PrefixIsOnes(c: Column)
    ensures WritePrefix(c) == Ones(DictionariesOf(c))
  {
    match c
    case Scalar(_, _) =>
    case Array(_, inner) => PrefixIsOnes(inner);
    case Tuple(_, _, inners) => PrefixesAreOnes(inners, 0);
    case Map(_, key, value) =>
      PrefixIsOnes(key);
      PrefixIsOnes(value);
      OnesAppend(DictionariesOf(key), DictionariesOf(value));
    case LowCardinality(_, _) =>
      assert StructPack.LittleEndian(4, 0) == [0, 0, 0, 0];
      assert StructPack.LittleEndian(7, 0) == [0, 0, 0] + StructPack.LittleEndian(4, 0);
      assert Ones(1) == [1, 0, 0, 0, 0, 0, 0, 0] + Ones(0);
  }

  lemma {:induction false} PrefixesAreOnes(inners: seq<Column>, j: nat)
    requires j <= |inners|
    ensures WritePrefixes(inners, j) == Ones(DictionariesFrom(inners, j))
    decreases inners, |inners| - j
  {
    if j < |inners| {
      PrefixIsOnes(inners[j]);
      PrefixesAreOnes(inners, j + 1);
      OnesAppend(DictionariesOf(inners[j]), DictionariesFrom(inners, j + 1));
    }
  }

  function DictionariesOf(c: Column): nat
  {
    match c
    case Scalar(_, _) => 0
    case Array(_, inner) => DictionariesOf(inner)
    case Tuple(_, _, inners) => DictionariesFrom(inners, 0)
    case Map(_, key, value) => DictionariesOf(key) + DictionariesOf(value)
    case LowCardinality(_, _) => 1
  }

  function DictionariesFrom(inners: seq<Column>, j: nat): nat
    requires j <= |inners|
    decreases inners, |inners| - j
  {
    if j == |inners| then 0 else DictionariesOf(inners[j]) + DictionariesFrom(inners, j + 1)
  }

  /** The number one, n times, in eight bytes each. */
  function Ones(n: nat): Bytes
  {
    if n == 0 then [] else [1, 0, 0, 0, 0, 0, 0, 0] + Ones(n - 1)
  }

  lemma {:induction false} OnesAppend(a: nat, b: nat)
    ensures Ones(a) + Ones(b) == Ones(a + b)
  {
    if a == 0 {
      assert [] + Ones(b) == Ones(b);
    } else {
      OnesAppend(a - 1, b);
      assert Ones(a) + Ones(b) == [1, 0, 0, 0, 0, 0, 0, 0] + (Ones(a - 1) + Ones(b));
    }
  }

  // ----- what stands for None -----

  /** Columns whose values hold no dicts and no dictionaries, but for empty lists. */
  predicate Straight(c: Column)
  {
    match c
    case Scalar(_, _) => true
    case Array(_, _) => true
    case Tuple(_, _, inners) => forall j :: 0 <= j < |inners| ==> Straight(inners[j])
    case Map(_, _, _) => false
    case LowCardinality(_, _) => false
  }

  function Repeat(v: Value, n: nat): (r: seq<Value>)
    ensures |r| == n
  {
    seq(n, _ => v)
  }

  /** None in a nullable column is stored, next to its mark, as nothing but zeros: through tuples of any depth, with
      an empty list for an array. */
  lemma NoneIsZeros(c: Column, n: nat)
    requires !c.Array? && Straight(c) && WriteBody(c, true, Repeat(Null, n)).Some?
    ensures AllZero(WriteBody(c, true, Repeat(Null, n)).value)
  {
    if c.Scalar? {
      NonesPacked(c.kind, n);
    } else {
      assert Filled(c, true, Repeat(Null, n)) == Repeat(NullValue(c), n);
      PartsZeros(c, 0, n);
    }
  }

  lemma {:induction false} NonesPacked(kind: Kind, n: nat)
    ensures var vs := PrepareAll(kind, true, Repeat(Null, n));
            vs == Some(Repeat(ScalarNull(kind), n))
            && (PackAll(kind, vs.value).Some? ==> AllZero(PackAll(kind, vs.value).value))
  {
    if n > 0 {
      NonesPacked(kind, n - 1);
      assert Repeat(Null, n)[1..] == Repeat(Null, n - 1);
      assert [ScalarNull(kind)] + Repeat(ScalarNull(kind), n - 1) == Repeat(ScalarNull(kind), n);
      assert Repeat(ScalarNull(kind), n)[1..] == Repeat(ScalarNull(kind), n - 1);
      PlaceholderZeros(kind);
    }
  }

  lemma {:induction false} ZeroDigits(width: nat)
    ensures AllZero(StructPack.LittleEndian(width, 0))
  {
    if width > 0 {
      ZeroDigits(width - 1);
    }
  }

  lemma PlaceholderZeros(kind: Kind)
    ensures var w := PackOne(kind, ScalarNull(kind)); w.Some? && AllZero(w.value)
  {
    match kind
    case UInt(width) => ZeroDigits(width);
    case SInt(width) => ZeroDigits(width);
    case Enum(width, _) => ZeroDigits(width);
    case Boolean =>
    case Text => assert Varint.Written(0) == Some([0]);
    case FixedText(length) => assert Zeros(length) == [] + Zeros(length);
  }

  lemma {:induction false} PlaceholdersWritten(c: Column, n: nat)
    requires Straight(c)
    ensures var w := WriteData(c, c.nullable, Repeat(NullValue(c), n)); w.Some? ==> AllZero(w.value)
    decreases c, 1, 0
  {
    var items := Repeat(NullValue(c), n);
    match c
    case Scalar(nullable, kind) =>
      assert AllZero(NullMap(nullable, items));
      ScalarsZeros(nullable, kind, n);
    case Array(nullable, inner) => EmptyListsZeros(c, n);
    case Tuple(nullable, _, _) =>
      assert Filled(c, nullable, items) == items;
      if WriteData(c, nullable, items).Some? {
        PartsZeros(c, 0, n);
      }
  }

  lemma {:induction false} ScalarsZeros(nullable: bool, kind: Kind, n: nat)
    ensures var vs := PrepareAll(kind, nullable, Repeat(ScalarNull(kind), n));
            vs.Some? && PackAll(kind, vs.value).Some? ==> AllZero(PackAll(kind, vs.value).value)
    ensures var vs := PrepareAll(kind, nullable, Repeat(ScalarNull(kind), n));
            vs.Some? ==> vs.value == Repeat(ScalarNull(kind), n)
  {
    if n > 0 {
      var item := ScalarNull(kind);
      ScalarsZeros(nullable, kind, n - 1);
      assert Repeat(item, n)[1..] == Repeat(item, n - 1);
      assert [item] + Repeat(item, n - 1) == Repeat(item, n);
      PlaceholderZeros(kind);
    }
  }

  lemma {:induction false} PartsZeros(c: Column, j: nat, n: nat)
    requires c.Tuple? && Straight(c) && j <= |c.inners| && RowsCover(Repeat(NullValue(c), n), |c.inners|)
    ensures var w := WriteColumns(c.inners, Repeat(NullValue(c), n), j); w.Some? ==> AllZero(w.value)
    decreases c, 0, |c.inners| - j
  {
    if j < |c.inners| {
      var inner := c.inners[j];
      assert ColumnAt(Repeat(NullValue(c), n), j) == Repeat(NullValue(inner), n);
      PlaceholdersWritten(inner, n);
      PartsZeros(c, j + 1, n);
    }
  }

  lemma EmptyListsZeros(c: Column, n: nat)
    requires c.Array?
    ensures var w := WriteData(c, c.nullable, Repeat(List([]), n)); w.Some? ==> AllZero(w.value)
  {
    var items := Repeat(List([]), n);
    NothingInside(n, 0);
    LeavesOfEmptyLists(c, n);
    ColumnLimits.NothingWritten(c.inner);
    OffsetsZeros(n);
  }

  lemma {:induction false} NothingInside(n: nat, start: nat)
    ensures Flatten(Repeat(List([]), n)) == []
    ensures Offsets(Repeat(List([]), n), start) == seq(n, _ => start)
  {
    if n > 0 {
      NothingInside(n - 1, start);
      assert Repeat(List([]), n)[1..] == Repeat(List([]), n - 1);
      assert [start] + seq(n - 1, _ => start) == seq(n, _ => start);
    }
  }

  lemma LeavesOfEmptyLists(c: Column, n: nat)
    requires c.Array?
    ensures LeafValues(c, Repeat(List([]), n)) == Some([])
  {
    NothingInside(n, 0);
    NoLeaves(c.inner);
  }

  lemma {:induction false} OffsetsZeros(n: nat)
    ensures var w := WriteUInt64s(seq(n, _ => 0)); w.Some? && AllZero(w.value)
  {
    if n > 0 {
      OffsetsZeros(n - 1);
      assert seq(n, _ => 0)[1..] == seq(n - 1, _ => 0);
      ZeroDigits(8);
    }
  }

  /** A map column stores None as the number zero, which has no keys: rows with None are not written. */
  lemma NoneInMapFails(c: Column, items: seq<Value>)
    requires c.Map? && Null in items
    ensures WriteData(c, true, items) == None && WriteData(c, false, items) == None
  {
    var i :| 0 <= i < |items| && items[i] == Null;
    assert !Filled(c, true, items)[i].Dict? && !Filled(c, false, items)[i].Dict?;
  }

  /** The items with a value in place of every None. */
  function Given(items: seq<Value>, v: Value): (r: seq<Value>)
    ensures |r| == |items|
  {
    seq(|items|, i requires 0 <= i < |items| => if items[i] == Null then v else items[i])
  }

  /** In a tuple of dictionaries None stands for the number zero in each, whatever type the dictionary has. */
  lemma NoneAmongDictionaries(c: Column, items: seq<Value>)
    requires c.Tuple? && forall j :: 0 <= j < |c.inners| ==> c.inners[j].LowCardinality?
    ensures WriteData(c, true, items) == WriteData(c, true, Given(items, Row(seq(|c.inners|, _ => Num(0)))))
  {
    var zero := Row(seq(|c.inners|, _ => Num(0)));
    var given := Given(items, zero);
    assert NullValue(c).items == zero.items;
    assert Filled(c, true, items) == Filled(c, true, given);
  }

  // ----- what arrays take for lists -----

  /** A tuple as the list of its elements, a text as the list of its characters, bytes as the list of their numbers,
      and a dict as the list of its keys. */
  function AsList(v: Value): Value
  {
    match v
    case Row(items) => List(items)
    case Str(text) => List(seq(|text|, i requires 0 <= i < |text| => Str([text[i]])))
    case Raw(bytes) => List(seq(|bytes|, i requires 0 <= i < |bytes| => Num(bytes[i])))
    case Dict(keys, _) => List(keys)
    case _ => v
  }

  function AsLists(items: seq<Value>): (r: seq<Value>)
    ensures |r| == |items|
  {
    seq(|items|, i requires 0 <= i < |items| => AsList(items[i]))
  }

  /** An array column writes whatever can be iterated over as the list of what that yields, and nothing else. */
  lemma IteratedAsLists(c: Column, nullable: bool, rows: seq<Value>)
    requires c.Array?
    ensures WriteData(c, nullable, rows) == WriteData(c, nullable, AsLists(rows))
    ensures WriteData(c, nullable, rows).Some? ==> forall i :: 0 <= i < |rows| ==> AsList(rows[i]).List?
  {
    if AllIterable(rows) {
      SameElements(rows);
      SameOffsets(rows, AsLists(rows), 0);
      assert forall i :: 0 <= i < |rows| ==> Iterable(rows[i]);
    } else {
      var i :| 0 <= i < |rows| && !Iterable(rows[i]);
      assert !Iterable(AsLists(rows)[i]);
      assert WriteNested(c, rows) == None && WriteNested(c, AsLists(rows)) == None;
    }
  }

  lemma {:induction false} SameElements(rows: seq<Value>)
    requires AllIterable(rows)
    ensures SameLengths(rows, AsLists(rows)) && AllIterable(AsLists(rows)) && Flatten(rows) == Flatten(AsLists(rows))
    decreases |rows|
  {
    if rows != [] {
      SameElements(rows[1..]);
      assert AsLists(rows)[1..] == AsLists(rows[1..]);
      assert Elements(rows[0]) == Elements(AsLists(rows)[0]);
      assert forall i :: 1 <= i < |rows| ==> rows[i] == rows[1..][i - 1];
    }
  }

  // ----- blocks and frames -----

  /** Block information: field 1 with a byte for the flag, field 2 with four for the bucket, and the end. */
  lemma InfoLayout(info: Info)
    requires WriteInfo(info).Some?
    ensures var w := WriteInfo(info).value;
            && |w| == 8 && w[0] == 1 && w[1] == (if info.overflows then 1 else 0) && w[2] == 2 && w[7] == 0
            && StructPack.ReadInt(true, 4, w[3..]) == Some((info.bucket, [0]))
  {
    assert Varint.Written(1) == Some([1]) && Varint.Written(2) == Some([2]) && Varint.Written(0) == Some([0]);
    var bucket := StructPack.Pack(true, 4, info.bucket).value;
    var w := WriteInfo(info).value;
    assert StructPack.LittleEndian(1, Flag(info.overflows)) == [Flag(info.overflows)];
    assert w[3..] == bucket + [0];
    StructPack.IntRoundTrip(true, 4, info.bucket, [0]);
  }

  /** A block starts with its information exactly for servers of revision 51903 and later, and with the number of its
      columns otherwise. */
  lemma InfoAtRevision(parse: Native.Getter, revision: int, b: Block)
    requires Native.WriteBlock(parse, revision, b).Some?
    ensures var w := Native.WriteBlock(parse, revision, b).value;
            if revision >= 51903 then WriteInfo(b.info).Some? && WriteInfo(b.info).value <= w
            else Varint.Encode(b.NumColumns()) <= w
  {
  }

  function CompressedBy(lib: Library, algorithm: Method, data: Bytes): Bytes
  {
    match algorithm
    case LZ4 => lib.lz4(data)
    case LZ4HC => lib.lz4hc(data)
    case ZSTD => lib.zstd(data)
  }

  /** There is a frame exactly if both sizes fit 32 bits. */
  lemma FrameExists(lib: Library, algorithm: Method, data: Bytes)
    ensures Frame(lib, algorithm, data).Some?
       <==> |data| <= 0xffff_ffff && |CompressedBy(lib, algorithm, data)| + 9 <= 0xffff_ffff
  {
    StructPack.SpanValues();
  }

  lemma TwoHalves(n: nat)
    ensures n / Bits.U64 % Bits.U64 * Bits.U64 + n % Bits.U64 == n % 0x1_0000_0000_0000_0000_0000_0000_0000_0000
  {
  }

  /** A frame: sixteen bytes of hash, the high half first, then 0x82 for both lz4 compressors and 0x90 for zstd, then
      the size of the compressed data with nine bytes of header, the size of the data, and the compressed data. */
  lemma FrameLayout(lib: Library, algorithm: Method, data: Bytes)
    requires Frame(lib, algorithm, data).Some?
    ensures var w := Frame(lib, algorithm, data).value;
            var compressed := CompressedBy(lib, algorithm, data);
            && |w| == 25 + |compressed|
            && HashOf(w) == lib.hash(w[16..]) % 0x1_0000_0000_0000_0000_0000_0000_0000_0000
            && w[16] == (match algorithm case LZ4 => 0x82 case LZ4HC => 0x82 case ZSTD => 0x90)
            && StructPack.FromLittleEndian(w[17..21]) == |compressed| + 9
            && StructPack.FromLittleEndian(w[21..25]) == |data|
            && w[25..] == compressed
  {
    var body := Body(lib, algorithm, data).value;
    var compressed := lib.Compress(algorithm, data);
    var size, plain := StructPack.LittleEndian(4, 9 + |compressed|), StructPack.LittleEndian(4, |data|);
    assert body == [MethodByte(algorithm)] + (size + (plain + compressed));
    FrameParts(Pack128(lib.hash(body)), MethodByte(algorithm), size, plain, compressed);
    HashWritten(lib.hash(body), body);
    StructPack.LittleEndianRoundTrip(4, 9 + |compressed|);
    StructPack.LittleEndianRoundTrip(4, |data|);
  }

  lemma FrameParts(hash: Bytes, methodByte: byte, size: Bytes, plain: Bytes, compressed: Bytes)
    requires |hash| == 16 && |size| == 4 && |plain| == 4
    ensures var body := [methodByte] + (size + (plain + compressed));
            var w := hash + body;
            && |w| == 25 + |compressed| && w[16..] == body && w[16] == methodByte
            && w[17..21] == size && w[21..25] == plain && w[25..] == compressed
  {
  }

  lemma HashWritten(n: nat, rest: Bytes)
    ensures HashOf(Pack128(n) + rest) == n % 0x1_0000_0000_0000_0000_0000_0000_0000_0000
  {
    var w, high, low := Pack128(n) + rest, n / Bits.U64 % Bits.U64, n % Bits.U64;
    StructPack.SpanValues();
    assert w[..8] == StructPack.LittleEndian(8, high) && w[8..16] == StructPack.LittleEndian(8, low);
    StructPack.LittleEndianRoundTrip(8, high);
    StructPack.LittleEndianRoundTrip(8, low);
    TwoHalves(n);
  }
}
