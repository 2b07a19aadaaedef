/** The native block format: a header, then every column with its name and type. */
module Native {
  import opened Outcomes
  import opened Buffers
  import opened Columns
  import opened Nesting
  import opened ColumnCodec
  import opened ColumnRoundTrip
  import opened Blocks
  import opened BinaryText
  import Bits
  import ColumnLimits
  import ColumnReader
  import ColumnWriter
  import StructPack
  import Varint

  /** Servers older than this neither send nor expect block information. */
  const REVISION_WITH_BLOCK_INFO := 51903

  /** get_column_by_spec, whatever types it knows. */
  type Getter = string -> Option<Column>

  // ----- writing -----

  function WriteHead(revision: int, info: Info): Option<Bytes>
  {
    if revision >= REVISION_WITH_BLOCK_INFO then WriteInfo(info) else Some([])
  }

  /** write_column, given the type specification. */
  function WriteItems(parse: Getter, spec: string, items: seq<Value>): Option<Bytes>
  {
    var c :- parse(spec);
    WriteColumn(c, items)
  }

  /** One column of the block; without columns of data only names and types are written. */
  function WriteOne(parse: Getter, b: Block, i: nat): Option<Bytes>
    requires i < |b.columns|
  {
    Cat(WriteText(b.columns[i].0), Cat(WriteText(b.columns[i].1),
      if b.NumColumns() == 0 then Some([])
      else
        var items :- b.ColumnByIndex(i);
        WriteItems(parse, b.columns[i].1, items)))
  }

  /** What the columns of a block write. */
  function Pieces(parse: Getter, b: Block): (r: seq<Option<Bytes>>)
    ensures |r| == |b.columns|
  {
    seq(|b.columns|, i requires 0 <= i < |b.columns| => WriteOne(parse, b, i))
  }

  /** Pieces from number i on, one after the other. */
  function CatFrom(pieces: seq<Option<Bytes>>, i: nat): Option<Bytes>
    requires i <= |pieces|
    decreases |pieces| - i
  {
    if i == |pieces| then Some([]) else Cat(pieces[i], CatFrom(pieces, i + 1))
  }

  lemma {:induction false} AllPieces(pieces: seq<Option<Bytes>>, i: nat)
    requires i <= |pieces|
    ensures CatFrom(pieces, i).Some? <==> forall k :: i <= k < |pieces| ==> pieces[k].Some?
    decreases |pieces| - i
  {
    if i < |pieces| {
      AllPieces(pieces, i + 1);
    }
  }

  /** BlockOutputStream.write */
  function WriteBlock(parse: Getter, revision: int, b: Block): Option<Bytes>
  {
    Cat(WriteHead(revision, b.info),
      Cat(Varint.Written(b.NumColumns()), Cat(Varint.Written(b.NumRows()), CatFrom(Pieces(parse, b), 0))))
  }

  // ----- reading -----

  function ReadHead(revision: int, s: Bytes): Parsed<Info>
  {
    if revision >= REVISION_WITH_BLOCK_INFO then ReadInfo(DEFAULT_INFO, s) else Some((DEFAULT_INFO, s))
  }

  /** What is read of a column, and of several. The data is left out of blocks without rows. */
  datatype Part = Part(header: (string, string), data: seq<seq<Value>>)

  datatype Parts = Parts(columns: seq<(string, string)>, data: seq<seq<Value>>)

  /** One column: its name and type and, unless there are no rows, its data. */
  function ReadPart(parse: Getter, n: nat, s: Bytes): Parsed<Part>
  {
    var (name, s1) :- ReadText(s);
    var (spec, s2) :- ReadText(s1);
    if n == 0 then Some((Part((name, spec), []), s2))
    else
      var c :- parse(spec);
      var (items, rest) :- ReadColumn(c, n, s2);
      Some((Part((name, spec), [items]), rest))
  }

  type PartReader = Bytes -> Parsed<Part>

  function PartsWith(parse: Getter, n: nat): PartReader
  {
    s => ReadPart(parse, n, s)
  }

  function ReadParts(read: PartReader, count: nat, s: Bytes): Parsed<Parts>
    decreases count
  {
    if count == 0 then Some((Parts([], []), s))
    else
      var (part, s') :- read(s);
      ResumedParts([part.header], part.data, ReadParts(read, count - 1, s'))
  }

  /** Columns read already, followed by the others. */
  function ResumedParts(columns: seq<(string, string)>, data: seq<seq<Value>>,
                        others: Parsed<Parts>)
    : Parsed<Parts>
  {
    if others.None? then None
    else Some((Parts(columns + others.value.0.columns, data + others.value.0.data), others.value.1))
  }

  /** BlockInputStream.read */
  function ReadBlock(parse: Getter, revision: int, s: Bytes): Parsed<Block>
  {
    var (info, s1) :- ReadHead(revision, s);
    var (nColumns, s2) :- Varint.Read(s1);
    var (nRows, s3) :- Varint.Read(s2);
    var (parts, rest) :- ReadParts(PartsWith(parse, nRows), nColumns, s3);
    var block :- NewColumnBlock(parts.columns, parts.data, info);
    Some((block, rest))
  }

  // ----- a block comes back -----

  /** What the columns of a block contain. */
  function DataOf(b: Block): (r: seq<seq<Value>>)
    requires forall i :: 0 <= i < |b.columns| ==> b.ColumnByIndex(i).Some?
    ensures |r| == |b.columns|
  {
    seq(|b.columns|, i requires 0 <= i < |b.columns| => b.ColumnByIndex(i).value)
  }

  /** A column of the block that the column format carries without loss. */
  ghost predicate CarriesOne(parse: Getter, spec: string, items: seq<Value>)
  {
    var c := parse(spec);
    && c.Some?
    && WellFormed(c.value) && AllHaveType(c.value, c.value.nullable, items)
    && Readable(c.value, c.value.nullable, items)
  }

  ghost predicate Carries(parse: Getter, b: Block)
  {
    && b.columns != [] && b.NumColumns() == |b.columns|
    && forall i :: 0 <= i < |b.columns| ==>
         var items := b.ColumnByIndex(i);
         items.Some? && |items.value| == b.NumRows() && CarriesOne(parse, b.columns[i].1, items.value)
  }

  /** The block information a reader sees: none comes from an old server. */
  function HeadInfo(revision: int, info: Info): Info
  {
    if revision >= REVISION_WITH_BLOCK_INFO then info else DEFAULT_INFO
  }

  lemma HeadReads(revision: int, info: Info, rest: Bytes)
    requires WriteHead(revision, info).Some?
    ensures ReadHead(revision, WriteHead(revision, info).value + rest)
         == Some((HeadInfo(revision, info), rest))
  {
    if revision >= REVISION_WITH_BLOCK_INFO {
      InfoRoundTrip(DEFAULT_INFO, info, rest);
    } else {
      assert [] + rest == rest;
    }
  }

  lemma OneReads(parse: Getter, name: string, spec: string, items: seq<Value>, rest: Bytes)
    requires WriteText(name).Some? && WriteText(spec).Some? && WriteItems(parse, spec, items).Some?
    requires items != [] && CarriesOne(parse, spec, items)
    ensures var bytes := WriteItems(parse, spec, items).value + rest;
            var s := WriteText(name).value + (WriteText(spec).value + bytes);
            ReadPart(parse, |items|, s) == Some((Part((name, spec), [items]), rest))
  {
    var c := parse(spec).value;
    var bytes := WriteItems(parse, spec, items).value;
    TextRoundTrip(name, WriteText(spec).value + (bytes + rest));
    TextRoundTrip(spec, bytes + rest);
    ColumnReadsBack(c, items, rest);
  }

  lemma OneBytes(parse: Getter, b: Block, i: nat, rest: Bytes)
    requires i < |b.columns| && WriteOne(parse, b, i).Some? && b.NumColumns() > 0 && b.ColumnByIndex(i).Some?
    ensures WriteOne(parse, b, i).value + rest
         == WriteText(b.columns[i].0).value + (WriteText(b.columns[i].1).value
            + (WriteItems(parse, b.columns[i].1, b.ColumnByIndex(i).value).value + rest))
  {
    Join(WriteText(b.columns[i].0).value, WriteText(b.columns[i].1).value,
      WriteItems(parse, b.columns[i].1, b.ColumnByIndex(i).value).value, rest);
  }

  /** A reader of the columns of a block of n rows. */
  ghost predicate Reads(read: PartReader, parse: Getter, n: nat)
  {
    forall s {:trigger ReadPart(parse, n, s)} :: read(s) == ReadPart(parse, n, s)
  }

  lemma PartsWithReads(parse: Getter, n: nat)
    ensures Reads(PartsWith(parse, n), parse, n)
  {
  }

  /** A stream that starts with these columns. */
  ghost predicate StartsWith(read: PartReader, columns: seq<(string, string)>, data: seq<seq<Value>>, s: Bytes,
                             rest: Bytes)
  {
    ReadParts(read, |columns|, s) == Some((Parts(columns, data), rest))
  }

  lemma OneMore(read: PartReader, part: Part, s: Bytes, s': Bytes,
                columns: seq<(string, string)>, data: seq<seq<Value>>, rest: Bytes)
    requires read(s) == Some((part, s')) && StartsWith(read, columns, data, s', rest)
    ensures StartsWith(read, [part.header] + columns, part.data + data, s, rest)
  {
    assert |[part.header] + columns| == |columns| + 1;
  }

  /** Piece k, in front of the others and the rest, is read as column k. */
  ghost predicate PartAt(read: PartReader, columns: seq<(string, string)>, data: seq<seq<Value>>,
                         pieces: seq<Option<Bytes>>, k: nat, rest: Bytes)
    requires k < |columns| == |data| == |pieces|
  {
    CatFrom(pieces, k).Some? && CatFrom(pieces, k + 1).Some? ==>
      read(CatFrom(pieces, k).value + rest) == Some((Part(columns[k], [data[k]]), CatFrom(pieces, k + 1).value + rest))
  }

  lemma {:induction false} PartsRead(read: PartReader, columns: seq<(string, string)>, data: seq<seq<Value>>,
                                     pieces: seq<Option<Bytes>>, i: nat, rest: Bytes)
    requires i <= |columns| == |data| == |pieces| && CatFrom(pieces, i).Some?
    requires forall k :: i <= k < |columns| ==> PartAt(read, columns, data, pieces, k, rest)
    ensures StartsWith(read, columns[i..], data[i..], CatFrom(pieces, i).value + rest, rest)
    decreases |columns| - i
  {
    if i == |columns| {
      assert [] + rest == rest && columns[i..] == [] && data[i..] == [];
    } else {
      PartsRead(read, columns, data, pieces, i + 1, rest);
      assert PartAt(read, columns, data, pieces, i, rest);
      OneMore(read, Part(columns[i], [data[i]]), CatFrom(pieces, i).value + rest, CatFrom(pieces, i + 1).value + rest,
        columns[i + 1..], data[i + 1..], rest);
      assert [columns[i]] + columns[i + 1..] == columns[i..] && [data[i]] + data[i + 1..] == data[i..];
    }
  }

  lemma PartReads(parse: Getter, b: Block, i: nat, rest: Bytes)
    requires Carries(parse, b) && b.NumRows() > 0 && i < |b.columns| && WriteOne(parse, b, i).Some?
    ensures ReadPart(parse, b.NumRows(), WriteOne(parse, b, i).value + rest)
         == Some((Part(b.columns[i], [b.ColumnByIndex(i).value]), rest))
  {
    OneBytes(parse, b, i, rest);
    OneReads(parse, b.columns[i].0, b.columns[i].1, b.ColumnByIndex(i).value, rest);
  }

  lemma PieceReads(read: PartReader, parse: Getter, b: Block, k: nat, rest: Bytes)
    requires Reads(read, parse, b.NumRows()) && Carries(parse, b) && b.NumRows() > 0 && k < |b.columns|
    ensures PartAt(read, b.columns, DataOf(b), Pieces(parse, b), k, rest)
  {
    var pieces := Pieces(parse, b);
    if CatFrom(pieces, k).Some? {
      var tail := CatFrom(pieces, k + 1).value;
      assert pieces[k] == WriteOne(parse, b, k);
      Join2(WriteOne(parse, b, k).value, tail, rest);
      PartReads(parse, b, k, tail + rest);
    }
  }

  lemma BlockReads(parse: Getter, revision: int, b: Block, rest: Bytes, parts: Parts)
    requires WriteBlock(parse, revision, b).Some?
    requires |parts.columns| == b.NumColumns()
    requires StartsWith(PartsWith(parse, b.NumRows()), parts.columns, parts.data,
                        CatFrom(Pieces(parse, b), 0).value + rest, rest)
    requires parts.data == [] || (|parts.data| == |parts.columns| && EqualLengths(parts.data))
    ensures ReadBlock(parse, revision, WriteBlock(parse, revision, b).value + rest)
         == Some((ColumnBlock(parts.columns, parts.data, HeadInfo(revision, b.info)), rest))
  {
    var tail := CatFrom(Pieces(parse, b), 0).value;
    var columns, rows := Varint.Written(b.NumColumns()).value, Varint.Written(b.NumRows()).value;
    var head := WriteHead(revision, b.info).value;
    Join(head, columns, rows + tail, rest);
    Join2(rows, tail, rest);
    HeadReads(revision, b.info, columns + (rows + (tail + rest)));
    Varint.RoundTrip(b.NumColumns(), rows + (tail + rest));
    Varint.RoundTrip(b.NumRows(), tail + rest);
  }

  lemma WholeData(b: Block)
    requires forall i :: 0 <= i < |b.columns| ==> b.ColumnByIndex(i).Some?
    requires forall i :: 0 <= i < |b.columns| ==> |b.ColumnByIndex(i).value| == b.NumRows()
    ensures b.columns[0..] == b.columns && DataOf(b)[0..] == DataOf(b) && EqualLengths(DataOf(b))
  {
  }

  /** A block with rows comes back column by column, with its names, types and block information, and
      nothing after it is read. */
  lemma BlockReadsBack(parse: Getter, revision: int, b: Block, rest: Bytes)
    requires Carries(parse, b) && b.NumRows() > 0 && WriteBlock(parse, revision, b).Some?
    ensures ReadBlock(parse, revision, WriteBlock(parse, revision, b).value + rest)
         == Some((ColumnBlock(b.columns, DataOf(b), HeadInfo(revision, b.info)), rest))
  {
    var read, pieces := PartsWith(parse, b.NumRows()), Pieces(parse, b);
    PartsWithReads(parse, b.NumRows());
    forall k | 0 <= k < |b.columns|
      ensures PartAt(read, b.columns, DataOf(b), pieces, k, rest)
    {
      PieceReads(read, parse, b, k, rest);
    }
    PartsRead(read, b.columns, DataOf(b), pieces, 0, rest);
    WholeData(b);
    BlockReads(parse, revision, b, rest, Parts(b.columns, DataOf(b)));
  }

  /** The first cells of every row, as a tuple. */
  function Truncated(rows: seq<Value>, width: nat): (r: seq<Value>)
    requires RowsCover(rows, width)
    ensures |r| == |rows|
  {
    seq(|rows|, k requires 0 <= k < |rows| => Row(Elements(rows[k])[..width]))
  }

  lemma TruncatedColumn(rows: seq<Value>, width: nat, j: nat)
    requires j < width && RowsCover(rows, width)
    ensures RowsCover(Truncated(rows, width), width) && ColumnAt(Truncated(rows, width), j) == ColumnAt(rows, j)
  {
  }

  lemma WholeRows(rows: seq<Value>, width: nat)
    requires forall k :: 0 <= k < |rows| ==> rows[k].Row? && |rows[k].items| == width
    ensures RowsCover(rows, width) && Truncated(rows, width) == rows
  {
    forall k | 0 <= k < |rows|
      ensures Row(Elements(rows[k])[..width]) == rows[k]
    {
      assert rows[k].items[..width] == rows[k].items;
    }
  }

  predicate Positional(rows: seq<Value>)
  {
    forall k :: 0 <= k < |rows| ==> !rows[k].Dict?
  }

  /** Rows at least as wide as declared, written as a row block and read as a column block, are the same rows,
      as tuples: of a wider row the cells beyond the last column are lost. */
  lemma RowsReadBack(parse: Getter, revision: int, b: Block, rest: Bytes)
    requires b.RowBlock? && Carries(parse, b) && b.rows != [] && WriteBlock(parse, revision, b).Some?
    requires Positional(b.rows) && RowsCover(b.rows, |b.columns|)
    ensures ReadBlock(parse, revision, WriteBlock(parse, revision, b).value + rest)
         == Some((ColumnBlock(b.columns, DataOf(b), HeadInfo(revision, b.info)), rest))
    ensures EqualLengths(DataOf(b))
    ensures ColumnBlock(b.columns, DataOf(b), HeadInfo(revision, b.info)).GetRows() == Truncated(b.rows, |b.columns|)
  {
    BlockReadsBack(parse, revision, b, rest);
    var data, rows := DataOf(b), Truncated(b.rows, |b.columns|);
    forall j | 0 <= j < |b.columns|
      ensures data[j] == ColumnAt(rows, j)
    {
      PositionalColumn(b.columns, b.rows, b.info, j);
      TruncatedColumn(b.rows, |b.columns|, j);
    }
    assert |data[0]| == |b.rows|;
    RowsUndoColumns(rows, data);
  }

  /** Only the first row's length is checked when a block is built; a row that lacks a declared column keeps the
      block from being written, wherever it stands. */
  lemma ShortRowsFail(parse: Getter, revision: int, b: Block, k: nat, j: nat)
    requires b.RowBlock? && k < |b.rows| && j < |b.columns| && Subscript(b.rows[k], j).None?
    ensures WriteBlock(parse, revision, b) == None
  {
    var pieces := Pieces(parse, b);
    assert b.ColumnByIndex(j).None?;
    assert pieces[j].None?;
    AllPieces(pieces, 0);
  }

  // ----- blocks without rows -----

  /** The reader takes no column data from a block without rows; the writer writes whatever write_column
      writes for no items. These columns write nothing. */
  predicate SilentWhenEmpty(c: Column)
  {
    match c
    case Scalar(_, _) => true
    case Array(_, inner) => NoDictionary(inner)
    case Tuple(_, _, _) => false
    case Map(_, key, value) => SilentWhenEmpty(key) && SilentWhenEmpty(value)
    case LowCardinality(_, _) => false
  }

  predicate NoDictionary(c: Column)
  {
    match c
    case Scalar(_, _) => true
    case Array(_, inner) => NoDictionary(inner)
    case Tuple(_, _, inners) => forall j :: 0 <= j < |inners| ==> NoDictionary(inners[j])
    case Map(_, key, value) => NoDictionary(key) && NoDictionary(value)
    case LowCardinality(_, _) => false
  }

  /** A state prefix is empty, or starts with the version number of the first dictionary. */
  predicate PrefixShape(bytes: Bytes, isEmpty: bool)
  {
    if isEmpty then bytes == [] else |bytes| >= 3 && bytes[..3] == [1, 0, 0]
  }

  lemma PrefixShapeJoins(a: Bytes, b: Bytes, aEmpty: bool, bEmpty: bool)
    requires PrefixShape(a, aEmpty) && PrefixShape(b, bEmpty)
    ensures PrefixShape(a + b, aEmpty && bEmpty)
  {
    if aEmpty {
      assert a + b == b;
    } else {
      assert (a + b)[..3] == a[..3];
    }
  }

  lemma VersionShape()
    ensures PrefixShape(StructPack.LittleEndian(8, 1), false)
  {
    var bytes := StructPack.LittleEndian(8, 1);
    assert bytes == [1] + StructPack.LittleEndian(7, 0);
    assert StructPack.LittleEndian(7, 0) == [0] + StructPack.LittleEndian(6, 0);
    assert StructPack.LittleEndian(6, 0) == [0] + StructPack.LittleEndian(5, 0);
    assert bytes[..3] == [1, 0, 0];
  }

  lemma {:induction false} PrefixOf(c: Column)
    ensures PrefixShape(WritePrefix(c), NoDictionary(c))
  {
    match c
    case Scalar(_, _) =>
    case Array(_, inner) => PrefixOf(inner);
    case Tuple(_, _, inners) =>
      PrefixesOf(inners, 0);
    case Map(_, key, value) =>
      PrefixOf(key);
      PrefixOf(value);
      PrefixShapeJoins(WritePrefix(key), WritePrefix(value), NoDictionary(key), NoDictionary(value));
    case LowCardinality(_, _) =>
      VersionShape();
  }

  lemma {:induction false} PrefixesOf(inners: seq<Column>, j: nat)
    requires j <= |inners|
    ensures PrefixShape(WritePrefixes(inners, j), forall k :: j <= k < |inners| ==> NoDictionary(inners[k]))
    decreases inners, |inners| - j
  {
    if j < |inners| {
      PrefixOf(inners[j]);
      PrefixesOf(inners, j + 1);
      PrefixShapeJoins(WritePrefix(inners[j]), WritePrefixes(inners, j + 1), NoDictionary(inners[j]),
        forall k :: j + 1 <= k < |inners| ==> NoDictionary(inners[k]));
    }
  }

  lemma {:induction false} SilenceHasNoDictionary(c: Column)
    requires SilentWhenEmpty(c)
    ensures NoDictionary(c)
  {
    if c.Map? {
      SilenceHasNoDictionary(c.key);
      SilenceHasNoDictionary(c.value);
    }
  }

  lemma {:induction false} EmptyData(c: Column, nullable: bool)
    requires NoDictionary(c)
    ensures WriteData(c, nullable, []) == if SilentWhenEmpty(c) then Some([]) else None
    decreases c
  {
    CatNothing(Some([]));
    assert NullMap(nullable, []) == [];
    match c
    case Scalar(_, _) => ColumnLimits.EmptyWrite(c, nullable);
    case Array(_, _) => ColumnLimits.EmptyWrite(c, nullable);
    case Tuple(_, _, _) =>
    case Map(_, key, value) =>
      EmptyData(key, key.nullable);
      EmptyData(value, value.nullable);
      EmptyMapData(c, nullable);
  }

  lemma EmptyMapData(c: Column, nullable: bool)
    requires c.Map?
    ensures WriteData(c, nullable, [])
         == Cat(WriteData(c.key, c.key.nullable, []), WriteData(c.value, c.value.nullable, []))
  {
    assert NullMap(nullable, []) == [] && Filled(c, nullable, []) == [];
    assert KeyLists([]) == [] && ValueLists([]) == [];
    var parts := Cat(WriteData(c.key, c.key.nullable, []), WriteData(c.value, c.value.nullable, []));
    CatNothing(parts);
    assert WriteBody(c, nullable, []) == Cat(Some([]), parts);
    assert WriteData(c, nullable, []) == Cat(Some([]), WriteBody(c, nullable, []));
  }

  /** What write_column writes for no items: nothing, or a failure, or a dictionary version first. */
  lemma EmptyColumn(c: Column)
    ensures WriteColumn(c, []) == Some([]) <==> SilentWhenEmpty(c)
    ensures WriteColumn(c, []).Some? ==> PrefixShape(WriteColumn(c, []).value, SilentWhenEmpty(c))
  {
    PrefixOf(c);
    if NoDictionary(c) {
      EmptyData(c, c.nullable);
      CatNothing(WriteData(c, c.nullable, []));
    } else {
      if SilentWhenEmpty(c) {
        SilenceHasNoDictionary(c);
      }
      if WriteColumn(c, []).Some? {
        var prefix, data := WritePrefix(c), WriteData(c, c.nullable, []).value;
        assert WriteColumn(c, []).value == prefix + data;
        assert (prefix + data)[..3] == prefix[..3];
      }
    }
  }

  /** As many columns as declared, which can be written, and no rows. */
  ghost predicate EmptyBlock(parse: Getter, revision: int, b: Block)
  {
    && parse("").None? && b.NumRows() == 0 && b.columns != [] && b.NumColumns() == |b.columns| < Bits.U64
    && WriteHead(revision, b.info).Some?
    && forall i :: 0 <= i < |b.columns| ==>
         && WriteText(b.columns[i].0).Some? && WriteText(b.columns[i].1).Some?
         && b.ColumnByIndex(i) == Some([]) && parse(b.columns[i].1).Some?
  }

  predicate SilentColumn(parse: Getter, spec: string)
  {
    var c := parse(spec);
    c.Some? && SilentWhenEmpty(c.value)
  }

  predicate Silent(parse: Getter, columns: seq<(string, string)>)
  {
    forall k :: 0 <= k < |columns| ==> SilentColumn(parse, columns[k].1)
  }

  /** Leftover column data is taken for the next column: named by a zero byte, of no type. */
  lemma LeftoversMisread(parse: Getter, bytes: Bytes)
    requires PrefixShape(bytes, false)
    ensures ReadPart(parse, 0, bytes).Some? ==> ReadPart(parse, 0, bytes).value.0.header.1 == ""
  {
    var tail := bytes[3..];
    var s1 := Varint.Encode(0) + tail;
    assert bytes == Varint.Encode(1) + ([0] + s1);
    Varint.RoundTrip(1, [0] + s1);
    TakeFront([0], s1);
    Varint.RoundTrip(0, tail);
    assert tail[..0] == [] && tail[0..] == tail;
    assert ReadText(s1) == Some(("", tail));
    if ReadText(bytes).Some? {
      assert ReadText(bytes).value.1 == s1;
    }
  }

  /** One column of an empty block: the data it wrote is still in front of the stream. */
  lemma EmptyOneReads(parse: Getter, name: string, spec: string, after: Bytes)
    requires WriteText(name).Some? && WriteText(spec).Some?
    ensures ReadPart(parse, 0, WriteText(name).value + (WriteText(spec).value + after))
         == Some((Part((name, spec), []), after))
  {
    TextRoundTrip(name, WriteText(spec).value + after);
    TextRoundTrip(spec, after);
  }

  /** Behind its first column a stream starts with the others. */
  lemma OneLess(read: PartReader, header: (string, string), all: Bytes, after: Bytes,
                columns: seq<(string, string)>, rest: Bytes)
    requires read(all) == Some((Part(header, []), after))
    ensures StartsWith(read, [header] + columns, [], all, rest) <==> StartsWith(read, columns, [], after, rest)
  {
    assert |[header] + columns| == |columns| + 1;
    PrependedEqually(header, ReadParts(read, |columns|, after), columns, rest);
  }

  /** Column data in front of a stream keeps the other columns from coming back. */
  lemma DataInFront(read: PartReader, parse: Getter, data: Bytes, s: Bytes, columns: seq<(string, string)>,
                    rest: Bytes, silent: bool)
    requires Reads(read, parse, 0) && PrefixShape(data, silent) && parse("").None?
    requires (columns == [] ==> s == rest) && (columns != [] ==> parse(columns[0].1).Some?)
    ensures StartsWith(read, columns, [], data + s, rest) <==> silent && StartsWith(read, columns, [], s, rest)
  {
    if silent {
      assert data + s == s;
    } else {
      LeftoversStay(read, parse, columns, data, s, rest);
    }
  }

  /** One column of an empty block that wrote data, in front of columns that come back from s. */
  lemma EmptyPartReads(read: PartReader, parse: Getter, name: string, spec: string, data: Bytes, s: Bytes,
                       columns: seq<(string, string)>, rest: Bytes, silent: bool)
    requires Reads(read, parse, 0)
    requires WriteText(name).Some? && WriteText(spec).Some? && PrefixShape(data, silent)
    requires parse("").None? && (columns == [] ==> s == rest) && (columns != [] ==> parse(columns[0].1).Some?)
    ensures StartsWith(read, [(name, spec)] + columns, [],
                       WriteText(name).value + (WriteText(spec).value + (data + s)), rest)
       <==> silent && StartsWith(read, columns, [], s, rest)
  {
    EmptyOneReads(parse, name, spec, data + s);
    OneLess(read, (name, spec), WriteText(name).value + (WriteText(spec).value + (data + s)), data + s, columns, rest);
    DataInFront(read, parse, data, s, columns, rest, silent);
  }

  /** From column k on the columns come back exactly if column k is silent and the others come back. */
  ghost predicate EmptyAt(read: PartReader, columns: seq<(string, string)>, pieces: seq<Option<Bytes>>,
                          silent: bool, k: nat, rest: Bytes)
    requires k < |columns| == |pieces|
  {
    CatFrom(pieces, k).Some? && CatFrom(pieces, k + 1).Some? ==>
      (StartsWith(read, columns[k..], [], CatFrom(pieces, k).value + rest, rest)
       <==> silent && StartsWith(read, columns[k + 1..], [], CatFrom(pieces, k + 1).value + rest, rest))
  }

  lemma {:induction false} EmptyPartsRead(read: PartReader, columns: seq<(string, string)>, pieces: seq<Option<Bytes>>,
                                          silent: seq<bool>, i: nat, rest: Bytes)
    requires i <= |columns| == |pieces| == |silent| && CatFrom(pieces, i).Some?
    requires forall k :: i <= k < |columns| ==> EmptyAt(read, columns, pieces, silent[k], k, rest)
    ensures StartsWith(read, columns[i..], [], CatFrom(pieces, i).value + rest, rest)
       <==> forall k :: i <= k < |columns| ==> silent[k]
    decreases |columns| - i
  {
    if i == |columns| {
      assert [] + rest == rest && columns[i..] == [];
    } else {
      EmptyPartsRead(read, columns, pieces, silent, i + 1, rest);
      assert EmptyAt(read, columns, pieces, silent[i], i, rest);
    }
  }

  lemma EmptyPiece(read: PartReader, parse: Getter, revision: int, b: Block, k: nat, rest: Bytes)
    requires Reads(read, parse, 0) && EmptyBlock(parse, revision, b) && k < |b.columns|
    ensures EmptyAt(read, b.columns, Pieces(parse, b), SilentColumn(parse, b.columns[k].1), k, rest)
  {
    var pieces := Pieces(parse, b);
    if CatFrom(pieces, k).Some? {
      assert pieces[k] == WriteOne(parse, b, k);
      EmptyColumn(parse(b.columns[k].1).value);
      EmptyPieceBytes(parse, b, pieces, k, rest);
      EmptyStep(read, parse, b.columns, pieces, k, rest, WriteItems(parse, b.columns[k].1, []).value,
        SilentColumn(parse, b.columns[k].1));
    }
  }

  lemma EmptyPieceBytes(parse: Getter, b: Block, pieces: seq<Option<Bytes>>, k: nat, rest: Bytes)
    requires k < |b.columns| == |pieces| && pieces[k] == WriteOne(parse, b, k) && CatFrom(pieces, k).Some?
    requires b.NumColumns() > 0 && b.ColumnByIndex(k) == Some([])
    ensures CatFrom(pieces, k).value + rest
         == WriteText(b.columns[k].0).value + (WriteText(b.columns[k].1).value
            + (WriteItems(parse, b.columns[k].1, []).value + (CatFrom(pieces, k + 1).value + rest)))
  {
    var tail := CatFrom(pieces, k + 1).value;
    Join2(WriteOne(parse, b, k).value, tail, rest);
    OneBytes(parse, b, k, tail + rest);
  }

  lemma EmptyStep(read: PartReader, parse: Getter, columns: seq<(string, string)>, pieces: seq<Option<Bytes>>, k: nat,
                  rest: Bytes, data: Bytes, silent: bool)
    requires Reads(read, parse, 0) && parse("").None? && PrefixShape(data, silent)
    requires k < |columns| == |pieces| && CatFrom(pieces, k).Some?
    requires k + 1 < |columns| ==> parse(columns[k + 1].1).Some?
    requires WriteText(columns[k].0).Some? && WriteText(columns[k].1).Some?
    requires CatFrom(pieces, k).value + rest
          == WriteText(columns[k].0).value + (WriteText(columns[k].1).value
             + (data + (CatFrom(pieces, k + 1).value + rest)))
    ensures EmptyAt(read, columns, pieces, silent, k, rest)
  {
    var s := CatFrom(pieces, k + 1).value + rest;
    assert columns[k..] == [columns[k]] + columns[k + 1..];
    assert k + 1 == |columns| ==> s == rest;
    EmptyPartReads(read, parse, columns[k].0, columns[k].1, data, s, columns[k + 1..], rest, silent);
  }

  lemma PrependedEqually(x: (string, string), others: Parsed<Parts>,
                         columns: seq<(string, string)>, rest: Bytes)
    ensures ResumedParts([x], [], others) == Some((Parts([x] + columns, []), rest))
       <==> others == Some((Parts(columns, []), rest))
  {
    if others.Some? {
      assert [] + others.value.0.data == others.value.0.data;
      if [x] + others.value.0.columns == [x] + columns {
        assert ([x] + others.value.0.columns)[1..] == others.value.0.columns && ([x] + columns)[1..] == columns;
      }
    }
  }

  lemma LeftoversStay(read: PartReader, parse: Getter, columns: seq<(string, string)>, data: Bytes, after: Bytes,
                      rest: Bytes)
    requires Reads(read, parse, 0) && PrefixShape(data, false) && parse("").None?
    requires (columns == [] ==> after == rest) && (columns != [] ==> parse(columns[0].1).Some?)
    ensures !StartsWith(read, columns, [], data + after, rest)
  {
    if columns == [] {
      assert |data + after| > |rest|;
    } else {
      assert (data + after)[..3] == data[..3];
      LeftoversMisread(parse, data + after);
      assert read(data + after) == ReadPart(parse, 0, data + after);
      OtherHeader(read, columns, data + after, rest);
    }
  }

  lemma OtherHeader(read: PartReader, columns: seq<(string, string)>, s: Bytes, rest: Bytes)
    requires columns != [] && (read(s).Some? ==> read(s).value.0.header.1 != columns[0].1)
    ensures !StartsWith(read, columns, [], s, rest)
  {
    var parts := ReadParts(read, |columns|, s);
    assert parts.Some? ==> parts.value.0.columns[0] == read(s).value.0.header;
  }

  ghost predicate EmptyBlockReturns(parse: Getter, revision: int, b: Block, rest: Bytes)
    requires WriteBlock(parse, revision, b).Some?
  {
    ReadBlock(parse, revision, WriteBlock(parse, revision, b).value + rest)
    == Some((ColumnBlock(b.columns, [], HeadInfo(revision, b.info)), rest))
  }

  /** What the head of a block without rows leaves to be read. */
  lemma EmptyHeadReads(parse: Getter, revision: int, info: Info, count: nat, tail: Bytes, s: Bytes)
    requires WriteHead(revision, info).Some? && count < Bits.U64
    requires s == WriteHead(revision, info).value + (Varint.Encode(count) + (Varint.Encode(0) + tail))
    ensures var parts := ReadParts(PartsWith(parse, 0), count, tail);
            ReadBlock(parse, revision, s)
            == (if parts.None? then None
                else
                  var block := NewColumnBlock(parts.value.0.columns, parts.value.0.data, HeadInfo(revision, info));
                  if block.None? then None else Some((block.value, parts.value.1)))
  {
    HeadReads(revision, info, Varint.Encode(count) + (Varint.Encode(0) + tail));
    Varint.RoundTrip(count, Varint.Encode(0) + tail);
    Varint.RoundTrip(0, tail);
  }

  lemma EmptyBlockBytes(parse: Getter, revision: int, b: Block, rest: Bytes)
    requires WriteBlock(parse, revision, b).Some? && b.NumRows() == 0
    ensures WriteBlock(parse, revision, b).value + rest
         == WriteHead(revision, b.info).value + (Varint.Encode(b.NumColumns())
            + (Varint.Encode(0) + (CatFrom(Pieces(parse, b), 0).value + rest)))
  {
    var tail := CatFrom(Pieces(parse, b), 0).value;
    Join(WriteHead(revision, b.info).value, Varint.Encode(b.NumColumns()), Varint.Encode(0) + tail, rest);
    Join2(Varint.Encode(0), tail, rest);
  }

  lemma EmptyBlockReads(parse: Getter, revision: int, b: Block, rest: Bytes)
    requires EmptyBlock(parse, revision, b) && WriteBlock(parse, revision, b).Some?
    ensures EmptyBlockReturns(parse, revision, b, rest)
       <==> StartsWith(PartsWith(parse, 0), b.columns, [], CatFrom(Pieces(parse, b), 0).value + rest, rest)
  {
    var tail := CatFrom(Pieces(parse, b), 0).value + rest;
    EmptyBlockBytes(parse, revision, b, rest);
    EmptyHeadReads(parse, revision, b.info, |b.columns|, tail, WriteBlock(parse, revision, b).value + rest);
  }

  lemma SilentIsWritten(parse: Getter, revision: int, b: Block)
    requires EmptyBlock(parse, revision, b) && Silent(parse, b.columns)
    ensures CatFrom(Pieces(parse, b), 0).Some?
  {
    var pieces := Pieces(parse, b);
    forall k | 0 <= k < |pieces|
      ensures pieces[k].Some?
    {
      assert SilentColumn(parse, b.columns[k].1);
      EmptyColumn(parse(b.columns[k].1).value);
    }
    AllPieces(pieces, 0);
  }

  lemma EmptyBlockReturnsExactly(parse: Getter, revision: int, b: Block, rest: Bytes)
    requires EmptyBlock(parse, revision, b) && WriteBlock(parse, revision, b).Some?
    ensures EmptyBlockReturns(parse, revision, b, rest) <==> Silent(parse, b.columns)
  {
    var read, pieces := PartsWith(parse, 0), Pieces(parse, b);
    var silent := seq(|b.columns|, k requires 0 <= k < |b.columns| => SilentColumn(parse, b.columns[k].1));
    PartsWithReads(parse, 0);
    forall k | 0 <= k < |b.columns|
      ensures EmptyAt(read, b.columns, pieces, silent[k], k, rest)
    {
      EmptyPiece(read, parse, revision, b, k, rest);
    }
    EmptyBlockReads(parse, revision, b, rest);
    EmptyPartsRead(read, b.columns, pieces, silent, 0, rest);
    assert b.columns[0..] == b.columns;
    assert forall k :: 0 <= k < |b.columns| ==> silent[k] == SilentColumn(parse, b.columns[k].1);
  }

  lemma FullEmptyBlock(parse: Getter, revision: int, b: Block)
    requires EmptyBlock(parse, revision, b)
    ensures ReturnsEverywhere(parse, revision, b) <==> Silent(parse, b.columns)
  {
    if Silent(parse, b.columns) {
      SilentIsWritten(parse, revision, b);
    }
    if WriteBlock(parse, revision, b).Some? {
      forall rest: Bytes
        ensures EmptyBlockReturns(parse, revision, b, rest) <==> Silent(parse, b.columns)
      {
        EmptyBlockReturnsExactly(parse, revision, b, rest);
      }
      assert EmptyBlockReturns(parse, revision, b, []) ==> Silent(parse, b.columns);
    }
  }

  /** The block is written and comes back in front of any stream. */
  ghost predicate ReturnsEverywhere(parse: Getter, revision: int, b: Block)
  {
    WriteBlock(parse, revision, b).Some? && forall rest: Bytes :: EmptyBlockReturns(parse, revision, b, rest)
  }

  /** Any block without rows that the constructors build, of names and types that can be written. */
  ghost predicate RowlessBlock(parse: Getter, revision: int, b: Block)
  {
    && parse("").None? && b.NumRows() == 0 && |b.columns| < Bits.U64 && WriteHead(revision, b.info).Some?
    && (b.ColumnBlock? ==> b.data == [] || |b.data| == |b.columns|)
    && forall i :: 0 <= i < |b.columns| ==>
         && WriteText(b.columns[i].0).Some? && WriteText(b.columns[i].1).Some?
         && (!Unannounced(b) ==> b.ColumnByIndex(i) == Some([]) && parse(b.columns[i].1).Some?)
  }

  /** A column-oriented block without data, whatever columns it declares. */
  predicate Unannounced(b: Block)
  {
    b.ColumnBlock? && b.data == []
  }

  /** Names and types, one after the other. */
  function Headings(columns: seq<(string, string)>): Option<Bytes>
  {
    if columns == [] then Some([])
    else Cat(WriteText(columns[0].0), Cat(WriteText(columns[0].1), Headings(columns[1..])))
  }

  lemma {:induction false} PiecesAreHeadings(parse: Getter, b: Block, i: nat)
    requires b.NumColumns() == 0 && i <= |b.columns|
    ensures CatFrom(Pieces(parse, b), i) == Headings(b.columns[i..])
    decreases |b.columns| - i
  {
    if i < |b.columns| {
      PiecesAreHeadings(parse, b, i + 1);
      var others := Headings(b.columns[i + 1..]);
      assert b.columns[i..][1..] == b.columns[i + 1..];
      assert Pieces(parse, b)[i] == Cat(WriteText(b.columns[i].0), Cat(WriteText(b.columns[i].1), Some([])));
      CatNothing(WriteText(b.columns[i].1));
      CatAssociative(WriteText(b.columns[i].0), WriteText(b.columns[i].1), others);
    }
  }

  /** Without data no column is announced: the reader takes none, and leaves the names and types that follow. */
  lemma UnannouncedColumns(parse: Getter, revision: int, b: Block, rest: Bytes)
    requires RowlessBlock(parse, revision, b) && WriteBlock(parse, revision, b).Some?
    requires Unannounced(b) || b.columns == []
    ensures Headings(b.columns).Some?
    ensures ReadBlock(parse, revision, WriteBlock(parse, revision, b).value + rest)
         == Some((ColumnBlock([], [], HeadInfo(revision, b.info)), Headings(b.columns).value + rest))
  {
    PiecesAreHeadings(parse, b, 0);
    assert b.columns[0..] == b.columns;
    var tail := CatFrom(Pieces(parse, b), 0).value + rest;
    EmptyBlockBytes(parse, revision, b, rest);
    EmptyHeadReads(parse, revision, b.info, 0, tail, WriteBlock(parse, revision, b).value + rest);
  }

  lemma UnannouncedReturns(parse: Getter, revision: int, b: Block)
    requires RowlessBlock(parse, revision, b) && (Unannounced(b) || b.columns == [])
    ensures ReturnsEverywhere(parse, revision, b) <==> b.columns == []
  {
    var pieces := Pieces(parse, b);
    AllPieces(pieces, 0);
    assert WriteBlock(parse, revision, b).Some?;
    forall rest: Bytes
      ensures EmptyBlockReturns(parse, revision, b, rest) <==> b.columns == []
    {
      UnannouncedColumns(parse, revision, b, rest);
      if b.columns == [] {
        assert [] + rest == rest;
      }
    }
    assert EmptyBlockReturns(parse, revision, b, []) <==> b.columns == [];
  }

  /** A block without rows comes back, in front of every stream, exactly when it announces the columns it declares
      and none of them writes anything for no items: no tuple on top, no dictionary anywhere. A column block without
      data announces none, and the names and types it still writes are left in the stream. */
  lemma EmptyBlockExactly(parse: Getter, revision: int, b: Block)
    requires RowlessBlock(parse, revision, b)
    ensures ReturnsEverywhere(parse, revision, b)
       <==> (Unannounced(b) ==> b.columns == []) && Silent(parse, b.columns)
  {
    if Unannounced(b) || b.columns == [] {
      UnannouncedReturns(parse, revision, b);
    } else {
      FullEmptyBlock(parse, revision, b);
    }
  }

  // ----- the streams -----

  method WriteColumnItems(parse: Getter, spec: string, items: seq<Value>, w: Writer) returns (ok: bool)
    modifies w
    ensures Emits(old(w.data), w.data, ok, WriteItems(parse, spec, items))
  {
    var c := parse(spec);
    if c.None? {
      return false;
    }
    var list := new Value[|items|](i requires 0 <= i < |items| => items[i]);
    assert list[..] == items;
    ok := ColumnWriter.WriteColumnOf(c.value, list, w);
  }

  method WriteOneColumn(parse: Getter, b: Block, i: nat, w: Writer) returns (ok: bool)
    requires i < |b.columns|
    modifies w
    ensures Emits(old(w.data), w.data, ok, WriteOne(parse, b, i))
  {
    ghost var start, whole := w.data, WriteOne(parse, b, i);
    ghost var data := if b.NumColumns() == 0 then Some([]) else
      if b.ColumnByIndex(i).None? then None else WriteItems(parse, b.columns[i].1, b.ColumnByIndex(i).value);
    ghost var name, spec := WriteText(b.columns[i].0), WriteText(b.columns[i].1);
    ok := WriteBinaryText(b.columns[i].0, w);
    if !ok {
      return;
    }
    Advance(start, start, w.data, whole, name, Cat(spec, data));
    ghost var now := w.data;
    ok := WriteBinaryText(b.columns[i].1, w);
    if !ok {
      Abort(start, now, w.data, whole, spec, data);
      return;
    }
    Advance(start, now, w.data, whole, spec, data);
    now := w.data;
    if b.NumColumns() != 0 {
      var items := b.ColumnByIndex(i);
      if items.None? {
        return false;
      }
      ok := WriteColumnItems(parse, b.columns[i].1, items.value, w);
    }
    assert now + [] == now;
    Finish(start, now, w.data, ok, whole, data);
  }

  /** BlockOutputStream.write */
  method WriteBlockTo(parse: Getter, revision: int, b: Block, w: Writer) returns (ok: bool)
    modifies w
    ensures Emits(old(w.data), w.data, ok, WriteBlock(parse, revision, b))
  {
    ghost var start, whole := w.data, WriteBlock(parse, revision, b);
    ghost var columns, rows, pieces := Varint.Written(b.NumColumns()), Varint.Written(b.NumRows()), Pieces(parse, b);
    ok := WriteHeadTo(revision, b.info, w);
    if !ok {
      return;
    }
    Advance(start, start, w.data, whole, WriteHead(revision, b.info), Cat(columns, Cat(rows, CatFrom(pieces, 0))));
    ghost var now := w.data;
    ok := Varint.WriteVarint(b.NumColumns(), w);
    if !ok {
      Abort(start, now, w.data, whole, columns, Cat(rows, CatFrom(pieces, 0)));
      return;
    }
    Advance(start, now, w.data, whole, columns, Cat(rows, CatFrom(pieces, 0)));
    now := w.data;
    ok := Varint.WriteVarint(b.NumRows(), w);
    if !ok {
      Abort(start, now, w.data, whole, rows, CatFrom(pieces, 0));
      return;
    }
    Advance(start, now, w.data, whole, rows, CatFrom(pieces, 0));
    for i := 0 to |b.columns|
      invariant Pending(start, w.data, whole, CatFrom(pieces, i))
    {
      now := w.data;
      assert pieces[i] == WriteOne(parse, b, i);
      ok := WriteOneColumn(parse, b, i, w);
      if !ok {
        Abort(start, now, w.data, whole, WriteOne(parse, b, i), CatFrom(pieces, i + 1));
        return;
      }
      Advance(start, now, w.data, whole, WriteOne(parse, b, i), CatFrom(pieces, i + 1));
    }
    assert w.data + [] == w.data;
    Finish(start, w.data, w.data, true, whole, Some([]));
    ok := true;
  }

  method WriteHeadTo(revision: int, info: Info, w: Writer) returns (ok: bool)
    modifies w
    ensures Emits(old(w.data), w.data, ok, WriteHead(revision, info))
  {
    if revision < REVISION_WITH_BLOCK_INFO {
      assert w.data + [] == w.data;
      return true;
    }
    var block := new BlockInfo();
    block.isOverflows, block.bucketNum := info.overflows, info.bucket;
    ok := block.Write(w);
  }

  /** The reading loop with what it has collected. */
  function ReadLoop(read: PartReader, columns: seq<(string, string)>, data: seq<seq<Value>>, count: nat, s: Bytes)
    : Parsed<Parts>
    decreases count
  {
    if count == 0 then Some((Parts(columns, data), s))
    else
      var (part, s') :- read(s);
      ReadLoop(read, columns + [part.header], data + part.data, count - 1, s')
  }

  lemma ResumedFurther(columns: seq<(string, string)>, data: seq<seq<Value>>, x: (string, string),
                       items: seq<seq<Value>>, others: Parsed<Parts>)
    ensures ResumedParts(columns, data, ResumedParts([x], items, others))
         == ResumedParts(columns + [x], data + items, others)
  {
    if others.Some? {
      assert columns + ([x] + others.value.0.columns) == columns + [x] + others.value.0.columns;
      assert data + (items + others.value.0.data) == data + items + others.value.0.data;
    }
  }

  lemma {:induction false} LoopReadsParts(read: PartReader, columns: seq<(string, string)>, data: seq<seq<Value>>,
                                          count: nat, s: Bytes)
    ensures ReadLoop(read, columns, data, count, s) == ResumedParts(columns, data, ReadParts(read, count, s))
    decreases count
  {
    if count == 0 {
      assert columns + [] == columns && data + [] == data;
    } else {
      var r := read(s);
      if r.Some? {
        var part, s' := r.value.0, r.value.1;
        LoopReadsParts(read, columns + [part.header], data + part.data, count - 1, s');
        ResumedFurther(columns, data, part.header, part.data, ReadParts(read, count - 1, s'));
      }
    }
  }

  lemma LoopFromStart(read: PartReader, count: nat, s: Bytes)
    ensures ReadLoop(read, [], [], count, s) == ReadParts(read, count, s)
  {
    LoopReadsParts(read, [], [], count, s);
    var whole := ReadParts(read, count, s);
    if whole.Some? {
      assert [] + whole.value.0.columns == whole.value.0.columns && [] + whole.value.0.data == whole.value.0.data;
    }
  }

  method ReadPartFrom(parse: Getter, nRows: nat, r: Reader) returns (part: Option<Part>)
    modifies r
    ensures ReadPart(parse, nRows, old(r.data)) == if part.Some? then Some((part.value, r.data)) else None
  {
    var name :- ReadBinaryText(r);
    var spec :- ReadBinaryText(r);
    if nRows == 0 {
      return Some(Part((name, spec), []));
    }
    var c :- parse(spec);
    var items :- ColumnReader.TakeColumn(c, nRows, r);
    part := Some(Part((name, spec), [items]));
  }

  method ReadWith(parse: Getter, ghost read: PartReader, nRows: nat, r: Reader) returns (part: Option<Part>)
    requires Reads(read, parse, nRows)
    modifies r
    ensures read(old(r.data)) == if part.Some? then Some((part.value, r.data)) else None
  {
    part := ReadPartFrom(parse, nRows, r);
  }

  method ReadPartsFrom(parse: Getter, ghost read: PartReader, nColumns: nat, nRows: nat, r: Reader)
    returns (columns: seq<(string, string)>, data: seq<seq<Value>>, ok: bool)
    requires Reads(read, parse, nRows)
    modifies r
    ensures ReadParts(read, nColumns, old(r.data)) == if ok then Some((Parts(columns, data), r.data)) else None
  {
    columns, data := [], [];
    LoopFromStart(read, nColumns, r.data);
    ghost var whole := ReadLoop(read, columns, data, nColumns, r.data);
    for i := 0 to nColumns
      invariant whole == ReadLoop(read, columns, data, nColumns - i, r.data)
    {
      var part := ReadWith(parse, read, nRows, r);
      if part.None? {
        return columns, data, false;
      }
      columns, data := columns + [part.value.header], data + part.value.data;
    }
    ok := true;
  }

  /** BlockInputStream.read */
  method ReadBlockFrom(parse: Getter, revision: int, r: Reader) returns (block: Option<Block>)
    modifies r
    ensures ReadBlock(parse, revision, old(r.data)) == if block.Some? then Some((block.value, r.data)) else None
  {
    var info := new BlockInfo();
    if revision >= REVISION_WITH_BLOCK_INFO {
      var ok := info.Read(r);
      if !ok {
        return None;
      }
    }
    var nColumns :- Varint.ReadVarint(r);
    var nRows :- Varint.ReadVarint(r);
    PartsWithReads(parse, nRows);
    var columns, data, ok := ReadPartsFrom(parse, PartsWith(parse, nRows), nColumns, nRows, r);
    if !ok {
      return None;
    }
    block := NewColumnBlock(columns, data, Info(info.isOverflows, info.bucketNum));
  }
}
