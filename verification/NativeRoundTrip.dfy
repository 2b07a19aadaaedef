/** From rows and type specifications to bytes and back: the parser, the block format and the column
    format together. */
module NativeRoundTrip {
  import opened Outcomes
  import opened Columns
  import opened ColumnCodec
  import opened ColumnRoundTrip
  import opened ColumnWrites
  import opened Blocks
  import opened Native
  import opened Shapes
  import SpecParser
  import StructPack
  import Utf8
  import Bits

  /** (name, printed type) for every column. */
  function Declared(names: seq<string>, trees: seq<Column>): (r: seq<(string, string)>)
    requires |names| == |trees|
    ensures |r| == |trees|
  {
    seq(|trees|, j requires 0 <= j < |trees| => (names[j], SpecParser.Print(trees[j])))
  }

  predicate Sendable(text: string)
  {
    |Utf8.Encode(text)| < Bits.U64
  }

  /** Rows a block can carry: of the declared width, every column typed, and nothing too large to count. */
  ghost predicate Carriable(names: seq<string>, trees: seq<Column>, rows: seq<Value>)
  {
    && 0 < |trees| == |names| < Bits.U64 && 0 < |rows| < Bits.U64
    && (forall i :: 0 <= i < |rows| ==> rows[i].Row? && |rows[i].items| == |trees|)
    && forall j :: 0 <= j < |trees| ==>
         && Sendable(names[j]) && Sendable(SpecParser.Print(trees[j])) && CarriableColumn(trees[j], ColumnAt(rows, j))
  }

  ghost predicate CarriableColumn(c: Column, items: seq<Value>)
  {
    && SpecParser.Printable(c) && WellFormed(c) && HasPlaceholders(c)
    && AllHaveType(c, c.nullable, items) && Readable(c, c.nullable, items)
    && VolumeAll(items) < SIZE_LIMIT
  }

  lemma ColumnCarries(parse: Getter, c: Column, items: seq<Value>)
    requires CarriableColumn(c, items) && parse == SpecParser.Parse
    ensures CarriesOne(parse, SpecParser.Print(c), items) && WriteItems(parse, SpecParser.Print(c), items).Some?
  {
    SpecParser.ParsePrint(c);
    ColumnIsWritten(c, items);
  }

  lemma BlockCarries(parse: Getter, names: seq<string>, trees: seq<Column>, rows: seq<Value>, info: Info)
    requires Carriable(names, trees, rows) && parse == SpecParser.Parse
    ensures Carries(parse, RowBlock(Declared(names, trees), rows, info))
    ensures NewRowBlock(Declared(names, trees), rows, info) == Some(RowBlock(Declared(names, trees), rows, info))
  {
    var b := RowBlock(Declared(names, trees), rows, info);
    forall j | 0 <= j < |b.columns|
      ensures b.ColumnByIndex(j) == Some(ColumnAt(rows, j)) && CarriesOne(parse, b.columns[j].1, ColumnAt(rows, j))
    {
      PositionalColumn(b.columns, rows, info, j);
      ColumnCarries(parse, trees[j], ColumnAt(rows, j));
    }
  }

  lemma ColumnsAreWritten(parse: Getter, names: seq<string>, trees: seq<Column>, rows: seq<Value>, info: Info)
    requires Carriable(names, trees, rows) && parse == SpecParser.Parse
    ensures CatFrom(Pieces(parse, RowBlock(Declared(names, trees), rows, info)), 0).Some?
  {
    var b := RowBlock(Declared(names, trees), rows, info);
    var pieces := Pieces(parse, b);
    forall j | 0 <= j < |pieces|
      ensures pieces[j].Some?
    {
      PositionalColumn(b.columns, rows, info, j);
      ColumnCarries(parse, trees[j], ColumnAt(rows, j));
    }
    AllPieces(pieces, 0);
  }

  /** Rows that are alike, lists for tuples and tuples for lists, make the same block on the wire. */
  lemma BlockAlike(parse: Getter, revision: int, names: seq<string>, trees: seq<Column>, given: seq<Value>,
                   rows: seq<Value>, info: Info)
    requires Carriable(names, trees, rows) && AllAlike(Tuple(false, names, trees), given, rows)
    requires parse == SpecParser.Parse
    ensures WriteBlock(parse, revision, RowBlock(Declared(names, trees), given, info))
         == WriteBlock(parse, revision, RowBlock(Declared(names, trees), rows, info))
  {
    var b, b' := RowBlock(Declared(names, trees), given, info), RowBlock(Declared(names, trees), rows, info);
    GivenPositional(names, trees, given, rows);
    forall j | 0 <= j < |trees|
      ensures WriteOne(parse, b, j) == WriteOne(parse, b', j)
    {
      OneAlike(parse, names, trees, given, rows, info, j);
    }
    assert Pieces(parse, b) == Pieces(parse, b');
  }

  lemma OneAlike(parse: Getter, names: seq<string>, trees: seq<Column>, given: seq<Value>, rows: seq<Value>,
                 info: Info, j: nat)
    requires Carriable(names, trees, rows) && AllAlike(Tuple(false, names, trees), given, rows)
    requires parse == SpecParser.Parse && j < |trees| && Positional(given) && Positional(rows)
    ensures WriteOne(parse, RowBlock(Declared(names, trees), given, info), j)
         == WriteOne(parse, RowBlock(Declared(names, trees), rows, info), j)
  {
    var columns := Declared(names, trees);
    AlikeRows(Tuple(false, names, trees), given, rows);
    PositionalColumn(columns, given, info, j);
    PositionalColumn(columns, rows, info, j);
    SpecParser.ParsePrint(trees[j]);
    WrittenAlike(trees[j], trees[j].nullable, ColumnAt(given, j), ColumnAt(rows, j));
  }

  lemma GivenPositional(names: seq<string>, trees: seq<Column>, given: seq<Value>, rows: seq<Value>)
    requires Carriable(names, trees, rows) && AllAlike(Tuple(false, names, trees), given, rows)
    ensures Positional(given) && Positional(rows)
  {
    forall i | 0 <= i < |given|
      ensures !given[i].Dict?
    {
      assert Alike(Tuple(false, names, trees), given[i], rows[i]);
    }
  }

  /** Any rows of any printable column types survive the trip: the block can be written, and read in front
      of any stream it yields the rows, names, types and block information, and leaves the stream intact. The
      rows given may have lists for tuples and tuples for lists; those read have the declared shapes. */
  lemma RowsSurvive(revision: int, names: seq<string>, trees: seq<Column>, given: seq<Value>, rows: seq<Value>,
                    info: Info, rest: Bytes)
    requires Carriable(names, trees, rows) && AllAlike(Tuple(false, names, trees), given, rows)
    requires StructPack.Fits(true, 4, info.bucket)
    ensures var written := WriteBlock(SpecParser.Parse, revision, RowBlock(Declared(names, trees), given, info));
            && written.Some?
            && Delivers(ReadBlock(SpecParser.Parse, revision, written.value + rest), Declared(names, trees), rows,
                        HeadInfo(revision, info), rest)
  {
    BlockAlike(SpecParser.Parse, revision, names, trees, given, rows, info);
    TypedRowsSurvive(SpecParser.Parse, revision, names, trees, rows, info, rest);
  }

  /** A block with these columns, rows and information was read, and the rest left. */
  predicate Delivers(read: Parsed<Block>, columns: seq<(string, string)>, rows: seq<Value>, info: Info, rest: Bytes)
  {
    && read.Some? && read.value.1 == rest
    && read.value.0.columns == columns && read.value.0.info == info
    && read.value.0.ColumnBlock? && EqualLengths(read.value.0.data) && read.value.0.GetRows() == rows
  }

  lemma TypedRowsSurvive(parse: Getter, revision: int, names: seq<string>, trees: seq<Column>, rows: seq<Value>,
                         info: Info, rest: Bytes)
    requires Carriable(names, trees, rows) && StructPack.Fits(true, 4, info.bucket) && parse == SpecParser.Parse
    ensures var written := WriteBlock(parse, revision, RowBlock(Declared(names, trees), rows, info));
            && written.Some?
            && Delivers(ReadBlock(parse, revision, written.value + rest), Declared(names, trees), rows,
                        HeadInfo(revision, info), rest)
  {
    var b := RowBlock(Declared(names, trees), rows, info);
    BlockCarries(parse, names, trees, rows, info);
    ColumnsAreWritten(parse, names, trees, rows, info);
    HeadIsWritten(revision, info);
    RowsReadBack(parse, revision, b, rest);
    WholeRows(rows, |trees|);
  }

  lemma HeadIsWritten(revision: int, info: Info)
    requires StructPack.Fits(true, 4, info.bucket)
    ensures WriteHead(revision, info).Some?
  {
    assert StructPack.Fits(false, 1, Flag(info.overflows));
  }

  // ----- column-oriented blocks -----

  /** Columns a block can carry: as many as declared, equally long, typed, and nothing too large to count. */
  ghost predicate CarriableData(names: seq<string>, trees: seq<Column>, data: seq<seq<Value>>)
  {
    && 0 < |trees| == |names| == |data| < Bits.U64 && EqualLengths(data) && 0 < |data[0]| < Bits.U64
    && forall j :: 0 <= j < |trees| ==>
         && Sendable(names[j]) && Sendable(SpecParser.Print(trees[j])) && CarriableColumn(trees[j], data[j])
  }

  ghost predicate DataAlike(trees: seq<Column>, given: seq<seq<Value>>, data: seq<seq<Value>>)
  {
    |given| == |data| == |trees| && forall j :: 0 <= j < |trees| ==> AllAlike(trees[j], given[j], data[j])
  }

  /** Columns given column by column survive the trip as rows do: the block is accepted and written, and what is read
      in front of any stream are the columns, names, types and block information. */
  lemma ColumnsSurvive(revision: int, names: seq<string>, trees: seq<Column>, given: seq<seq<Value>>,
                       data: seq<seq<Value>>, info: Info, rest: Bytes)
    requires CarriableData(names, trees, data) && DataAlike(trees, given, data)
    requires StructPack.Fits(true, 4, info.bucket)
    ensures var block := NewColumnBlock(Declared(names, trees), given, info);
            block.Some?
            && var written := WriteBlock(SpecParser.Parse, revision, block.value);
               && written.Some?
               && ReadBlock(SpecParser.Parse, revision, written.value + rest)
                  == Some((ColumnBlock(Declared(names, trees), data, HeadInfo(revision, info)), rest))
  {
    DataBlockAlike(SpecParser.Parse, revision, names, trees, given, data, info);
    TypedColumnsSurvive(SpecParser.Parse, revision, names, trees, data, info, rest);
  }

  lemma DataBlockAlike(parse: Getter, revision: int, names: seq<string>, trees: seq<Column>, given: seq<seq<Value>>,
                       data: seq<seq<Value>>, info: Info)
    requires CarriableData(names, trees, data) && DataAlike(trees, given, data) && parse == SpecParser.Parse
    ensures NewColumnBlock(Declared(names, trees), given, info)
         == Some(ColumnBlock(Declared(names, trees), given, info))
    ensures WriteBlock(parse, revision, ColumnBlock(Declared(names, trees), given, info))
         == WriteBlock(parse, revision, ColumnBlock(Declared(names, trees), data, info))
  {
    var b, b' := ColumnBlock(Declared(names, trees), given, info), ColumnBlock(Declared(names, trees), data, info);
    assert forall j :: 0 <= j < |trees| ==> |given[j]| == |data[j]|;
    forall j | 0 <= j < |trees|
      ensures WriteOne(parse, b, j) == WriteOne(parse, b', j)
    {
      SpecParser.ParsePrint(trees[j]);
      WrittenAlike(trees[j], trees[j].nullable, given[j], data[j]);
    }
    assert Pieces(parse, b) == Pieces(parse, b');
  }

  lemma TypedColumnsSurvive(parse: Getter, revision: int, names: seq<string>, trees: seq<Column>,
                            data: seq<seq<Value>>, info: Info, rest: Bytes)
    requires CarriableData(names, trees, data) && StructPack.Fits(true, 4, info.bucket) && parse == SpecParser.Parse
    ensures var written := WriteBlock(parse, revision, ColumnBlock(Declared(names, trees), data, info));
            && written.Some?
            && ReadBlock(parse, revision, written.value + rest)
               == Some((ColumnBlock(Declared(names, trees), data, HeadInfo(revision, info)), rest))
  {
    var b := ColumnBlock(Declared(names, trees), data, info);
    var pieces := Pieces(parse, b);
    forall j | 0 <= j < |trees|
      ensures b.ColumnByIndex(j) == Some(data[j]) && CarriesOne(parse, b.columns[j].1, data[j]) && pieces[j].Some?
    {
      ColumnCarries(parse, trees[j], data[j]);
    }
    AllPieces(pieces, 0);
    HeadIsWritten(revision, info);
    BlockReadsBack(parse, revision, b, rest);
    assert DataOf(b) == data;
  }
}
