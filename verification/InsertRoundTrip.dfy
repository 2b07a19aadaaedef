/** An insert from the rows given to the rows read: chunks, blocks and columns together. */
module InsertRoundTrip {
  import opened Outcomes
  import opened Blocks
  import opened Columns
  import opened Insert
  import opened NativeRoundTrip
  import opened Shapes
  import ColumnRoundTrip
  import DictRows
  import Native
  import SpecParser
  import Slicing

  /** The connection accepts what can be written. */
  ghost predicate WritesBlocks(accepts: Block -> bool, revision: int)
  {
    forall b {:trigger accepts(b)} :: accepts(b) <==> Native.WriteBlock(SpecParser.Parse, revision, b).Some?
  }

  /** Everything the blocks put on the wire. */
  function StreamOf(revision: int, blocks: seq<Block>): Option<Bytes>
  {
    if blocks == [] then Some([])
    else Cat(Native.WriteBlock(SpecParser.Parse, revision, blocks[0]), StreamOf(revision, blocks[1..]))
  }

  /** A block for every list of rows and the empty one that ends the data. */
  function BlocksOf(columns: seq<(string, string)>, chunks: seq<seq<Value>>): seq<Block>
    decreases |chunks|
  {
    if chunks == [] then [EMPTY_ROWS]
    else [RowBlock(columns, chunks[0], DEFAULT_INFO)] + BlocksOf(columns, chunks[1..])
  }

  /** Block by block the stream yields these rows, then the empty block, and then rest. */
  ghost predicate RowsArrive(revision: int, columns: seq<(string, string)>, chunks: seq<seq<Value>>, s: Bytes,
                             rest: Bytes)
    decreases |chunks|
  {
    var read := Native.ReadBlock(SpecParser.Parse, revision, s);
    && read.Some?
    && if chunks == [] then read.value == (ColumnBlock([], [], Native.HeadInfo(revision, DEFAULT_INFO)), rest)
       else
         && Delivers(read, columns, chunks[0], Native.HeadInfo(revision, DEFAULT_INFO), read.value.1)
         && RowsArrive(revision, columns, chunks[1..], read.value.1, rest)
  }

  lemma EmptyArrives(revision: int, rest: Bytes)
    ensures var w := Native.WriteBlock(SpecParser.Parse, revision, EMPTY_ROWS);
            w.Some? && Native.ReadBlock(SpecParser.Parse, revision, w.value + rest)
                    == Some((ColumnBlock([], [], Native.HeadInfo(revision, DEFAULT_INFO)), rest))
  {
    HeadIsWritten(revision, DEFAULT_INFO);
    Native.EmptyBlockExactly(SpecParser.Parse, revision, EMPTY_ROWS);
    assert Native.EmptyBlockReturns(SpecParser.Parse, revision, EMPTY_ROWS, rest);
  }

  /** Chunks that can be carried, and what was given for them. */
  ghost predicate AllCarriable(names: seq<string>, trees: seq<Column>, given: seq<seq<Value>>, rows: seq<seq<Value>>)
  {
    && |given| == |rows|
    && forall k :: 0 <= k < |rows| ==>
         Carriable(names, trees, rows[k]) && AllAlike(Tuple(false, names, trees), given[k], rows[k])
  }

  lemma {:induction false} BlocksArrive(revision: int, names: seq<string>, trees: seq<Column>,
                                        given: seq<seq<Value>>, rows: seq<seq<Value>>, rest: Bytes)
    requires |names| == |trees| && AllCarriable(names, trees, given, rows)
    ensures var stream := StreamOf(revision, BlocksOf(Declared(names, trees), given));
            stream.Some? && RowsArrive(revision, Declared(names, trees), rows, stream.value + rest, rest)
    decreases |given|
  {
    if given == [] {
      OneBlock(revision, EMPTY_ROWS);
      EmptyArrives(revision, rest);
    } else {
      assert AllCarriable(names, trees, given[1..], rows[1..]);
      BlocksArrive(revision, names, trees, given[1..], rows[1..], rest);
      FirstArrives(revision, names, trees, given, rows, rest);
    }
  }

  lemma OneBlock(revision: int, b: Block)
    ensures StreamOf(revision, [b]) == Native.WriteBlock(SpecParser.Parse, revision, b)
  {
    assert [b][1..] == [];
    CatNothing(Native.WriteBlock(SpecParser.Parse, revision, b));
  }

  lemma FirstArrives(revision: int, names: seq<string>, trees: seq<Column>, given: seq<seq<Value>>,
                     rows: seq<seq<Value>>, rest: Bytes)
    requires |names| == |trees| && AllCarriable(names, trees, given, rows) && given != []
    requires var others := StreamOf(revision, BlocksOf(Declared(names, trees), given[1..]));
             others.Some? && RowsArrive(revision, Declared(names, trees), rows[1..], others.value + rest, rest)
    ensures var stream := StreamOf(revision, BlocksOf(Declared(names, trees), given));
            stream.Some? && RowsArrive(revision, Declared(names, trees), rows, stream.value + rest, rest)
  {
    var columns := Declared(names, trees);
    var first, blocks := RowBlock(columns, given[0], DEFAULT_INFO), BlocksOf(columns, given[1..]);
    var others := StreamOf(revision, blocks).value;
    RowsSurvive(revision, names, trees, given[0], rows[0], DEFAULT_INFO, others + rest);
    assert ([first] + blocks)[1..] == blocks;
    ColumnRoundTrip.Join2(Native.WriteBlock(SpecParser.Parse, revision, first).value, others, rest);
  }

  // ----- what is sent -----

  lemma {:induction false} ChunksAlike(c: Column, given: seq<Value>, rows: seq<Value>, n: nat)
    requires AllAlike(c, given, rows)
    ensures |Chunks(given, n)| == |Chunks(rows, n)|
    ensures forall k :: 0 <= k < |Chunks(rows, n)| ==> AllAlike(c, Chunks(given, n)[k], Chunks(rows, n)[k])
    decreases |given|
  {
    if n > 0 && given != [] {
      var m := Slicing.Min(n, |given|);
      ChunksAlike(c, given[m..], rows[m..], n);
    }
  }

  lemma FittingBlock(names: seq<string>, trees: seq<Column>, given: seq<Value>, rows: seq<Value>)
    requires Carriable(names, trees, rows) && AllAlike(Tuple(false, names, trees), given, rows)
    ensures DictRows.NewBlock(Declared(names, trees), given, DEFAULT_INFO)
         == Some(RowBlock(Declared(names, trees), given, DEFAULT_INFO))
  {
    assert Alike(Tuple(false, names, trees), given[0], rows[0]);
  }

  lemma {:induction false} AllSent(revision: int, columns: seq<(string, string)>, chunks: seq<seq<Value>>,
                                   blocks: seq<Option<Block>>, accepts: Block -> bool)
    requires WritesBlocks(accepts, revision) && StreamOf(revision, BlocksOf(columns, chunks)).Some?
    requires |blocks| == |chunks|
    requires forall k :: 0 <= k < |chunks| ==> blocks[k] == Some(RowBlock(columns, chunks[k], DEFAULT_INFO))
    ensures accepts(EMPTY_ROWS)
    ensures SendEach(blocks, accepts).ok
    ensures SendEach(blocks, accepts).sent + [EMPTY_ROWS] == BlocksOf(columns, chunks)
    decreases |chunks|
  {
    var all := BlocksOf(columns, chunks);
    if chunks == [] {
      OneBlock(revision, EMPTY_ROWS);
    } else {
      assert all[1..] == BlocksOf(columns, chunks[1..]);
      AllSent(revision, columns, chunks[1..], blocks[1..], accepts);
      assert accepts(all[0]);
    }
  }

  lemma {:induction false} CountGiven(columns: seq<(string, string)>, chunks: seq<seq<Value>>, sent: seq<Block>)
    requires sent + [EMPTY_ROWS] == BlocksOf(columns, chunks)
    ensures CountRows(sent) == |Joined(chunks)|
    decreases |chunks|
  {
    if chunks != [] {
      var others := BlocksOf(columns, chunks[1..]);
      assert (sent + [EMPTY_ROWS])[0] == RowBlock(columns, chunks[0], DEFAULT_INFO);
      assert others != [];
      assert (sent + [EMPTY_ROWS])[1..] == sent[1..] + [EMPTY_ROWS];
      CountGiven(columns, chunks[1..], sent[1..]);
    }
  }

  /** Typed rows given in any number and inserted over a connection that writes blocks: every row is sent and
      counted, and the stream is read back as blocks whose rows join to the rows, followed by the empty block. */
  lemma InsertArrives(revision: int, names: seq<string>, trees: seq<Column>, given: seq<Value>, rows: seq<Value>,
                      n: nat, accepts: Block -> bool, rest: Bytes)
    requires n > 0 && |names| == |trees| && AllAlike(Tuple(false, names, trees), given, rows)
    requires forall k :: 0 <= k < |Chunks(rows, n)| ==> Carriable(names, trees, Chunks(rows, n)[k])
    requires WritesBlocks(accepts, revision)
    ensures Joined(Chunks(rows, n)) == rows
    ensures var (sent, count) := SendData(RowBlocks(Declared(names, trees), Chunks(given, n)), EMPTY_ROWS, accepts);
            var stream := StreamOf(revision, sent);
            && count == Some(|given|) && stream.Some?
            && RowsArrive(revision, Declared(names, trees), Chunks(rows, n), stream.value + rest, rest)
  {
    var columns, chunks := Declared(names, trees), Chunks(given, n);
    ChunksPartition(rows, n);
    ChunksPartition(given, n);
    ChunksAlike(Tuple(false, names, trees), given, rows, n);
    BlocksArrive(revision, names, trees, chunks, Chunks(rows, n), rest);
    forall k | 0 <= k < |chunks|
      ensures RowBlocks(columns, chunks)[k] == Some(RowBlock(columns, chunks[k], DEFAULT_INFO))
    {
      FittingBlock(names, trees, chunks[k], Chunks(rows, n)[k]);
    }
    AllSent(revision, columns, chunks, RowBlocks(columns, chunks), accepts);
    CountGiven(columns, chunks, SendEach(RowBlocks(columns, chunks), accepts).sent);
  }

  // ----- columns -----

  /** A block for every list of columns and the empty one that ends the data. */
  function ColumnBlocksOf(columns: seq<(string, string)>, chunks: seq<seq<seq<Value>>>): seq<Block>
    decreases |chunks|
  {
    if chunks == [] then [EMPTY_COLUMNS]
    else [ColumnBlock(columns, chunks[0], DEFAULT_INFO)] + ColumnBlocksOf(columns, chunks[1..])
  }

  /** Block by block the stream yields these columns, then the empty block, and then rest. */
  ghost predicate ColumnsArrive(revision: int, columns: seq<(string, string)>, chunks: seq<seq<seq<Value>>>, s: Bytes,
                                rest: Bytes)
    decreases |chunks|
  {
    var read := Native.ReadBlock(SpecParser.Parse, revision, s);
    var info := Native.HeadInfo(revision, DEFAULT_INFO);
    && read.Some?
    && if chunks == [] then read.value == (ColumnBlock([], [], info), rest)
       else
         && read.value.0 == ColumnBlock(columns, chunks[0], info)
         && ColumnsArrive(revision, columns, chunks[1..], read.value.1, rest)
  }

  ghost predicate AllCarriableData(names: seq<string>, trees: seq<Column>, given: seq<seq<seq<Value>>>,
                                   chunks: seq<seq<seq<Value>>>)
  {
    && |given| == |chunks|
    && forall k :: 0 <= k < |chunks| ==>
         CarriableData(names, trees, chunks[k]) && DataAlike(trees, given[k], chunks[k])
  }

  lemma EmptyColumnsArrive(revision: int, rest: Bytes)
    ensures var w := Native.WriteBlock(SpecParser.Parse, revision, EMPTY_COLUMNS);
            w.Some? && Native.ReadBlock(SpecParser.Parse, revision, w.value + rest)
                    == Some((ColumnBlock([], [], Native.HeadInfo(revision, DEFAULT_INFO)), rest))
  {
    HeadIsWritten(revision, DEFAULT_INFO);
    Native.EmptyBlockExactly(SpecParser.Parse, revision, EMPTY_COLUMNS);
    assert Native.EmptyBlockReturns(SpecParser.Parse, revision, EMPTY_COLUMNS, rest);
  }

  lemma {:induction false} ColumnBlocksArrive(revision: int, names: seq<string>, trees: seq<Column>,
                                              given: seq<seq<seq<Value>>>, chunks: seq<seq<seq<Value>>>, rest: Bytes)
    requires |names| == |trees| && AllCarriableData(names, trees, given, chunks)
    ensures var stream := StreamOf(revision, ColumnBlocksOf(Declared(names, trees), given));
            stream.Some? && ColumnsArrive(revision, Declared(names, trees), chunks, stream.value + rest, rest)
    decreases |given|
  {
    if given == [] {
      OneBlock(revision, EMPTY_COLUMNS);
      EmptyColumnsArrive(revision, rest);
    } else {
      assert AllCarriableData(names, trees, given[1..], chunks[1..]);
      ColumnBlocksArrive(revision, names, trees, given[1..], chunks[1..], rest);
      FirstColumnsArrive(revision, names, trees, given, chunks, rest);
    }
  }

  lemma FirstColumnsArrive(revision: int, names: seq<string>, trees: seq<Column>, given: seq<seq<seq<Value>>>,
                           chunks: seq<seq<seq<Value>>>, rest: Bytes)
    requires |names| == |trees| && AllCarriableData(names, trees, given, chunks) && given != []
    requires var others := StreamOf(revision, ColumnBlocksOf(Declared(names, trees), given[1..]));
             others.Some? && ColumnsArrive(revision, Declared(names, trees), chunks[1..], others.value + rest, rest)
    ensures var stream := StreamOf(revision, ColumnBlocksOf(Declared(names, trees), given));
            stream.Some? && ColumnsArrive(revision, Declared(names, trees), chunks, stream.value + rest, rest)
  {
    var columns := Declared(names, trees);
    var first, blocks := ColumnBlock(columns, given[0], DEFAULT_INFO), ColumnBlocksOf(columns, given[1..]);
    var others := StreamOf(revision, blocks).value;
    ColumnsSurvive(revision, names, trees, given[0], chunks[0], DEFAULT_INFO, others + rest);
    assert ([first] + blocks)[1..] == blocks;
    ColumnRoundTrip.Join2(Native.WriteBlock(SpecParser.Parse, revision, first).value, others, rest);
  }

  ghost predicate AllDataAlike(trees: seq<Column>, given: seq<seq<seq<Value>>>, chunks: seq<seq<seq<Value>>>)
  {
    |given| == |chunks| && forall k :: 0 <= k < |chunks| ==> DataAlike(trees, given[k], chunks[k])
  }

  lemma {:induction false} ColumnChunksAlike(trees: seq<Column>, given: seq<seq<Value>>, data: seq<seq<Value>>, n: nat)
    requires DataAlike(trees, given, data)
    ensures AllDataAlike(trees, ColumnChunks(given, n), ColumnChunks(data, n))
    decreases Longest(data)
  {
    EmptyAlike(trees, given, data);
    if n > 0 && !AllEmpty(data) {
      LongestShrinks(data, n);
      AlikeParts(trees, given, data, n);
      ColumnChunksAlike(trees, Rests(given, n), Rests(data, n), n);
      FirstChunk(given, n);
      FirstChunk(data, n);
      DataCons(trees, Firsts(given, n), Firsts(data, n), ColumnChunks(Rests(given, n), n),
               ColumnChunks(Rests(data, n), n));
    }
  }

  lemma EmptyAlike(trees: seq<Column>, given: seq<seq<Value>>, data: seq<seq<Value>>)
    requires DataAlike(trees, given, data)
    ensures AllEmpty(given) <==> AllEmpty(data)
  {
    assert forall j :: 0 <= j < |data| ==> |given[j]| == |data[j]|;
  }

  lemma DataCons(trees: seq<Column>, given: seq<seq<Value>>, chunk: seq<seq<Value>>, givens: seq<seq<seq<Value>>>,
                 chunks: seq<seq<seq<Value>>>)
    requires DataAlike(trees, given, chunk) && AllDataAlike(trees, givens, chunks)
    ensures AllDataAlike(trees, [given] + givens, [chunk] + chunks)
  {
  }

  lemma AlikeParts(trees: seq<Column>, given: seq<seq<Value>>, data: seq<seq<Value>>, n: nat)
    requires DataAlike(trees, given, data)
    ensures DataAlike(trees, Firsts(given, n), Firsts(data, n)) && DataAlike(trees, Rests(given, n), Rests(data, n))
  {
    forall j | 0 <= j < |trees|
      ensures AllAlike(trees[j], Firsts(given, n)[j], Firsts(data, n)[j])
      ensures AllAlike(trees[j], Rests(given, n)[j], Rests(data, n)[j])
    {
      assert AllAlike(trees[j], given[j], data[j]);
    }
  }

  lemma {:induction false} AllColumnsSent(revision: int, columns: seq<(string, string)>, chunks: seq<seq<seq<Value>>>,
                                          blocks: seq<Option<Block>>, accepts: Block -> bool)
    requires WritesBlocks(accepts, revision) && StreamOf(revision, ColumnBlocksOf(columns, chunks)).Some?
    requires |blocks| == |chunks|
    requires forall k :: 0 <= k < |chunks| ==> blocks[k] == Some(ColumnBlock(columns, chunks[k], DEFAULT_INFO))
    ensures accepts(EMPTY_COLUMNS)
    ensures SendEach(blocks, accepts).ok
    ensures SendEach(blocks, accepts).sent + [EMPTY_COLUMNS] == ColumnBlocksOf(columns, chunks)
    decreases |chunks|
  {
    var all := ColumnBlocksOf(columns, chunks);
    if chunks == [] {
      OneBlock(revision, EMPTY_COLUMNS);
    } else {
      assert all[1..] == ColumnBlocksOf(columns, chunks[1..]);
      AllColumnsSent(revision, columns, chunks[1..], blocks[1..], accepts);
      assert accepts(all[0]);
    }
  }

  /** Typed columns given in either shape and inserted in the columnar form: every value is sent and counted, and the
      stream is read back as blocks of the chunks of the columns, followed by the empty block. */
  lemma ColumnarInsertArrives(revision: int, names: seq<string>, trees: seq<Column>, given: seq<seq<Value>>,
                              data: seq<seq<Value>>, n: nat, accepts: Block -> bool, rest: Bytes)
    requires n > 0 && 0 < |names| == |trees| && DataAlike(trees, given, data) && EqualLengths(data)
    requires forall k :: 0 <= k < |ColumnChunks(data, n)| ==> CarriableData(names, trees, ColumnChunks(data, n)[k])
    requires WritesBlocks(accepts, revision)
    ensures var chunks := ColumnChunks(data, n);
            var (sent, count) :=
              SendData(ColumnBlocks(Declared(names, trees), ColumnChunks(given, n)), EMPTY_COLUMNS, accepts);
            var stream := StreamOf(revision, sent);
            && count == Some(|data[0]|) && stream.Some?
            && ColumnsArrive(revision, Declared(names, trees), chunks, stream.value + rest, rest)
  {
    var columns, chunks := Declared(names, trees), ColumnChunks(given, n);
    ColumnChunksAlike(trees, given, data, n);
    ColumnBlocksArrive(revision, names, trees, chunks, ColumnChunks(data, n), rest);
    forall k | 0 <= k < |chunks|
      ensures ColumnBlocks(columns, chunks)[k] == Some(ColumnBlock(columns, chunks[k], DEFAULT_INFO))
    {
      DataBlockAlike(SpecParser.Parse, revision, names, trees, chunks[k], ColumnChunks(data, n)[k], DEFAULT_INFO);
    }
    AllColumnsSent(revision, columns, chunks, ColumnBlocks(columns, chunks), accepts);
    ColumnarInsert(columns, given, n, accepts);
    assert |given[0]| == |data[0]|;
  }
}
