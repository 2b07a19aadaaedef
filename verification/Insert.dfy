/** Sending the data of an insert in blocks. */
module Insert {
  import opened Outcomes
  import opened Columns
  import opened Blocks
  import opened Slicing
  import DictRows
  import Nesting

  // ----- cutting -----

  /** `seq[i:i+n]` until it is empty; a block size of zero yields nothing at all. */
  function Chunks(items: seq<Value>, n: nat): seq<seq<Value>>
  {
    if n == 0 || items == [] then []
    else [items[..Min(n, |items|)]] + Chunks(items[Min(n, |items|)..], n)
  }

  function Joined(chunks: seq<seq<Value>>): seq<Value>
  {
    if chunks == [] then [] else chunks[0] + Joined(chunks[1..])
  }

  /** Nothing is lost or reordered; no chunk is empty, and all but the last are full. */
  lemma {:induction false} ChunksPartition(items: seq<Value>, n: nat)
    requires n > 0
    ensures Joined(Chunks(items, n)) == items
    ensures forall k :: 0 <= k < |Chunks(items, n)| ==>
              0 < |Chunks(items, n)[k]| <= n && (k + 1 < |Chunks(items, n)| ==> |Chunks(items, n)[k]| == n)
    decreases |items|
  {
    if items != [] {
      var m := Min(n, |items|);
      ChunksPartition(items[m..], n);
      assert items[..m] + items[m..] == items;
    }
  }

  predicate AllEmpty(columns: seq<seq<Value>>)
  {
    forall j :: 0 <= j < |columns| ==> columns[j] == []
  }

  /** The next chunk of every column; an exhausted one gives an empty list. */
  function Firsts(columns: seq<seq<Value>>, n: nat): (r: seq<seq<Value>>)
    ensures |r| == |columns|
  {
    seq(|columns|, j requires 0 <= j < |columns| => columns[j][..Min(n, |columns[j]|)])
  }

  /** The columns from position n on. */
  function Rests(columns: seq<seq<Value>>, n: nat): (r: seq<seq<Value>>)
    ensures |r| == |columns|
  {
    seq(|columns|, j requires 0 <= j < |columns| => columns[j][Min(n, |columns[j]|)..])
  }

  function Longest(columns: seq<seq<Value>>): (r: nat)
    ensures forall j :: 0 <= j < |columns| ==> |columns[j]| <= r
    ensures r > 0 ==> exists j :: 0 <= j < |columns| && |columns[j]| == r
  {
    if columns == [] then 0
    else
      var rest := Longest(columns[1..]);
      assert forall j :: 1 <= j < |columns| ==> columns[j] == columns[1..][j - 1];
      assert rest > 0 ==> exists j :: 0 <= j < |columns[1..]| && |columns[1..][j]| == rest;
      if |columns[0]| >= rest then |columns[0]|
      else
        var j :| 0 <= j < |columns[1..]| && |columns[1..][j]| == rest;
        assert columns[j + 1] == columns[1..][j];
        rest
  }

  lemma LongestShrinks(columns: seq<seq<Value>>, n: nat)
    requires n > 0 && !AllEmpty(columns)
    ensures Longest(Rests(columns, n)) < Longest(columns)
  {
    var rests := Rests(columns, n);
    if Longest(rests) > 0 {
      var j :| 0 <= j < |rests| && |rests[j]| == Longest(rests);
      assert |columns[j]| == |rests[j]| + Min(n, |columns[j]|);
    }
  }

  /** column_chunks: until every column is exhausted. */
  function ColumnChunks(columns: seq<seq<Value>>, n: nat): seq<seq<seq<Value>>>
    decreases Longest(columns)
  {
    if n == 0 || AllEmpty(columns) then []
    else
      LongestShrinks(columns, n);
      [Firsts(columns, n)] + ColumnChunks(Rests(columns, n), n)
  }

  // ----- sending -----

  /** The connection as send_data sees it: it may refuse a block it cannot write. */
  class Sink {
    const accepts: Block -> bool
    var sent: seq<Block>

    constructor (accepts: Block -> bool)
      ensures sent == [] && this.accepts == accepts
    {
      this.accepts, sent := accepts, [];
    }

    method Send(b: Block) returns (ok: bool)
      modifies this
      ensures ok == accepts(b)
      ensures sent == if ok then old(sent) + [b] else old(sent)
    {
      ok := accepts(b);
      if ok {
        sent := sent + [b];
      }
    }
  }

  /** Blocks that were sent, and whether all could be built and sent. */
  datatype Sending = Sending(sent: seq<Block>, ok: bool)

  /** Sends blocks one after the other, stopping at the first that cannot be built or written. */
  function SendEach(blocks: seq<Option<Block>>, accepts: Block -> bool): Sending
  {
    if blocks == [] then Sending([], true)
    else if blocks[0].None? || !accepts(blocks[0].value) then Sending([], false)
    else
      var rest := SendEach(blocks[1..], accepts);
      rest.(sent := [blocks[0].value] + rest.sent)
  }

  function CountRows(blocks: seq<Block>): nat
  {
    if blocks == [] then 0 else blocks[0].NumRows() + CountRows(blocks[1..])
  }

  /** All blocks and then the empty one that ends the data; the number of rows, or None for an error. */
  function SendData(blocks: seq<Option<Block>>, empty: Block, accepts: Block -> bool): (seq<Block>, Option<nat>)
  {
    var sending := SendEach(blocks, accepts);
    if sending.ok && accepts(empty) then (sending.sent + [empty], Some(CountRows(sending.sent)))
    else (sending.sent, None)
  }

  const EMPTY_ROWS := RowBlock([], [], DEFAULT_INFO)
  const EMPTY_COLUMNS := ColumnBlock([], [], DEFAULT_INFO)

  function RowBlocks(columns: seq<(string, string)>, chunks: seq<seq<Value>>): (r: seq<Option<Block>>)
    ensures |r| == |chunks|
  {
    seq(|chunks|, k requires 0 <= k < |chunks| => DictRows.NewBlock(columns, chunks[k], DEFAULT_INFO))
  }

  function ColumnBlocks(columns: seq<(string, string)>, chunks: seq<seq<seq<Value>>>): (r: seq<Option<Block>>)
    ensures |r| == |chunks|
  {
    seq(|chunks|, k requires 0 <= k < |chunks| => NewColumnBlock(columns, chunks[k], DEFAULT_INFO))
  }

  // ----- what must hold for sending to complete -----

  /** A sending that completes: every block was built, accepted, and sent in order. */
  lemma {:induction false} SendsAll(blocks: seq<Option<Block>>, accepts: Block -> bool)
    ensures var s := SendEach(blocks, accepts);
            (s.ok <==> forall k :: 0 <= k < |blocks| ==> blocks[k].Some? && accepts(blocks[k].value))
            && (s.ok ==> |s.sent| == |blocks| && forall k :: 0 <= k < |blocks| ==> blocks[k] == Some(s.sent[k]))
  {
    if blocks != [] {
      SendsAll(blocks[1..], accepts);
      assert forall k :: 1 <= k < |blocks| ==> blocks[k] == blocks[1..][k - 1];
      if blocks[0].Some? && accepts(blocks[0].value) {
        assert blocks == [blocks[0]] + blocks[1..];
        assert forall k :: 0 <= k < |blocks[1..]| ==> blocks[1..][k] == blocks[k + 1];
      }
    }
  }

  /** A sending that fails has sent exactly the blocks in front of the first that cannot be built or written. */
  lemma {:induction false} SentUpToFailure(blocks: seq<Option<Block>>, accepts: Block -> bool, k: nat)
    requires k < |blocks| && forall i :: 0 <= i < k ==> blocks[i].Some? && accepts(blocks[i].value)
    requires blocks[k].None? || !accepts(blocks[k].value)
    ensures var s := SendEach(blocks, accepts);
            !s.ok && |s.sent| == k && forall i :: 0 <= i < k ==> blocks[i] == Some(s.sent[i])
  {
    if k > 0 {
      assert forall i :: 0 <= i < |blocks[1..]| ==> blocks[1..][i] == blocks[i + 1];
      SentUpToFailure(blocks[1..], accepts, k - 1);
      assert forall i :: 1 <= i < |blocks| ==> blocks[i] == blocks[1..][i - 1];
    }
  }

  // ----- rows -----

  /** The rows of the blocks, joined. */
  function RowsOf(blocks: seq<Block>): seq<Value>
    requires forall k :: 0 <= k < |blocks| ==> blocks[k].RowBlock?
  {
    if blocks == [] then [] else blocks[0].rows + RowsOf(blocks[1..])
  }

  /** The rows of a block are those of its chunk: as they are or, if the first is a dict, positional rows that
      say what the dicts say. */
  ghost predicate Carries(columns: seq<(string, string)>, chunk: seq<Value>, rows: seq<Value>)
  {
    if chunk != [] && chunk[0].Dict? then
      && |rows| == |chunk|
      && forall i :: 0 <= i < |rows| ==> DictRows.Says(columns, DictRows.Bound(columns), rows[i], chunk[i])
    else rows == chunk
  }

  /** The guard on a chunk: a positional first row has the declared width; dicts all hold what is declared. */
  predicate ChunkFits(columns: seq<(string, string)>, chunk: seq<Value>)
  {
    if chunk == [] then true
    else if chunk[0].Dict? then
      forall i :: 0 <= i < |chunk| ==> DictRows.Complete(columns, DictRows.Bound(columns), chunk[i])
    else Nesting.Iterable(chunk[0]) && |Nesting.Elements(chunk[0])| == |columns|
  }

  predicate ChunksFit(columns: seq<(string, string)>, chunks: seq<seq<Value>>)
  {
    forall k :: 0 <= k < |chunks| ==> ChunkFits(columns, chunks[k])
  }

  lemma BlockBuilt(columns: seq<(string, string)>, chunk: seq<Value>)
    ensures var b := DictRows.NewBlock(columns, chunk, DEFAULT_INFO);
            && (b.Some? <==> ChunkFits(columns, chunk))
            && (b.Some? ==>
                  && b.value.RowBlock? && b.value.columns == columns
                  && Carries(columns, chunk, b.value.rows) && |b.value.rows| == |chunk|)
  {
    if chunk != [] && chunk[0].Dict? {
      DictRows.RowsComplete(columns, DictRows.Bound(columns), chunk);
      var rows := DictRows.DictsToRows(columns, chunk);
      if rows.Some? {
        DictRows.DictsBecomeRows(columns, rows.value, chunk);
      }
    }
  }

  lemma {:induction false} CountOfChunks(blocks: seq<Block>, chunks: seq<seq<Value>>)
    requires |blocks| == |chunks|
    requires forall k :: 0 <= k < |blocks| ==> blocks[k].RowBlock? && |blocks[k].rows| == |chunks[k]|
    ensures CountRows(blocks) == |Joined(chunks)| == |RowsOf(blocks)|
  {
    if blocks != [] {
      CountOfChunks(blocks[1..], chunks[1..]);
    }
  }

  /** Blocks that carry their chunks. */
  ghost predicate AllCarry(columns: seq<(string, string)>, chunks: seq<seq<Value>>, sent: seq<Block>)
  {
    && |sent| == |chunks|
    && forall k :: 0 <= k < |sent| ==>
         sent[k].RowBlock? && sent[k].columns == columns && Carries(columns, chunks[k], sent[k].rows)
  }

  /** Without dicts the rows sent are the rows given. */
  lemma {:induction false} PositionalRowsSent(columns: seq<(string, string)>, chunks: seq<seq<Value>>, sent: seq<Block>)
    requires AllCarry(columns, chunks, sent)
    requires forall k :: 0 <= k < |chunks| && chunks[k] != [] ==> !chunks[k][0].Dict?
    ensures RowsOf(sent) == Joined(chunks)
  {
    if sent != [] {
      assert forall k :: 0 <= k < |sent[1..]| ==> sent[1..][k] == sent[k + 1] && chunks[1..][k] == chunks[k + 1];
      PositionalRowsSent(columns, chunks[1..], sent[1..]);
    }
  }

  lemma RowBlocksBuilt(columns: seq<(string, string)>, chunks: seq<seq<Value>>)
    ensures ChunksFit(columns, chunks) <==> forall k :: 0 <= k < |chunks| ==> RowBlocks(columns, chunks)[k].Some?
  {
    forall k | 0 <= k < |chunks|
      ensures RowBlocks(columns, chunks)[k].Some? <==> ChunkFits(columns, chunks[k])
    {
      BlockBuilt(columns, chunks[k]);
    }
  }

  lemma SentRows(columns: seq<(string, string)>, rows: seq<Value>, n: nat, sent: seq<Block>)
    requires n > 0 && |sent| == |Chunks(rows, n)|
    requires forall k :: 0 <= k < |sent| ==> RowBlocks(columns, Chunks(rows, n))[k] == Some(sent[k])
    ensures AllCarry(columns, Chunks(rows, n), sent)
    ensures forall k :: 0 <= k < |sent| ==> 0 < sent[k].NumRows() <= n
    ensures CountRows(sent) == |rows|
  {
    ChunksPartition(rows, n);
    forall k | 0 <= k < |sent|
      ensures sent[k].RowBlock? && sent[k].columns == columns && |sent[k].rows| == |Chunks(rows, n)[k]|
      ensures Carries(columns, Chunks(rows, n)[k], sent[k].rows)
    {
      BlockBuilt(columns, Chunks(rows, n)[k]);
      assert RowBlocks(columns, Chunks(rows, n))[k] == Some(sent[k]);
    }
    CountOfChunks(sent, Chunks(rows, n));
  }

  /** The row form completes exactly when every chunk fits and every block can be written; then the chunks, which
      join to the rows given, are carried one by one, no block is empty or larger than the block size, exactly one
      empty block follows, and the result is the number of rows. */
  lemma RowInsert(columns: seq<(string, string)>, rows: seq<Value>, n: nat, accepts: Block -> bool)
    requires n > 0
    ensures Joined(Chunks(rows, n)) == rows
    ensures var blocks := RowBlocks(columns, Chunks(rows, n));
            var (sent, count) := SendData(blocks, EMPTY_ROWS, accepts);
            && (count.Some? <==> ChunksFit(columns, Chunks(rows, n)) && accepts(EMPTY_ROWS)
                                 && forall k :: 0 <= k < |blocks| && blocks[k].Some? ==> accepts(blocks[k].value))
            && (count.Some? ==>
                  && count.value == |rows| && |sent| > 0 && sent[|sent| - 1] == EMPTY_ROWS
                  && (forall k :: 0 <= k < |sent| - 1 ==> 0 < sent[k].NumRows() <= n)
                  && AllCarry(columns, Chunks(rows, n), sent[..|sent| - 1]))
  {
    var chunks := Chunks(rows, n);
    var blocks := RowBlocks(columns, chunks);
    ChunksPartition(rows, n);
    RowBlocksBuilt(columns, chunks);
    SendsAll(blocks, accepts);
    var s := SendEach(blocks, accepts);
    if s.ok {
      SentRows(columns, rows, n, s.sent);
      assert (s.sent + [EMPTY_ROWS])[..|s.sent|] == s.sent;
    }
  }

  /** Of positional rows exactly the rows given are sent, in order. */
  lemma PositionalInsert(columns: seq<(string, string)>, rows: seq<Value>, n: nat, accepts: Block -> bool)
    requires n > 0 && forall i :: 0 <= i < |rows| ==> !rows[i].Dict?
    ensures var (sent, count) := SendData(RowBlocks(columns, Chunks(rows, n)), EMPTY_ROWS, accepts);
            count.Some? ==>
              && (forall k :: 0 <= k < |sent| ==> sent[k].RowBlock?)
              && RowsOf(sent) == rows
  {
    var chunks := Chunks(rows, n);
    var (sent, count) := SendData(RowBlocks(columns, chunks), EMPTY_ROWS, accepts);
    RowInsert(columns, rows, n, accepts);
    if count.Some? {
      ChunksFromItems(rows, n);
      var front := sent[..|sent| - 1];
      PositionalRowsSent(columns, chunks, front);
      assert sent == front + [EMPTY_ROWS];
      EndsEmpty(front);
    }
  }

  lemma {:induction false} ChunksFromItems(items: seq<Value>, n: nat)
    ensures forall k :: 0 <= k < |Chunks(items, n)| && Chunks(items, n)[k] != [] ==> Chunks(items, n)[k][0] in items
    decreases |items|
  {
    if n > 0 && items != [] {
      ChunksFromItems(items[Min(n, |items|)..], n);
    }
  }

  lemma {:induction false} EndsEmpty(blocks: seq<Block>)
    requires forall k :: 0 <= k < |blocks| ==> blocks[k].RowBlock?
    ensures RowsOf(blocks + [EMPTY_ROWS]) == RowsOf(blocks)
  {
    if blocks == [] {
      assert [EMPTY_ROWS][1..] == [] && [] + [EMPTY_ROWS] == [EMPTY_ROWS];
    } else {
      assert (blocks + [EMPTY_ROWS])[1..] == blocks[1..] + [EMPTY_ROWS];
      EndsEmpty(blocks[1..]);
    }
  }

  /** With a block size of zero nothing but the empty block is sent, and the data is lost without an error. */
  lemma ZeroBlockSizeLosesRows(columns: seq<(string, string)>, rows: seq<Value>, accepts: Block -> bool)
    requires accepts(EMPTY_ROWS)
    ensures SendData(RowBlocks(columns, Chunks(rows, 0)), EMPTY_ROWS, accepts) == ([EMPTY_ROWS], Some(0))
  {
    assert RowBlocks(columns, []) == [] && [] + [EMPTY_ROWS] == [EMPTY_ROWS];
  }

  // ----- columns -----

  /** Column j of the blocks, joined. */
  function ColumnOf(blocks: seq<Block>, j: nat): seq<Value>
    requires forall k :: 0 <= k < |blocks| ==> blocks[k].ColumnBlock? && j < |blocks[k].data|
  {
    if blocks == [] then [] else blocks[0].data[j] + ColumnOf(blocks[1..], j)
  }

  lemma FirstsEqual(columns: seq<seq<Value>>, n: nat)
    requires EqualLengths(columns)
    ensures EqualLengths(Firsts(columns, n)) && EqualLengths(Rests(columns, n))
  {
  }

  lemma {:induction false} EqualColumnsChunk(columns: seq<seq<Value>>, n: nat, k: nat)
    requires n > 0 && EqualLengths(columns) && k < |ColumnChunks(columns, n)|
    ensures var c := ColumnChunks(columns, n)[k];
            |c| == |columns| && EqualLengths(c) && |c| > 0 && 0 < |c[0]| <= n
    decreases k
  {
    FirstsEqual(columns, n);
    if k > 0 {
      EqualColumnsChunk(Rests(columns, n), n, k - 1);
    } else {
      var j :| 0 <= j < |columns| && columns[j] != [];
    }
  }

  lemma {:induction false} ChunkWidth(columns: seq<seq<Value>>, n: nat, k: nat)
    requires n > 0 && k < |ColumnChunks(columns, n)|
    ensures |ColumnChunks(columns, n)[k]| == |columns|
    decreases k
  {
    if k > 0 {
      ChunkWidth(Rests(columns, n), n, k - 1);
    }
  }

  /** Unequal columns come apart: some chunk has columns of different lengths. */
  lemma {:induction false} UnequalColumnsChunk(columns: seq<seq<Value>>, n: nat) returns (k: nat)
    requires n > 0 && !EqualLengths(columns)
    ensures k < |ColumnChunks(columns, n)| && !EqualLengths(ColumnChunks(columns, n)[k])
    decreases Longest(columns)
  {
    assert !AllEmpty(columns);
    LongestShrinks(columns, n);
    FirstChunk(columns, n);
    k := 0;
    if EqualLengths(Firsts(columns, n)) {
      RestsUnequal(columns, n);
      k := UnequalColumnsChunk(Rests(columns, n), n);
      k := k + 1;
    }
  }

  lemma FirstChunk(columns: seq<seq<Value>>, n: nat)
    requires n > 0 && !AllEmpty(columns)
    ensures ColumnChunks(columns, n) == [Firsts(columns, n)] + ColumnChunks(Rests(columns, n), n)
  {
  }

  lemma RestsUnequal(columns: seq<seq<Value>>, n: nat)
    requires !EqualLengths(columns) && EqualLengths(Firsts(columns, n))
    ensures !EqualLengths(Rests(columns, n))
  {
    var j :| 0 <= j < |columns| && |columns[j]| != |columns[0]|;
    assert |Firsts(columns, n)[j]| == |Firsts(columns, n)[0]|;
    assert |Rests(columns, n)[j]| != |Rests(columns, n)[0]|;
  }

  /** What a caller can check: no data at all, or as many columns as declared and all equally long. */
  predicate ColumnsFit(columns: seq<(string, string)>, data: seq<seq<Value>>)
  {
    AllEmpty(data) || (|data| == |columns| && EqualLengths(data))
  }

  lemma ColumnBlocksBuilt(columns: seq<(string, string)>, data: seq<seq<Value>>, n: nat)
    requires n > 0
    ensures ColumnsFit(columns, data)
       <==> forall k :: 0 <= k < |ColumnChunks(data, n)| ==> ColumnBlocks(columns, ColumnChunks(data, n))[k].Some?
  {
    var chunks := ColumnChunks(data, n);
    if ColumnsFit(columns, data) {
      if !AllEmpty(data) {
        forall k | 0 <= k < |chunks|
          ensures ColumnBlocks(columns, chunks)[k].Some?
        {
          EqualColumnsChunk(data, n, k);
        }
      }
    } else if EqualLengths(data) {
      EqualColumnsChunk(data, n, 0);
      assert ColumnBlocks(columns, chunks)[0].None?;
    } else {
      var k := UnequalColumnsChunk(data, n);
      ChunkWidth(data, n, k);
      assert ColumnBlocks(columns, chunks)[k].None?;
    }
  }

  lemma {:induction false} ColumnOfChunks(blocks: seq<Block>, data: seq<seq<Value>>, n: nat, j: nat)
    requires n > 0 && EqualLengths(data) && j < |data| && |blocks| == |ColumnChunks(data, n)|
    requires forall k :: 0 <= k < |blocks| ==>
      blocks[k].ColumnBlock? && blocks[k].data == ColumnChunks(data, n)[k] && j < |blocks[k].data|
    ensures ColumnOf(blocks, j) == data[j] && CountRows(blocks) == |data[0]|
    decreases |blocks|
  {
    if AllEmpty(data) {
      assert blocks == [];
    } else {
      var rests := Rests(data, n);
      FirstsEqual(data, n);
      assert forall k :: 0 <= k < |blocks[1..]| ==>
        blocks[1..][k] == blocks[k + 1] && ColumnChunks(rests, n)[k] == ColumnChunks(data, n)[k + 1];
      ColumnOfChunks(blocks[1..], rests, n, j);
      var m := Min(n, |data[j]|);
      assert data[j][..m] + data[j][m..] == data[j];
    }
  }

  /** The columnar form completes exactly when the columns fit and every block can be written; then every column
      sent is the column given, no block is empty or larger than the block size, exactly one empty block follows,
      and the result is the length of the columns. */
  lemma ColumnarInsert(columns: seq<(string, string)>, data: seq<seq<Value>>, n: nat, accepts: Block -> bool)
    requires n > 0
    ensures var blocks := ColumnBlocks(columns, ColumnChunks(data, n));
            var (sent, count) := SendData(blocks, EMPTY_COLUMNS, accepts);
            && (count.Some? <==> ColumnsFit(columns, data) && accepts(EMPTY_COLUMNS)
                                 && forall k :: 0 <= k < |blocks| && blocks[k].Some? ==> accepts(blocks[k].value))
            && (count.Some? ==>
                  && |sent| > 0 && sent[|sent| - 1] == EMPTY_COLUMNS
                  && (forall k :: 0 <= k < |sent| - 1 ==>
                        && sent[k].ColumnBlock? && sent[k].columns == columns
                        && |sent[k].data| == |data| && 0 < sent[k].NumRows() <= n)
                  && (forall j :: 0 <= j < |data| ==>
                        ColumnOf(sent[..|sent| - 1], j) == data[j] && count.value == |data[j]|))
  {
    var chunks := ColumnChunks(data, n);
    var blocks := ColumnBlocks(columns, chunks);
    ColumnBlocksBuilt(columns, data, n);
    SendsAll(blocks, accepts);
    var s := SendEach(blocks, accepts);
    if s.ok {
      SentColumns(columns, data, n, s.sent);
      assert (s.sent + [EMPTY_COLUMNS])[..|s.sent|] == s.sent;
    }
  }

  lemma SentColumns(columns: seq<(string, string)>, data: seq<seq<Value>>, n: nat, sent: seq<Block>)
    requires n > 0 && ColumnsFit(columns, data) && |sent| == |ColumnChunks(data, n)|
    requires forall k :: 0 <= k < |sent| ==> ColumnBlocks(columns, ColumnChunks(data, n))[k] == Some(sent[k])
    ensures forall k :: 0 <= k < |sent| ==>
              && sent[k].ColumnBlock? && sent[k].columns == columns
              && |sent[k].data| == |data| && 0 < sent[k].NumRows() <= n
    ensures forall j :: 0 <= j < |data| ==> ColumnOf(sent, j) == data[j] && CountRows(sent) == |data[j]|
  {
    assert EqualLengths(data);
    forall k | 0 <= k < |sent|
      ensures sent[k].ColumnBlock? && sent[k].columns == columns && sent[k].data == ColumnChunks(data, n)[k]
      ensures |sent[k].data| == |data| && 0 < sent[k].NumRows() <= n
    {
      EqualColumnsChunk(data, n, k);
      assert ColumnBlocks(columns, ColumnChunks(data, n))[k] == Some(sent[k]);
    }
    forall j | 0 <= j < |data|
      ensures ColumnOf(sent, j) == data[j] && CountRows(sent) == |data[j]|
    {
      ColumnOfChunks(sent, data, n, j);
    }
  }

  // ----- the loops -----

  /** chunks, as a generator. */
  class ChunkGenerator {
    const items: seq<Value>
    const n: nat
    var i: nat

    /** What has not been yielded yet. */
    ghost function Left(): seq<Value>
      reads this
    {
      items[Min(i, |items|)..]
    }

    constructor (items: seq<Value>, n: nat)
      ensures this.items == items && this.n == n && Left() == items
    {
      this.items, this.n, i := items, n, 0;
    }

    /** The next chunk; an empty one ends the iteration. */
    method Next() returns (item: seq<Value>)
      modifies this
      ensures if Chunks(old(Left()), n) == [] then item == []
              else item != [] && Chunks(old(Left()), n) == [item] + Chunks(Left(), n)
    {
      ghost var left := Left();
      var lo, hi := Min(i, |items|), Min(i + n, |items|);
      item := items[lo..hi];
      assert n > 0 && left != [] ==> item == left[..Min(n, |left|)] && items[hi..] == left[Min(n, |left|)..];
      if item != [] {
        i := i + n;
      }
    }
  }

  /** A chunk further on in what is left of a column. */
  lemma CutFurther(c: seq<Value>, i: nat, n: nat)
    ensures var rest := c[Min(i, |c|)..];
            && rest[Min(n, |rest|)..] == c[Min(i + n, |c|)..]
            && rest[..Min(n, |rest|)] == c[Min(i, |c|)..Min(i + n, |c|)]
  {
    var rest := c[Min(i, |c|)..];
    assert Min(i, |c|) + Min(n, |rest|) == Min(i + n, |c|);
  }

  lemma RestsFurther(columns: seq<seq<Value>>, i: nat, n: nat)
    ensures Rests(Rests(columns, i), n) == Rests(columns, i + n)
    ensures forall j :: 0 <= j < |columns| ==>
              Firsts(Rests(columns, i), n)[j] == columns[j][Min(i, |columns[j]|)..Min(i + n, |columns[j]|)]
  {
    forall j | 0 <= j < |columns|
      ensures Rests(Rests(columns, i), n)[j] == Rests(columns, i + n)[j]
      ensures Firsts(Rests(columns, i), n)[j] == columns[j][Min(i, |columns[j]|)..Min(i + n, |columns[j]|)]
    {
      CutFurther(columns[j], i, n);
    }
  }

  /** column_chunks, as a generator; the generators of the columns stand at the same position or are done. */
  class ColumnChunkGenerator {
    const columns: seq<seq<Value>>
    const n: nat
    var i: nat

    ghost function Left(): seq<seq<Value>>
      reads this
    {
      Rests(columns, i)
    }

    constructor (columns: seq<seq<Value>>, n: nat)
      ensures this.columns == columns && this.n == n && Left() == columns
    {
      this.columns, this.n, i := columns, n, 0;
      assert Rests(columns, 0) == columns;
    }

    /** The next chunk of every column; None when all are exhausted. */
    method Next() returns (chunk: Option<seq<seq<Value>>>)
      modifies this
      ensures if ColumnChunks(old(Left()), n) == [] then chunk == None
              else chunk.Some? && ColumnChunks(old(Left()), n) == [chunk.value] + ColumnChunks(Left(), n)
    {
      RestsFurther(columns, i, n);
      ghost var left := Left();
      var item, any := [], false;
      for j := 0 to |columns|
        invariant |item| == j && forall k :: 0 <= k < j ==> item[k] == Firsts(left, n)[k]
        invariant any <==> exists k :: 0 <= k < j && item[k] != []
      {
        var part := columns[j][Min(i, |columns[j]|)..Min(i + n, |columns[j]|)];
        item := item + [part];
        any := any || part != [];
      }
      assert item == Firsts(left, n);
      NoneLeft(left, n);
      if !any {
        return None;
      }
      i := i + n;
      chunk := Some(item);
    }
  }

  lemma NoneLeft(columns: seq<seq<Value>>, n: nat)
    ensures (exists k :: 0 <= k < |columns| && Firsts(columns, n)[k] != []) <==> n > 0 && !AllEmpty(columns)
  {
    if n > 0 && !AllEmpty(columns) {
      var j :| 0 <= j < |columns| && columns[j] != [];
      assert Firsts(columns, n)[j] != [];
    }
  }

  /** Some blocks of a sending are out already. */
  ghost predicate PartlySent(whole: Sending, start: seq<Block>, now: seq<Block>, inserted: nat, rest: Sending)
  {
    && whole.ok == rest.ok && start + whole.sent == now + rest.sent
    && CountRows(whole.sent) == inserted + CountRows(rest.sent)
  }

  lemma OneSent(whole: Sending, start: seq<Block>, now: seq<Block>, inserted: nat,
                blocks: seq<Option<Block>>, accepts: Block -> bool)
    requires blocks != [] && PartlySent(whole, start, now, inserted, SendEach(blocks, accepts))
    ensures if blocks[0].Some? && accepts(blocks[0].value)
            then PartlySent(whole, start, now + [blocks[0].value], inserted + blocks[0].value.NumRows(),
                            SendEach(blocks[1..], accepts))
            else !whole.ok && now == start + whole.sent
  {
    var rest := SendEach(blocks[1..], accepts);
    if blocks[0].Some? && accepts(blocks[0].value) {
      assert now + ([blocks[0].value] + rest.sent) == now + [blocks[0].value] + rest.sent;
      assert ([blocks[0].value] + rest.sent)[1..] == rest.sent;
    } else {
      assert now + [] == now;
    }
  }

  lemma RowBlocksTail(columns: seq<(string, string)>, chunks: seq<seq<Value>>)
    requires chunks != []
    ensures RowBlocks(columns, chunks)[1..] == RowBlocks(columns, chunks[1..])
    ensures RowBlocks(columns, chunks)[0] == DictRows.NewBlock(columns, chunks[0], DEFAULT_INFO)
  {
  }

  lemma ColumnBlocksTail(columns: seq<(string, string)>, chunks: seq<seq<seq<Value>>>)
    requires chunks != []
    ensures ColumnBlocks(columns, chunks)[1..] == ColumnBlocks(columns, chunks[1..])
    ensures ColumnBlocks(columns, chunks)[0] == NewColumnBlock(columns, chunks[0], DEFAULT_INFO)
  {
  }

  /** RowOrientedBlock(...) of a chunk, which is overwritten if its first row is a dict. */
  method NewRowBlockOf(columns: seq<(string, string)>, chunk: seq<Value>) returns (block: Option<Block>)
    ensures block == DictRows.NewBlock(columns, chunk, DEFAULT_INFO)
  {
    if chunk == [] || !chunk[0].Dict? {
      return NewRowBlock(columns, chunk, DEFAULT_INFO);
    }
    var data := new Value[|chunk|](i requires 0 <= i < |chunk| => chunk[i]);
    assert data[..] == chunk;
    var ok := DictRows.MutateDictsToRows(data, columns, DictRows.Bound(columns));
    block := if ok then Some(RowBlock(columns, data[..], DEFAULT_INFO)) else None;
  }

  method SendRows(columns: seq<(string, string)>, data: seq<Value>, n: nat, sink: Sink) returns (count: Option<nat>)
    modifies sink
    ensures var (sent, expected) := SendData(RowBlocks(columns, Chunks(data, n)), EMPTY_ROWS, sink.accepts);
            count == expected && sink.sent == old(sink.sent) + sent
  {
    var inserted: nat := 0;
    ghost var whole := SendEach(RowBlocks(columns, Chunks(data, n)), sink.accepts);
    var slicer := new ChunkGenerator(data, n);
    var chunk := slicer.Next();
    ghost var chunks := Chunks(data, n);
    while chunk != []
      invariant chunk == (if chunks == [] then [] else chunks[0])
      invariant chunks != [] ==> chunk != [] && chunks[1..] == Chunks(slicer.Left(), n)
      invariant PartlySent(whole, old(sink.sent), sink.sent, inserted,
                           SendEach(RowBlocks(columns, chunks), sink.accepts))
      invariant fresh(slicer) && slicer.n == n
      decreases |chunks|
    {
      OneSent(whole, old(sink.sent), sink.sent, inserted, RowBlocks(columns, chunks), sink.accepts);
      RowBlocksTail(columns, chunks);
      var block := NewRowBlockOf(columns, chunk);
      if block.None? {
        return None;
      }
      var ok := sink.Send(block.value);
      if !ok {
        return None;
      }
      inserted := inserted + block.value.NumRows();
      chunks := chunks[1..];
      chunk := slicer.Next();
    }
    count := SendEmpty(EMPTY_ROWS, inserted, sink, old(sink.sent), whole);
  }

  method SendColumns(columns: seq<(string, string)>, data: seq<seq<Value>>, n: nat, sink: Sink)
      returns (count: Option<nat>)
    modifies sink
    ensures var (sent, expected) := SendData(ColumnBlocks(columns, ColumnChunks(data, n)), EMPTY_COLUMNS, sink.accepts);
            count == expected && sink.sent == old(sink.sent) + sent
  {
    var inserted: nat := 0;
    ghost var whole := SendEach(ColumnBlocks(columns, ColumnChunks(data, n)), sink.accepts);
    var slicer := new ColumnChunkGenerator(data, n);
    var chunk := slicer.Next();
    ghost var chunks := ColumnChunks(data, n);
    while chunk.Some?
      invariant if chunks == [] then chunk == None
                else chunk == Some(chunks[0]) && chunks[1..] == ColumnChunks(slicer.Left(), n)
      invariant PartlySent(whole, old(sink.sent), sink.sent, inserted,
                           SendEach(ColumnBlocks(columns, chunks), sink.accepts))
      invariant fresh(slicer) && slicer.n == n
      decreases |chunks|
    {
      OneSent(whole, old(sink.sent), sink.sent, inserted, ColumnBlocks(columns, chunks), sink.accepts);
      ColumnBlocksTail(columns, chunks);
      var block :- NewColumnBlock(columns, chunk.value, DEFAULT_INFO);
      var ok := sink.Send(block);
      if !ok {
        return None;
      }
      inserted := inserted + block.NumRows();
      chunks := chunks[1..];
      chunk := slicer.Next();
    }
    count := SendEmpty(EMPTY_COLUMNS, inserted, sink, old(sink.sent), whole);
  }

  /** An empty block means end of data. */
  method SendEmpty(empty: Block, inserted: nat, sink: Sink, ghost start: seq<Block>, ghost whole: Sending)
      returns (count: Option<nat>)
    requires PartlySent(whole, start, sink.sent, inserted, Sending([], true))
    modifies sink
    ensures count == if sink.accepts(empty) then Some(CountRows(whole.sent)) else None
    ensures sink.sent == start + (if sink.accepts(empty) then whole.sent + [empty] else whole.sent)
    ensures whole.ok
  {
    assert sink.sent == sink.sent + [] == start + whole.sent;
    assert sink.sent + [empty] == start + (whole.sent + [empty]);
    var ok := sink.Send(empty);
    count := if ok then Some(inserted) else None;
  }
}
