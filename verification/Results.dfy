/** The three ways to consume an answer: all at once, with progress reports, row by row. */
module Results {
  import opened Outcomes
  import opened Columns
  import opened ColumnCodec
  import opened Blocks
  import opened Packets

  // ----- what is stored -----

  /** The fields of a result object: rows, or columns if it is columnar. */
  datatype Stored = Stored(rows: seq<Value>, columns: seq<seq<Value>>, types: seq<(string, string)>)

  const NOTHING_STORED := Stored([], [], [])

  /** A block as the column reader builds it. */
  predicate Wellformed(b: Block)
  {
    b.ColumnBlock? && EqualLengths(b.data)
  }

  /** `self.data[i].extend(column)` for every column of a block; IndexError if there are more than before. */
  function Extend(columns: seq<seq<Value>>, data: seq<seq<Value>>): Option<seq<seq<Value>>>
  {
    if |data| > |columns| then None
    else Some(seq(|columns|, j requires 0 <= j < |columns| => if j < |data| then columns[j] + data[j] else columns[j]))
  }

  /** store, for a packet with a block. */
  function StoreBlock(columnar: bool, s: Stored, b: Block): Option<Stored>
    requires Wellformed(b)
  {
    if b.NumRows() == 0 then Some(if s.types == [] then s.(types := b.columns) else s)
    else if !columnar then Some(s.(rows := s.rows + b.GetRows()))
    else if s.columns == [] then Some(s.(columns := b.data))
    else
      var columns :- Extend(s.columns, b.data);
      Some(s.(columns := columns))
  }

  predicate HasBlock(p: Packet)
  {
    p.Data? || p.Totals? || p.Extremes?
  }

  predicate AllWellformed(packets: seq<Packet>)
  {
    forall i :: 0 <= i < |packets| ==> HasBlock(packets[i]) ==> Wellformed(packets[i].block)
  }

  function StoreAll(columnar: bool, s: Stored, packets: seq<Packet>): Option<Stored>
    requires AllWellformed(packets)
    decreases packets
  {
    if packets == [] then Some(s)
    else if HasBlock(packets[0]) then
      var s' :- StoreBlock(columnar, s, packets[0].block);
      StoreAll(columnar, s', packets[1..])
    else StoreAll(columnar, s, packets[1..])
  }

  lemma {:induction false} YieldsWellformed(packets: seq<Packet>)
    requires AllWellformed(packets)
    ensures AllWellformed(Yields(packets))
  {
    if packets != [] {
      YieldsWellformed(packets[1..]);
    }
  }

  lemma {:induction false} NextWellformed(packets: seq<Packet>)
    requires AllWellformed(packets)
    ensures AllWellformed(NextOf(packets).1)
    ensures NextOf(packets).0.Yielded? && HasBlock(NextOf(packets).0.packet) ==>
      Wellformed(NextOf(packets).0.packet.block)
  {
    if packets != [] && !Fails(packets[0]) && packets[0] != EndOfStream && !Delivered(packets[0]) {
      NextWellformed(packets[1..]);
    }
  }

  /** The result of storing what a stream yields; None if an error comes first. */
  function Collected(columnar: bool, s: Stored, stream: seq<Packet>): Option<Stored>
    requires AllWellformed(stream)
  {
    YieldsWellformed(stream);
    if Completes(stream) then StoreAll(columnar, s, Yields(stream)) else None
  }

  /** Collecting goes packet by packet. */
  lemma CollectedStep(columnar: bool, s: Stored, stream: seq<Packet>)
    requires AllWellformed(stream)
    ensures var (step, rest) := NextOf(stream);
            && AllWellformed(rest)
            && (step.Yielded? && HasBlock(step.packet) ==> Wellformed(step.packet.block))
            && Collected(columnar, s, stream)
               == match step
                  case Yielded(p) =>
                    if !HasBlock(p) then Collected(columnar, s, rest)
                    else if StoreBlock(columnar, s, p.block).None? then None
                    else Collected(columnar, StoreBlock(columnar, s, p.block).value, rest)
                  case Stopped => Some(s)
                  case Raised => None
  {
    var (step, rest) := NextOf(stream);
    NextYields(stream);
    NextWellformed(stream);
    YieldsWellformed(stream);
    if step.Yielded? {
      assert Yields(stream)[0] == step.packet && Yields(stream)[1..] == Yields(rest);
    }
  }

  // ----- all at once -----

  class QueryResult {
    const gen: PacketGenerator
    const columnar: bool
    var rows: seq<Value>
    var columns: seq<seq<Value>>
    var columnsWithTypes: seq<(string, string)>

    ghost function State(): Stored
      reads this
    {
      Stored(rows, columns, columnsWithTypes)
    }

    ghost predicate Valid()
      reads this, gen
    {
      AllWellformed(gen.Stream())
    }

    /** What get_result will return from here on. */
    ghost function Outcome(): Option<Stored>
      requires Valid()
      reads this, gen
    {
      Collected(columnar, State(), gen.Stream())
    }

    constructor (gen: PacketGenerator, columnar: bool)
      ensures this.gen == gen && this.columnar == columnar && State() == NOTHING_STORED
    {
      this.gen, this.columnar := gen, columnar;
      rows, columns, columnsWithTypes := [], [], [];
    }

    method Store(packet: Packet) returns (ok: bool)
      requires HasBlock(packet) ==> Wellformed(packet.block)
      modifies this
      ensures if HasBlock(packet)
              then ok == StoreBlock(columnar, old(State()), packet.block).Some?
                   && (ok ==> State() == StoreBlock(columnar, old(State()), packet.block).value)
              else ok && State() == old(State())
    {
      if !HasBlock(packet) {
        return true;
      }
      var block := packet.block;
      if block.NumRows() > 0 {
        if columnar {
          if columns != [] {
            ok := ExtendColumns(block.data);
          } else {
            columns, ok := block.data, true;
          }
        } else {
          rows, ok := rows + block.GetRows(), true;
        }
      } else {
        if columnsWithTypes == [] {
          columnsWithTypes := block.columns;
        }
        ok := true;
      }
    }

    /** Extends the corresponding columns one after the other. */
    method ExtendColumns(data: seq<seq<Value>>) returns (ok: bool)
      modifies this`columns
      ensures ok == Extend(old(columns), data).Some?
      ensures ok ==> columns == Extend(old(columns), data).value
    {
      for i := 0 to |data|
        invariant |columns| == |old(columns)| && i <= |columns|
        invariant forall j :: 0 <= j < |columns| ==>
          columns[j] == if j < i then old(columns)[j] + data[j] else old(columns)[j]
      {
        if i >= |columns| {
          return false;
        }
        columns := columns[i := columns[i] + data[i]];
      }
      ok := true;
    }

    method GetResult() returns (r: Option<Stored>)
      requires Valid()
      modifies this, gen, gen.lastQuery
      ensures r == old(Outcome())
      ensures r.Some? ==> State() == r.value && gen.Stream() == [EndOfStream]
      ensures r.Some? ==> gen.lastQuery.progress == Sum(old(gen.lastQuery.progress), Yields(old(gen.Stream())))
    {
      ghost var sum := Sum(gen.lastQuery.progress, Yields(gen.Stream()));
      while true
        invariant Valid() && Outcome() == old(Outcome())
        invariant sum == Sum(gen.lastQuery.progress, Yields(gen.Stream()))
        decreases |gen.Stream()|
      {
        CollectedStep(columnar, State(), gen.Stream());
        NextYields(gen.Stream());
        SumStep(gen.lastQuery.progress, gen.Stream());
        var step := gen.Next();
        match step {
          case Stopped =>
            return Some(Stored(rows, columns, columnsWithTypes));
          case Raised =>
            return None;
          case Yielded(packet) =>
            var ok := Store(packet);
            if !ok {
              return None;
            }
        }
      }
    }
  }

  lemma SumStep(start: Progress, stream: seq<Packet>)
    ensures var (step, rest) := NextOf(stream);
            Sum(start, Yields(stream)) == if step.Yielded? then Sum(Sum(start, [step.packet]), Yields(rest)) else start
  {
    NextYields(stream);
    var (step, rest) := NextOf(stream);
    if step.Yielded? {
      assert ([step.packet] + Yields(rest))[1..] == Yields(rest) && [step.packet][1..] == [];
    }
  }

  // ----- with progress reports -----

  /** What one step of progress iteration gives. */
  datatype Report = Report(rows: nat, totalRows: nat) | Exhausted | Broken

  /** What looking at the progress gives, packet by packet: the counters so far. */
  function Reports(rows: nat, totalRows: nat, packets: seq<Packet>): seq<Report>
    decreases packets
  {
    if packets == [] then []
    else if !packets[0].ProgressReport? then Reports(rows, totalRows, packets[1..])
    else
      var rows', totalRows' := rows + packets[0].progress.rows, totalRows + packets[0].progress.totalRows;
      [Report(rows', totalRows')] + Reports(rows', totalRows', packets[1..])
  }

  /** Each report tells the rows of the progress packets so far, and the total they announce. */
  lemma {:induction false} ReportsAreTallies(rows: nat, totalRows: nat, packets: seq<Packet>, k: nat) returns (m: nat)
    requires k < |Reports(rows, totalRows, packets)|
    ensures m <= |packets| && Tally(_ => 1, packets[..m]) == k + 1
    ensures Reports(rows, totalRows, packets)[k]
         == Report(rows + Tally((p: Progress) => p.rows, packets[..m]),
                   totalRows + Tally((p: Progress) => p.totalRows, packets[..m]))
    decreases packets
  {
    var p := packets[0];
    if p.ProgressReport? && k == 0 {
      m := 1;
      assert packets[..1][1..] == [];
    } else {
      var add := if p.ProgressReport? then p.progress else NO_PROGRESS;
      m := ReportsAreTallies(rows + add.rows, totalRows + add.totalRows, packets[1..],
                             if p.ProgressReport? then k - 1 else k);
      assert packets[..m + 1][1..] == packets[1..][..m];
      m := m + 1;
    }
  }

  lemma ReportsStep(total: Progress, stream: seq<Packet>)
    ensures var (step, rest) := NextOf(stream);
            Reports(total.rows, total.totalRows, Yields(stream))
            == if !step.Yielded? then []
               else if !step.packet.ProgressReport? then Reports(total.rows, total.totalRows, Yields(rest))
               else
                 var after := total.Add(step.packet.progress);
                 [Report(after.rows, after.totalRows)] + Reports(after.rows, after.totalRows, Yields(rest))
  {
    NextYields(stream);
    var (step, rest) := NextOf(stream);
    if step.Yielded? {
      assert ([step.packet] + Yields(rest))[1..] == Yields(rest);
    }
  }

  class ProgressQueryResult {
    const base: QueryResult
    var progressTotals: Progress

    ghost predicate Valid()
      reads this, base, base.gen
    {
      base.Valid()
    }

    constructor (gen: PacketGenerator, columnar: bool)
      ensures base.gen == gen && base.columnar == columnar
      ensures base.State() == NOTHING_STORED && progressTotals == Progress(0, 0, 0, 0, 0)
      ensures fresh(base)
    {
      base := new QueryResult(gen, columnar);
      progressTotals := NO_PROGRESS;
    }

    /** Everything the reports will add up to. */
    ghost function Total(): Progress
      reads this, base, base.gen
    {
      Sum(progressTotals, Yields(base.gen.Stream()))
    }

    /** Stores blocks up to the next progress packet. Neither the outcome nor the total is changed by
        looking at the progress. */
    method Next() returns (r: Report)
      requires Valid()
      modifies this, base, base.gen, base.gen.lastQuery
      ensures Valid()
      ensures r.Broken? ==> old(base.Outcome()) == None
      ensures !r.Broken? ==> base.Outcome() == old(base.Outcome()) && Total() == old(Total())
      ensures var before := Reports(old(progressTotals.rows), old(progressTotals.totalRows),
                                    Yields(old(base.gen.Stream())));
              && (r.Report? ==> before == [r] + Reports(r.rows, r.totalRows, Yields(base.gen.Stream())))
              && (r.Exhausted? ==> before == [])
      ensures r.Report? ==> r == Report(progressTotals.rows, progressTotals.totalRows)
      ensures r.Report? ==> |base.gen.Stream()| < |old(base.gen.Stream())|
      ensures r.Exhausted? ==> base.gen.Stream() == [EndOfStream] && progressTotals == old(Total())
      ensures !r.Broken? ==>
                Sum(base.gen.lastQuery.progress, Yields(base.gen.Stream()))
                == Sum(old(base.gen.lastQuery.progress), Yields(old(base.gen.Stream())))
    {
      var gen := base.gen;
      ghost var sum := Sum(gen.lastQuery.progress, Yields(gen.Stream()));
      while true
        invariant Valid() && base.Outcome() == old(base.Outcome()) && Total() == old(Total())
        invariant progressTotals == old(progressTotals)
        invariant Reports(progressTotals.rows, progressTotals.totalRows, Yields(gen.Stream()))
               == Reports(old(progressTotals.rows), old(progressTotals.totalRows), Yields(old(gen.Stream())))
        invariant |gen.Stream()| <= |old(gen.Stream())|
        invariant sum == Sum(gen.lastQuery.progress, Yields(gen.Stream()))
        decreases |gen.Stream()|
      {
        CollectedStep(base.columnar, base.State(), gen.Stream());
        NextYields(gen.Stream());
        SumStep(gen.lastQuery.progress, gen.Stream());
        SumStep(progressTotals, gen.Stream());
        ReportsStep(progressTotals, gen.Stream());
        var step := gen.Next();
        match step {
          case Stopped =>
            return Exhausted;
          case Raised =>
            return Broken;
          case Yielded(packet) =>
            if packet.ProgressReport? {
              progressTotals := progressTotals.Add(packet.progress);
              return Report(progressTotals.rows, progressTotals.totalRows);
            }
            var ok := base.Store(packet);
            if !ok {
              return Broken;
            }
        }
      }
    }

    method GetResult() returns (r: Option<Stored>)
      requires Valid()
      modifies this, base, base.gen, base.gen.lastQuery
      ensures r == old(base.Outcome())
      ensures r.Some? ==> progressTotals == old(Total())
      ensures r.Some? ==>
                base.gen.lastQuery.progress == Sum(old(base.gen.lastQuery.progress), Yields(old(base.gen.Stream())))
    {
      ghost var sum := Sum(base.gen.lastQuery.progress, Yields(base.gen.Stream()));
      while true
        invariant Valid() && base.Outcome() == old(base.Outcome()) && Total() == old(Total())
        invariant sum == Sum(base.gen.lastQuery.progress, Yields(base.gen.Stream()))
        decreases |base.gen.Stream()|
      {
        var report := Next();
        if report.Broken? {
          return None;
        }
        if report.Exhausted? {
          break;
        }
      }
      r := base.GetResult();
    }
  }

  /** Any number of looks at the progress before asking for the result changes neither the result nor the
      progress that both counters end with. */
  method PollThenCollect(result: ProgressQueryResult, polls: nat) returns (r: Option<Stored>)
    requires result.Valid()
    modifies result, result.base, result.base.gen, result.base.gen.lastQuery
    ensures r == old(result.base.Outcome())
    ensures r.Some? ==> result.progressTotals == old(result.Total())
    ensures r.Some? ==>
              result.base.gen.lastQuery.progress
              == Sum(old(result.base.gen.lastQuery.progress), Yields(old(result.base.gen.Stream())))
  {
    ghost var sum := Sum(result.base.gen.lastQuery.progress, Yields(result.base.gen.Stream()));
    for i := 0 to polls
      invariant result.Valid() && result.base.Outcome() == old(result.base.Outcome())
      invariant result.Total() == old(result.Total())
      invariant sum == Sum(result.base.gen.lastQuery.progress, Yields(result.base.gen.Stream()))
    {
      var report := result.Next();
      if report.Broken? {
        return None;
      }
    }
    r := result.GetResult();
  }

  // ----- row by row -----

  /** What iter_receive_result hands out: rows, and the column list where it is asked for. */
  datatype Item = OneRow(row: Value) | Types(types: seq<(string, string)>)

  function AsRows(rows: seq<Value>): (r: seq<Item>)
    ensures |r| == |rows|
  {
    seq(|rows|, i requires 0 <= i < |rows| => OneRow(rows[i]))
  }

  /** The items of the packets yielded; types go in front of the first block while pending. */
  function Items(typesPending: bool, packets: seq<Packet>): seq<Item>
    requires AllWellformed(packets)
    decreases packets
  {
    if packets == [] then []
    else if !HasBlock(packets[0]) then Items(typesPending, packets[1..])
    else (if typesPending then [Types(packets[0].block.columns)] else [])
         + AsRows(packets[0].block.GetRows()) + Items(false, packets[1..])
  }

  class IterQueryResult {
    const gen: PacketGenerator
    const withColumnTypes: bool
    var firstBlock: bool

    ghost predicate Valid()
      reads this, gen
    {
      AllWellformed(gen.Stream())
    }

    /** All items still to come. */
    ghost function Remaining(): seq<Item>
      requires Valid()
      reads this, gen
    {
      YieldsWellformed(gen.Stream());
      Items(firstBlock && withColumnTypes, Yields(gen.Stream()))
    }

    constructor (gen: PacketGenerator, withColumnTypes: bool)
      ensures this.gen == gen && this.withColumnTypes == withColumnTypes && firstBlock
    {
      this.gen, this.withColumnTypes, firstBlock := gen, withColumnTypes, true;
    }

    /** The chunk of one packet; None at the end of the iteration. */
    method Next() returns (chunk: Option<seq<Item>>, failed: bool)
      requires Valid()
      modifies this, gen, gen.lastQuery
      ensures Valid()
      ensures chunk.Some? ==>
        && !failed && old(Remaining()) == chunk.value + Remaining()
        && |gen.Stream()| < |old(gen.Stream())|
      ensures chunk.Some? ==> Completes(gen.Stream()) == Completes(old(gen.Stream()))
      ensures chunk.None? ==> old(Remaining()) == [] && failed == !Completes(old(gen.Stream()))
    {
      NextYields(gen.Stream());
      NextWellformed(gen.Stream());
      YieldsWellformed(gen.Stream());
      YieldsWellformed(NextOf(gen.Stream()).1);
      ItemsStep(firstBlock && withColumnTypes, gen.Stream());
      var step := gen.Next();
      if !step.Yielded? {
        return None, step.Raised?;
      }
      YieldsWellformed(gen.Stream());
      if !HasBlock(step.packet) {
        assert [] + Remaining() == Remaining();
        return Some([]), false;
      }
      var block := step.packet.block;
      var rows := AsRows(block.GetRows());
      if firstBlock && withColumnTypes {
        firstBlock := false;
        return Some([Types(block.columns)] + rows), false;
      }
      assert [] + rows == rows;
      return Some(rows), false;
    }

    /** iter_receive_result, run to its end. */
    method Drain() returns (items: seq<Item>, failed: bool)
      requires Valid()
      modifies this, gen, gen.lastQuery
      ensures items == old(Remaining()) && failed == !Completes(old(gen.Stream()))
    {
      items := [];
      assert [] + Remaining() == Remaining();
      while true
        invariant Valid() && items + Remaining() == old(Remaining())
        invariant Completes(gen.Stream()) == Completes(old(gen.Stream()))
        decreases |gen.Stream()|
      {
        ghost var before := Remaining();
        var chunk, error := Next();
        if chunk.None? {
          assert items + [] == items;
          return items, error;
        }
        assert items + before == items + chunk.value + Remaining();
        items := items + chunk.value;
      }
    }
  }

  lemma ItemsStep(typesPending: bool, stream: seq<Packet>)
    requires AllWellformed(stream) && AllWellformed(Yields(stream))
    requires AllWellformed(NextOf(stream).1) && AllWellformed(Yields(NextOf(stream).1))
    requires NextOf(stream).0.Yielded? && HasBlock(NextOf(stream).0.packet) ==>
      Wellformed(NextOf(stream).0.packet.block)
    ensures var (step, rest) := NextOf(stream);
            Items(typesPending, Yields(stream))
            == match step
               case Yielded(p) =>
                 if !HasBlock(p) then Items(typesPending, Yields(rest))
                 else (if typesPending then [Types(p.block.columns)] else [])
                      + AsRows(p.block.GetRows()) + Items(false, Yields(rest))
               case Stopped => []
               case Raised => []
  {
    NextYields(stream);
    var (step, rest) := NextOf(stream);
    if step.Yielded? {
      assert Yields(stream)[0] == step.packet && Yields(stream)[1..] == Yields(rest);
    }
  }

  // ----- the three consumers agree -----

  /** The blocks of the DATA, TOTALS and EXTREMES packets, in order. */
  function BlocksIn(packets: seq<Packet>): seq<Block>
  {
    if packets == [] then []
    else
      match packets[0]
      case Data(block) => [block] + BlocksIn(packets[1..])
      case Totals(block) => [block] + BlocksIn(packets[1..])
      case Extremes(block) => [block] + BlocksIn(packets[1..])
      case _ => BlocksIn(packets[1..])
  }

  predicate AllBuilt(blocks: seq<Block>)
  {
    forall k :: 0 <= k < |blocks| ==> Wellformed(blocks[k])
  }

  lemma {:induction false} BlocksBuilt(packets: seq<Packet>)
    requires AllWellformed(packets)
    ensures AllBuilt(BlocksIn(packets))
  {
    if packets != [] {
      BlocksBuilt(packets[1..]);
    }
  }

  /** The rows of all blocks. */
  function RowsIn(blocks: seq<Block>): seq<Value>
    requires AllBuilt(blocks)
  {
    if blocks == [] then [] else blocks[0].GetRows() + RowsIn(blocks[1..])
  }

  /** The columns of the first block that has columns and no rows. */
  function HeaderIn(blocks: seq<Block>): seq<(string, string)>
  {
    if blocks == [] then []
    else if blocks[0].NumRows() == 0 && blocks[0].columns != [] then blocks[0].columns
    else HeaderIn(blocks[1..])
  }

  /** The rows of the DATA, TOTALS and EXTREMES blocks, in order. */
  function BlockRows(packets: seq<Packet>): seq<Value>
    requires AllWellformed(packets)
  {
    BlocksBuilt(packets);
    RowsIn(BlocksIn(packets))
  }

  function HeaderOf(packets: seq<Packet>): seq<(string, string)>
  {
    HeaderIn(BlocksIn(packets))
  }

  lemma NoRows(b: Block)
    requires Wellformed(b) && b.NumRows() == 0
    ensures b.GetRows() == []
  {
  }

  lemma {:induction false} RowsStored(s: Stored, packets: seq<Packet>)
    requires AllWellformed(packets)
    ensures StoreAll(false, s, packets)
         == Some(Stored(s.rows + BlockRows(packets), s.columns, if s.types == [] then HeaderOf(packets) else s.types))
    decreases packets
  {
    if packets == [] {
      assert s.rows + [] == s.rows;
    } else if HasBlock(packets[0]) {
      var b := packets[0].block;
      var s' := StoreBlock(false, s, b).value;
      RowsStored(s', packets[1..]);
      if b.NumRows() == 0 {
        NoRows(b);
        assert [] + BlockRows(packets[1..]) == BlockRows(packets[1..]);
      } else {
        assert s.rows + (b.GetRows() + BlockRows(packets[1..])) == s.rows + b.GetRows() + BlockRows(packets[1..]);
      }
    } else {
      RowsStored(s, packets[1..]);
    }
  }

  /** The generator keeps every block in front of the end. */
  lemma {:induction false} AnswersHoldBlocks(packets: seq<Packet>)
    ensures BlocksIn(Answers(packets)) == BlocksIn(packets)
  {
    if packets != [] {
      AnswersHoldBlocks(packets[1..]);
      assert ([packets[0]] + Answers(packets[1..]))[1..] == Answers(packets[1..]);
      assert [] + Answers(packets[1..]) == Answers(packets[1..]);
    }
  }

  lemma YieldedBlocks(stream: seq<Packet>, n: nat)
    requires AllWellformed(stream) && EndsAt(stream, n)
    ensures AllWellformed(Yields(stream)) && BlocksIn(Yields(stream)) == BlocksIn(stream[..n])
  {
    YieldsWellformed(stream);
    YieldsExactly(stream, n);
    AnswersHoldBlocks(stream[..n]);
  }

  predicate EndsNormally(stream: seq<Packet>, n: nat)
  {
    n < |stream| && stream[n].EndOfStream?
  }

  /** The batch result of an answer that ends normally: the rows of the DATA, TOTALS and EXTREMES blocks before
      the END_OF_STREAM, and the columns of the first block without rows. */
  lemma BatchResult(stream: seq<Packet>, n: nat)
    requires AllWellformed(stream) && EndsAt(stream, n)
    ensures Collected(false, NOTHING_STORED, stream)
         == if EndsNormally(stream, n) then Some(Stored(BlockRows(stream[..n]), [], HeaderOf(stream[..n]))) else None
  {
    YieldedBlocks(stream, n);
    YieldsExactly(stream, n);
    RowsStored(NOTHING_STORED, Yields(stream));
    assert [] + BlockRows(Yields(stream)) == BlockRows(Yields(stream));
  }

  lemma AsRowsJoin(head: seq<Item>, a: seq<Value>, b: seq<Value>)
    ensures head + AsRows(a) + ([] + AsRows(b)) == head + AsRows(a + b)
  {
    assert AsRows(a + b) == AsRows(a) + AsRows(b);
  }

  /** The items of the iterator are the same rows; the columns, if asked for, come before the first block. */
  lemma {:induction false} ItemsAreRows(typesPending: bool, packets: seq<Packet>)
    requires AllWellformed(packets)
    ensures Items(typesPending, packets)
         == (if typesPending && BlocksIn(packets) != [] then [Types(BlocksIn(packets)[0].columns)] else [])
            + AsRows(BlockRows(packets))
    decreases packets
  {
    if packets == [] {
    } else if HasBlock(packets[0]) {
      ItemsAreRows(false, packets[1..]);
      AsRowsJoin(if typesPending then [Types(packets[0].block.columns)] else [],
        packets[0].block.GetRows(), BlockRows(packets[1..]));
    } else {
      ItemsAreRows(typesPending, packets[1..]);
    }
  }

  /** The iterator delivers the rows of the batch result, if the answer ends normally or not. */
  lemma IteratedResult(withTypes: bool, stream: seq<Packet>, n: nat)
    requires AllWellformed(stream) && EndsAt(stream, n)
    ensures AllWellformed(Yields(stream))
    ensures var blocks := BlocksIn(stream[..n]);
            Items(withTypes, Yields(stream))
            == (if withTypes && blocks != [] then [Types(blocks[0].columns)] else []) + AsRows(BlockRows(stream[..n]))
  {
    YieldedBlocks(stream, n);
    ItemsAreRows(withTypes, Yields(stream));
  }

  // ----- the columnar result -----

  predicate HasRows(p: Packet)
    requires HasBlock(p) ==> Wellformed(p.block)
  {
    HasBlock(p) && p.block.NumRows() > 0
  }

  /** All blocks with rows have w columns. */
  predicate Uniform(packets: seq<Packet>, w: nat)
    requires AllWellformed(packets)
  {
    forall i :: 0 <= i < |packets| ==> HasRows(packets[i]) ==> |packets[i].block.data| == w
  }

  predicate Rectangular(columns: seq<seq<Value>>, w: nat)
  {
    |columns| == w && w > 0 && EqualLengths(columns) && |columns[0]| > 0
  }

  lemma ExtendedRows(columns: seq<seq<Value>>, data: seq<seq<Value>>)
    requires Rectangular(columns, |columns|) && Rectangular(data, |columns|)
    ensures var c := Extend(columns, data);
            c.Some? && Rectangular(c.value, |columns|) && |c.value[0]| == |columns[0]| + |data[0]|
            && Rows(c.value, |c.value[0]|) == Rows(columns, |columns[0]|) + Rows(data, |data[0]|)
  {
    var c := Extend(columns, data).value;
    var n, m := |columns[0]|, |data[0]|;
    assert forall j :: 0 <= j < |c| ==> c[j] == columns[j] + data[j];
    var rows, parts := Rows(c, n + m), Rows(columns, n) + Rows(data, m);
    forall i | 0 <= i < n + m
      ensures rows[i] == parts[i]
    {
      if i < n {
        assert rows[i].items == Rows(columns, n)[i].items;
      } else {
        assert rows[i].items == Rows(data, m)[i - n].items;
      }
    }
  }

  /** From columns stored already on. */
  lemma {:induction false} ColumnsStored(s: Stored, packets: seq<Packet>)
    requires AllWellformed(packets) && Rectangular(s.columns, |s.columns|) && Uniform(packets, |s.columns|)
    ensures var r := StoreAll(true, s, packets);
            r.Some? && Rectangular(r.value.columns, |s.columns|)
            && Rows(r.value.columns, |r.value.columns[0]|) == Rows(s.columns, |s.columns[0]|) + BlockRows(packets)
    decreases packets
  {
    if packets == [] {
      assert Rows(s.columns, |s.columns[0]|) + [] == Rows(s.columns, |s.columns[0]|);
    } else {
      if !HasBlock(packets[0]) {
        ColumnsStored(s, packets[1..]);
      } else {
        var b := packets[0].block;
        if b.NumRows() == 0 {
          NoRows(b);
        } else {
          assert HasRows(packets[0]);
          ExtendedRows(s.columns, b.data);
        }
        ColumnsStored(StoreBlock(true, s, b).value, packets[1..]);
        Grouped(Rows(s.columns, |s.columns[0]|), b.GetRows(), BlockRows(packets[1..]));
      }
    }
  }

  lemma Grouped(a: seq<Value>, b: seq<Value>, c: seq<Value>)
    ensures a + (b + c) == a + b + c
    ensures b == [] ==> a + b == a
  {
  }

  /** The columnar result is the transpose of the row result when blocks with rows share a width. */
  lemma {:induction false} ColumnarIsTranspose(types: seq<(string, string)>, packets: seq<Packet>, w: nat)
    requires AllWellformed(packets) && Uniform(packets, w)
    ensures var r := StoreAll(true, Stored([], [], types), packets);
            r.Some? && (r.value.columns == [] ==> BlockRows(packets) == [])
            && (r.value.columns != [] ==> Rectangular(r.value.columns, w)
                                          && Rows(r.value.columns, |r.value.columns[0]|) == BlockRows(packets))
    decreases packets
  {
    if packets != [] {
      var s, rest := Stored([], [], types), BlockRows(packets[1..]);
      if !HasBlock(packets[0]) {
        ColumnarIsTranspose(types, packets[1..], w);
      } else {
        var b := packets[0].block;
        if b.NumRows() == 0 {
          NoRows(b);
          assert [] + rest == rest;
          ColumnarIsTranspose(StoreBlock(true, s, b).value.types, packets[1..], w);
        } else {
          assert HasRows(packets[0]);
          ColumnsStored(s.(columns := b.data), packets[1..]);
        }
      }
    }
  }

  /** Rows aside, what a columnar result stores is what a row result stores. */
  lemma {:induction false} ColumnarTypes(s: Stored, packets: seq<Packet>)
    requires AllWellformed(packets) && StoreAll(true, s, packets).Some?
    ensures var r := StoreAll(true, s, packets).value;
            r.rows == s.rows && r.types == if s.types == [] then HeaderOf(packets) else s.types
    decreases packets
  {
    if packets != [] {
      if HasBlock(packets[0]) {
        ColumnarTypes(StoreBlock(true, s, packets[0].block).value, packets[1..]);
      } else {
        ColumnarTypes(s, packets[1..]);
      }
    }
  }

  /** The columnar result of an answer: its columns are the transpose of the rows of the row result, and its types
      are the same. */
  lemma ColumnarResult(stream: seq<Packet>, n: nat, w: nat)
    requires AllWellformed(stream) && EndsAt(stream, n) && AllWidth(BlocksIn(stream[..n]), w)
    ensures var r := Collected(true, NOTHING_STORED, stream);
            && (r.Some? <==> EndsNormally(stream, n))
            && (r.Some? ==>
                  && r.value.rows == [] && r.value.types == HeaderOf(stream[..n])
                  && if r.value.columns == [] then BlockRows(stream[..n]) == []
                     else && Rectangular(r.value.columns, w)
                          && Rows(r.value.columns, |r.value.columns[0]|) == BlockRows(stream[..n]))
  {
    YieldedBlocks(stream, n);
    YieldsExactly(stream, n);
    WidthsUniform(Yields(stream), w);
    ColumnarIsTranspose([], Yields(stream), w);
    ColumnarTypes(NOTHING_STORED, Yields(stream));
  }

  predicate AllWidth(blocks: seq<Block>, w: nat)
  {
    forall k :: 0 <= k < |blocks| && blocks[k].ColumnBlock? && blocks[k].NumRows() > 0 ==> |blocks[k].data| == w
  }

  lemma {:induction false} WidthsUniform(packets: seq<Packet>, w: nat)
    requires AllWellformed(packets) && AllWidth(BlocksIn(packets), w)
    ensures Uniform(packets, w)
  {
    if packets != [] {
      var blocks, others := BlocksIn(packets), BlocksIn(packets[1..]);
      if HasBlock(packets[0]) {
        assert blocks[0] == packets[0].block && blocks[1..] == others;
        assert forall k :: 0 <= k < |others| ==> others[k] == blocks[k + 1];
      }
      WidthsUniform(packets[1..], w);
      assert forall i :: 1 <= i < |packets| ==> packets[i] == packets[1..][i - 1];
    }
  }

  /** How many rows arrive in blocks that have a column j. */
  function RowsReaching(packets: seq<Packet>, j: nat): nat
    requires AllWellformed(packets)
  {
    if packets == [] then 0
    else
      (if HasRows(packets[0]) && |packets[0].block.data| > j then packets[0].block.NumRows() else 0)
      + RowsReaching(packets[1..], j)
  }

  lemma {:induction false} ColumnLengths(s: Stored, packets: seq<Packet>, j: nat)
    requires AllWellformed(packets) && j < |s.columns| && StoreAll(true, s, packets).Some?
    ensures var c := StoreAll(true, s, packets).value.columns;
            |c| == |s.columns| && |c[j]| == |s.columns[j]| + RowsReaching(packets, j)
    ensures forall i :: 0 <= i < |packets| && HasRows(packets[i]) ==> |packets[i].block.data| <= |s.columns|
    decreases packets
  {
    if packets != [] {
      if HasBlock(packets[0]) {
        var s' := StoreBlock(true, s, packets[0].block).value;
        ColumnLengths(s', packets[1..], j);
      } else {
        ColumnLengths(s, packets[1..], j);
      }
      forall i | 0 <= i < |packets| && HasRows(packets[i])
        ensures |packets[i].block.data| <= |s.columns|
      {
        if i > 0 {
          assert packets[i] == packets[1..][i - 1];
        }
      }
    }
  }

  lemma {:induction false} FewerReachFurther(packets: seq<Packet>, j: nat)
    requires AllWellformed(packets) && RowsReaching(packets, j) >= RowsReaching(packets, 0)
    ensures forall i :: 0 <= i < |packets| && HasRows(packets[i]) ==> |packets[i].block.data| > j
  {
    if packets != [] {
      ReachingMonotone(packets[1..], j);
      FewerReachFurther(packets[1..], j);
      forall i | 0 <= i < |packets| && HasRows(packets[i])
        ensures |packets[i].block.data| > j
      {
        if i > 0 {
          assert packets[i] == packets[1..][i - 1];
        }
      }
    }
  }

  lemma {:induction false} ReachingMonotone(packets: seq<Packet>, j: nat)
    requires AllWellformed(packets)
    ensures RowsReaching(packets, j) <= RowsReaching(packets, 0)
  {
    if packets != [] {
      ReachingMonotone(packets[1..], j);
    }
  }

  /** Once a block with rows is stored, the columnar result exists and is rectangular if and only if all later
      blocks with rows have as many columns as it: a wider one raises, a narrower one leaves short columns. */
  lemma ColumnarExactly(s: Stored, packets: seq<Packet>)
    requires AllWellformed(packets) && Rectangular(s.columns, |s.columns|)
    ensures var r := StoreAll(true, s, packets);
            (r.Some? && EqualLengths(r.value.columns)) <==> Uniform(packets, |s.columns|)
  {
    if Uniform(packets, |s.columns|) {
      ColumnsStored(s, packets);
    }
    var r := StoreAll(true, s, packets);
    if r.Some? && EqualLengths(r.value.columns) {
      var last := |s.columns| - 1;
      ColumnLengths(s, packets, 0);
      ColumnLengths(s, packets, last);
      assert |r.value.columns[last]| == |r.value.columns[0]|;
      FewerReachFurther(packets, last);
    }
  }
}
