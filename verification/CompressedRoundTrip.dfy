/** Blocks of rows sent over a connection with compression: every block goes out as a frame, and the frames
    yield the blocks. */
module CompressedRoundTrip {
  import opened Outcomes
  import opened Blocks
  import opened Columns
  import opened Compressed
  import opened Native
  import opened NativeRoundTrip
  import opened Shapes
  import ColumnRoundTrip
  import SpecParser
  import StructPack

  /** Rows given for a block, and the same rows in the declared shapes. */
  datatype Sheet = Sheet(names: seq<string>, trees: seq<Column>, given: seq<Value>, rows: seq<Value>, info: Info)

  predicate Aligned(sheets: seq<Sheet>)
  {
    forall i :: 0 <= i < |sheets| ==> |sheets[i].names| == |sheets[i].trees|
  }

  ghost predicate Deliverable(sheet: Sheet)
  {
    && Carriable(sheet.names, sheet.trees, sheet.rows)
    && AllAlike(Tuple(false, sheet.names, sheet.trees), sheet.given, sheet.rows)
    && StructPack.Fits(true, 4, sheet.info.bucket)
  }

  /** What is collected before the frame is closed. */
  function Written(revision: int, sheet: Sheet): Option<Bytes>
    requires |sheet.names| == |sheet.trees|
  {
    WriteBlock(SpecParser.Parse, revision, RowBlock(Declared(sheet.names, sheet.trees), sheet.given, sheet.info))
  }

  /** The frames of the blocks, one after the other. */
  function Sent(lib: Library, algorithm: Method, revision: int, sheets: seq<Sheet>): Option<Bytes>
    requires Aligned(sheets)
    decreases |sheets|
  {
    if sheets == [] then Some([])
    else
      var payload :- Written(revision, sheets[0]);
      Cat(Frame(lib, algorithm, payload), Sent(lib, algorithm, revision, sheets[1..]))
  }

  /** The bytes are a block of the rows in their declared shapes, and no more. */
  predicate DeliversSheet(revision: int, sheet: Sheet, bytes: Bytes)
    requires |sheet.names| == |sheet.trees|
  {
    Delivers(Native.ReadBlock(SpecParser.Parse, revision, bytes), Declared(sheet.names, sheet.trees), sheet.rows,
             HeadInfo(revision, sheet.info), [])
  }

  /** Block by block, the bytes fetched through the frames, in one read or in any number of pieces, are a block of
      the rows sent; rest follows the last. */
  ghost predicate Arrive(lib: Library, revision: int, sheets: seq<Sheet>, raw: Bytes, rest: Bytes)
    requires Aligned(sheets)
    decreases |sheets|
  {
    if sheets == [] then raw == rest
    else
      var sheet, written := sheets[0], Written(revision, sheets[0]);
      && written.Some?
      && var fetched := Fetch(BlockSource(lib), [], raw, |written.value|);
         && fetched.Got? && fetched.buffered == []
         && (forall sizes: seq<nat> :: Sum(sizes) == |written.value| ==>
               FetchPieces(BlockSource(lib), [], raw, sizes) == fetched)
         && DeliversSheet(revision, sheet, fetched.bytes)
         && Arrive(lib, revision, sheets[1..], fetched.raw, rest)
  }

  lemma WrittenDelivers(revision: int, sheet: Sheet)
    requires Deliverable(sheet)
    ensures var w := Written(revision, sheet);
            w.Some? && w.value != [] && DeliversSheet(revision, sheet, w.value)
  {
    RowsSurvive(revision, sheet.names, sheet.trees, sheet.given, sheet.rows, sheet.info, []);
    var w := Written(revision, sheet).value;
    assert w + [] == w;
  }

  lemma AnyPieces(lib: Library, raw: Bytes, n: nat)
    ensures forall sizes: seq<nat> :: Sum(sizes) == n ==>
              FetchPieces(BlockSource(lib), [], raw, sizes) == Fetch(BlockSource(lib), [], raw, n)
  {
    forall sizes: seq<nat> | Sum(sizes) == n
      ensures FetchPieces(BlockSource(lib), [], raw, sizes) == Fetch(BlockSource(lib), [], raw, n)
    {
      PiecesAreWhole(BlockSource(lib), [], raw, sizes);
    }
  }

  /** Any number of blocks of any rows sent as frames arrive in order, and what follows them is left. */
  lemma {:induction false} BlocksArrive(lib: Library, algorithm: Method, revision: int, sheets: seq<Sheet>, rest: Bytes)
    requires Aligned(sheets) && forall i :: 0 <= i < |sheets| ==> Deliverable(sheets[i])
    requires forall i :: 0 <= i < |sheets| && Written(revision, sheets[i]).Some? ==>
               Framable(lib, algorithm, Written(revision, sheets[i]).value)
    ensures Sent(lib, algorithm, revision, sheets).Some?
    ensures Arrive(lib, revision, sheets, Sent(lib, algorithm, revision, sheets).value + rest, rest)
    decreases |sheets|
  {
    if sheets == [] {
      assert [] + rest == rest;
    } else {
      assert forall i :: 0 <= i < |sheets[1..]| ==> sheets[1..][i] == sheets[i + 1];
      BlocksArrive(lib, algorithm, revision, sheets[1..], rest);
      WrittenDelivers(revision, sheets[0]);
      var payload, others := Written(revision, sheets[0]).value, Sent(lib, algorithm, revision, sheets[1..]).value;
      FrameFetched(lib, algorithm, payload, others + rest);
      ColumnRoundTrip.Join2(Frame(lib, algorithm, payload).value, others, rest);
      AnyPieces(lib, Frame(lib, algorithm, payload).value + (others + rest), |payload|);
    }
  }
}
