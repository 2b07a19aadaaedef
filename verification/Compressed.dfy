/** Compressed frames: a hash, a method byte, two sizes and the compressed payload. */
module Compressed {
  import opened Outcomes
  import opened Buffers
  import opened Buffered
  import opened ColumnRoundTrip
  import StructPack
  import Bits

  // ----- the libraries -----

  datatype Method = LZ4 | LZ4HC | ZSTD

  /** The compression and hash libraries: deterministic, otherwise unknown. */
  datatype Library = Library(
    hash: Bytes -> nat,
    lz4: Bytes -> Bytes, lz4hc: Bytes -> Bytes, zstd: Bytes -> Bytes,
    unLz4: (Bytes, nat) -> Option<Bytes>, unZstd: Bytes -> Option<Bytes>)
  {
    function Compress(algorithm: Method, data: Bytes): Bytes
    {
      match algorithm
      case LZ4 => lz4(data)
      case LZ4HC => lz4hc(data)
      case ZSTD => zstd(data)
    }

    /** The decompressor a method byte selects. */
    function Decompress(methodByte: byte, data: Bytes, size: nat): Option<Bytes>
      requires KnownMethod(methodByte)
    {
      if methodByte == LZ4_BYTE then unLz4(data, size) else unZstd(data)
    }

    /** What the libraries promise for this payload. */
    predicate Inverts(algorithm: Method, data: Bytes)
    {
      match algorithm
      case LZ4 => unLz4(lz4(data), |data|) == Some(data)
      case LZ4HC => unLz4(lz4hc(data), |data|) == Some(data)
      case ZSTD => unZstd(zstd(data)) == Some(data)
    }
  }

  const LZ4_BYTE: byte := 0x82
  const ZSTD_BYTE: byte := 0x90
  const U128: nat := Bits.U64 * Bits.U64

  /** Both lz4 compressors write the same method byte. */
  function MethodByte(algorithm: Method): (r: byte)
    ensures KnownMethod(r)
  {
    if algorithm == ZSTD then ZSTD_BYTE else LZ4_BYTE
  }

  predicate KnownMethod(methodByte: byte)
  {
    methodByte == LZ4_BYTE || methodByte == ZSTD_BYTE
  }

  // ----- the writer -----

  /** write_binary_uint128: the high half first, each half masked to 64 bits. */
  function Pack128(n: nat): (r: Bytes)
    ensures |r| == 16
  {
    StructPack.LittleEndian(8, n / Bits.U64 % Bits.U64) + StructPack.LittleEndian(8, n % Bits.U64)
  }

  function Read128(s: Bytes): Parsed<nat>
  {
    var (hi, s') :- StructPack.ReadInt(false, 8, s);
    var (lo, rest) :- StructPack.ReadInt(false, 8, s');
    Some(((hi as nat) * Bits.U64 + lo as nat, rest))
  }

  /** get_compressed: what the hash is taken of. */
  function Body(lib: Library, algorithm: Method, data: Bytes): Option<Bytes>
  {
    var compressed := lib.Compress(algorithm, data);
    Cat(Some([MethodByte(algorithm)]), Cat(StructPack.Pack(false, 4, 1 + 4 + 4 + |compressed|),
      Cat(StructPack.Pack(false, 4, |data|), Some(compressed))))
  }

  /** finalize: struct.error when a size does not fit 32 bits. */
  function Frame(lib: Library, algorithm: Method, data: Bytes): Option<Bytes>
  {
    var body :- Body(lib, algorithm, data);
    Some(Pack128(lib.hash(body)) + body)
  }

  // ----- the reader -----

  datatype Outcome =
    | Payload(data: Bytes, rest: Bytes)
    | ChecksumMismatch
    | UnknownMethod
    | Malformed  // the stream ends early, a size makes no sense, or the library refuses the data

  /** get_decompressed_data: the part of a frame after its hash and method byte. */
  function ReadBody(lib: Library, hash: nat, methodByte: byte, s: Bytes): Outcome
    requires KnownMethod(methodByte)
  {
    var size := StructPack.ReadInt(false, 4, s);
    if size.None? || size.value.0 < 5 then Malformed
    else
      var compressed := Take(size.value.0 - 5, size.value.1);
      if compressed.None? then Malformed
      else if lib.hash([methodByte] + s[..4] + compressed.value.0) != hash then ChecksumMismatch
      else
        var plain := StructPack.ReadInt(false, 4, compressed.value.0);
        if plain.None? then Malformed
        else
          var data := lib.Decompress(methodByte, plain.value.1, plain.value.0);
          if data.None? then Malformed else Payload(data.value, compressed.value.1)
  }

  /** read_block */
  function ReadFrame(lib: Library, s: Bytes): Outcome
  {
    var hash := Read128(s);
    if hash.None? || hash.value.1 == [] then Malformed
    else if !KnownMethod(hash.value.1[0]) then UnknownMethod
    else ReadBody(lib, hash.value.0, hash.value.1[0], hash.value.1[1..])
  }

  // ----- one frame -----

  lemma Pack128Reads(n: nat, rest: Bytes)
    requires n < U128
    ensures Read128(Pack128(n) + rest) == Some((n, rest))
  {
    var hi, lo := n / Bits.U64, n % Bits.U64;
    SpanOf64();
    assert hi % Bits.U64 == hi;
    var high, low := StructPack.LittleEndian(8, hi), StructPack.LittleEndian(8, lo);
    Join2(high, low, rest);
    StructPack.IntRoundTrip(false, 8, hi, low + rest);
    StructPack.IntRoundTrip(false, 8, lo, rest);
  }

  lemma SpanOf64()
    ensures StructPack.Span(8) == Bits.U64
  {
    assert StructPack.Span(4) == 0x1_0000_0000;
  }

  /** A frame that is intact but for its hash: the payload if the hash is the body's, else a mismatch. */
  lemma BodyReads(lib: Library, algorithm: Method, data: Bytes, hash: nat, rest: Bytes)
    requires lib.Inverts(algorithm, data) && Body(lib, algorithm, data).Some?
    ensures ReadBody(lib, hash, MethodByte(algorithm), Body(lib, algorithm, data).value[1..] + rest)
         == if hash == lib.hash(Body(lib, algorithm, data).value) then Payload(data, rest) else ChecksumMismatch
  {
    var compressed := lib.Compress(algorithm, data);
    var size, plain := StructPack.Pack(false, 4, 9 + |compressed|).value, StructPack.Pack(false, 4, |data|).value;
    var body := Body(lib, algorithm, data).value;
    assert body == [MethodByte(algorithm)] + (size + (plain + compressed));
    assert body[1..] == size + (plain + compressed);
    Join2(size, plain + compressed, rest);
    StructPack.IntRoundTrip(false, 4, 9 + |compressed|, plain + compressed + rest);
    TakeFront(plain + compressed, rest);
    HashedBytes(MethodByte(algorithm), size, plain + compressed, rest);
    StructPack.IntRoundTrip(false, 4, |data|, compressed);
  }

  lemma HashedBytes(methodByte: byte, size: Bytes, compressed: Bytes, rest: Bytes)
    requires |size| == 4
    ensures [methodByte] + (size + (compressed + rest))[..4] + compressed == [methodByte] + (size + compressed)
  {
    assert (size + (compressed + rest))[..4] == size;
  }

  lemma FrameBytes(lib: Library, algorithm: Method, data: Bytes, rest: Bytes)
    requires Body(lib, algorithm, data).Some?
    ensures var body := Body(lib, algorithm, data).value;
            body != [] && body[0] == MethodByte(algorithm)
            && (body + rest)[0] == MethodByte(algorithm) && (body + rest)[1..] == body[1..] + rest
  {
  }

  /** The reader hashes exactly the bytes the writer hashed: with any hash in front, the body of a frame is
      accepted if and only if the hash is the one the writer computes. */
  lemma HashDecides(lib: Library, algorithm: Method, data: Bytes, hash: nat, rest: Bytes)
    requires lib.Inverts(algorithm, data) && Body(lib, algorithm, data).Some? && hash < U128
    ensures ReadFrame(lib, Pack128(hash) + (Body(lib, algorithm, data).value + rest))
         == if hash == lib.hash(Body(lib, algorithm, data).value) then Payload(data, rest) else ChecksumMismatch
  {
    Pack128Reads(hash, Body(lib, algorithm, data).value + rest);
    FrameBytes(lib, algorithm, data, rest);
    BodyReads(lib, algorithm, data, hash, rest);
  }

  /** A frame yields its payload and leaves what follows it. */
  lemma FrameReadsBack(lib: Library, algorithm: Method, data: Bytes, rest: Bytes)
    requires Framable(lib, algorithm, data)
    ensures ReadFrame(lib, Frame(lib, algorithm, data).value + rest) == Payload(data, rest)
  {
    var body := Body(lib, algorithm, data).value;
    Join2(Pack128(lib.hash(body)), body, rest);
    HashDecides(lib, algorithm, data, lib.hash(body), rest);
  }

  /** A frame that ends early, wherever it is cut off, yields nothing. */
  lemma CutFrameFails(lib: Library, algorithm: Method, data: Bytes, k: nat)
    requires Frame(lib, algorithm, data).Some? && k < |Frame(lib, algorithm, data).value|
    ensures ReadFrame(lib, Frame(lib, algorithm, data).value[..k]) == Malformed
  {
    var compressed, body := lib.Compress(algorithm, data), Body(lib, algorithm, data).value;
    var hash, cut := Pack128(lib.hash(body)), Frame(lib, algorithm, data).value[..k];
    if k > 16 {
      assert cut == hash + body[..k - 16];
      Pack128Taken(lib.hash(body), body[..k - 16]);
      assert body[..k - 16][1..] == body[1..k - 16] && body[0] == MethodByte(algorithm);
      if k >= 21 {
        var size, others := StructPack.Pack(false, 4, 9 + |compressed|).value, body[5..k - 16];
        assert body[1..k - 16] == size + others;
        StructPack.IntRoundTrip(false, 4, 9 + |compressed|, others);
      }
    }
  }

  lemma Pack128Taken(n: nat, rest: Bytes)
    ensures Read128(Pack128(n) + rest).Some? && Read128(Pack128(n) + rest).value.1 == rest
  {
    SpanOf64();
    var high, low := StructPack.LittleEndian(8, n / Bits.U64 % Bits.U64), StructPack.LittleEndian(8, n % Bits.U64);
    Join2(high, low, rest);
    StructPack.IntRoundTrip(false, 8, n / Bits.U64 % Bits.U64, low + rest);
    StructPack.IntRoundTrip(false, 8, n % Bits.U64, rest);
  }

  /** A frame is refused for its method exactly if its seventeenth byte is none of the two that are known. */
  lemma UnknownMethodRefused(lib: Library, s: Bytes)
    requires |s| > 16
    ensures ReadFrame(lib, s) == UnknownMethod <==> s[16] != 0x82 && s[16] != 0x90
  {
    var hi := StructPack.ReadInt(false, 8, s).value;
    var lo := StructPack.ReadInt(false, 8, hi.1).value;
    assert lo.1 == s[16..];
  }

  /** Whatever follows the hash and a known method byte: a size below five, or above what is there, is malformed, and
      otherwise the hash must be that of as many bytes as the size says, the method byte included. */
  lemma HashedExactly(lib: Library, s: Bytes)
    requires |s| >= 21 && (s[16] == 0x82 || s[16] == 0x90)
    ensures var n := StructPack.FromLittleEndian(s[17..21]);
            if n < 5 || |s| < 16 + n then ReadFrame(lib, s) == Malformed
            else ReadFrame(lib, s) == ChecksumMismatch <==> lib.hash(s[16..16 + n]) != HashOf(s)
  {
    var hi := StructPack.ReadInt(false, 8, s).value;
    var lo := StructPack.ReadInt(false, 8, hi.1).value;
    var n, tail := StructPack.FromLittleEndian(s[17..21]), s[17..];
    assert lo.1 == s[16..] && s[16..][1..] == tail && hi.1[..8] == s[8..16];
    assert tail[..4] == s[17..21];
    if 5 <= n && 16 + n <= |s| {
      assert [s[16]] + tail[..4] + tail[4..][..n - 5] == s[16..16 + n];
    }
  }

  /** The number that the first sixteen bytes stand for, the high half first. */
  function HashOf(s: Bytes): nat
    requires |s| >= 16
  {
    StructPack.FromLittleEndian(s[..8]) * 0x1_0000_0000_0000_0000 + StructPack.FromLittleEndian(s[8..16])
  }

  // ----- the compressing stream -----

  /** Writing in slices of the block size is writing once. */
  method WriteSlices(data: Bytes, blockSize: nat, w: Writer)
    requires blockSize > 0
    modifies w
    ensures w.data == old(w.data) + data
  {
    var i := 0;
    ghost var head := w.data;
    assert head + data[..0] == head;
    while i < |data|
      invariant w.data == head + data[..if i < |data| then i else |data|]
      decreases |data| - i
    {
      var to := if i + blockSize < |data| then i + blockSize else |data|;
      assert data[..to] == data[..i] + data[i..to];
      w.Write(data[i..to]);
      i := i + blockSize;
    }
    assert data[..|data|] == data;
  }

  /** The output stream of a connection with compression: what is written is buffered, then collected by the
      compressor, then sent as one frame. */
  class CompressedOutput {
    const lib: Library
    const algorithm: Method
    const blockSize: nat
    const collected: Writer
    const fout: BufferedWriter
    const rawFout: Writer

    ghost predicate Valid()
      reads this, fout
    {
      && blockSize > 0 && fout.Valid() && fout.sink == collected && rawFout != collected
    }

    constructor (lib: Library, algorithm: Method, blockSize: nat, bufferSize: nat, rawFout: Writer)
      requires blockSize > 0 && bufferSize > 0
      ensures Valid() && fresh(collected) && fresh(fout) && fresh(fout.buffer)
      ensures this.lib == lib && this.algorithm == algorithm && this.rawFout == rawFout && fout.Accepted() == []
    {
      this.lib, this.algorithm, this.blockSize, this.rawFout := lib, algorithm, blockSize, rawFout;
      var sink := new Writer();
      collected := sink;
      fout := new BufferedWriter(sink, bufferSize);
    }

    /** get_compressed, with the compressor's store emptied as get_value does. */
    method GetCompressed() returns (body: Option<Bytes>)
      modifies collected
      ensures body == Body(lib, algorithm, old(collected.data)) && collected.data == []
    {
      var data := collected.data;
      collected.data := [];
      var compressed := lib.Compress(algorithm, data);
      var size := StructPack.Pack(false, 4, 1 + 4 + 4 + |compressed|);
      var plain := StructPack.Pack(false, 4, |data|);
      if size.None? || plain.None? {
        return None;
      }
      body := Some([MethodByte(algorithm)] + (size.value + (plain.value + compressed)));
    }

    /** Everything written since the last call goes out as one frame, in slices of the block size. */
    method Finalize() returns (ok: bool)
      requires Valid()
      modifies this, fout, collected, rawFout
      ensures Valid() && fout.Accepted() == []
      ensures Emits(old(rawFout.data), rawFout.data, ok, Frame(lib, algorithm, old(fout.Accepted())))
    {
      fout.Flush();
      assert fout.buffer[..fout.position] == [];
      var body := GetCompressed();
      if body.None? {
        return false;
      }
      var compressed := body.value;
      rawFout.Write(Pack128(lib.hash(compressed)));
      WriteSlices(compressed, blockSize, rawFout);
      Join2(old(rawFout.data), Pack128(lib.hash(compressed)), compressed);
      ok := true;
    }
  }

  // ----- reading across blocks -----

  /** What a buffered reader is given to refill itself: the next payload and the rest of the stream. */
  type Source = f: Bytes -> Option<(Bytes, Bytes)> | forall s :: f(s).Some? ==> |f(s).value.1| < |s| witness _ => None

  /** Bytes read, what is buffered then, and what is left of the raw stream. */
  datatype Fetched = Got(bytes: Bytes, buffered: Bytes, raw: Bytes) | EndOfFile

  /** Bytes read already in front of what a fetch gives. */
  function AfterPrefix(done: Bytes, fetched: Fetched): Fetched
  {
    if fetched.Got? then fetched.(bytes := done + fetched.bytes) else EndOfFile
  }

  lemma PrefixedTwice(a: Bytes, b: Bytes, fetched: Fetched)
    ensures AfterPrefix(a, AfterPrefix(b, fetched)) == AfterPrefix(a + b, fetched)
    ensures AfterPrefix([], fetched) == fetched
  {
    if fetched.Got? {
      assert a + (b + fetched.bytes) == a + b + fetched.bytes && [] + fetched.bytes == fetched.bytes;
    }
  }

  /** Reading n bytes, some of them buffered already: a block without payload reads as the end of the file. */
  function Fetch(source: Source, buffered: Bytes, raw: Bytes, n: nat): (r: Fetched)
    decreases |raw|, |buffered|
  {
    if n == 0 then Got([], buffered, raw)
    else if buffered == [] then
      var block := source(raw);
      if block.None? || block.value.0 == [] then EndOfFile else Fetch(source, block.value.0, block.value.1, n)
    else if n <= |buffered| then Got(buffered[..n], buffered[n..], raw)
    else AfterPrefix(buffered, Fetch(source, [], raw, n - |buffered|))
  }

  lemma BufferSplits(buffered: Bytes, n: nat, m: nat)
    requires n + m <= |buffered|
    ensures buffered[..n] + buffered[n..][..m] == buffered[..n + m] && buffered[n..][m..] == buffered[n + m..]
    ensures buffered[..n] + [] == buffered[..n] && buffered[..n] + buffered[n..] == buffered
  {
  }

  /** Reading m bytes more after a read. */
  function Onward(source: Source, first: Fetched, m: nat): Fetched
  {
    if first.Got? then AfterPrefix(first.bytes, Fetch(source, first.buffered, first.raw, m)) else EndOfFile
  }

  /** Reads compose: reading on after n bytes is reading more at once. */
  lemma {:induction false} FetchSplits(source: Source, buffered: Bytes, raw: Bytes, n: nat, m: nat)
    ensures Fetch(source, buffered, raw, n + m) == Onward(source, Fetch(source, buffered, raw, n), m)
    decreases |raw|, |buffered|
  {
    if n == 0 {
      PrefixedTwice([], [], Fetch(source, buffered, raw, m));
    } else if buffered == [] {
      var block := source(raw);
      if block.Some? && block.value.0 != [] {
        FetchSplits(source, block.value.0, block.value.1, n, m);
      }
    } else if n <= |buffered| {
      SplitInBuffer(source, buffered, raw, n, m);
    } else {
      FetchSplits(source, [], raw, n - |buffered|, m);
      SplitPastBuffer(source, buffered, raw, n, m);
    }
  }

  lemma SplitInBuffer(source: Source, buffered: Bytes, raw: Bytes, n: nat, m: nat)
    requires 0 < n <= |buffered|
    ensures Fetch(source, buffered, raw, n + m) == AfterPrefix(buffered[..n], Fetch(source, buffered[n..], raw, m))
  {
    if n + m <= |buffered| {
      BufferSplits(buffered, n, m);
    } else {
      BufferSplits(buffered, n, |buffered| - n);
      PrefixedTwice(buffered[..n], buffered[n..], Fetch(source, [], raw, n + m - |buffered|));
    }
  }

  lemma SplitPastBuffer(source: Source, buffered: Bytes, raw: Bytes, n: nat, m: nat)
    requires buffered != [] && n > |buffered|
    requires Fetch(source, [], raw, n - |buffered| + m) == Onward(source, Fetch(source, [], raw, n - |buffered|), m)
    ensures Fetch(source, buffered, raw, n + m) == Onward(source, Fetch(source, buffered, raw, n), m)
  {
    var first := Fetch(source, [], raw, n - |buffered|);
    if first.Got? {
      PrefixedTwice(buffered, first.bytes, Fetch(source, first.buffered, first.raw, m));
    }
  }

  function Sum(sizes: seq<nat>): nat
  {
    if sizes == [] then 0 else sizes[0] + Sum(sizes[1..])
  }

  /** Many reads, one after the other, of these sizes. */
  function FetchPieces(source: Source, buffered: Bytes, raw: Bytes, sizes: seq<nat>): Fetched
    decreases |sizes|
  {
    if sizes == [] then Got([], buffered, raw)
    else
      var first := Fetch(source, buffered, raw, sizes[0]);
      if first.EndOfFile? then EndOfFile
      else AfterPrefix(first.bytes, FetchPieces(source, first.buffered, first.raw, sizes[1..]))
  }

  /** However a read is cut into pieces, the bytes, the buffer and the stream left are the same. */
  lemma {:induction false} PiecesAreWhole(source: Source, buffered: Bytes, raw: Bytes, sizes: seq<nat>)
    ensures FetchPieces(source, buffered, raw, sizes) == Fetch(source, buffered, raw, Sum(sizes))
    decreases |sizes|
  {
    if sizes != [] {
      var first := Fetch(source, buffered, raw, sizes[0]);
      FetchSplits(source, buffered, raw, sizes[0], Sum(sizes[1..]));
      if first.Got? {
        PiecesAreWhole(source, first.buffered, first.raw, sizes[1..]);
      }
    }
  }

  /** The payloads up to the first empty one, joined. */
  function Joined(payloads: seq<Bytes>): Bytes
  {
    if payloads == [] || payloads[0] == [] then [] else payloads[0] + Joined(payloads[1..])
  }

  /** Streams from which the source takes these payloads one after the other. */
  ghost predicate Chain(source: Source, payloads: seq<Bytes>, raws: seq<Bytes>)
  {
    && |raws| == |payloads| + 1
    && forall i :: 0 <= i < |payloads| ==> source(raws[i]) == Some((payloads[i], raws[i + 1]))
  }

  /** What a read of n bytes gives when k payloads have been used up by it. */
  ghost predicate Gives(source: Source, payloads: seq<Bytes>, raws: seq<Bytes>, buffered: Bytes,
                        n: nat, k: nat, buffered': Bytes)
    requires k <= |payloads| && |raws| == |payloads| + 1
  {
    var pending := buffered + Joined(payloads);
    && n <= |pending|
    && Fetch(source, buffered, raws[0], n) == Got(pending[..n], buffered', raws[k])
    && buffered' + Joined(payloads[k..]) == pending[n..]
  }

  lemma ChainTail(source: Source, payloads: seq<Bytes>, raws: seq<Bytes>)
    requires Chain(source, payloads, raws) && payloads != []
    ensures Chain(source, payloads[1..], raws[1..])
  {
    forall i | 0 <= i < |payloads[1..]|
      ensures source(raws[1..][i]) == Some((payloads[1..][i], raws[1..][i + 1]))
    {
      assert source(raws[i + 1]) == Some((payloads[i + 1], raws[i + 2]));
    }
  }

  /** Reading across blocks: any number of bytes up to the pending ones comes in order, and the others stay
      pending. */
  lemma {:induction false} FetchAcross(source: Source, payloads: seq<Bytes>, raws: seq<Bytes>, buffered: Bytes, n: nat)
      returns (k: nat, buffered': Bytes)
    requires Chain(source, payloads, raws) && n <= |buffered + Joined(payloads)|
    ensures k <= |payloads| && Gives(source, payloads, raws, buffered, n, k, buffered')
    decreases |payloads|, |buffered|
  {
    if n <= |buffered| {
      k, buffered' := 0, buffered[n..];
      FetchBuffered(source, payloads, raws, buffered, n);
    } else if buffered == [] {
      ChainTail(source, payloads, raws);
      k, buffered' := FetchAcross(source, payloads[1..], raws[1..], payloads[0], n);
      FetchNext(source, payloads, raws, n, k, buffered');
      k := k + 1;
    } else {
      var m := n - |buffered|;
      assert |[] + Joined(payloads)| == |Joined(payloads)|;
      k, buffered' := FetchAcross(source, payloads, raws, [], m);
      FetchPast(source, payloads, raws, buffered, m, k, buffered');
    }
  }

  lemma FetchNext(source: Source, payloads: seq<Bytes>, raws: seq<Bytes>, n: nat, k: nat, buffered': Bytes)
    requires payloads != [] && payloads[0] != [] && n > 0 && Chain(source, payloads, raws)
    requires k <= |payloads[1..]| && Gives(source, payloads[1..], raws[1..], payloads[0], n, k, buffered')
    ensures Gives(source, payloads, raws, [], n, k + 1, buffered')
  {
    assert [] + Joined(payloads) == Joined(payloads);
    assert payloads[1..][k..] == payloads[k + 1..];
    assert source(raws[0]) == Some((payloads[0], raws[1..][0]));
  }

  lemma FetchPast(source: Source, payloads: seq<Bytes>, raws: seq<Bytes>, buffered: Bytes, m: nat, k: nat,
                  buffered': Bytes)
    requires buffered != [] && m > 0 && |raws| == |payloads| + 1
    requires k <= |payloads| && Gives(source, payloads, raws, [], m, k, buffered')
    ensures Gives(source, payloads, raws, buffered, |buffered| + m, k, buffered')
  {
    assert [] + Joined(payloads) == Joined(payloads);
    PastBuffer(buffered, Joined(payloads), m);
  }

  lemma FetchBuffered(source: Source, payloads: seq<Bytes>, raws: seq<Bytes>, buffered: Bytes, n: nat)
    requires |raws| == |payloads| + 1 && n <= |buffered|
    ensures Gives(source, payloads, raws, buffered, n, 0, buffered[n..])
  {
    var pending := buffered + Joined(payloads);
    assert payloads[0..] == payloads;
    assert pending[..n] == buffered[..n] && pending[n..] == buffered[n..] + Joined(payloads);
    assert buffered[..0] == [] && buffered[0..] == buffered;
  }

  lemma PastBuffer(buffered: Bytes, joined: Bytes, m: nat)
    requires m <= |joined|
    ensures (buffered + joined)[..|buffered| + m] == buffered + joined[..m]
    ensures (buffered + joined)[|buffered| + m..] == joined[m..]
  {
  }

  /** Asking for more than is pending fails, if the stream ends with these blocks or one of them is empty. */
  lemma {:induction false} FetchTooMuch(source: Source, payloads: seq<Bytes>, raws: seq<Bytes>, buffered: Bytes, n: nat)
    requires Chain(source, payloads, raws) && n > |buffered + Joined(payloads)|
    requires source(raws[|payloads|]).None? || [] in payloads
    ensures Fetch(source, buffered, raws[0], n) == EndOfFile
    decreases |payloads|, |buffered|
  {
    if buffered != [] {
      FetchTooMuch(source, payloads, raws, [], n - |buffered|);
    } else if payloads != [] {
      assert source(raws[0]) == Some((payloads[0], raws[1]));
      if payloads[0] != [] {
        ChainTail(source, payloads, raws);
        FetchTooMuch(source, payloads[1..], raws[1..], payloads[0], n);
      }
    }
  }

  function Concatenated(payloads: seq<Bytes>): Bytes
  {
    if payloads == [] then [] else payloads[0] + Concatenated(payloads[1..])
  }

  lemma {:induction false} JoinedIsAll(payloads: seq<Bytes>)
    requires [] !in payloads
    ensures Joined(payloads) == Concatenated(payloads)
  {
    if payloads != [] {
      JoinedIsAll(payloads[1..]);
    }
  }

  lemma ChainReadsAll(source: Source, payloads: seq<Bytes>, raws: seq<Bytes>)
    requires Chain(source, payloads, raws) && [] !in payloads
    ensures Fetch(source, [], raws[0], |Concatenated(payloads)|) == Got(Concatenated(payloads), [], raws[|payloads|])
  {
    JoinedIsAll(payloads);
    var all := Concatenated(payloads);
    assert [] + all == all && all[..|all|] == all && all[|all|..] == [];
    var k, buffered' := FetchAcross(source, payloads, raws, [], |all|);
    assert payloads[k..] == [] by {
      assert Joined(payloads[k..]) == [];
    }
  }

  // ----- many frames -----

  /** The payload of the frame at the front of s. */
  function BlockAt(lib: Library, s: Bytes): (r: Option<(Bytes, Bytes)>)
    ensures r.Some? ==> |r.value.1| < |s|
  {
    var frame := ReadFrame(lib, s);
    if frame.Payload? then Some((frame.data, frame.rest)) else None
  }

  function BlockSource(lib: Library): Source
  {
    s => BlockAt(lib, s)
  }

  function Frames(lib: Library, algorithm: Method, payloads: seq<Bytes>): Option<Bytes>
  {
    if payloads == [] then Some([]) else Cat(Frame(lib, algorithm, payloads[0]), Frames(lib, algorithm, payloads[1..]))
  }

  /** The sizes fit 32 bits, the hash fits 128 and decompression inverts compression. */
  predicate Framable(lib: Library, algorithm: Method, payload: Bytes)
  {
    && lib.Inverts(algorithm, payload)
    && Frame(lib, algorithm, payload).Some? && lib.hash(Body(lib, algorithm, payload).value) < U128
  }

  predicate Framed(lib: Library, algorithm: Method, payloads: seq<Bytes>)
  {
    forall i :: 0 <= i < |payloads| ==> Framable(lib, algorithm, payloads[i])
  }

  lemma {:induction false} FramedIsWritten(lib: Library, algorithm: Method, payloads: seq<Bytes>)
    requires Framed(lib, algorithm, payloads)
    ensures Frames(lib, algorithm, payloads).Some?
  {
    if payloads != [] {
      FramedIsWritten(lib, algorithm, payloads[1..]);
    }
  }

  lemma NextFrame(lib: Library, algorithm: Method, payloads: seq<Bytes>, rest: Bytes)
    requires payloads != [] && Framed(lib, algorithm, payloads) && Frames(lib, algorithm, payloads).Some?
    ensures BlockAt(lib, Frames(lib, algorithm, payloads).value + rest)
         == Some((payloads[0], Frames(lib, algorithm, payloads[1..]).value + rest))
  {
    var tail := Frames(lib, algorithm, payloads[1..]).value;
    Join2(Frame(lib, algorithm, payloads[0]).value, tail, rest);
    FrameReadsBack(lib, algorithm, payloads[0], tail + rest);
  }

  /** The raw stream before each frame, and after the last. */
  function Raws(lib: Library, algorithm: Method, payloads: seq<Bytes>, rest: Bytes): (r: seq<Bytes>)
    requires Frames(lib, algorithm, payloads).Some?
    ensures |r| == |payloads| + 1 && r[0] == Frames(lib, algorithm, payloads).value + rest && r[|payloads|] == rest
  {
    if payloads == [] then (assert [] + rest == rest; [rest])
    else [Frames(lib, algorithm, payloads).value + rest] + Raws(lib, algorithm, payloads[1..], rest)
  }

  lemma {:induction false} FramesChain(lib: Library, algorithm: Method, payloads: seq<Bytes>, rest: Bytes)
    requires Framed(lib, algorithm, payloads) && Frames(lib, algorithm, payloads).Some?
    ensures Chain(BlockSource(lib), payloads, Raws(lib, algorithm, payloads, rest))
  {
    if payloads != [] {
      FramesChain(lib, algorithm, payloads[1..], rest);
      NextFrame(lib, algorithm, payloads, rest);
      ChainGrows(BlockSource(lib), payloads, Raws(lib, algorithm, payloads, rest));
    }
  }

  lemma ChainGrows(source: Source, payloads: seq<Bytes>, raws: seq<Bytes>)
    requires payloads != [] && |raws| == |payloads| + 1
    requires source(raws[0]) == Some((payloads[0], raws[1])) && Chain(source, payloads[1..], raws[1..])
    ensures Chain(source, payloads, raws)
  {
    forall i | 0 <= i < |payloads|
      ensures source(raws[i]) == Some((payloads[i], raws[i + 1]))
    {
      if i > 0 {
        assert source(raws[1..][i - 1]) == Some((payloads[1..][i - 1], raws[1..][i]));
      }
    }
  }

  /** Concatenated frames of non-empty payloads decode to the concatenated payloads, leaving what follows. */
  lemma FramesReadBack(lib: Library, algorithm: Method, payloads: seq<Bytes>, rest: Bytes)
    requires Framed(lib, algorithm, payloads) && [] !in payloads
    ensures Frames(lib, algorithm, payloads).Some?
    ensures Fetch(BlockSource(lib), [], Frames(lib, algorithm, payloads).value + rest, |Concatenated(payloads)|)
         == Got(Concatenated(payloads), [], rest)
  {
    FramedIsWritten(lib, algorithm, payloads);
    FramesChain(lib, algorithm, payloads, rest);
    ChainReadsAll(BlockSource(lib), payloads, Raws(lib, algorithm, payloads, rest));
  }

  lemma WholeBuffer(source: Source, buffered: Bytes, raw: Bytes)
    requires buffered != []
    ensures Fetch(source, buffered, raw, |buffered|) == Got(buffered, [], raw)
  {
    assert buffered[..|buffered|] == buffered && buffered[|buffered|..] == [];
  }

  /** The payload of the first frame is fetched whole, with nothing of the next one. */
  lemma FrameFetched(lib: Library, algorithm: Method, payload: Bytes, raw: Bytes)
    requires payload != [] && Framable(lib, algorithm, payload)
    ensures Fetch(BlockSource(lib), [], Frame(lib, algorithm, payload).value + raw, |payload|) == Got(payload, [], raw)
  {
    var source, stream := BlockSource(lib), Frame(lib, algorithm, payload).value + raw;
    FrameReadsBack(lib, algorithm, payload, raw);
    assert source(stream) == BlockAt(lib, stream);
    FetchRefilled(source, stream, payload, raw, |payload|);
    WholeBuffer(source, payload, raw);
  }

  /** One byte more than the frames hold is not there; an empty frame ends the stream early. */
  lemma FramesHoldNoMore(lib: Library, algorithm: Method, payloads: seq<Bytes>, n: nat)
    requires Framed(lib, algorithm, payloads) && n > |Joined(payloads)|
    ensures Frames(lib, algorithm, payloads).Some?
    ensures Fetch(BlockSource(lib), [], Frames(lib, algorithm, payloads).value, n) == EndOfFile
  {
    FramedIsWritten(lib, algorithm, payloads);
    FramesChain(lib, algorithm, payloads, []);
    EndOfStream(lib);
    AppendNothing(Frames(lib, algorithm, payloads).value, Joined(payloads));
    FetchTooMuch(BlockSource(lib), payloads, Raws(lib, algorithm, payloads, []), [], n);
  }

  lemma EndOfStream(lib: Library)
    ensures BlockSource(lib)([]) == None
  {
  }

  lemma AppendNothing(a: Bytes, b: Bytes)
    ensures a + [] == a && [] + b == b
  {
  }

  // ----- the decompressing stream -----

  /** get_decompressed_data */
  method GetDecompressedData(lib: Library, methodByte: byte, hash: nat, raw: Reader) returns (payload: Option<Bytes>)
    requires KnownMethod(methodByte)
    modifies raw
    ensures var r := ReadBody(lib, hash, methodByte, old(raw.data));
            if r.Payload? then payload == Some(r.data) && raw.data == r.rest else payload.None?
  {
    ghost var body := raw.data;
    var size :- StructPack.TakeInt(false, 4, raw);
    var compressedSize := size - 1 - 4;
    if compressedSize < 0 {
      return None;
    }
    var compressed :- raw.Read(compressedSize);
    SizeWrittenBack(body, size);
    if lib.hash([methodByte] + StructPack.LittleEndian(4, size) + compressed) != hash {
      return None;
    }
    var plain := StructPack.ReadInt(false, 4, compressed);
    if plain.None? {
      return None;
    }
    payload := lib.Decompress(methodByte, plain.value.1, plain.value.0);
  }

  /** read_block */
  method ReadBlock(lib: Library, raw: Reader) returns (payload: Option<Bytes>)
    modifies raw
    ensures BlockAt(lib, old(raw.data)) == if payload.Some? then Some((payload.value, raw.data)) else None
  {
    var hi :- StructPack.TakeInt(false, 8, raw);
    var lo :- StructPack.TakeInt(false, 8, raw);
    var methodByte :- raw.ReadOne();
    if !KnownMethod(methodByte) {
      return None;
    }
    payload := GetDecompressedData(lib, methodByte, (hi as nat) * Bits.U64 + lo as nat, raw);
  }

  /** Writing the size again gives the bytes it was read from. */
  lemma SizeWrittenBack(s: Bytes, size: nat)
    requires StructPack.ReadInt(false, 4, s).Some? && StructPack.ReadInt(false, 4, s).value.0 == size
    ensures |s| >= 4 && StructPack.LittleEndian(4, size) == s[..4]
  {
    SameBytes(s[..4]);
  }

  lemma {:induction false} SameBytes(s: Bytes)
    ensures StructPack.LittleEndian(|s|, StructPack.FromLittleEndian(s)) == s
  {
    if s != [] {
      SameBytes(s[1..]);
    }
  }

  class CompressedReader {
    const lib: Library
    const raw: Reader
    ghost const source: Source
    var buffer: Bytes
    var position: nat

    ghost predicate Valid()
      reads this
    {
      position <= |buffer| && forall s {:trigger BlockAt(lib, s)} :: source(s) == BlockAt(lib, s)
    }

    constructor (lib: Library, raw: Reader)
      ensures Valid() && this.lib == lib && this.raw == raw && source == BlockSource(lib) && buffer[position..] == []
    {
      this.lib, this.raw, source := lib, raw, BlockSource(lib);
      buffer, position := [], 0;
    }

    /** The next payload replaces the buffer; an empty one is an EOFError. */
    method ReadIntoBuffer() returns (ok: bool)
      requires Valid()
      modifies this, raw
      ensures position == old(position)
      ensures var r := source(old(raw.data));
              ok == (r.Some? && r.value.0 != []) && (ok ==> buffer == r.value.0 && raw.data == r.value.1)
    {
      var payload := ReadBlock(lib, raw);
      if payload.None? || payload.value == [] {
        return false;
      }
      buffer, ok := payload.value, true;
    }

    /** Up to n buffered bytes. */
    method TakeBuffered(n: nat) returns (got: Bytes)
      requires Valid() && n > 0 && position < |buffer|
      modifies this`position
      ensures Valid()
      ensures var pending := old(buffer[position..]);
              var m := if n < |pending| then n else |pending|;
              got == pending[..m] && buffer[position..] == pending[m..]
    {
      var readBytes := if n < |buffer| - position then n else |buffer| - position;
      Slices(buffer, position, readBytes);
      got := buffer[position..position + readBytes];
      position := position + readBytes;
    }

    /** A turn of the reading loop: refills an empty buffer and takes what it can. */
    method ReadSome(n: nat) returns (got: Option<Bytes>)
      requires Valid() && n > 0
      modifies this, raw
      ensures got.Some? ==> Valid() && 0 < |got.value| <= n
      ensures got.Some? ==>
                Fetch(source, old(buffer[position..]), old(raw.data), n)
                == AfterPrefix(got.value, Fetch(source, buffer[position..], raw.data, n - |got.value|))
      ensures got.None? ==> Fetch(source, old(buffer[position..]), old(raw.data), n) == EndOfFile
    {
      ghost var whole := Fetch(source, buffer[position..], raw.data, n);
      if position == |buffer| {
        assert buffer[position..] == [];
        ghost var before := raw.data;
        var ok := ReadIntoBuffer();
        if !ok {
          return None;
        }
        position := 0;
        assert buffer[0..] == buffer;
        FetchRefilled(source, before, buffer, raw.data, n);
      }
      ghost var pending := buffer[position..];
      var taken := TakeBuffered(n);
      FetchSome(source, pending, raw.data, n, |taken|);
      got := Some(taken);
    }

    /** Exactly unread bytes, whatever frames they come in. */
    method Read(unread: nat) returns (r: Option<Bytes>)
      requires Valid()
      modifies this, raw
      ensures r.Some? ==> Valid() && Fetch(source, old(buffer[position..]), old(raw.data), unread)
                                  == Got(r.value, buffer[position..], raw.data)
      ensures r.None? ==> Fetch(source, old(buffer[position..]), old(raw.data), unread) == EndOfFile
    {
      var left: nat, rv: Bytes := unread, [];
      ghost var whole := Fetch(source, buffer[position..], raw.data, unread);
      PrefixedTwice([], [], whole);
      while left > 0
        invariant Valid()
        invariant whole == AfterPrefix(rv, Fetch(source, buffer[position..], raw.data, left))
        decreases left
      {
        var got := ReadSome(left);
        if got.None? {
          return None;
        }
        PrefixedTwice(rv, got.value, Fetch(source, buffer[position..], raw.data, left - |got.value|));
        rv, left := rv + got.value, left - |got.value|;
      }
      assert rv + [] == rv;
      r := Some(rv);
    }
  }

  lemma FetchRefilled(source: Source, raw: Bytes, data: Bytes, rest: Bytes, n: nat)
    requires n > 0 && source(raw) == Some((data, rest)) && data != []
    ensures Fetch(source, [], raw, n) == Fetch(source, data, rest, n)
  {
  }

  lemma Slices(s: Bytes, i: nat, n: nat)
    requires i + n <= |s|
    ensures s[i..][..n] == s[i..i + n] && s[i..][n..] == s[i + n..]
  {
  }

  /** A turn of the reading loop takes as much as the buffer has. */
  lemma FetchSome(source: Source, buffered: Bytes, raw: Bytes, n: nat, m: nat)
    requires n > 0 && buffered != [] && m == if n < |buffered| then n else |buffered|
    ensures Fetch(source, buffered, raw, n) == AfterPrefix(buffered[..m], Fetch(source, buffered[m..], raw, n - m))
  {
    if n < |buffered| {
      assert buffered[..n] + [] == buffered[..n];
    } else {
      assert buffered[..m] == buffered && buffered[m..] == [];
      if n == m {
        assert buffered + [] == buffered;
      }
    }
  }
}
