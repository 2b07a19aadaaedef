/** Little-endian fixed-width integers, as struct.pack and struct.unpack lay them out. */
module StructPack {
  import opened Outcomes
  import opened Buffers

  /** The number of values width bytes can hold. */
  function Span(width: nat): (r: nat)
    ensures r > 0
  {
    if width == 0 then 1 else 256 * Span(width - 1)
  }

  lemma SpanValues()
    ensures Span(1) == 0x100 && Span(2) == 0x1_0000 && Span(3) == 0x100_0000 && Span(4) == 0x1_0000_0000
    ensures Span(5) == 0x100_0000_0000 && Span(8) == 0x1_0000_0000_0000_0000
  {
    assert Span(2) == 256 * Span(1);
    assert Span(3) == 256 * Span(2);
    assert Span(4) == 256 * Span(3);
    assert Span(5) == 256 * Span(4);
    assert Span(7) == 256 * 256 * Span(5);
  }

  function LittleEndian(width: nat, n: nat): (r: Bytes)
    ensures |r| == width
  {
    if width == 0 then [] else [n % 256] + LittleEndian(width - 1, n / 256)
  }

  function FromLittleEndian(s: Bytes): nat
  {
    if s == [] then 0 else s[0] + 256 * FromLittleEndian(s[1..])
  }

  lemma {:induction false} LittleEndianRoundTrip(width: nat, n: nat)
    requires n < Span(width)
    ensures FromLittleEndian(LittleEndian(width, n)) == n
  {
    if width > 0 {
      assert LittleEndian(width, n)[1..] == LittleEndian(width - 1, n / 256);
      LittleEndianRoundTrip(width - 1, n / 256);
    }
  }

  lemma {:induction false} FromLittleEndianFits(s: Bytes)
    ensures FromLittleEndian(s) < Span(|s|)
  {
    if s != [] {
      FromLittleEndianFits(s[1..]);
    }
  }

  predicate Fits(signed: bool, width: nat, v: int) {
    if signed then 0 <= 2 * v + Span(width) < 2 * Span(width) else 0 <= v < Span(width)
  }

  /** One integer in two's complement; struct.error when it is out of range. */
  function Pack(signed: bool, width: nat, v: int): Option<Bytes>
  {
    if !Fits(signed, width, v) then None
    else Some(LittleEndian(width, if v < 0 then v + Span(width) else v))
  }

  function Unpack(signed: bool, s: Bytes): int
  {
    var n := FromLittleEndian(s);
    if signed && 2 * n >= Span(|s|) then n - Span(|s|) else n
  }

  function ReadInt(signed: bool, width: nat, s: Bytes): (r: Parsed<int>)
  {
    var (bytes, rest) :- Take(width, s);
    Some((Unpack(signed, bytes), rest))
  }

  function PackAll(signed: bool, width: nat, vs: seq<int>): Option<Bytes>
  {
    if vs == [] then Some([]) else Cat(Pack(signed, width, vs[0]), PackAll(signed, width, vs[1..]))
  }

  function ReadInts(signed: bool, width: nat, count: nat, s: Bytes): (r: Parsed<seq<int>>)
    ensures r.Some? ==> |r.value.0| == count
    ensures r.Some? && !signed ==> forall i :: 0 <= i < count ==> r.value.0[i] >= 0
  {
    if count == 0 then Some(([], s))
    else
      var (v, s') :- ReadInt(signed, width, s);
      var (vs, rest) :- ReadInts(signed, width, count - 1, s');
      Some(([v] + vs, rest))
  }

  /** Every integer in range survives, and nothing after it is touched. */
  lemma IntRoundTrip(signed: bool, width: nat, v: int, rest: Bytes)
    requires Fits(signed, width, v)
    ensures ReadInt(signed, width, Pack(signed, width, v).value + rest) == Some((v, rest))
  {
    var n := if v < 0 then v + Span(width) else v;
    LittleEndianRoundTrip(width, n);
    TakeFront(LittleEndian(width, n), rest);
  }

  lemma {:induction false} IntsRoundTrip(signed: bool, width: nat, vs: seq<int>, rest: Bytes)
    requires PackAll(signed, width, vs).Some?
    ensures ReadInts(signed, width, |vs|, PackAll(signed, width, vs).value + rest) == Some((vs, rest))
  {
    if vs == [] {
      assert [] + rest == rest;
    } else {
      var tail := PackAll(signed, width, vs[1..]).value;
      assert PackAll(signed, width, vs).value + rest == Pack(signed, width, vs[0]).value + (tail + rest);
      IntRoundTrip(signed, width, vs[0], tail + rest);
      IntsRoundTrip(signed, width, vs[1..], rest);
      assert [vs[0]] + vs[1..] == vs;
    }
  }

  /** A list is packed exactly when every element is in range. */
  lemma {:induction false} PackAllSucceeds(signed: bool, width: nat, vs: seq<int>)
    ensures PackAll(signed, width, vs).Some? <==> forall i :: 0 <= i < |vs| ==> Fits(signed, width, vs[i])
  {
    if vs != [] {
      PackAllSucceeds(signed, width, vs[1..]);
      assert forall i :: 1 <= i < |vs| ==> vs[i] == vs[1..][i - 1];
    }
  }

  method WriteInt(signed: bool, width: nat, v: int, w: Writer) returns (ok: bool)
    modifies w
    ensures ok <==> Pack(signed, width, v).Some?
    ensures ok ==> w.data == old(w.data) + Pack(signed, width, v).value
    ensures !ok ==> w.data == old(w.data)
  {
    var bytes := Pack(signed, width, v);
    if bytes.None? {
      return false;
    }
    w.Write(bytes.value);
    ok := true;
  }

  method TakeInt(signed: bool, width: nat, r: Reader) returns (v: Option<int>)
    modifies r
    ensures v.Some? <==> ReadInt(signed, width, old(r.data)).Some?
    ensures v.Some? ==> ReadInt(signed, width, old(r.data)) == Some((v.value, r.data))
  {
    var bytes :- r.Read(width);
    v := Some(Unpack(signed, bytes));
  }
}
