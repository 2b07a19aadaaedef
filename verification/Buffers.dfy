/** The byte streams a connection writes to and reads from. */
module Buffers {
  import opened Outcomes

  class Writer {
    var data: Bytes

    constructor ()
      ensures data == []
    {
      data := [];
    }

    method Write(bytes: Bytes)
      modifies this
      ensures data == old(data) + bytes
    {
      data := data + bytes;
    }
  }

  class Reader {
    // The bytes not read yet.
    var data: Bytes

    constructor (bytes: Bytes)
      ensures data == bytes
    {
      data := bytes;
    }

    /** Takes exactly n bytes; fails, taking nothing, when fewer are left. */
    method Read(n: nat) returns (r: Option<Bytes>)
      modifies this
      ensures r == (if n <= |old(data)| then Some(old(data)[..n]) else None)
      ensures data == if n <= |old(data)| then old(data)[n..] else old(data)
    {
      if n > |data| {
        return None;
      }
      r := Some(data[..n]);
      data := data[n..];
    }

    method ReadOne() returns (r: Option<byte>)
      modifies this
      ensures r == (if old(data) == [] then None else Some(old(data)[0]))
      ensures data == if old(data) == [] then [] else old(data)[1..]
    {
      if data == [] {
        return None;
      }
      r := Some(data[0]);
      data := data[1..];
    }
  }

  /** n bytes off the front of a stream. */
  function Take(n: nat, s: Bytes): (r: Parsed<Bytes>)
  {
    if n <= |s| then Some((s[..n], s[n..])) else None
  }

  lemma TakeFront(a: Bytes, rest: Bytes)
    ensures Take(|a|, a + rest) == Some((a, rest))
  {
  }

  /** A write that may raise: everything specified is appended, or the write fails; what was in the
      stream before stays in any case. */
  ghost predicate Emits(before: Bytes, after: Bytes, ok: bool, written: Option<Bytes>)
  {
    && before <= after
    && (ok <==> written.Some?)
    && (ok ==> after == before + written.value)
  }

  /** Part of a longer write is done, and rest is what remains of it. */
  ghost predicate Pending(start: Bytes, now: Bytes, whole: Option<Bytes>, rest: Option<Bytes>)
  {
    && start <= now
    && (whole.Some? <==> rest.Some?)
    && (rest.Some? ==> now + rest.value == start + whole.value)
  }

  lemma Start(now: Bytes, whole: Option<Bytes>)
    ensures Pending(now, now, whole, whole)
  {
  }

  lemma Advance(start: Bytes, now: Bytes, now': Bytes, whole: Option<Bytes>, x: Option<Bytes>, rest: Option<Bytes>)
    requires Pending(start, now, whole, Cat(x, rest)) && Emits(now, now', true, x)
    ensures Pending(start, now', whole, rest)
  {
    if rest.Some? {
      assert now + (x.value + rest.value) == now' + rest.value;
    }
  }

  lemma Finish(start: Bytes, now: Bytes, now': Bytes, ok: bool, whole: Option<Bytes>, x: Option<Bytes>)
    requires Pending(start, now, whole, x) && Emits(now, now', ok, x)
    ensures Emits(start, now', ok, whole)
  {
  }

  /** Giving up after a failed step. */
  lemma Abort(start: Bytes, now: Bytes, now': Bytes, whole: Option<Bytes>, x: Option<Bytes>, rest: Option<Bytes>)
    requires Pending(start, now, whole, Cat(x, rest)) && Emits(now, now', false, x)
    ensures Emits(start, now', false, whole)
  {
  }
}
