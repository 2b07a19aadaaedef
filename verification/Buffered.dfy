/** A writer with a fixed buffer in front of a stream. */
module Buffered {
  import opened Outcomes
  import opened Buffers

  class BufferedWriter {
    const buffer: array<byte>
    const sink: Writer
    var position: nat

    ghost predicate Valid()
      reads this
    {
      position <= buffer.Length && buffer.Length > 0
    }

    /** Everything written so far, sent or not. */
    ghost function Accepted(): Bytes
      requires Valid()
      reads this, buffer, sink
    {
      sink.data + buffer[..position]
    }

    constructor (sink: Writer, capacity: nat)
      requires capacity > 0
      ensures Valid() && fresh(buffer) && this.sink == sink && Accepted() == sink.data
    {
      this.sink := sink;
      buffer := new byte[capacity];
      position := 0;
      new;
      assert sink.data + [] == sink.data;
    }

    method WriteIntoStream()
      requires Valid()
      modifies this, sink
      ensures Valid() && position == 0 && sink.data == old(Accepted()) == Accepted()
    {
      sink.Write(buffer[..position]);
      position := 0;
      assert sink.data + [] == sink.data;
    }

    /** Copies piece by piece, emptying the buffer whenever it is full. */
    method Write(data: Bytes)
      requires Valid()
      modifies this, buffer, sink
      ensures Valid() && Accepted() == old(Accepted()) + data
    {
      var written := 0;
      assert Accepted() == old(Accepted()) + data[..0];
      while written < |data|
        invariant Valid() && written <= |data|
        invariant Accepted() == old(Accepted()) + data[..written]
        decreases |data| - written, position
      {
        var size := if |data| - written < buffer.Length - position then |data| - written else buffer.Length - position;
        if position == buffer.Length {
          WriteIntoStream();
        } else {
          Copy(data[written..written + size]);
          assert data[..written + size] == data[..written] + data[written..written + size];
          written := written + size;
        }
      }
      assert data[..written] == data;
    }

    /** memcpy to the end of what is buffered. */
    method Copy(piece: Bytes)
      requires Valid() && position + |piece| <= buffer.Length
      modifies this, buffer
      ensures Valid() && position == old(position) + |piece|
      ensures Accepted() == old(Accepted()) + piece
    {
      ghost var before := buffer[..position];
      forall k | 0 <= k < |piece| {
        buffer[position + k] := piece[k];
      }
      assert buffer[..position + |piece|] == before + piece;
      assert sink.data + (before + piece) == sink.data + before + piece;
      position := position + |piece|;
    }

    method Flush()
      requires Valid()
      modifies this, sink
      ensures Valid() && sink.data == old(Accepted()) == Accepted()
    {
      WriteIntoStream();
    }
  }
}
