/** Length-prefixed text. */
module BinaryText {
  import opened Outcomes
  import opened Buffers
  import Utf8
  import Varint

  /** write_binary_bytes */
  function WriteBytes(bytes: Bytes): Option<Bytes>
  {
    Cat(Varint.Written(|bytes|), Some(bytes))
  }

  /** read_binary_bytes */
  function ReadBytes(s: Bytes): Parsed<Bytes>
  {
    var (length, s') :- Varint.Read(s);
    Take(length, s')
  }

  function WriteText(text: string): Option<Bytes>
  {
    WriteBytes(Utf8.Encode(text))
  }

  function ReadText(s: Bytes): Parsed<string>
  {
    var (bytes, rest) :- ReadBytes(s);
    var text :- Utf8.Decode(bytes);
    Some((text, rest))
  }

  lemma BytesRoundTrip(bytes: Bytes, rest: Bytes)
    requires WriteBytes(bytes).Some?
    ensures ReadBytes(WriteBytes(bytes).value + rest) == Some((bytes, rest))
  {
    assert WriteBytes(bytes).value + rest == Varint.Encode(|bytes|) + (bytes + rest);
    Varint.RoundTrip(|bytes|, bytes + rest);
    TakeFront(bytes, rest);
  }

  /** Any text comes back, with nothing after it touched. */
  lemma TextRoundTrip(text: string, rest: Bytes)
    requires WriteText(text).Some?
    ensures ReadText(WriteText(text).value + rest) == Some((text, rest))
  {
    BytesRoundTrip(Utf8.Encode(text), rest);
    Utf8.RoundTrip(text);
  }

  method WriteBinaryText(text: string, w: Writer) returns (ok: bool)
    modifies w
    ensures Emits(old(w.data), w.data, ok, WriteText(text))
  {
    var bytes := Utf8.Encode(text);
    ok := Varint.WriteVarint(|bytes|, w);
    if ok {
      w.Write(bytes);
    }
  }

  method ReadBinaryText(r: Reader) returns (text: Option<string>)
    modifies r
    ensures text.Some? ==> ReadText(old(r.data)) == Some((text.value, r.data))
    ensures text.None? ==> ReadText(old(r.data)).None?
  {
    var length :- Varint.ReadVarint(r);
    var bytes :- r.Read(length);
    text := Utf8.Decode(bytes);
  }
}
