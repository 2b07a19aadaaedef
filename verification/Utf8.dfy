/** The text encoding of the protocol (RFC 3629). */
module Utf8 {
  import opened Outcomes

  function EncodeChar(c: char): (r: Bytes)
    ensures r != []
  {
    var n := c as int;
    if n < 0x80 then [n]
    else if n < 0x800 then [0xC0 + n / 64, 0x80 + n % 64]
    else if n < 0x1_0000 then [0xE0 + n / 4096, 0x80 + n / 64 % 64, 0x80 + n % 64]
    else [0xF0 + n / 0x4_0000, 0x80 + n / 4096 % 64, 0x80 + n / 64 % 64, 0x80 + n % 64]
  }

  function Encode(text: string): Bytes
  {
    if text == "" then [] else EncodeChar(text[0]) + Encode(text[1..])
  }

  /** The low six bits of a continuation byte at position i. */
  function Continuation(s: Bytes, i: nat): Option<nat>
  {
    if i < |s| && 0x80 <= s[i] < 0xC0 then Some(s[i] - 0x80) else None
  }

  predicate IsScalar(n: nat) {
    n < 0xD800 || 0xE000 <= n < 0x11_0000
  }

  /** The first character and the number of bytes it takes: no overlong forms, no surrogates. */
  function DecodeChar(s: Bytes): (r: Option<(char, nat)>)
    ensures r.Some? ==> 1 <= r.value.1 <= |s|
  {
    if s == [] then None
    else if s[0] < 0x80 then Some((s[0] as char, 1))
    else if s[0] < 0xC2 then None
    else if s[0] < 0xE0 then
      var a :- Continuation(s, 1);
      Some((((s[0] - 0xC0) * 64 + a) as char, 2))
    else if s[0] < 0xF0 then
      var a :- Continuation(s, 1);
      var b :- Continuation(s, 2);
      var n := (s[0] - 0xE0) * 4096 + a * 64 + b;
      if 0x800 <= n && IsScalar(n) then Some((n as char, 3)) else None
    else
      var a :- Continuation(s, 1);
      var b :- Continuation(s, 2);
      var c :- Continuation(s, 3);
      var n := (s[0] - 0xF0) * 0x4_0000 + a * 4096 + b * 64 + c;
      if 0x1_0000 <= n && IsScalar(n) then Some((n as char, 4)) else None
  }

  /** None for bytes that are not UTF-8. */
  function Decode(s: Bytes): Option<string>
  {
    if s == [] then Some("")
    else
      var (c, n) :- DecodeChar(s);
      var rest :- Decode(s[n..]);
      Some([c] + rest)
  }

  lemma CharRoundTrip(c: char, rest: Bytes)
    ensures DecodeChar(EncodeChar(c) + rest) == Some((c, |EncodeChar(c)|))
  {
    var n := c as int;
    assert n as char == c;
    if 0x800 <= n {
      assert n / 64 == n / 4096 * 64 + n / 64 % 64;
    }
    if 0x1_0000 <= n {
      assert n / 4096 == n / 0x4_0000 * 64 + n / 4096 % 64;
    }
  }

  lemma {:induction false} RoundTrip(text: string)
    ensures Decode(Encode(text)) == Some(text)
  {
    if text == "" {
    } else {
      var s := Encode(text);
      CharRoundTrip(text[0], Encode(text[1..]));
      assert s[|EncodeChar(text[0])|..] == Encode(text[1..]);
      RoundTrip(text[1..]);
      assert [text[0]] + text[1..] == text;
    }
  }
}
