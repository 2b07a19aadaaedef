/** Variable-length integers (unsigned LEB128, section 7.6 of DWARF Version 5). */
module Varint {
  import opened Outcomes
  import opened Buffers
  import opened Bits

  /** The encoding of n: seven bits a byte, low bits first, the top bit set on all bytes but the last. */
  function Encode(n: nat): (r: Bytes)
    ensures r != []
  {
    if n < 128 then [n] else [n % 128 + 128] + Encode(n / 128)
  }

  /** What write_varint emits: unsigned 64-bit integers only, OverflowError beyond. */
  function Written(n: nat): Option<Bytes>
  {
    if n < U64 then Some(Encode(n)) else None
  }

  /** The integer a LEB128 byte string stands for, without any bound, and what follows it. */
  function Meaning(s: Bytes): (r: Parsed<nat>)
    ensures r.Some? ==> |r.value.1| < |s|
  {
    if s == [] then None
    else if s[0] < 128 then Some((s[0], s[1..]))
    else
      var (high, rest) :- Meaning(s[1..]);
      Some((s[0] - 128 + 128 * high, rest))
  }

  /** n in a 64-bit accumulator. */
  function Word(n: nat): nat
  {
    if n < U64 then n else n % U64
  }

  /** What read_varint finds: the integer modulo 2^64, and no result for more than ten bytes, where the C
      loop would shift by 64 or more. */
  function Read(s: Bytes): (r: Parsed<nat>)
    ensures r.Some? ==> |r.value.1| < |s|
  {
    var (v, rest) :- Meaning(s);
    if |s| - |rest| <= 10 then Some((Word(v), rest)) else None
  }

  /** The low seven bits of b, at their place. */
  function Septet(b: byte, shift: nat): nat
  {
    b % 128 * Pow2(shift)
  }

  /** The reading loop from the byte at this shift on, in arithmetic. */
  function ReadFrom(s: Bytes, shift: nat, result: nat): Parsed<nat>
    decreases |s|
  {
    if s == [] then None
    else
      var next := Word(result + Septet(s[0], shift));
      if s[0] < 0x80 then Some((next, s[1..]))
      else if shift + 7 >= 64 then None
      else ReadFrom(s[1..], shift + 7, next)
  }

  lemma {:induction false} MeaningOfEncode(n: nat, rest: Bytes)
    ensures Meaning(Encode(n) + rest) == Some((n, rest))
  {
    var s := Encode(n) + rest;
    if n < 128 {
      assert s[1..] == rest;
    } else {
      assert s[1..] == Encode(n / 128) + rest;
      MeaningOfEncode(n / 128, rest);
    }
  }

  /** No byte string with the same meaning is shorter. */
  lemma {:induction false} EncodeIsMinimal(s: Bytes, n: nat)
    requires Meaning(s) == Some((n, []))
    ensures |Encode(n)| <= |s|
  {
    if s[0] < 128 {
    } else if n >= 128 {
      var high := Meaning(s[1..]).value.0;
      assert n / 128 == high;
      EncodeIsMinimal(s[1..], high);
    }
  }

  /** k groups of seven bits hold exactly the numbers below 2^(7k). */
  lemma {:induction false} EncodeLength(n: nat, k: nat)
    requires k > 0
    ensures |Encode(n)| <= k <==> n < Pow2(7 * k)
  {
    Pow2Values();
    if n < 128 {
      Pow2Monotone(7, 7 * k);
    } else if k > 1 {
      EncodeLength(n / 128, k - 1);
      Pow2Adds(7, 7 * k - 7);
    }
  }

  lemma EncodeAtMostTen(n: nat)
    requires n < U64
    ensures 1 <= |Encode(n)| <= 10
  {
    EncodeLength(n, 10);
    Pow2Values();
    Pow2Monotone(64, 70);
  }

  /** The bit operations of both loops, in arithmetic. */
  lemma SevenBits(n: nat)
    ensures And(n, 0x7f) == n % 128
    ensures Or(n % 128, 0x80) == n % 128 + 128
  {
    Pow2Values();
    AndMask(n, 7);
    OrDisjoint(n % 128, 1, 7);
  }

  lemma Distribute(q: nat, k: nat, m: nat, p: nat)
    ensures (q * k + m) * p == q * (p * k) + m * p
  {
    assert (q * k + m) * p == q * k * p + m * p;
    assert q * k * p == q * (k * p);
    assert k * p == p * k;
  }

  lemma BelowProduct(m: nat, k: nat, p: nat, r: nat)
    requires m < k && r < p
    ensures r + m * p < p * k
  {
    assert m * p <= (k - 1) * p;
    assert (k - 1) * p == k * p - p;
    assert k * p == p * k;
  }

  /** A number shifted by p into a word of p * k values keeps its low part, above the r already there. */
  lemma MulMod(x: nat, p: nat, k: nat, r: nat)
    requires r < p && k > 0
    ensures p * k > 0 && (r + x * p) % (p * k) == r + x % k * p
  {
    BelowProduct(x % k, k, p, r);
    Distribute(x / k, k, x % k, p);
    DivModUnique(r + x * p, p * k, x / k, r + x % k * p);
  }

  lemma WordMod(x: nat)
    ensures Word(x) == x % U64
  {
  }

  lemma ShlKeepsLow(x: nat, shift: nat, r: nat)
    requires shift < 64 && r < Pow2(shift)
    ensures (r + x * Pow2(shift)) % U64 == r + x % Pow2(64 - shift) * Pow2(shift)
  {
    WordParts(shift);
    MulMod(x, Pow2(shift), Pow2(64 - shift), r);
  }

  lemma ShlOr(low: nat, shift: nat, result: nat)
    requires shift < 64 && result < Pow2(shift)
    ensures Or(result, Shl64(low, shift)) == (result + low * Pow2(shift)) % U64
  {
    ShlMultiplies(low, shift);
    ShlKeepsLow(low, shift, 0);
    ShlKeepsLow(low, shift, result);
    OrDisjoint(result, low % Pow2(64 - shift), shift);
  }

  /** One turn of the reading loop adds the low seven bits at their place, modulo 2^64. */
  lemma TurnAdds(b: byte, shift: nat, result: nat)
    requires shift < 64 && result < Pow2(shift)
    ensures Or(result, Shl64(And(b, 0x7f), shift)) == Word(result + Septet(b, shift))
  {
    SevenBits(b);
    ShlOr(b % 128, shift, result);
    WordMod(result + Septet(b, shift));
  }

  lemma WordParts(shift: nat)
    requires shift < 64
    ensures Pow2(shift) * Pow2(64 - shift) == U64
  {
    Pow2Adds(shift, 64 - shift);
    Pow2Values();
  }

  lemma Widen(low: nat, p: nat)
    requires low < 128
    ensures p + low * p <= 128 * p
  {
    assert (low + 1) * p <= 128 * p;
  }

  lemma NextPlace(low: nat, shift: nat)
    requires low < 128
    ensures Pow2(shift) + low * Pow2(shift) <= Pow2(shift + 7) == 128 * Pow2(shift)
  {
    Pow2Adds(7, shift);
    Pow2Values();
    Widen(low, Pow2(shift));
  }

  lemma Places(low: nat, high: nat, p: nat)
    ensures (low + 128 * high) * p == low * p + high * (128 * p)
    ensures low * p <= (low + 128 * high) * p
  {
    assert (low + 128 * high) * p == low * p + 128 * high * p;
    assert 128 * high * p == high * (128 * p);
    assert 0 <= high * (128 * p);
  }

  /** The result of the loop, if the number m at the front of s starts at this shift. */
  function Placed(m: Parsed<nat>, length: nat, shift: nat, result: nat): Parsed<nat>
  {
    if m.None? || shift + 7 * (length - |m.value.1| - 1) >= 64 then None
    else Some((Word(result + m.value.0 * Pow2(shift)), m.value.1))
  }

  /** No carry before the last byte. */
  lemma TurnKeeps(b: byte, shift: nat, result: nat)
    requires shift + 7 < 64 && result < Pow2(shift)
    ensures Word(result + Septet(b, shift)) == result + Septet(b, shift) < Pow2(shift + 7)
  {
    NextPlace(b % 128, shift);
    Pow2Values();
    Pow2Monotone(shift + 7, 63);
  }

  lemma LastTurn(b: byte, rest: Bytes, shift: nat, result: nat)
    requires b < 128 && shift < 64
    ensures Placed(Some((b, rest)), |rest| + 1, shift, result) == Some((Word(result + Septet(b, shift)), rest))
  {
  }

  lemma PlacedFurther(m: Parsed<nat>, length: nat, b: byte, shift: nat, result: nat)
    requires b >= 128
    ensures Placed(m, length, shift + 7, result + Septet(b, shift))
         == Placed(if m.None? then None else Some((b - 128 + 128 * m.value.0, m.value.1)), length + 1, shift, result)
  {
    if m.Some? {
      NextPlace(b % 128, shift);
      Places(b % 128, m.value.0, Pow2(shift));
    }
  }

  /** Whatever the stream, the loop finds what the number at its front stands for. */
  lemma {:induction false} LoopReadsMeaning(s: Bytes, shift: nat, result: nat)
    requires shift < 64 && result < Pow2(shift)
    ensures ReadFrom(s, shift, result) == Placed(Meaning(s), |s|, shift, result)
    decreases |s|
  {
    if s == [] {
    } else if s[0] < 128 {
      LastTurn(s[0], s[1..], shift, result);
    } else if shift + 7 >= 64 {
      assert Meaning(s).Some? ==> |Meaning(s).value.1| + 2 <= |s|;
    } else {
      TurnKeeps(s[0], shift, result);
      LoopReadsMeaning(s[1..], shift + 7, result + Septet(s[0], shift));
      PlacedFurther(Meaning(s[1..]), |s| - 1, s[0], shift, result);
    }
  }

  lemma LoopIsRead(s: Bytes)
    ensures ReadFrom(s, 0, 0) == Read(s)
  {
    LoopReadsMeaning(s, 0, 0);
    if Meaning(s).Some? {
      assert Meaning(s).value.0 * Pow2(0) == Meaning(s).value.0;
    }
  }

  /** Reading undoes writing and stops exactly at the end of the number. */
  lemma RoundTrip(n: nat, rest: Bytes)
    requires n < U64
    ensures Read(Encode(n) + rest) == Some((n, rest))
  {
    MeaningOfEncode(n, rest);
    EncodeAtMostTen(n);
    assert |Encode(n) + rest| - |rest| <= 10;
  }

  function WriteAll(ns: seq<nat>): Bytes
  {
    if ns == [] then [] else Encode(ns[0]) + WriteAll(ns[1..])
  }

  function ReadAll(count: nat, s: Bytes): Parsed<seq<nat>>
  {
    if count == 0 then Some(([], s))
    else
      var (n, s') :- Read(s);
      var (ns, rest) :- ReadAll(count - 1, s');
      Some(([n] + ns, rest))
  }

  /** Concatenated numbers read back as the same list. */
  lemma {:induction false} RoundTripAll(ns: seq<nat>, rest: Bytes)
    requires forall i :: 0 <= i < |ns| ==> ns[i] < U64
    ensures ReadAll(|ns|, WriteAll(ns) + rest) == Some((ns, rest))
  {
    if ns == [] {
      assert [] + rest == rest;
    } else {
      var tail := WriteAll(ns[1..]) + rest;
      assert WriteAll(ns) + rest == Encode(ns[0]) + tail;
      RoundTrip(ns[0], tail);
      RoundTripAll(ns[1..], rest);
      assert [ns[0]] + ns[1..] == ns;
    }
  }

  /** Fills the fixed 32-byte buffer of make_varint; every index stays inside it. */
  method MakeVarint(number: nat) returns (r: Bytes)
    requires number < U64
    ensures r == Encode(number)
  {
    var numBuf := new byte[32];
    var i, n := 0, number;
    EncodeAtMostTen(number);
    while true
      invariant i <= 32 && numBuf[..i] + Encode(n) == Encode(number)
      decreases n
    {
      var toWrite := And(n, 0x7f);
      SevenBits(n);
      var n' := n / 128;
      if n' != 0 {
        numBuf[i] := Or(toWrite, 0x80);
        assert numBuf[..i + 1] == numBuf[..i] + [n % 128 + 128];
        i := i + 1;
      } else {
        numBuf[i] := toWrite;
        assert numBuf[..i + 1] == numBuf[..i] + [n];
        i := i + 1;
        break;
      }
      n := n';
    }
    r := numBuf[..i];
  }

  method WriteVarint(number: nat, w: Writer) returns (ok: bool)
    modifies w
    ensures ok <==> Written(number).Some?
    ensures ok ==> w.data == old(w.data) + Written(number).value
    ensures !ok ==> w.data == old(w.data)
  {
    if number >= U64 {
      return false;
    }
    var bytes := MakeVarint(number);
    w.Write(bytes);
    ok := true;
  }

  /** `result |= (i & 0x7f) << shift` */
  method AddSeptet(i: byte, shift: nat, result: nat) returns (r: nat)
    requires shift < 64 && result < Pow2(shift)
    ensures r == Word(result + Septet(i, shift))
  {
    TurnAdds(i, shift, result);
    r := Or(result, Shl64(And(i, 0x7f), shift));
  }

  method ReadVarint(r: Reader) returns (n: Option<nat>)
    modifies r
    ensures n.Some? <==> Read(old(r.data)).Some?
    ensures n.Some? ==> Read(old(r.data)) == Some((n.value, r.data))
  {
    var shift: nat, result: nat := 0, 0;
    LoopIsRead(r.data);
    while true
      invariant shift < 64 && result < Pow2(shift)
      invariant ReadFrom(r.data, shift, result) == Read(old(r.data))
      decreases |r.data|
    {
      var i :- r.ReadOne();
      if i >= 0x80 && shift + 7 < 64 {
        TurnKeeps(i, shift, result);
      }
      result := AddSeptet(i, shift, result);
      shift := shift + 7;
      if i < 0x80 {
        break;
      }
      if shift >= 64 {
        return None;
      }
    }
    n := Some(result);
  }
}
