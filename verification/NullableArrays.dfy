/** The null map that a nullable array writes ahead of its offsets is read as offsets: exactly when some leaf
    value is below the array, at whatever depth and in however many rows, its rows do not come back. */
module NullableArrays {
  import opened Outcomes
  import opened Buffers
  import opened Columns
  import opened Nesting
  import opened Scalars
  import opened Slicing
  import opened ColumnCodec
  import opened ColumnRoundTrip
  import opened ColumnWrites
  import StructPack

  // ----- offsets read from a shifted stream -----

  lemma {:induction false} Concatenated(a: Bytes, b: Bytes)
    ensures StructPack.FromLittleEndian(a + b)
         == StructPack.FromLittleEndian(a) + StructPack.Span(|a|) * StructPack.FromLittleEndian(b)
  {
    if a == [] {
      assert a + b == b;
    } else {
      assert (a + b)[1..] == a[1..] + b;
      Concatenated(a[1..], b);
    }
  }

  lemma {:induction false} ZeroWord(k: nat)
    ensures StructPack.LittleEndian(k, 0) == Zeros(k) && StructPack.FromLittleEndian(Zeros(k)) == 0
  {
    if k > 0 {
      ZeroWord(k - 1);
      assert Zeros(k) == [0] + Zeros(k - 1);
    }
  }

  /** The word of an offset, of which a shift by k bytes moves the last k into the next word. */
  function Word(offset: nat): (r: Bytes)
    ensures |r| == 8
  {
    StructPack.LittleEndian(8, offset)
  }

  /** What the first bytes of an offset's word make of it when they end the word read. */
  function Shifted(k: nat, offset: nat): nat
    requires k < 8
  {
    StructPack.Span(k) * StructPack.FromLittleEndian(Word(offset)[..8 - k])
  }

  lemma {:induction false} LowBytes(width: nat, n: nat, m: nat)
    requires m <= width
    ensures StructPack.LittleEndian(width, n)[..m] == StructPack.LittleEndian(m, n)
  {
    if m > 0 {
      LowBytes(width - 1, n / 256, m - 1);
    }
  }

  lemma {:induction false} SpanGrows(a: nat, b: nat)
    requires a <= b
    ensures StructPack.Span(a) <= StructPack.Span(b)
  {
    if a < b {
      SpanGrows(a, b - 1);
    }
  }

  lemma Grows(a: nat, b: nat, n: nat)
    requires a >= b && n > 0
    ensures a * n >= b * n && a * n >= a
  {
  }

  /** Offsets below 2^32 shifted by one to seven bytes vanish or grow. */
  lemma ShiftedGrows(k: nat, offset: nat)
    requires 0 < k < 8 && 0 < offset < SIZE_LIMIT
    ensures Shifted(k, offset) == 0 || Shifted(k, offset) > offset
  {
    var low := StructPack.FromLittleEndian(Word(offset)[..8 - k]);
    LowBytes(8, offset, 8 - k);
    StructPack.SpanValues();
    if k <= 4 {
      SpanGrows(4, 8 - k);
      StructPack.LittleEndianRoundTrip(8 - k, offset);
      SpanGrows(1, k);
      Grows(StructPack.Span(k), 0x100, offset);
    } else if low > 0 {
      SpanGrows(5, k);
      Grows(StructPack.Span(k), StructPack.Span(5), low);
    } else {
      assert Shifted(k, offset) == StructPack.Span(k) * 0;
    }
  }

  lemma ShiftedZero(k: nat)
    requires 0 < k < 8
    ensures Shifted(k, 0) == 0 && Word(0)[8 - k..] == Zeros(k) && StructPack.FromLittleEndian(Word(0)[8 - k..]) == 0
  {
    ZeroWord(8);
    ZeroWord(k);
    ZeroWord(8 - k);
    assert Zeros(8)[..8 - k] == Zeros(8 - k) && Zeros(8)[8 - k..] == Zeros(k);
  }

  /** Every word read is made of the end of the offset before and the beginning of its own. */
  ghost predicate Misread(k: nat, words: seq<nat>, before: nat, offsets: seq<nat>)
    requires k < 8
    decreases words
  {
    && |words| == |offsets|
    && (words != [] ==>
          && words[0] == StructPack.FromLittleEndian(Word(before)[8 - k..]) + Shifted(k, offsets[0])
          && Misread(k, words[1..], offsets[0], offsets[1..]))
  }

  lemma OneWord(k: nat, before: nat, offset: nat, s: Bytes)
    requires k < 8
    ensures var r := ReadUInt64(Word(before)[8 - k..] + (Word(offset) + s));
            && r.Some? && r.value.1 == Word(offset)[8 - k..] + s
            && r.value.0 == StructPack.FromLittleEndian(Word(before)[8 - k..]) + Shifted(k, offset)
  {
    var high, low := Word(before)[8 - k..], Word(offset)[..8 - k];
    assert high + (Word(offset) + s) == (high + low) + (Word(offset)[8 - k..] + s);
    TakeFront(high + low, Word(offset)[8 - k..] + s);
    Concatenated(high, low);
  }

  lemma {:induction false} WordsMisread(k: nat, before: nat, offsets: seq<nat>, tail: Bytes)
    requires k < 8 && WriteUInt64s(offsets).Some?
    ensures var r := ReadUInt64s(|offsets|, Word(before)[8 - k..] + (WriteUInt64s(offsets).value + tail));
            r.Some? && Misread(k, r.value.0, before, offsets)
    decreases offsets
  {
    if offsets != [] {
      var packed := WriteUInt64s(offsets[1..]).value;
      Join2(Word(offsets[0]), packed, tail);
      OneWord(k, before, offsets[0], packed + tail);
      WordsMisread(k, offsets[0], offsets[1..], tail);
      WordCons(Word(before)[8 - k..] + (Word(offsets[0]) + (packed + tail)), |offsets| - 1);
    }
  }

  lemma WordCons(s: Bytes, n: nat)
    requires ReadUInt64(s).Some? && ReadUInt64s(n, ReadUInt64(s).value.1).Some?
    ensures var r := ReadUInt64s(n + 1, s);
            && r.Some? && r.value.0[0] == ReadUInt64(s).value.0
            && r.value.0[1..] == ReadUInt64s(n, ReadUInt64(s).value.1).value.0
  {
  }

  // ----- rows cut at misread offsets -----

  /** Past the end of the data every row is empty, and the words do not come down again. */
  lemma {:induction false} StaysBehind(items: seq<Value>, data: seq<Value>, begin: nat, words: seq<nat>,
                                       base: nat, k: nat)
    requires 0 < k < 8 && AllLists(items) && Misread(k, words, base, Offsets(items, base))
    requires |data| < Shifted(k, base) && |data| <= begin && Slices(data, begin, words) == items
    ensures words != [] ==> Total(words) >= Shifted(k, base)
    decreases items
  {
    if items != [] {
      assert Slices(data, begin, words)[0] == List(Slice(data, begin, words[0]));
      assert Slices(data, begin, words)[1..] == Slices(data, words[0], words[1..]);
      assert items[0].items == [];
      StaysBehind(items[1..], data, words[0], words[1..], base, k);
    }
  }

  /** The first row with elements gives the shift away: it is cut from words that do not fit its length. */
  lemma {:induction false} MisreadRowsDiffer(items: seq<Value>, data: seq<Value>, words: seq<nat>, k: nat)
    requires 0 < k < 8 && AllLists(items) && Flatten(items) != [] && |Flatten(items)| < SIZE_LIMIT
    requires Misread(k, words, 0, Offsets(items, 0)) && |data| == Total(words)
    ensures Slices(data, 0, words) != items
    decreases items
  {
    var first := items[0].items;
    ShiftedZero(k);
    assert words[0] == Shifted(k, |first|);
    var cut := Slice(data, 0, words[0]);
    assert Slices(data, 0, words) == [List(cut)] + Slices(data, words[0], words[1..]);
    assert |cut| == Min(words[0], |data|);
    if first == [] {
      MisreadRowsDiffer(items[1..], data, words[1..], k);
    } else if Slices(data, 0, words) == items {
      ShiftedGrows(k, |first|);
      assert cut == first;
      assert Slices(data, 0, words)[1..] == items[1..];
      StaysBehind(items[1..], data, words[0], words[1..], |first|, k);
    }
  }

  /** Eight leaves or more hide the first row with elements altogether. */
  lemma {:induction false} HiddenRowsDiffer(items: seq<Value>, data: seq<Value>, k: nat, tail: Bytes)
    requires k >= 8 && AllLists(items) && Flatten(items) != [] && WriteUInt64s(Offsets(items, 0)).Some?
    ensures var r := ReadUInt64s(|items|, Zeros(k) + (WriteUInt64s(Offsets(items, 0)).value + tail));
            r.Some? ==> Slices(data, 0, r.value.0) != items
    decreases items
  {
    var offsets := Offsets(items, 0);
    var s := WriteUInt64s(offsets).value + tail;
    ZeroFirst(k, s);
    if ReadUInt64s(|items|, Zeros(k) + s).Some? {
      ReadSplits(Zeros(k) + s, |items| - 1);
      var words := ReadUInt64s(|items|, Zeros(k) + s).value.0;
      assert Slices(data, 0, words) == [List([])] + Slices(data, 0, words[1..]);
      if items[0].items == [] {
        EmptyRowBytes(items, k, tail);
        HiddenRowsDiffer(items[1..], data, k, tail);
        assert items[1..] != Slices(data, 0, words[1..]);
      }
    }
  }

  /** An empty first row is a zero word more in front of the other rows. */
  lemma EmptyRowBytes(items: seq<Value>, k: nat, tail: Bytes)
    requires k >= 8 && AllLists(items) && items != [] && items[0].items == []
    requires WriteUInt64s(Offsets(items, 0)).Some?
    ensures WriteUInt64s(Offsets(items[1..], 0)).Some?
    ensures Zeros(k - 8) + (WriteUInt64s(Offsets(items, 0)).value + tail)
         == Zeros(k) + (WriteUInt64s(Offsets(items[1..], 0)).value + tail)
  {
    var offsets := Offsets(items, 0);
    assert offsets[1..] == Offsets(items[1..], 0);
    ZeroWord(8);
    MoreZeros(k, WriteUInt64s(offsets[1..]).value, tail);
  }

  lemma MoreZeros(k: nat, packed: Bytes, tail: Bytes)
    requires k >= 8
    ensures Zeros(k - 8) + (Zeros(8) + packed + tail) == Zeros(k) + (packed + tail)
  {
  }

  lemma ReadSplits(s: Bytes, n: nat)
    requires ReadUInt64s(n + 1, s).Some?
    ensures ReadUInt64(s).Some? && ReadUInt64s(n, ReadUInt64(s).value.1).Some?
    ensures ReadUInt64s(n + 1, s).value.0
         == [ReadUInt64(s).value.0] + ReadUInt64s(n, ReadUInt64(s).value.1).value.0
  {
  }

  lemma ZeroFirst(k: nat, s: Bytes)
    requires k >= 8
    ensures ReadUInt64(Zeros(k) + s) == Some((0, Zeros(k - 8) + s))
  {
    assert Zeros(k) + s == Zeros(8) + (Zeros(k - 8) + s);
    TakeFront(Zeros(8), Zeros(k - 8) + s);
    ZeroWord(8);
  }

  /** Rows above any leaf value are never recovered, whatever follows in the stream. */
  lemma NullableArrayLosesRows(c: Column, nullable: bool, items: seq<Value>, rest: Bytes)
    requires c.Array? && InnermostFlag(c, nullable) && WriteData(c, nullable, items).Some?
    requires LeafValues(c, items) != Some([]) && |Flatten(items)| < SIZE_LIMIT
    ensures var r := ReadData(c, nullable, |items|, WriteData(c, nullable, items).value + rest);
            r.Some? ==> r.value.0 != items
  {
    var k := |LeafValues(c, items).value|;
    var head, tail := WriteUInt64s(Offsets(items, 0)).value, WriteNested(c.inner, Flatten(items)).value;
    LeavesNeedElements(c, items);
    Join(Zeros(k), head, tail, rest);
    var s := Zeros(k) + (head + (tail + rest));
    var offsets := ReadUInt64s(|items|, s);
    if offsets.Some? {
      var data := ReadNested(c.inner, Total(offsets.value.0), offsets.value.1);
      if data.Some? && AllLists(items) {
        if k < 8 {
          ShiftedZero(k);
          WordsMisread(k, 0, Offsets(items, 0), tail + rest);
          MisreadRowsDiffer(items, data.value.0, offsets.value.0, k);
        } else {
          HiddenRowsDiffer(items, data.value.0, k, tail + rest);
        }
      }
    }
  }

  lemma {:induction false} LeavesNeedElements(c: Column, items: seq<Value>)
    requires c.Array? && LeafValues(c, items).Some? && LeafValues(c, items) != Some([])
    ensures AllIterable(items) && Flatten(items) != []
  {
    if Flatten(items) == [] {
      NoLeaves(c.inner);
    }
  }

  // ----- exactly -----

  /** Typed rows without leaves are readable and written. */
  lemma {:induction false} LeaflessRows(c: Column, items: seq<Value>)
    requires WellFormed(c) && AllHaveType(c, c.nullable, items) && LeafValues(c, items) == Some([])
    requires VolumeAll(items) < SIZE_LIMIT
    ensures ReadableNested(c, items) && WriteNested(c, items).Some?
  {
    if c.Array? {
      FlattenVolume(items);
      LengthIsVolume(Flatten(items));
      OffsetsWritten(items);
      FlattenedHaveType(c.inner, items);
      LeaflessRows(c.inner, Flatten(items));
    }
  }

  /** Rows of a nullable array, of any depth and number, come back if and only if no leaf value is below them. */
  lemma NullableArrayExactly(c: Column, nullable: bool, items: seq<Value>)
    requires c.Array? && WellFormed(c) && InnermostFlag(c, nullable) && AllHaveType(c, nullable, items)
    requires VolumeAll(items) < SIZE_LIMIT
    ensures RoundTrips(c, nullable, items) <==> LeafValues(c, items) == Some([])
  {
    if LeafValues(c, items) == Some([]) {
      LeaflessRows(c, items);
      WritesNoStrayNullMap(c, nullable, items);
      forall rest: Bytes
        ensures ComesBack(c, nullable, items, rest)
      {
        DataRoundTrip(c, nullable, items, rest);
      }
    } else if RoundTrips(c, nullable, items) {
      FlattenVolume(items);
      LengthIsVolume(Flatten(items));
      assert ComesBack(c, nullable, items, []);
      NullableArrayLosesRows(c, nullable, items, []);
    }
  }
}
