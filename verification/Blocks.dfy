/** Blocks of rows or columns, and the block information that travels with them. */
module Blocks {
  import opened Outcomes
  import opened Buffers
  import opened Columns
  import opened ColumnCodec
  import opened Dictionaries
  import opened Nesting
  import ColumnRoundTrip
  import StructPack
  import Varint

  // ----- block information -----

  datatype Info = Info(overflows: bool, bucket: int)

  const DEFAULT_INFO := Info(false, -1)

  function Flag(b: bool): nat
  {
    if b then 1 else 0
  }

  /** Pairs of a field number and a value, then zero. */
  function WriteInfo(info: Info): Option<Bytes>
  {
    Cat(Varint.Written(1), Cat(StructPack.Pack(false, 1, Flag(info.overflows)),
      Cat(Varint.Written(2), Cat(StructPack.Pack(true, 4, info.bucket), Varint.Written(0)))))
  }

  /** Fields in any order until a zero; an unknown field number is passed over alone. */
  function ReadInfo(info: Info, s: Bytes): Parsed<Info>
    decreases |s|
  {
    var (field, s1) :- Varint.Read(s);
    if field == 0 then Some((info, s1))
    else if field == 1 then
      var (flag, s2) :- StructPack.ReadInt(false, 1, s1);
      ReadInfo(info.(overflows := flag != 0), s2)
    else if field == 2 then
      var (bucket, s2) :- StructPack.ReadInt(true, 4, s1);
      ReadInfo(info.(bucket := bucket), s2)
    else ReadInfo(info, s1)
  }

  lemma FieldReads(field: nat, rest: Bytes)
    requires field < 128
    ensures Varint.Read(Varint.Written(field).value + rest) == Some((field, rest))
  {
    Varint.RoundTrip(field, rest);
  }

  lemma EndReads(info: Info, rest: Bytes)
    ensures ReadInfo(info, Varint.Written(0).value + rest) == Some((info, rest))
  {
    FieldReads(0, rest);
  }

  lemma BucketReads(info: Info, bucket: int, rest: Bytes)
    requires StructPack.Pack(true, 4, bucket).Some?
    ensures ReadInfo(info, Varint.Written(2).value + (StructPack.Pack(true, 4, bucket).value + rest))
         == ReadInfo(info.(bucket := bucket), rest)
  {
    FieldReads(2, StructPack.Pack(true, 4, bucket).value + rest);
    StructPack.IntRoundTrip(true, 4, bucket, rest);
  }

  lemma OverflowsReads(info: Info, overflows: bool, rest: Bytes)
    requires StructPack.Pack(false, 1, Flag(overflows)).Some?
    ensures ReadInfo(info, Varint.Written(1).value + (StructPack.Pack(false, 1, Flag(overflows)).value + rest))
         == ReadInfo(info.(overflows := overflows), rest)
  {
    FieldReads(1, StructPack.Pack(false, 1, Flag(overflows)).value + rest);
    StructPack.IntRoundTrip(false, 1, Flag(overflows), rest);
  }

  /** Whatever the reader starts from, it ends with what was written. */
  lemma InfoRoundTrip(before: Info, info: Info, rest: Bytes)
    requires WriteInfo(info).Some?
    ensures ReadInfo(before, WriteInfo(info).value + rest) == Some((info, rest))
  {
    var o, b := StructPack.Pack(false, 1, Flag(info.overflows)).value, StructPack.Pack(true, 4, info.bucket).value;
    var end := Varint.Written(0).value + rest;
    var second := Varint.Written(2).value + (b + end);
    ColumnRoundTrip.Join5(Varint.Written(1).value, o, Varint.Written(2).value, b, Varint.Written(0).value, rest);
    OverflowsReads(before, info.overflows, second);
    BucketReads(before.(overflows := info.overflows), info.bucket, end);
    EndReads(info, rest);
  }

  /** A field number that is neither 0 nor known is passed over alone: what follows it is read as the next field. */
  lemma UnknownFieldSkipped(info: Info, field: nat, rest: Bytes)
    requires 2 < field < 0x1_0000_0000_0000_0000
    ensures Varint.Written(field).Some? && ReadInfo(info, Varint.Written(field).value + rest) == ReadInfo(info, rest)
  {
    Varint.RoundTrip(field, rest);
    Varint.EncodeAtMostTen(field);
  }

  class BlockInfo {
    var isOverflows: bool
    var bucketNum: int

    constructor ()
      ensures Fields() == Info(false, -1) == DEFAULT_INFO
    {
      isOverflows := false;
      bucketNum := -1;
    }

    ghost function Fields(): Info
      reads this
    {
      Info(isOverflows, bucketNum)
    }

    method Write(w: Writer) returns (ok: bool)
      modifies w
      ensures Emits(old(w.data), w.data, ok, WriteInfo(Fields()))
    {
      ok := Varint.WriteVarint(1, w);
      ok := StructPack.WriteInt(false, 1, Flag(isOverflows), w);
      ok := Varint.WriteVarint(2, w);
      ok := StructPack.WriteInt(true, 4, bucketNum, w);
      if ok {
        ok := Varint.WriteVarint(0, w);
      }
    }

    method Read(r: Reader) returns (ok: bool)
      modifies this, r
      ensures ReadInfo(old(Fields()), old(r.data)) == if ok then Some((Fields(), r.data)) else None
    {
      while true
        invariant ReadInfo(old(Fields()), old(r.data)) == ReadInfo(Fields(), r.data)
        decreases |r.data|
      {
        var field := Varint.ReadVarint(r);
        if field.None? {
          return false;
        }
        if field.value == 0 {
          return true;
        }
        if field.value == 1 {
          var flag := StructPack.TakeInt(false, 1, r);
          if flag.None? {
            return false;
          }
          isOverflows := flag.value != 0;
        } else if field.value == 2 {
          var bucket := StructPack.TakeInt(true, 4, r);
          if bucket.None? {
            return false;
          }
          bucketNum := bucket.value;
        }
      }
    }
  }

  // ----- blocks -----

  /** `row[i]`: by position, or by key in a dict. */
  function Subscript(row: Value, i: nat): Option<Value>
  {
    if row.Dict? then KeyedItem(row, Num(i))
    else if Iterable(row) && i < |Elements(row)| then Some(Elements(row)[i])
    else None
  }

  /** `row[key]` of a dict. */
  function KeyedItem(row: Value, key: Value): Option<Value>
    requires row.Dict?
  {
    var p := Position(row.keys, key);
    if |row.keys| == |row.vals| && p < |row.keys| then Some(row.vals[p]) else None
  }

  predicate AllHave(rows: seq<Value>, i: nat)
  {
    forall k :: 0 <= k < |rows| ==> Subscript(rows[k], i).Some?
  }

  /** A dict in place of a row has the cells that stand under the numbers of the columns. */
  lemma DictRowCells(d: Value, i: nat)
    requires d.Dict? && |d.keys| == |d.vals| && NoDuplicates(d.keys)
    ensures Subscript(d, i).Some? <==> Num(i) in d.keys
    ensures forall k :: 0 <= k < |d.keys| && d.keys[k] == Num(i) ==> Subscript(d, i) == Some(d.vals[k])
  {
  }

  /** Columns are (name, type specification) pairs. */
  datatype Block =
    | RowBlock(columns: seq<(string, string)>, rows: seq<Value>, info: Info)
    | ColumnBlock(columns: seq<(string, string)>, data: seq<seq<Value>>, info: Info)
  {
    function NumColumns(): nat
    {
      if RowBlock? then |columns| else |data|
    }

    function NumRows(): nat
    {
      if RowBlock? then |rows| else if |data| == 0 then 0 else |data[0]|
    }

    /** get_column_by_index; None where some row has no such item. */
    function ColumnByIndex(i: nat): (r: Option<seq<Value>>)
    {
      if RowBlock? then
        if AllHave(rows, i)
        then Some(seq(|rows|, k requires 0 <= k < |rows| => Subscript(rows[k], i).value))
        else None
      else if i < |data| then Some(data[i]) else None
    }

    /** get_rows */
    function GetRows(): seq<Value>
      requires ColumnBlock? ==> EqualLengths(data)
    {
      if RowBlock? then rows else if data == [] then [] else Rows(data, |data[0]|)
    }
  }

  predicate EqualLengths(data: seq<seq<Value>>)
  {
    forall j :: 0 <= j < |data| ==> |data[j]| == |data[0]|
  }

  /** ColumnOrientedBlock(...): no data at all, or as many columns as declared and all equally long. */
  function NewColumnBlock(columns: seq<(string, string)>, data: seq<seq<Value>>, info: Info): Option<Block>
  {
    if data == [] || (|data| == |columns| && EqualLengths(data)) then Some(ColumnBlock(columns, data, info)) else None
  }

  /** RowOrientedBlock(...) of positional rows: only the first row's length is checked. */
  function NewRowBlock(columns: seq<(string, string)>, rows: seq<Value>, info: Info): Option<Block>
    requires rows != [] ==> !rows[0].Dict?
  {
    if rows == [] || (Iterable(rows[0]) && |Elements(rows[0])| == |columns|)
    then Some(RowBlock(columns, rows, info))
    else None
  }

  /** Rows that are no dicts and are wide enough have their columns by position. */
  lemma PositionalColumn(columns: seq<(string, string)>, rows: seq<Value>, info: Info, i: nat)
    requires RowsCover(rows, i + 1) && forall k :: 0 <= k < |rows| ==> !rows[k].Dict?
    ensures RowBlock(columns, rows, info).ColumnByIndex(i) == Some(ColumnAt(rows, i))
  {
    var b := RowBlock(columns, rows, info);
    forall k | 0 <= k < |rows|
      ensures Subscript(rows[k], i) == Some(ColumnAt(rows, i)[k])
    {
    }
    assert b.ColumnByIndex(i).value == ColumnAt(rows, i);
  }
}
