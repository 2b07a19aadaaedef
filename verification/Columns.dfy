/** Column trees and the Python values they carry. */
module Columns {
  import opened Outcomes

  /** A member of an enum, in declaration order. */
  datatype Choice = Choice(name: string, code: int)

  datatype Kind =
    | UInt(width: nat)
    | SInt(width: nat)
    | Boolean
    | Text
    | FixedText(length: nat)
    | Enum(width: nat, choices: seq<Choice>)

  /** The tree built from a type specification. Every column object carries the nullable flag. */
  datatype Column =
    | Scalar(nullable: bool, kind: Kind)
    | Array(nullable: bool, inner: Column)
    | Tuple(nullable: bool, names: seq<string>, inners: seq<Column>)
    | Map(nullable: bool, key: Column, value: Column)
    | LowCardinality(nullable: bool, dictionary: Column)

  /** Python values: a List is a list, a Row a tuple; a Dict keeps its keys in insertion order. */
  datatype Value =
    | Null
    | Num(n: int)
    | Bool(b: bool)
    | Str(text: string)
    | Raw(bytes: Bytes)
    | List(items: seq<Value>)
    | Row(items: seq<Value>)
    | Dict(keys: seq<Value>, vals: seq<Value>)

  /** `column.nullable = nullable` */
  function SetFlag(c: Column, nullable: bool): Column
  {
    match c
    case Scalar(_, kind) => Scalar(nullable, kind)
    case Array(_, inner) => Array(nullable, inner)
    case Tuple(_, names, inners) => Tuple(nullable, names, inners)
    case Map(_, key, value) => Map(nullable, key, value)
    case LowCardinality(_, d) => LowCardinality(nullable, d)
  }

  /** The value a nullable column stores in place of None. */
  function NullValue(c: Column): Value
  {
    match c
    case Scalar(_, kind) => ScalarNull(kind)
    case Array(_, _) => List([])
    case Tuple(_, _, inners) => Row(seq(|inners|, j requires 0 <= j < |inners| => NullValue(inners[j])))
    case Map(_, _, _) => Num(0)
    case LowCardinality(_, _) => Num(0)
  }

  function ScalarNull(kind: Kind): Value
  {
    if kind.Text? || kind.FixedText? then Str("") else Num(0)
  }

  /** Values that can be looked up in a dict: lists and dicts have no hash. */
  predicate Hashable(v: Value)
  {
    match v
    case List(_) => false
    case Dict(_, _) => false
    case Row(items) => AllHashable(items)
    case _ => true
  }

  predicate AllHashable(items: seq<Value>)
  {
    forall i :: 0 <= i < |items| ==> Hashable(items[i])
  }

  /** Columns whose values can be hashed. */
  predicate HashableColumn(c: Column)
  {
    match c
    case Scalar(_, _) => true
    case Array(_, _) => false
    case Tuple(_, _, inners) => forall j :: 0 <= j < |inners| ==> HashableColumn(inners[j])
    case Map(_, _, _) => false
    case LowCardinality(_, d) => HashableColumn(d)
  }

  ghost predicate NoDuplicates<T>(s: seq<T>)
  {
    forall i, j :: 0 <= i < j < |s| ==> s[i] != s[j]
  }
}
