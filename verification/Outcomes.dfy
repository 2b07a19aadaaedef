/** Results of computations that may raise, and the byte vocabulary shared by every module. */
module Outcomes {

  /** None stands for an exception the source raises (or, on the read side, for a stream that ends early). */
  datatype Option<+T> = None | Some(value: T) {
    predicate IsFailure() {
      None?
    }

    function PropagateFailure<U>(): Option<U>
      requires None?
    {
      None
    }

    function Extract(): T
      requires Some?
    {
      value
    }
  }

  type byte = b: int | 0 <= b < 256

  type Bytes = seq<byte>

  /** What a reader returns: the value and the bytes it leaves in the stream. */
  type Parsed<+T> = Option<(T, Bytes)>

  /** Two writes one after the other: the bytes of both, or a failure of either. */
  function Cat(a: Option<Bytes>, b: Option<Bytes>): (r: Option<Bytes>)
    ensures r.Some? <==> a.Some? && b.Some?
  {
    if a.Some? && b.Some? then Some(a.value + b.value) else None
  }

  lemma CatAssociative(a: Option<Bytes>, b: Option<Bytes>, c: Option<Bytes>)
    ensures Cat(Cat(a, b), c) == Cat(a, Cat(b, c))
  {
    if a.Some? && b.Some? && c.Some? {
      assert a.value + b.value + c.value == a.value + (b.value + c.value);
    }
  }

  lemma CatNothing(a: Option<Bytes>)
    ensures Cat(Some([]), a) == a && Cat(a, Some([])) == a
  {
    assert a.Some? ==> [] + a.value == a.value && a.value + [] == a.value;
  }

  /** What was done before the rest, if the rest succeeds. */
  function Prepend<T>(a: seq<T>, b: Option<seq<T>>): Option<seq<T>>
  {
    if b.None? then None else Some(a + b.value)
  }

  lemma PrependTwice<T>(a: seq<T>, b: seq<T>, c: Option<seq<T>>)
    ensures Prepend(a, Prepend(b, c)) == Prepend(a + b, c)
    ensures Prepend(a, Some([])) == Some(a) && Prepend([], c) == c
  {
    if c.Some? {
      assert [] + c.value == c.value;
      assert a + (b + c.value) == a + b + c.value;
    }
    assert a + [] == a;
  }
}
