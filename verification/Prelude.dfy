/** Small datatypes shared by every module of the model. */
module Prelude {
  /** Python's `T | None`. */
  datatype Option<+T> = None | Some(value: T)

  /** A call that returns a value or raises. */
  datatype Result<+T, +E> = Ok(value: T) | Err(error: E)

  /** One byte of a body, a buffer or an encoded string. */
  type byte = b: int | 0 <= b < 256

  function Concat<T>(parts: seq<seq<T>>): seq<T>
  {
    if parts == [] then [] else parts[0] + Concat(parts[1..])
  }

  lemma {:induction false} ConcatSplit<T>(a: seq<seq<T>>, b: seq<seq<T>>)
    ensures Concat(a + b) == Concat(a) + Concat(b)
  {
    if a == [] {
      assert a + b == b;
    } else {
      ConcatSplit(a[1..], b);
      assert (a + b)[1..] == a[1..] + b;
      assert a[0] + (Concat(a[1..]) + Concat(b)) == (a[0] + Concat(a[1..])) + Concat(b);
    }
  }

  lemma ConcatSnoc<T>(a: seq<seq<T>>, x: seq<T>)
    ensures Concat(a + [x]) == Concat(a) + x
  {
    ConcatSplit(a, [x]);
    assert Concat([x]) == x + Concat([]);
  }

  lemma Regroup<T>(a: seq<T>, b: seq<T>, c: seq<T>)
    ensures a + (b + c) == (a + b) + c
  {
  }
}
