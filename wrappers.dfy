/** Small helpers shared by the four collections. */
module Wrappers {

  /** A value that may be absent: the model of Go's `nil` interface value. */
  datatype Option<T> = None | Some(value: T)

  /** The outcome of a Go call that may panic instead of returning. */
  datatype Outcome<T> = Returned(value: T) | Panicked(message: string)

  /** A sequence in reverse order. */
  function Reversed<T>(s: seq<T>): (r: seq<T>)
    ensures |r| == |s|
    ensures forall i :: 0 <= i < |s| ==> r[i] == s[|s| - 1 - i]
  {
    if |s| == 0 then [] else Reversed(s[1..]) + [s[0]]
  }

  lemma ReversedCons<T>(x: T, s: seq<T>)
    ensures Reversed([x] + s) == Reversed(s) + [x]
  {
    assert ([x] + s)[1..] == s;
  }
}
