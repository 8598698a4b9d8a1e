// A value that may be absent, and how an element changes over from the sequence
// still to come to the one already there.

module Wrappers {
  datatype Option<T> = None | Some(value: T)

  lemma Regroup<T>(done: seq<T>, next: T, rest: seq<T>)
    ensures done + ([next] + rest) == (done + [next]) + rest
  {
  }
}
