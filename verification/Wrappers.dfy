/** The two result shapes used instead of Go's error values, and what a loop puts in front of a pending result. */
module Wrappers {
  datatype Option<+T> = None | Some(value: T)

  datatype Result<+T, +E> = Success(value: T) | Failure(error: E) {
    predicate IsFailure() { Failure? }

    function PropagateFailure<U>(): Result<U, E>
      requires Failure?
    {
      Failure(error)
    }

    function Extract(): T
      requires Success?
    {
      value
    }
  }

  /** A result with what has been done already in front of it. */
  function Prepend<T, E>(done: seq<T>, r: Result<seq<T>, E>): Result<seq<T>, E> {
    if r.Success? then Success(done + r.value) else r
  }

  lemma PrependNothing<T, E>(r: Result<seq<T>, E>)
    ensures Prepend([], r) == r
  {
    if r.Success? {
      assert [] + r.value == r.value;
    }
  }

  lemma PrependTwice<T, E>(a: seq<T>, b: seq<T>, r: Result<seq<T>, E>)
    ensures Prepend(a, Prepend(b, r)) == Prepend(a + b, r)
  {
    if r.Success? {
      assert a + (b + r.value) == a + b + r.value;
    }
  }

  /** The same for an option. */
  function PrependSome<T>(done: seq<T>, r: Option<seq<T>>): Option<seq<T>> {
    if r.Some? then Some(done + r.value) else None
  }

  lemma PrependSomeNothing<T>(r: Option<seq<T>>)
    ensures PrependSome([], r) == r
  {
    if r.Some? {
      assert [] + r.value == r.value;
    }
  }

  lemma PrependSomeTwice<T>(a: seq<T>, b: seq<T>, r: Option<seq<T>>)
    ensures PrependSome(a, PrependSome(b, r)) == PrependSome(a + b, r)
  {
    if r.Some? {
      assert a + (b + r.value) == a + b + r.value;
    }
  }
}
