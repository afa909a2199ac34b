/** The outcome types shared by every module, and lists that grow at their end. */
module Wrappers {
  datatype Option<+T> = None | Some(value: T)

  datatype Result<+T, +E> = Ok(value: T) | Err(error: E)

  /** What reading at an offset gives: a value and the offset to go on from, or an error. */
  datatype Parsed<+T, +E> = Got(value: T, next: nat) | Bad(error: E)

  lemma Assoc<T>(a: seq<T>, b: seq<T>, c: seq<T>)
    ensures (a + b) + c == a + (b + c)
  {
  }

  /** Items already read, in front of those still to come. */
  function Onto<T, E>(done: seq<T>, r: Result<seq<T>, E>): Result<seq<T>, E> {
    match r
    case Err(e) => Err(e)
    case Ok(rest) => Ok(done + rest)
  }

  lemma OntoNothing<T, E>(r: Result<seq<T>, E>)
    ensures Onto([], r) == r
  {
    assert r.Ok? ==> [] + r.value == r.value;
  }

  lemma OntoEnd<T, E>(done: seq<T>)
    ensures Onto<T, E>(done, Ok([])) == Ok(done)
  {
    assert done + [] == done;
  }

  lemma OntoError<T, E>(done: seq<T>, e: E)
    ensures Onto<T, E>(done, Err(e)) == Err(e)
  {
  }

  lemma OntoTwice<T, E>(done: seq<T>, one: T, r: Result<seq<T>, E>)
    ensures Onto(done, Onto([one], r)) == Onto(done + [one], r)
  {
    assert r.Ok? ==> done + ([one] + r.value) == done + [one] + r.value;
  }
}
