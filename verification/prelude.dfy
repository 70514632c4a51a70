/** Options and the immutable lists that the other modules share. */
module Prelude {

  datatype Option<+T> = None | Some(value: T)

  datatype List<+T> = Nil | Cons(head: T, tail: List<T>)

  function Length<T>(xs: List<T>): nat
  {
    match xs
    case Nil => 0
    case Cons(_, rest) => 1 + Length(rest)
  }

  function Append<T>(xs: List<T>, ys: List<T>): List<T>
  {
    match xs
    case Nil => ys
    case Cons(x, rest) => Cons(x, Append(rest, ys))
  }

  function Nth<T>(xs: List<T>, k: nat): T
    requires k < Length(xs)
  {
    if k == 0 then xs.head else Nth(xs.tail, k - 1)
  }

  /** The first place of an element, or the length if it does not occur. */
  function IndexOf<T(==)>(xs: seq<T>, x: T): (i: nat)
    ensures i <= |xs| && (i < |xs| ==> xs[i] == x)
    ensures forall j :: 0 <= j < i ==> xs[j] != x
  {
    if xs == [] || xs[0] == x then 0 else 1 + IndexOf(xs[1..], x)
  }

  lemma {:induction false} AppendNil<T>(xs: List<T>)
    ensures Append(xs, Nil) == xs
  {
    match xs
    case Nil =>
    case Cons(_, rest) => AppendNil(rest);
  }
}
