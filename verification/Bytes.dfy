/** Bytes and the small result types shared by every module. */
module Bytes {

  type byte = b: int | 0 <= b < 256

  datatype Option<+T> = None | Some(value: T)

  datatype Result<+T, +E> = Ok(value: T) | Err(error: E) {
    predicate IsFailure() { Err? }

    function PropagateFailure<U>(): Result<U, E>
      requires Err?
    {
      Err(error)
    }

    function Extract(): T
      requires Ok?
    {
      value
    }
  }

  /** One bit of a flag byte, as `flags & (1 << k)` tests it; `mask` is the power of two. */
  predicate HasBit(flags: byte, mask: int)
    requires mask > 0
  {
    flags / mask % 2 == 1
  }

  /** The slot after `i` of `n` used in a circle. */
  function Next(i: nat, n: nat): (j: nat)
    requires i < n
    ensures j == if i + 1 == n then 0 else i + 1
  {
    (i + 1) % n
  }

  /** The structures whose invariants are passed on folded. */
  datatype Structure = Table | Ring | Pool

  /**
   * A term to unfold an invariant by: stated as `forall n: nat :: Look(x, n) ==> Invariant` it is passed on
   * without its quantifiers, and a proof that needs them brings them out with `assert Look(x, 0)`.
   */
  ghost predicate Look(x: Structure, n: nat) { true }

  lemma Assoc<T>(a: seq<T>, b: seq<T>, c: seq<T>)
    ensures a + b + c == a + (b + c)
  {
  }
}
