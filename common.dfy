/** Types shared by the modules of both scale servers. */
module Common {

  /** One element of a Python `bytes` value: an integer in 0..255. */
  type byte = x: int | 0 <= x < 256

  /** A value that may be missing (Python `None`). */
  datatype Option<+T> = None | Some(value: T)

  function Min(a: int, b: int): int { if a <= b then a else b }

  /** Concatenation regroups freely; stated once so that proofs with many
      sequence terms in scope need not rediscover it. */
  lemma AppendAssociative<T>(a: seq<T>, b: seq<T>, c: seq<T>)
    ensures (a + b) + c == a + (b + c)
  {
  }
}
