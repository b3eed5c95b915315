/** Shared vocabulary of the model: bytes, and the wrappers that stand for
    Python's `None` and for raised exceptions. */
module Base {

  /** One octet, as Python's `bytes` holds them. */
  type byte = x: int | 0 <= x < 256

  type Bytes = seq<byte>

  datatype Option<T> = None | Some(value: T)

  /** `Err` stands for an exception raised by the modelled code. */
  datatype Result<T, E> = Ok(value: T) | Err(error: E)

  /** Concatenation regrouped; stated once so that loop proofs over logs
      can name the step. */
  lemma Assoc<T>(a: seq<T>, b: seq<T>, c: seq<T>)
    ensures a + (b + c) == (a + b) + c
  {
  }
}
