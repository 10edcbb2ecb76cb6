/** Shared value types: optional values, results, bytes and wide characters. */
module Base {

  datatype Option<+T> = None | Some(value: T)

  /** The outcome of an operation that throws in the original program. */
  datatype Result<+R, +E> = Success(value: R) | Failure(error: E)

  /** The outcome of a C++ `void` operation that may throw. */
  datatype Outcome<+E> = Pass | Fail(error: E)

  /** An 8-bit unit of a C++ narrow string or byte vector. */
  newtype Byte = x: int | 0 <= x < 0x100

  /** A Windows `wchar_t` (UTF-16 code unit). */
  newtype WChar = x: int | 0 <= x < 0x1_0000

  type Bytes = seq<Byte>

  const NUL: Byte := 0
  const NL: Byte := 10

  /** Some element of a non-empty set. Calling it just before a compiled
      `x :| x in s` hands the verifier a witness for that choice, which it
      does not always find by itself for sets of integers. */
  lemma Pick<X>(s: set<X>) returns (x: X)
    requires s != {}
    ensures x in s
  {
    x :| x in s;
  }
}
