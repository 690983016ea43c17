/** Shared vocabulary: optional values, results carrying the Java exception a
    call raises, and Java's 32-bit `int` range. */
module Base {

  /** A value that may be absent; `None` also stands for a Java `null`. */
  datatype Option<+T> = None | Some(value: T)

  /** The outcome of a Java call: a returned value or a thrown exception. */
  datatype Result<+T, +E> = Success(value: T) | Failure(error: E)

  /** The exceptions the modelled Java code can raise. */
  datatype Error =
    | IllegalArgument(message: string)  // IllegalArgumentException
    | NullPointer                       // unboxing a null reply
    | ClassCast                         // casting a reply that is not a Long to Long
    | DataError(message: string)        // JedisDataException: the store answered with an error reply

  const Int32Min: int := -0x8000_0000
  const Int32Max: int := 0x7fff_ffff

  /** Values of Java's `int`. */
  predicate IsInt32(x: int) {
    Int32Min <= x <= Int32Max
  }
}
