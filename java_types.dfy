/** Value types shared by the whole model: Java's 16-bit `char`, strings made
    of them, optional values and the outcome of a call that may throw. */
module JavaTypes {

  /** A Java `char`: one UTF-16 code unit, surrogates included. */
  newtype JChar = c: int | 0 <= c < 0x1_0000

  /** A Java `String`, as its sequence of UTF-16 code units. */
  type JString = seq<JChar>

  datatype Option<+T> = None | Some(value: T)

  /** The exceptions the modelled code throws or translates. */
  datatype Failure =
    | IOError              // java.io.IOException
    | NotHandledEvent      // NotHandledEventException
    | InconsistentIndex    // InconsistentIndexException
    | IndexClosed          // IndexClosedException

  /** A call that returns normally with a value or throws one of the above. */
  datatype Outcome<+T> = Return(value: T) | Throw(failure: Failure)

  /** Java's `Character.MIN_HIGH_SURROGATE` .. `MAX_HIGH_SURROGATE`. */
  predicate IsHighSurrogate(c: JChar) { 0xD800 <= c <= 0xDBFF }

  /** Java's `Character.MIN_LOW_SURROGATE` .. `MAX_LOW_SURROGATE`. */
  predicate IsLowSurrogate(c: JChar) { 0xDC00 <= c <= 0xDFFF }
}
