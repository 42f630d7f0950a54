/** Error kinds of the k-mer index and the result type that carries them in
    place of the thrown runtime errors. */
module Errors {

  /** The failures the index can raise: a character outside {A,C,G,T}, a
      k-mer whose length differs from K, and a K outside 1..32 at creation. */
  datatype Error = InvalidBase | LengthMismatch | KOutOfRange

  datatype Result<+T> = Ok(value: T) | Err(error: Error)
}
