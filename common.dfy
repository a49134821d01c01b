/** Values shared by the store, the codec and the row adapter. */
module Common {

  /** An unsigned byte, as in Go's `byte`. */
  newtype byte = x: int | 0 <= x < 256

  /** A Go `[]byte`, or a Go `string` seen as the bytes it holds. */
  type Bytes = seq<byte>

  datatype Option<+T> = None | Some(value: T)

  /** The failures the adapter can see: the store's transport failures and the codec's. */
  datatype Error = StoreUnavailable | StoreTimeout | MalformedRow | EncodeFailed

  predicate IsStoreError(e: Error) {
    e.StoreUnavailable? || e.StoreTimeout?
  }

  /** A Go `(T, error)` pair: exactly one of the two is meaningful. */
  datatype Result<+T> = Ok(value: T) | Err(error: Error)

  /** A Go `error` return: nil (`Done`) or an error. */
  datatype Outcome = Done | Fail(error: Error)
}
