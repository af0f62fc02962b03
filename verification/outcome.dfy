/** Failure-carrying results shared by every carrier.

    Every embedder in the repository refuses a message that does not fit
    its carrier by raising a ValueError before anything is written; the
    model returns `Err(CapacityExceeded)` instead. The second transform
    scheme can also fail while indexing a coefficient that a block cut
    short by the image's edge does not have; that is `Err(IndexOutOfRange)`. */
module Outcome {

  datatype Option<+T> = None | Some(value: T)

  datatype Error =
    | /** The message has more bits than the carrier has room for (lines,
          samples or blocks). */
      CapacityExceeded
    | /** A coefficient position lies outside a block at the image's edge. */
      IndexOutOfRange

  datatype Result<+T> = Ok(value: T) | Err(error: Error)
}
