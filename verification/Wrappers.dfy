/** Failure-aware results for the source's error returns. */
module Wrappers {
  datatype Option<+T> = None | Some(value: T)

  /** The negative return codes the modelled functions use. */
  datatype Error = EIO | EINVAL | EFBIG | ENOENT | EBUSY

  datatype Result<+T> = Ok(value: T) | Err(error: Error)
}
