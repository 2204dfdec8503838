/** Failure-carrying values shared by every module of the model. */
module Wrappers {

  /** A value that may be absent: a missing row, a nil slice, a failed parse. */
  datatype Option<+T> = None | Some(value: T)

  /** HTTP status codes the handlers answer with. */
  const OK: int := 200
  const BAD_REQUEST: int := 400
  const UNAUTHORIZED: int := 401
  const FORBIDDEN: int := 403
  const NOT_FOUND: int := 404
  const INTERNAL_ERROR: int := 500

  /** The decision a middleware takes: let the request through, or abort it with a code. */
  datatype Decision = Next | Abort(code: int)
}
