/** Absent-or-present values, and what an endpoint answers. */
module Outcomes {

  datatype Option<+T> = None | Some(value: T)

  /** A `ServiceResult`: 200 with a body, 202 without one, or an error status. */
  datatype Response<+T> = Succeeded(body: T) | Accepted | Failed(status: int)
}
