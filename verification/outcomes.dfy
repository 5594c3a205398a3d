/** Optional values and the failure kinds the reservation service reports. */
module Outcomes {

  /** A value that may be absent (a nullable result, or a field left out of
      a partial update). */
  datatype Option<T> = None | Some(value: T)

  /** The client-input error the service raises: the requested space is
      already booked in the requested slot. It carries the space name for
      the user-facing message. */
  datatype Error = SpaceAlreadyBooked(spaceName: string)

  /** Either the operation's value or the error it raised. */
  datatype Result<T> = Ok(value: T) | Err(error: Error)
}
