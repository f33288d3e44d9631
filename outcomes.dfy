/** Results and error kinds shared by the route handlers.
    Every HTTPException the handlers raise is one `Failure` constructor (one per
    distinct detail message); `Kind` maps it to the HTTP status class. */
module Outcomes {

  datatype Option<+T> = None | Some(value: T) {
    function GetOr(default: T): T {
      match this
      case Some(v) => v
      case None => default
    }
  }

  /** The HTTP status classes the core produces: 404, 400 and 422. */
  datatype ErrorKind = NotFound | BadRequest | Unprocessable

  datatype Failure =
    | InvalidInput               // request body rejected by the schema (422)
    | EventNotFound              // "Event not found"
    | EventLockedForUpdate       // "Cannot modify event with pending swap request"
    | EventLockedForDelete       // "Cannot delete event with pending swap request"
    | YourSlotNotFound           // "Your slot not found"
    | YourSlotNotSwappable       // "Your slot must be marked as SWAPPABLE"
    | RequestedSlotNotFound      // "Requested slot not found"
    | OwnSlotRequested           // "Cannot swap with your own slot"
    | RequestedSlotNotSwappable  // "Requested slot is not available for swapping"
    | SlotAlreadyPending         // "One or both slots already have a pending swap request"
    | RequestNotFound            // "Swap request not found"
    | AlreadyProcessed           // "Swap request has already been processed"
    | SlotsNotFound              // "One or both slots not found"
    | CancelNotPending           // "Can only cancel pending requests"
  {
    /** Only a schema violation is a 422; every failed lookup is a 404. */
    function Kind(): (kind: ErrorKind)
      ensures kind == Unprocessable <==> this == InvalidInput
      ensures this in {EventNotFound, YourSlotNotFound, RequestedSlotNotFound, RequestNotFound, SlotsNotFound}
              <==> kind == NotFound
    {
      match this
      case InvalidInput => Unprocessable
      case EventNotFound | YourSlotNotFound | RequestedSlotNotFound
        | RequestNotFound | SlotsNotFound => NotFound
      case _ => BadRequest
    }
  }

  datatype Result<+T> = Ok(value: T) | Err(failure: Failure)
}
