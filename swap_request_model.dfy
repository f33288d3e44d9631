/** The `swap_requests` table: a proposal to exchange two slots. */
module SwapRequestModel {
  import opened EventModel

  datatype SwapRequestStatus = Pending | Accepted | Rejected

  /** A row of `swap_requests` without its primary key. */
  datatype SwapRequest = SwapRequest(
    requesterSlot: int,
    requestedSlot: int,
    requester: UserId,
    receiver: UserId,
    status: SwapRequestStatus)

  /** The column default of `status`. */
  const DefaultRequestStatus: SwapRequestStatus := Pending

  predicate References(r: SwapRequest, slot: int) {
    r.requesterSlot == slot || r.requestedSlot == slot
  }

  /** Two requests mention a common slot, on either side. */
  predicate Overlap(a: SwapRequest, b: SwapRequest) {
    References(a, b.requesterSlot) || References(a, b.requestedSlot)
  }

  /** `ondelete="CASCADE"` on both slot foreign keys: deleting an event deletes
      every request that references it, on either side, and nothing else. */
  function CascadeDelete(requests: map<int, SwapRequest>, slot: int): (rest: map<int, SwapRequest>)
    ensures forall k :: k in rest <==> k in requests && !References(requests[k], slot)
    ensures forall k :: k in rest ==> rest[k] == requests[k]
    ensures forall k :: k in rest ==> !References(rest[k], slot)
  {
    map k | k in requests && !References(requests[k], slot) :: requests[k]
  }
}
