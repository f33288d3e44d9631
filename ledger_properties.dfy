/** Two behaviours of the update route that a reader of the schema might not
    expect: the interval check only sees the patch, and an owner may write
    SWAP_PENDING directly. */
module LedgerProperties {
  import opened Outcomes
  import opened EventModel
  import opened SwapRequestModel
  import opened EventSchemas
  import opened Store
  import opened EventRoutes
  import opened SwapRoutes
  import opened Invariants

  /** A patch that sends only an end is not compared with the stored start, so
      an update can leave an event that ends before it starts. */
  lemma UpdateCanInvertInterval(t: Tables, caller: UserId, id: int, newEnd: Time)
    requires OwnedBy(t, caller, id) && t.slots[id].status != SwapPending
    requires newEnd <= t.slots[id].start
    ensures var s := UpdateEventStep(t, caller, id, EventUpdate(None, None, Some(newEnd), None));
      s.result.Ok? && s.after.slots[id].end <= s.after.slots[id].start
  {
  }

  /** An owner who writes SWAP_PENDING on a slot that no request names gets a
      locked slot with no PENDING request behind it. */
  lemma DirectLockBreaksLockExact(t: Tables, caller: UserId, id: int, patch: EventUpdate)
    requires Consistent(t)
    requires OwnedBy(t, caller, id) && t.slots[id].status != SwapPending
    requires ValidUpdate(patch) && WritesSwapPending(patch)
    ensures var s := UpdateEventStep(t, caller, id, patch);
      s.result.Ok? && Locked(s.after, id) && !PendingOn(s.after, id) && !LockExact(s.after)
  {
    var s := UpdateEventStep(t, caller, id, patch);
    forall k | k in s.after.requests && s.after.requests[k].status == Pending
      ensures !References(s.after.requests[k], id)
    {
      assert Locks(t, t.requests[k]);
    }
    assert Locked(s.after, id);
  }

  /** Once SWAP_PENDING, a slot cannot be deleted, and the only update its
      owner can make keeps it SWAP_PENDING; only the swap routes release it. */
  lemma LockedSlotStaysLocked(t: Tables, caller: UserId, id: int, patch: EventUpdate)
    requires Locked(t, id)
    ensures DeleteEventStep(t, caller, id).after == t
    ensures DeleteEventStep(t, caller, id).result.Err?
    ensures var s := UpdateEventStep(t, caller, id, patch);
      (s.result.Err? ==> s.after == t) && Locked(s.after, id)
    ensures !WritesSwapPending(patch) ==> UpdateEventStep(t, caller, id, patch).result.Err?
  {
  }
}
