/** The invariants the routes keep. `Consistent` holds after every call on any
    state that had it; `LockExact` ("a SWAP_PENDING slot is named by a PENDING
    request") is kept by every call except an update that itself writes
    SWAP_PENDING, which the update guard lets through. */
module Invariants {
  import opened Outcomes
  import opened EventModel
  import opened SwapRequestModel
  import opened EventSchemas
  import opened SwapSchemas
  import opened Store
  import opened EventRoutes
  import opened SwapRoutes

  /** What a PENDING request promises about its two slots. */
  predicate Locks(t: Tables, r: SwapRequest) {
    && r.requesterSlot in t.slots && r.requestedSlot in t.slots
    && r.requesterSlot != r.requestedSlot
    && r.requester != r.receiver
    && t.slots[r.requesterSlot].owner == r.requester
    && t.slots[r.requestedSlot].owner == r.receiver
    && t.slots[r.requesterSlot].status == SwapPending
    && t.slots[r.requestedSlot].status == SwapPending
  }

  /** Foreign keys: every request names existing slots. */
  predicate ReferencesExist(t: Tables) {
    forall k :: k in t.requests ==>
      t.requests[k].requesterSlot in t.slots && t.requests[k].requestedSlot in t.slots
  }

  predicate PendingLocks(t: Tables) {
    forall k :: k in t.requests && t.requests[k].status == Pending ==> Locks(t, t.requests[k])
  }

  /** At most one PENDING request names any slot, on either side. */
  predicate Exclusive(t: Tables) {
    forall i, j :: i in t.requests && j in t.requests && i != j
      && t.requests[i].status == Pending && t.requests[j].status == Pending
      ==> !Overlap(t.requests[i], t.requests[j])
  }

  predicate Consistent(t: Tables) {
    KeysAllocated(t) && ReferencesExist(t) && PendingLocks(t) && Exclusive(t)
  }

  predicate Locked(t: Tables, s: int) {
    s in t.slots && t.slots[s].status == SwapPending
  }

  ghost predicate LockExact(t: Tables) {
    forall s :: Locked(t, s) ==> PendingOn(t, s)
  }

  /** The update that the lock guard lets through and that `LockExact` cannot survive. */
  predicate WritesSwapPending(patch: EventUpdate) {
    patch.status == Some(SwapPending)
  }

  lemma EmptyConsistent()
    ensures Consistent(Empty) && LockExact(Empty)
  {
  }

  /** A slot named by a PENDING request is SWAP_PENDING. */
  lemma PendingOnLocked(t: Tables, s: int)
    requires Consistent(t) && PendingOn(t, s)
    ensures s in t.slots && t.slots[s].status == SwapPending
  {
    var k :| k in t.requests && t.requests[k].status == Pending && References(t.requests[k], s);
    assert Locks(t, t.requests[k]);
  }

  /** With both invariants, a slot is SWAP_PENDING exactly when one PENDING
      request names it, and no second PENDING request does. */
  lemma LockedIffReferenced(t: Tables, s: int)
    requires Consistent(t) && LockExact(t) && s in t.slots
    ensures t.slots[s].status == SwapPending <==> PendingOn(t, s)
    ensures forall i, j ::
      (&& i in t.requests && j in t.requests
       && t.requests[i].status == Pending && t.requests[j].status == Pending
       && References(t.requests[i], s) && References(t.requests[j], s))
      ==> i == j
  {
    if PendingOn(t, s) {
      PendingOnLocked(t, s);
    }
    assert Locked(t, s) ==> PendingOn(t, s);
  }

  // ----- event routes -----

  lemma CreateEventPreserves(t: Tables, caller: UserId, data: EventCreate)
    requires Consistent(t)
    ensures Consistent(CreateEventStep(t, caller, data).after)
    ensures LockExact(t) ==> LockExact(CreateEventStep(t, caller, data).after)
  {
    var s := CreateEventStep(t, caller, data);
    if s.result.Ok? {
      var id := s.result.value.id;
      assert forall k :: k in t.requests ==> Locks(t, t.requests[k]) ==> Locks(s.after, t.requests[k]);
      if LockExact(t) {
        forall x | Locked(s.after, x)
          ensures PendingOn(s.after, x)
        {
          assert x != id;
          assert PendingOn(t, x);
        }
      }
    }
  }

  lemma UpdateEventPreserves(t: Tables, caller: UserId, id: int, patch: EventUpdate)
    requires Consistent(t)
    ensures Consistent(UpdateEventStep(t, caller, id, patch).after)
    ensures LockExact(t) && !WritesSwapPending(patch) ==> LockExact(UpdateEventStep(t, caller, id, patch).after)
  {
    var s := UpdateEventStep(t, caller, id, patch);
    if s.result.Ok? {
      var old_ := t.slots[id];
      var new_ := s.after.slots[id];
      assert new_.owner == old_.owner;
      assert old_.status == SwapPending ==> new_.status == SwapPending;
      forall k | k in t.requests && t.requests[k].status == Pending
        ensures Locks(s.after, t.requests[k])
      {
        assert Locks(t, t.requests[k]);
      }
      if LockExact(t) && !WritesSwapPending(patch) {
        forall x | Locked(s.after, x)
          ensures PendingOn(s.after, x)
        {
          assert t.slots[x].status == SwapPending;
          assert PendingOn(t, x);
        }
      }
    }
  }

  lemma DeleteEventPreserves(t: Tables, caller: UserId, id: int)
    requires Consistent(t)
    ensures Consistent(DeleteEventStep(t, caller, id).after)
    ensures LockExact(t) ==> LockExact(DeleteEventStep(t, caller, id).after)
  {
    var s := DeleteEventStep(t, caller, id);
    if s.result.Ok? {
      assert t.slots[id].status != SwapPending;
      forall k | k in s.after.requests && s.after.requests[k].status == Pending
        ensures Locks(s.after, s.after.requests[k])
      {
        assert Locks(t, t.requests[k]);
      }
      if LockExact(t) {
        forall x | Locked(s.after, x)
          ensures PendingOn(s.after, x)
        {
          assert PendingOn(t, x);
          var k :| k in t.requests && t.requests[k].status == Pending && References(t.requests[k], x);
          assert Locks(t, t.requests[k]);
          assert !References(t.requests[k], id);
          assert k in s.after.requests;
        }
      }
    }
  }

  // ----- swap routes -----

  /** The guard at the heart of the engine: creating a request keeps
      "at most one PENDING request per slot". */
  lemma CreateSwapPreserves(t: Tables, caller: UserId, data: SwapRequestCreate)
    requires Consistent(t)
    ensures Consistent(CreateSwapStep(t, caller, data).after)
    ensures LockExact(t) ==> LockExact(CreateSwapStep(t, caller, data).after)
  {
    var s := CreateSwapStep(t, caller, data);
    if s.result.Ok? {
      var my, their := data.mySlotId, data.theirSlotId;
      var id := s.result.value.id;
      var req := s.result.value.request;
      assert Locks(s.after, req);
      forall k | k in t.requests && t.requests[k].status == Pending
        ensures Locks(s.after, t.requests[k]) && !Overlap(t.requests[k], req) && !Overlap(req, t.requests[k])
      {
        assert Locks(t, t.requests[k]);
        assert !References(t.requests[k], my);
        assert !References(t.requests[k], their);
      }
      assert Exclusive(s.after);
      if LockExact(t) {
        forall x | Locked(s.after, x)
          ensures PendingOn(s.after, x)
        {
          if x == my || x == their {
            assert s.after.requests[id] == req && References(req, x);
          } else {
            assert PendingOn(t, x);
            var k :| k in t.requests && t.requests[k].status == Pending && References(t.requests[k], x);
            assert s.after.requests[k] == t.requests[k];
          }
        }
      }
    }
  }

  lemma RespondPreserves(t: Tables, caller: UserId, rid: int, response: SwapResponseUpdate)
    requires Consistent(t)
    ensures Consistent(RespondStep(t, caller, rid, response).after)
    ensures LockExact(t) ==> LockExact(RespondStep(t, caller, rid, response).after)
  {
    var s := RespondStep(t, caller, rid, response);
    if s.result.Ok? {
      var r := t.requests[rid];
      var a, b := r.requesterSlot, r.requestedSlot;
      forall k | k in s.after.requests && s.after.requests[k].status == Pending
        ensures k != rid && Locks(s.after, s.after.requests[k])
      {
        assert k != rid;
        assert Locks(t, t.requests[k]);
        assert !Overlap(t.requests[k], r);
      }
      if LockExact(t) {
        forall x | Locked(s.after, x)
          ensures PendingOn(s.after, x)
        {
          assert x != a && x != b;
          assert PendingOn(t, x);
          var k :| k in t.requests && t.requests[k].status == Pending && References(t.requests[k], x);
          assert k != rid;
          assert s.after.requests[k] == t.requests[k];
        }
      }
    }
  }

  lemma CancelPreserves(t: Tables, caller: UserId, rid: int)
    requires Consistent(t)
    ensures Consistent(CancelStep(t, caller, rid).after)
    ensures LockExact(t) ==> LockExact(CancelStep(t, caller, rid).after)
  {
    var s := CancelStep(t, caller, rid);
    if s.result.Ok? {
      var r := t.requests[rid];
      var a, b := r.requesterSlot, r.requestedSlot;
      forall k | k in s.after.requests && s.after.requests[k].status == Pending
        ensures Locks(s.after, s.after.requests[k])
      {
        assert k != rid;
        assert Locks(t, t.requests[k]);
        assert !Overlap(t.requests[k], r);
      }
      if LockExact(t) {
        forall x | Locked(s.after, x)
          ensures PendingOn(s.after, x)
        {
          assert x != a && x != b;
          assert PendingOn(t, x);
          var k :| k in t.requests && t.requests[k].status == Pending && References(t.requests[k], x);
          assert k != rid;
          assert s.after.requests[k] == t.requests[k];
        }
      }
    }
  }

  /** `gt=0` on the two slot ids only changes how a call fails: no stored key
      is below 1, so an id the schema refuses would not have been found. */
  lemma PositiveIdsOnlyChangeKind(t: Tables, caller: UserId, data: SwapRequestCreate)
    requires KeysAllocated(t) && !ValidSwapCreate(data)
    ensures CreateSwapStep(t, caller, data) == Step(t, Err(InvalidInput))
    ensures !OwnedBy(t, caller, data.mySlotId) || data.theirSlotId !in t.slots
  {
  }

  /** In a consistent state, cancelling frees both slots of the request: they
      are SWAPPABLE and no PENDING request names them any more. */
  lemma CancelFreesSlots(t: Tables, caller: UserId, rid: int)
    requires Consistent(t)
    requires CancelStep(t, caller, rid).result.Ok?
    ensures var after := CancelStep(t, caller, rid).after;
      var r := t.requests[rid];
      && r.requesterSlot in after.slots && r.requestedSlot in after.slots
      && after.slots[r.requesterSlot].status == Swappable
      && after.slots[r.requestedSlot].status == Swappable
      && !PendingOn(after, r.requesterSlot) && !PendingOn(after, r.requestedSlot)
  {
    var after := CancelStep(t, caller, rid).after;
    var r := t.requests[rid];
    assert Locks(t, r);
    forall k | k in after.requests && after.requests[k].status == Pending
      ensures !References(after.requests[k], r.requesterSlot)
      ensures !References(after.requests[k], r.requestedSlot)
    {
      assert k != rid && after.requests[k] == t.requests[k];
      assert !Overlap(t.requests[k], r);
    }
  }

  // ----- guards that a consistent state never reaches -----

  /** The pending-request check of `create_swap_request` never fires in a
      consistent state: a slot named by a PENDING request is SWAP_PENDING, so
      the status guards before it have already answered. */
  lemma PendingCheckUnreachable(t: Tables, caller: UserId, data: SwapRequestCreate)
    requires Consistent(t)
    ensures CreateSwapStep(t, caller, data).result != Err(SlotAlreadyPending)
  {
    var my, their := data.mySlotId, data.theirSlotId;
    if PendingOn(t, my) { PendingOnLocked(t, my); }
    if PendingOn(t, their) { PendingOnLocked(t, their); }
  }

  /** Responding to a request never finds its slots gone in a consistent state. */
  lemma RespondFindsSlots(t: Tables, caller: UserId, rid: int, response: SwapResponseUpdate)
    requires Consistent(t)
    ensures RespondStep(t, caller, rid, response).result != Err(SlotsNotFound)
  {
  }
}
