/** What the negotiation engine promises across calls: the owner exchange is a
    permutation, a processed request stays processed, and rejecting or
    withdrawing a proposal gives both slots back. */
module SwapProperties {
  import opened Outcomes
  import opened EventModel
  import opened SwapRequestModel
  import opened SwapSchemas
  import opened Store
  import opened SwapRoutes
  import opened Invariants

  const Accept := SwapResponseUpdate(true)
  const Reject := SwapResponseUpdate(false)

  /** The slots a user owns. */
  function Holdings(slots: map<int, Event>, u: UserId): set<int> {
    set k | k in slots && slots[k].owner == u
  }

  /** Handing `a` over and taking `b` in its place keeps a holding's size. */
  lemma ExchangeKeepsSize(s: set<int>, a: int, b: int)
    requires a in s && b !in s
    ensures |s - {a} + {b}| == |s|
  {
    var rest := s - {a};
    assert s == rest + {a};
    assert |s| == |rest| + 1;
    assert b !in rest;
    assert |rest + {b}| == |rest| + 1;
  }

  /** Accepting exchanges the owners of the two slots and nothing else, so every
      user holds as many slots afterwards as before. */
  lemma AcceptKeepsHoldingSizes(t: Tables, caller: UserId, rid: int, u: UserId)
    requires RespondStep(t, caller, rid, Accept).result.Ok?
    ensures |Holdings(RespondStep(t, caller, rid, Accept).after.slots, u)| == |Holdings(t.slots, u)|
  {
    var after := RespondStep(t, caller, rid, Accept).after;
    var r := t.requests[rid];
    var a, b := r.requesterSlot, r.requestedSlot;
    var A, B := t.slots[a].owner, t.slots[b].owner;
    var before, now := Holdings(t.slots, u), Holdings(after.slots, u);
    if a == b || A == B || (u != A && u != B) {
      assert now == before;
    } else if u == A {
      assert now == before - {a} + {b};
      ExchangeKeepsSize(before, a, b);
    } else {
      assert now == before - {b} + {a};
      ExchangeKeepsSize(before, b, a);
    }
  }

  /** In a consistent state, acceptance gives the requester's slot to the
      receiver and the requested slot to the requester, both BUSY. */
  lemma AcceptTransfersOwnership(t: Tables, caller: UserId, rid: int)
    requires Consistent(t)
    requires RespondStep(t, caller, rid, Accept).result.Ok?
    ensures var after := RespondStep(t, caller, rid, Accept).after;
      var r := t.requests[rid];
      && after.slots[r.requesterSlot] == t.slots[r.requesterSlot].(owner := r.receiver, status := Busy)
      && after.slots[r.requestedSlot] == t.slots[r.requestedSlot].(owner := r.requester, status := Busy)
      && after.requests[rid].status == Accepted
  {
    assert Locks(t, t.requests[rid]);
  }

  /** A processed request cannot be answered or withdrawn again, and the
      attempt changes nothing. */
  lemma SecondResponseFails(t: Tables, caller: UserId, rid: int, first: SwapResponseUpdate,
                            second: SwapResponseUpdate, anyone: UserId)
    requires RespondStep(t, caller, rid, first).result.Ok?
    ensures var after := RespondStep(t, caller, rid, first).after;
      && RespondStep(after, caller, rid, second) == Step(after, Err(AlreadyProcessed))
      && RespondStep(after, anyone, rid, second).after == after
      && RespondStep(after, anyone, rid, second).result.Err?
      && CancelStep(after, anyone, rid).after == after
      && CancelStep(after, anyone, rid).result.Err?
  {
    var after := RespondStep(t, caller, rid, first).after;
    assert after.requests[rid].status != Pending;
  }

  /** Rejection frees both slots: the same requester can propose the same pair
      again and succeed. */
  lemma RejectThenRepropose(t: Tables, caller: UserId, data: SwapRequestCreate)
    requires Consistent(t)
    requires CreateSwapStep(t, caller, data).result.Ok?
    ensures var created := CreateSwapStep(t, caller, data);
      var row := created.result.value;
      var rejected := RespondStep(created.after, row.request.receiver, row.id, Reject);
      && rejected.result.Ok?
      && CreateSwapStep(rejected.after, caller, data).result.Ok?
  {
    var created := CreateSwapStep(t, caller, data);
    var row := created.result.value;
    var rid := row.id;
    var t1 := created.after;
    CreateSwapPreserves(t, caller, data);
    var rejected := RespondStep(t1, row.request.receiver, rid, Reject);
    var t2 := rejected.after;
    var my, their := data.mySlotId, data.theirSlotId;
    assert Locks(t1, t1.requests[rid]);
    assert rejected.result.Ok?;
    assert OwnedBy(t2, caller, my) && t2.slots[my].status == Swappable;
    assert their in t2.slots && t2.slots[their].owner != caller && t2.slots[their].status == Swappable;
    forall k | k in t2.requests && t2.requests[k].status == Pending
      ensures !References(t2.requests[k], my) && !References(t2.requests[k], their)
    {
      assert k != rid;
      assert t2.requests[k] == t1.requests[k];
      assert !Overlap(t1.requests[k], t1.requests[rid]);
    }
    assert !PendingOn(t2, my) && !PendingOn(t2, their);
  }

  /** Withdrawing a fresh proposal puts both tables back as they were; only the
      request sequence has moved on. */
  lemma CreateThenCancelRestores(t: Tables, caller: UserId, data: SwapRequestCreate)
    requires KeysAllocated(t)
    requires CreateSwapStep(t, caller, data).result.Ok?
    ensures var created := CreateSwapStep(t, caller, data);
      CancelStep(created.after, caller, created.result.value.id)
        == Step(t.(nextRequestId := t.nextRequestId + 1), Ok(()))
  {
    var created := CreateSwapStep(t, caller, data);
    var rid := created.result.value.id;
    var t1 := created.after;
    var cancelled := CancelStep(t1, caller, rid);
    var t2 := cancelled.after;
    assert t2.requests == t.requests by {
      assert t2.requests.Keys == t.requests.Keys;
    }
    assert t2.slots == t.slots by {
      assert t2.slots.Keys == t.slots.Keys;
      forall k | k in t.slots ensures t2.slots[k] == t.slots[k] {
        if k == data.mySlotId || k == data.theirSlotId {
          assert t.slots[k].status == Swappable;
        }
      }
    }
  }
}
