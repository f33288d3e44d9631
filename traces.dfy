/** Sequences of handler calls from an empty database: every reachable state is
    consistent, and lock-exact as long as no update writes SWAP_PENDING. */
module Traces {
  import opened Outcomes
  import opened EventModel
  import opened SwapRequestModel
  import opened EventSchemas
  import opened SwapSchemas
  import opened Store
  import opened EventRoutes
  import opened SwapRoutes
  import opened Invariants

  /** One request to a mutating route, with the authenticated caller. */
  datatype Call =
    | CreateEventCall(caller: UserId, data: EventCreate)
    | UpdateEventCall(caller: UserId, id: int, patch: EventUpdate)
    | DeleteEventCall(caller: UserId, id: int)
    | CreateSwapCall(caller: UserId, swap: SwapRequestCreate)
    | RespondCall(caller: UserId, rid: int, response: SwapResponseUpdate)
    | CancelCall(caller: UserId, rid: int)

  function Apply(t: Tables, c: Call): Tables {
    match c
    case CreateEventCall(u, data) => CreateEventStep(t, u, data).after
    case UpdateEventCall(u, id, patch) => UpdateEventStep(t, u, id, patch).after
    case DeleteEventCall(u, id) => DeleteEventStep(t, u, id).after
    case CreateSwapCall(u, swap) => CreateSwapStep(t, u, swap).after
    case RespondCall(u, rid, response) => RespondStep(t, u, rid, response).after
    case CancelCall(u, rid) => CancelStep(t, u, rid).after
  }

  /** The calls executed one after another, each as one atomic step. */
  function Run(t: Tables, calls: seq<Call>): Tables
    decreases |calls|
  {
    if calls == [] then t else Apply(Run(t, calls[..|calls| - 1]), calls[|calls| - 1])
  }

  predicate DirectLock(c: Call) {
    c.UpdateEventCall? && WritesSwapPending(c.patch)
  }

  lemma ApplyPreserves(t: Tables, c: Call)
    requires Consistent(t)
    ensures Consistent(Apply(t, c))
    ensures LockExact(t) && !DirectLock(c) ==> LockExact(Apply(t, c))
  {
    match c
    case CreateEventCall(u, data) => CreateEventPreserves(t, u, data);
    case UpdateEventCall(u, id, patch) => UpdateEventPreserves(t, u, id, patch);
    case DeleteEventCall(u, id) => DeleteEventPreserves(t, u, id);
    case CreateSwapCall(u, swap) => CreateSwapPreserves(t, u, swap);
    case RespondCall(u, rid, response) => RespondPreserves(t, u, rid, response);
    case CancelCall(u, rid) => CancelPreserves(t, u, rid);
  }

  /** Every state the routes can reach keeps "at most one PENDING request per
      slot", and every PENDING request locks two existing slots of two
      different users. */
  lemma {:induction false} ReachableConsistent(calls: seq<Call>)
    ensures Consistent(Run(Empty, calls))
    decreases |calls|
  {
    if calls == [] {
      EmptyConsistent();
    } else {
      ReachableConsistent(calls[..|calls| - 1]);
      ApplyPreserves(Run(Empty, calls[..|calls| - 1]), calls[|calls| - 1]);
    }
  }

  /** Without direct SWAP_PENDING updates, a slot is SWAP_PENDING exactly when
      a PENDING request names it. */
  lemma {:induction false} ReachableLockExact(calls: seq<Call>)
    requires forall i :: 0 <= i < |calls| ==> !DirectLock(calls[i])
    ensures Consistent(Run(Empty, calls)) && LockExact(Run(Empty, calls))
    decreases |calls|
  {
    if calls == [] {
      EmptyConsistent();
    } else {
      ReachableLockExact(calls[..|calls| - 1]);
      ApplyPreserves(Run(Empty, calls[..|calls| - 1]), calls[|calls| - 1]);
    }
  }

  /** The same, slot by slot. */
  lemma ReachableLockedIffReferenced(calls: seq<Call>, s: int)
    requires forall i :: 0 <= i < |calls| ==> !DirectLock(calls[i])
    requires s in Run(Empty, calls).slots
    ensures Locked(Run(Empty, calls), s) <==> PendingOn(Run(Empty, calls), s)
  {
    ReachableLockExact(calls);
    LockedIffReferenced(Run(Empty, calls), s);
  }

  // ----- The end-to-end walkthrough: two users trade one slot each -----

  const Alice: UserId := 1
  const Bob: UserId := 2
  const Carol: UserId := 3

  const MarkSwappable := EventUpdate(None, None, None, Some(Swappable))

  /** Alice, Bob and Carol each create a slot and offer it. */
  function Offers(): seq<Call> {
    [ CreateEventCall(Alice, EventCreate("Team Meeting", 10, 11)),
      CreateEventCall(Bob, EventCreate("Focus Block", 14, 15)),
      CreateEventCall(Carol, EventCreate("Lunch", 12, 13)),
      UpdateEventCall(Alice, 1, MarkSwappable),
      UpdateEventCall(Bob, 2, MarkSwappable),
      UpdateEventCall(Carol, 3, MarkSwappable) ]
  }

  /** The offers, then Alice proposes her slot for Bob's. */
  function Negotiation(): seq<Call> {
    Offers() + [CreateSwapCall(Alice, SwapRequestCreate(1, 2))]
  }

  lemma RunSnoc(t: Tables, calls: seq<Call>, c: Call)
    ensures Run(t, calls + [c]) == Apply(Run(t, calls), c)
  {
    assert (calls + [c])[..|calls|] == calls;
  }

  /** The state the offers reach: three SWAPPABLE slots and no request. */
  const Offered: Tables := Tables(
    map[1 := Event("Team Meeting", 10, 11, Swappable, Alice),
        2 := Event("Focus Block", 14, 15, Swappable, Bob),
        3 := Event("Lunch", 12, 13, Swappable, Carol)],
    map[], 4, 1)

  /** The state after Alice's proposal. */
  const Proposed: Tables := Tables(
    map[1 := Event("Team Meeting", 10, 11, SwapPending, Alice),
        2 := Event("Focus Block", 14, 15, SwapPending, Bob),
        3 := Event("Lunch", 12, 13, Swappable, Carol)],
    map[1 := SwapRequest(1, 2, Alice, Bob, Pending)], 4, 2)

  lemma {:induction false} OffersReach()
    ensures Run(Empty, Offers()) == Offered
  {
    var calls := Offers();
    var t1 := Apply(Empty, calls[0]);
    assert t1 == Tables(map[1 := Event("Team Meeting", 10, 11, Busy, Alice)], map[], 2, 1);
    var t2 := Apply(t1, calls[1]);
    assert t2 == Tables(map[1 := Event("Team Meeting", 10, 11, Busy, Alice),
                            2 := Event("Focus Block", 14, 15, Busy, Bob)], map[], 3, 1);
    var t3 := Apply(t2, calls[2]);
    assert t3 == Tables(map[1 := Event("Team Meeting", 10, 11, Busy, Alice),
                            2 := Event("Focus Block", 14, 15, Busy, Bob),
                            3 := Event("Lunch", 12, 13, Busy, Carol)], map[], 4, 1);
    var t4 := Apply(t3, calls[3]);
    assert t4 == Tables(map[1 := Event("Team Meeting", 10, 11, Swappable, Alice),
                            2 := Event("Focus Block", 14, 15, Busy, Bob),
                            3 := Event("Lunch", 12, 13, Busy, Carol)], map[], 4, 1);
    var t5 := Apply(t4, calls[4]);
    assert t5 == Tables(map[1 := Event("Team Meeting", 10, 11, Swappable, Alice),
                            2 := Event("Focus Block", 14, 15, Swappable, Bob),
                            3 := Event("Lunch", 12, 13, Busy, Carol)], map[], 4, 1);
    var t6 := Apply(t5, calls[5]);
    assert t6 == Offered;
    var states := [Empty, t1, t2, t3, t4, t5, t6];
    for i := 0 to 6
      invariant Run(Empty, calls[..i]) == states[i]
    {
      assert calls[..i + 1] == calls[..i] + [calls[i]];
      RunSnoc(Empty, calls[..i], calls[i]);
    }
    assert calls[..6] == calls;
  }

  lemma ProposalReaches()
    ensures Run(Empty, Negotiation()) == Proposed
  {
    OffersReach();
    assert !PendingOn(Offered, 1) && !PendingOn(Offered, 2);
    assert CreateSwapStep(Offered, Alice, SwapRequestCreate(1, 2)).after == Proposed;
    RunSnoc(Empty, Offers(), CreateSwapCall(Alice, SwapRequestCreate(1, 2)));
  }

  /** Before the proposal Carol could have asked for Alice's slot; after it
      both slots are locked behind one PENDING request, so Carol's proposal is
      refused because Alice's slot is no longer SWAPPABLE, and Bob's
      acceptance hands each slot to the other user. */
  lemma NegotiationScenario()
    ensures CreateSwapStep(Run(Empty, Offers()), Carol, SwapRequestCreate(3, 1)).result.Ok?
    ensures var t := Run(Empty, Negotiation());
      && 1 in t.slots && 2 in t.slots && 3 in t.slots
      && t.slots[1].status == SwapPending && t.slots[2].status == SwapPending
      && t.slots[3].status == Swappable
      && t.requests == map[1 := SwapRequest(1, 2, Alice, Bob, Pending)]
      && CreateSwapStep(t, Carol, SwapRequestCreate(3, 1)) == Step(t, Err(RequestedSlotNotSwappable))
      && RespondStep(t, Bob, 1, SwapResponseUpdate(true)).after.slots
           == map[1 := Event("Team Meeting", 10, 11, Busy, Bob),
                  2 := Event("Focus Block", 14, 15, Busy, Alice),
                  3 := Event("Lunch", 12, 13, Swappable, Carol)]
      && RespondStep(t, Bob, 1, SwapResponseUpdate(true)).after.requests[1].status == Accepted
  {
    OffersReach();
    ProposalReaches();
    assert !PendingOn(Offered, 3) && !PendingOn(Offered, 1);
  }
}
