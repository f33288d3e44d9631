/** The swap routes: the marketplace query, the proposal lifecycle
    (create, respond, cancel) and the incoming/outgoing listings. */
module SwapRoutes {
  import opened Outcomes
  import opened EventModel
  import opened SwapRequestModel
  import opened SwapSchemas
  import opened Store

  /** Some PENDING request names `slot` on either side. */
  predicate PendingOn(t: Tables, slot: int) {
    exists k :: k in t.requests && t.requests[k].status == Pending && References(t.requests[k], slot)
  }

  // ----- GET /swappable-slots -----

  /** Other users' SWAPPABLE slots, earliest start first. */
  function SwappableSlots(t: Tables, caller: UserId): (rows: seq<Row>)
    ensures SortedByStart(rows) && DistinctIds(rows)
    ensures forall i :: 0 <= i < |rows| ==>
      && rows[i].id in t.slots && t.slots[rows[i].id] == rows[i].event
      && rows[i].event.status == Swappable && rows[i].event.owner != caller
    ensures forall id :: id in t.slots && t.slots[id].status == Swappable && t.slots[id].owner != caller ==>
      exists i :: 0 <= i < |rows| && rows[i].id == id
  {
    var offered := map id | id in t.slots && t.slots[id].status == Swappable && t.slots[id].owner != caller
                         :: t.slots[id];
    assert forall id :: id in t.slots && t.slots[id].status == Swappable && t.slots[id].owner != caller
                        ==> id in offered;
    OrderByStart(offered)
  }

  // ----- POST /swap-request -----

  /** The guards run in source order; the first that fails decides the error,
      and a failed call changes nothing. */
  function CreateSwapStep(t: Tables, caller: UserId, data: SwapRequestCreate): (s: Step<RequestRow>)
    ensures s.result.Err? ==> s.after == t
    ensures s.result.Ok? <==>
      (&& ValidSwapCreate(data) && OwnedBy(t, caller, data.mySlotId)
       && t.slots[data.mySlotId].status == Swappable
       && data.theirSlotId in t.slots && t.slots[data.theirSlotId].owner != caller
       && t.slots[data.theirSlotId].status == Swappable
       && !PendingOn(t, data.mySlotId) && !PendingOn(t, data.theirSlotId))
    ensures !ValidSwapCreate(data) ==> s.result == Err(InvalidInput)
    ensures ValidSwapCreate(data) && !OwnedBy(t, caller, data.mySlotId)
      ==> s.result == Err(YourSlotNotFound)
    ensures ValidSwapCreate(data) && OwnedBy(t, caller, data.mySlotId)
      && t.slots[data.mySlotId].status != Swappable
      ==> s.result == Err(YourSlotNotSwappable)
    ensures ValidSwapCreate(data) && OwnedBy(t, caller, data.mySlotId)
      && t.slots[data.mySlotId].status == Swappable && data.theirSlotId !in t.slots
      ==> s.result == Err(RequestedSlotNotFound)
    ensures ValidSwapCreate(data) && OwnedBy(t, caller, data.mySlotId)
      && t.slots[data.mySlotId].status == Swappable && OwnedBy(t, caller, data.theirSlotId)
      ==> s.result == Err(OwnSlotRequested)
    ensures ValidSwapCreate(data) && OwnedBy(t, caller, data.mySlotId)
      && t.slots[data.mySlotId].status == Swappable
      && data.theirSlotId in t.slots && t.slots[data.theirSlotId].owner != caller
      && t.slots[data.theirSlotId].status != Swappable
      ==> s.result == Err(RequestedSlotNotSwappable)
    ensures ValidSwapCreate(data) && OwnedBy(t, caller, data.mySlotId)
      && t.slots[data.mySlotId].status == Swappable
      && data.theirSlotId in t.slots && t.slots[data.theirSlotId].owner != caller
      && t.slots[data.theirSlotId].status == Swappable
      && (PendingOn(t, data.mySlotId) || PendingOn(t, data.theirSlotId))
      ==> s.result == Err(SlotAlreadyPending)
    ensures s.result.Ok? ==>
      var my, their := data.mySlotId, data.theirSlotId;
      var row := s.result.value;
      && OwnedBy(t, caller, my) && their in t.slots && my != their
      && !PendingOn(t, my) && !PendingOn(t, their)
      && row.request == SwapRequest(my, their, caller, t.slots[their].owner, DefaultRequestStatus)
      && row.request.requester != row.request.receiver
      && s.after.requests == t.requests[row.id := row.request]
      && (KeysAllocated(t) ==> row.id !in t.requests)
      && s.after.slots.Keys == t.slots.Keys
      && s.after.slots[my] == t.slots[my].(status := SwapPending)
      && s.after.slots[their] == t.slots[their].(status := SwapPending)
      && (forall k :: k in t.slots && k != my && k != their ==> s.after.slots[k] == t.slots[k])
      && s.after.nextEventId == t.nextEventId
    ensures KeysAllocated(t) ==> KeysAllocated(s.after)
  {
    var my, their := data.mySlotId, data.theirSlotId;
    if !ValidSwapCreate(data) then Step(t, Err(InvalidInput))
    else if !OwnedBy(t, caller, my) then Step(t, Err(YourSlotNotFound))
    else if t.slots[my].status != Swappable then Step(t, Err(YourSlotNotSwappable))
    else if their !in t.slots then Step(t, Err(RequestedSlotNotFound))
    else if t.slots[their].owner == caller then Step(t, Err(OwnSlotRequested))
    else if t.slots[their].status != Swappable then Step(t, Err(RequestedSlotNotSwappable))
    else if PendingOn(t, my) || PendingOn(t, their) then Step(t, Err(SlotAlreadyPending))
    else
      var id := t.nextRequestId;
      var request := SwapRequest(my, their, caller, t.slots[their].owner, Pending);
      var slots := t.slots[my := t.slots[my].(status := SwapPending)]
                          [their := t.slots[their].(status := SwapPending)];
      Step(t.(slots := slots, requests := t.requests[id := request], nextRequestId := id + 1),
           Ok(RequestRow(id, request)))
  }

  method CreateSwapRequest(db: Database, caller: UserId, data: SwapRequestCreate) returns (r: Result<RequestRow>)
    requires db.Valid()
    modifies db
    ensures db.Valid()
    ensures Step(db.State(), r) == CreateSwapStep(old(db.State()), caller, data)
  {
    if !ValidSwapCreate(data) {
      return Err(InvalidInput);
    }
    var my, their := data.mySlotId, data.theirSlotId;
    if !(my in db.slots && db.slots[my].owner == caller) {
      return Err(YourSlotNotFound);
    }
    if db.slots[my].status != Swappable {
      return Err(YourSlotNotSwappable);
    }
    if their !in db.slots {
      return Err(RequestedSlotNotFound);
    }
    if db.slots[their].owner == caller {
      return Err(OwnSlotRequested);
    }
    if db.slots[their].status != Swappable {
      return Err(RequestedSlotNotSwappable);
    }
    var existing := exists k :: (k in db.requests && db.requests[k].status == Pending
      && (db.requests[k].requesterSlot == my || db.requests[k].requestedSlot == my
          || db.requests[k].requesterSlot == their || db.requests[k].requestedSlot == their));
    if existing {
      return Err(SlotAlreadyPending);
    }
    var id := db.nextRequestId;
    var request := SwapRequest(my, their, caller, db.slots[their].owner, Pending);
    db.slots := db.slots[my := db.slots[my].(status := SwapPending)];
    db.slots := db.slots[their := db.slots[their].(status := SwapPending)];
    db.requests := db.requests[id := request];
    db.nextRequestId := id + 1;
    r := Ok(RequestRow(id, request));
  }

  // ----- POST /swap-response/{id} -----

  function RespondStep(t: Tables, caller: UserId, rid: int, response: SwapResponseUpdate): (s: Step<RequestRow>)
    ensures s.result.Err? ==> s.after == t
    ensures s.result.Ok? <==>
      (&& rid in t.requests && t.requests[rid].receiver == caller
       && t.requests[rid].status == Pending
       && t.requests[rid].requesterSlot in t.slots && t.requests[rid].requestedSlot in t.slots)
    ensures !(rid in t.requests && t.requests[rid].receiver == caller)
      ==> s.result == Err(RequestNotFound)
    ensures rid in t.requests && t.requests[rid].receiver == caller && t.requests[rid].status != Pending
      ==> s.result == Err(AlreadyProcessed)
    ensures rid in t.requests && t.requests[rid].receiver == caller && t.requests[rid].status == Pending
      && (t.requests[rid].requesterSlot !in t.slots || t.requests[rid].requestedSlot !in t.slots)
      ==> s.result == Err(SlotsNotFound)
    ensures s.result.Ok? ==>
      var r := t.requests[rid];
      var a, b := r.requesterSlot, r.requestedSlot;
      && rid in t.requests && r.receiver == caller && r.status == Pending
      && a in t.slots && b in t.slots
      && s.after.requests == t.requests[rid := r.(status := if response.accept then Accepted else Rejected)]
      && s.result.value == RequestRow(rid, s.after.requests[rid])
      && s.after.slots.Keys == t.slots.Keys
      && (forall k :: k in t.slots && k != a && k != b ==> s.after.slots[k] == t.slots[k])
      && (response.accept ==>
            && s.after.slots[a] == t.slots[a].(owner := t.slots[b].owner, status := Busy)
            && s.after.slots[b] == t.slots[b].(owner := t.slots[a].owner, status := Busy))
      && (!response.accept ==>
            && s.after.slots[a] == t.slots[a].(status := Swappable)
            && s.after.slots[b] == t.slots[b].(status := Swappable))
      && s.after.nextEventId == t.nextEventId && s.after.nextRequestId == t.nextRequestId
  {
    if !(rid in t.requests && t.requests[rid].receiver == caller) then Step(t, Err(RequestNotFound))
    else
      var r := t.requests[rid];
      var a, b := r.requesterSlot, r.requestedSlot;
      if r.status != Pending then Step(t, Err(AlreadyProcessed))
      else if a !in t.slots || b !in t.slots then Step(t, Err(SlotsNotFound))
      else if response.accept then
        var slots := t.slots[a := t.slots[a].(owner := t.slots[b].owner, status := Busy)]
                            [b := t.slots[b].(owner := t.slots[a].owner, status := Busy)];
        var requests := t.requests[rid := r.(status := Accepted)];
        Step(t.(slots := slots, requests := requests), Ok(RequestRow(rid, requests[rid])))
      else
        var slots := t.slots[a := t.slots[a].(status := Swappable)]
                            [b := t.slots[b].(status := Swappable)];
        var requests := t.requests[rid := r.(status := Rejected)];
        Step(t.(slots := slots, requests := requests), Ok(RequestRow(rid, requests[rid])))
  }

  method RespondToSwapRequest(db: Database, caller: UserId, rid: int, response: SwapResponseUpdate)
    returns (r: Result<RequestRow>)
    requires db.Valid()
    modifies db
    ensures db.Valid()
    ensures Step(db.State(), r) == RespondStep(old(db.State()), caller, rid, response)
  {
    if !(rid in db.requests && db.requests[rid].receiver == caller) {
      return Err(RequestNotFound);
    }
    var request := db.requests[rid];
    if request.status != Pending {
      return Err(AlreadyProcessed);
    }
    var a, b := request.requesterSlot, request.requestedSlot;
    if a !in db.slots || b !in db.slots {
      return Err(SlotsNotFound);
    }
    if response.accept {
      db.requests := db.requests[rid := request.(status := Accepted)];
      var tempUserId := db.slots[a].owner;
      db.slots := db.slots[a := db.slots[a].(owner := db.slots[b].owner)];
      db.slots := db.slots[b := db.slots[b].(owner := tempUserId)];
      db.slots := db.slots[a := db.slots[a].(status := Busy)];
      db.slots := db.slots[b := db.slots[b].(status := Busy)];
    } else {
      db.requests := db.requests[rid := request.(status := Rejected)];
      db.slots := db.slots[a := db.slots[a].(status := Swappable)];
      db.slots := db.slots[b := db.slots[b].(status := Swappable)];
    }
    r := Ok(RequestRow(rid, db.requests[rid]));
  }

  // ----- DELETE /swap-request/{id} -----

  /** The slot set back to SWAPPABLE, when it still exists. */
  function Release(slots: map<int, Event>, k: int): (released: map<int, Event>)
    ensures released.Keys == slots.Keys
    ensures k in slots ==> released[k] == slots[k].(status := Swappable)
    ensures forall j :: j in slots && j != k ==> released[j] == slots[j]
  {
    if k in slots then slots[k := slots[k].(status := Swappable)] else slots
  }

  function CancelStep(t: Tables, caller: UserId, rid: int): (s: Step<()>)
    ensures s.result.Err? ==> s.after == t
    ensures s.result.Ok? <==>
      (rid in t.requests && t.requests[rid].requester == caller && t.requests[rid].status == Pending)
    ensures !(rid in t.requests && t.requests[rid].requester == caller)
      ==> s.result == Err(RequestNotFound)
    ensures rid in t.requests && t.requests[rid].requester == caller && t.requests[rid].status != Pending
      ==> s.result == Err(CancelNotPending)
    ensures s.result.Ok? ==>
      var r := t.requests[rid];
      var a, b := r.requesterSlot, r.requestedSlot;
      && rid in t.requests && r.requester == caller && r.status == Pending
      && s.after.requests.Keys == t.requests.Keys - {rid}
      && (forall k :: k in s.after.requests ==> s.after.requests[k] == t.requests[k])
      && s.after.slots.Keys == t.slots.Keys
      && (forall k :: k in t.slots && k != a && k != b ==> s.after.slots[k] == t.slots[k])
      && (forall k :: k in t.slots && (k == a || k == b) ==> s.after.slots[k] == t.slots[k].(status := Swappable))
      && s.after.nextEventId == t.nextEventId && s.after.nextRequestId == t.nextRequestId
  {
    if !(rid in t.requests && t.requests[rid].requester == caller) then Step(t, Err(RequestNotFound))
    else
      var r := t.requests[rid];
      if r.status != Pending then Step(t, Err(CancelNotPending))
      else
        var slots := Release(Release(t.slots, r.requesterSlot), r.requestedSlot);
        Step(t.(slots := slots, requests := t.requests - {rid}), Ok(()))
  }

  method CancelSwapRequest(db: Database, caller: UserId, rid: int) returns (r: Result<()>)
    requires db.Valid()
    modifies db
    ensures db.Valid()
    ensures Step(db.State(), r) == CancelStep(old(db.State()), caller, rid)
  {
    if !(rid in db.requests && db.requests[rid].requester == caller) {
      return Err(RequestNotFound);
    }
    var request := db.requests[rid];
    if request.status != Pending {
      return Err(CancelNotPending);
    }
    var a, b := request.requesterSlot, request.requestedSlot;
    if a in db.slots {
      db.slots := db.slots[a := db.slots[a].(status := Swappable)];
    }
    if b in db.slots {
      db.slots := db.slots[b := db.slots[b].(status := Swappable)];
    }
    db.requests := db.requests - {rid};
    r := Ok(());
  }

  // ----- GET /swap-requests/incoming and /outgoing -----

  predicate DistinctRequestIds(rows: seq<RequestRow>) {
    forall i, j :: 0 <= i < j < |rows| ==> rows[i].id != rows[j].id
  }

  predicate IsIncoming(r: SwapRequest, caller: UserId) {
    r.receiver == caller && r.status == Pending
  }

  /** The PENDING requests addressed to the caller, each once (the query
      fixes no order). */
  method IncomingSwapRequests(db: Database, caller: UserId) returns (rows: seq<RequestRow>)
    ensures DistinctRequestIds(rows)
    ensures forall i :: 0 <= i < |rows| ==>
      rows[i].id in db.requests && db.requests[rows[i].id] == rows[i].request
      && IsIncoming(rows[i].request, caller)
    ensures forall k :: k in db.requests && IsIncoming(db.requests[k], caller) ==>
      exists i :: 0 <= i < |rows| && rows[i].id == k
  {
    var todo := set k | k in db.requests && IsIncoming(db.requests[k], caller);
    rows := [];
    while todo != {}
      invariant forall k :: k in todo ==> k in db.requests && IsIncoming(db.requests[k], caller)
      invariant DistinctRequestIds(rows)
      invariant forall i :: 0 <= i < |rows| ==>
        rows[i].id in db.requests && db.requests[rows[i].id] == rows[i].request
        && IsIncoming(rows[i].request, caller) && rows[i].id !in todo
      invariant forall k :: k in db.requests && IsIncoming(db.requests[k], caller) ==>
        k in todo || exists i :: 0 <= i < |rows| && rows[i].id == k
      decreases |todo|
    {
      HasElement(todo);
      var k :| k in todo;
      var before := rows;
      rows := rows + [RequestRow(k, db.requests[k])];
      assert rows[|before|].id == k;
      assert forall i :: 0 <= i < |before| ==> rows[i] == before[i];
      todo := todo - {k};
    }
  }

  /** Every request the caller made, whatever its status, each once. */
  method OutgoingSwapRequests(db: Database, caller: UserId) returns (rows: seq<RequestRow>)
    ensures DistinctRequestIds(rows)
    ensures forall i :: 0 <= i < |rows| ==>
      rows[i].id in db.requests && db.requests[rows[i].id] == rows[i].request
      && rows[i].request.requester == caller
    ensures forall k :: k in db.requests && db.requests[k].requester == caller ==>
      exists i :: 0 <= i < |rows| && rows[i].id == k
  {
    var todo := set k | k in db.requests && db.requests[k].requester == caller;
    rows := [];
    while todo != {}
      invariant forall k :: k in todo ==> k in db.requests && db.requests[k].requester == caller
      invariant DistinctRequestIds(rows)
      invariant forall i :: 0 <= i < |rows| ==>
        rows[i].id in db.requests && db.requests[rows[i].id] == rows[i].request
        && rows[i].request.requester == caller && rows[i].id !in todo
      invariant forall k :: k in db.requests && db.requests[k].requester == caller ==>
        k in todo || exists i :: 0 <= i < |rows| && rows[i].id == k
      decreases |todo|
    {
      HasElement(todo);
      var k :| k in todo;
      var before := rows;
      rows := rows + [RequestRow(k, db.requests[k])];
      assert rows[|before|].id == k;
      assert forall i :: 0 <= i < |before| ==> rows[i] == before[i];
      todo := todo - {k};
    }
  }
}
