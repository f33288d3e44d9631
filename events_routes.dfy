/** The event routes: owner-scoped read, create, update and delete of slots.
    Each mutating route is a step function on `Tables` (what the call does) and
    a handler method that makes the same change to a `Database` field by field. */
module EventRoutes {
  import opened Outcomes
  import opened EventModel
  import opened SwapRequestModel
  import opened EventSchemas
  import opened Store

  // ----- GET /events -----

  /** The caller's events, earliest start first. */
  function GetMyEvents(t: Tables, caller: UserId): (rows: seq<Row>)
    ensures SortedByStart(rows) && DistinctIds(rows)
    ensures forall i :: 0 <= i < |rows| ==>
      OwnedBy(t, caller, rows[i].id) && t.slots[rows[i].id] == rows[i].event
    ensures forall id :: OwnedBy(t, caller, id) ==>
      exists i :: 0 <= i < |rows| && rows[i].id == id
  {
    var mine := map id | id in t.slots && t.slots[id].owner == caller :: t.slots[id];
    assert forall id :: OwnedBy(t, caller, id) ==> id in mine;
    OrderByStart(mine)
  }

  // ----- GET /events/{id} -----

  /** A missing id and another user's id give the same answer. */
  function GetEvent(t: Tables, caller: UserId, id: int): (r: Result<Row>)
    ensures r.Ok? <==> OwnedBy(t, caller, id)
    ensures r.Ok? ==> r.value == Row(id, t.slots[id]) && r.value.event.owner == caller
    ensures r.Err? ==> r.failure == EventNotFound
  {
    if OwnedBy(t, caller, id) then Ok(Row(id, t.slots[id])) else Err(EventNotFound)
  }

  // ----- POST /events -----

  function CreateEventStep(t: Tables, caller: UserId, data: EventCreate): (s: Step<Row>)
    ensures s.result.Ok? <==> ValidCreate(data)
    ensures s.result.Err? ==> s == Step(t, Err(InvalidInput))
    ensures s.result.Ok? ==>
      var row := s.result.value;
      && row.event == Event(data.title, data.start, data.end, DefaultStatus, caller)
      && row.event.start < row.event.end && ValidTitle(row.event.title)
      && s.after.slots == t.slots[row.id := row.event]
      && s.after.requests == t.requests
      && (KeysAllocated(t) ==> row.id !in t.slots)
    ensures KeysAllocated(t) ==> KeysAllocated(s.after)
  {
    if !ValidCreate(data) then Step(t, Err(InvalidInput))
    else
      var id := t.nextEventId;
      var e := Event(data.title, data.start, data.end, Busy, caller);
      Step(t.(slots := t.slots[id := e], nextEventId := id + 1), Ok(Row(id, e)))
  }

  method CreateEvent(db: Database, caller: UserId, data: EventCreate) returns (r: Result<Row>)
    requires db.Valid()
    modifies db
    ensures db.Valid()
    ensures Step(db.State(), r) == CreateEventStep(old(db.State()), caller, data)
  {
    if !ValidCreate(data) {
      return Err(InvalidInput);
    }
    var id := db.nextEventId;
    var newEvent := Event(data.title, data.start, data.end, Busy, caller);
    db.slots := db.slots[id := newEvent];
    db.nextEventId := id + 1;
    r := Ok(Row(id, newEvent));
  }

  // ----- PUT /events/{id} -----

  /** The event stores the value this field carries. */
  predicate Holds(e: Event, f: FieldValue) {
    match f
    case TitleField(v) => e.title == v
    case StartField(v) => e.start == v
    case EndField(v) => e.end == v
    case StatusField(v) => e.status == v
  }

  /** The two events agree on the column at this declaration position. */
  predicate SameColumn(a: Event, b: Event, position: nat) {
    if position == 0 then a.title == b.title
    else if position == 1 then a.start == b.start
    else if position == 2 then a.end == b.end
    else a.status == b.status
  }

  /** `setattr(event, field, value)` for one sent field: the named column takes
      the value, every other column and the owner are kept. */
  function SetAttr(e: Event, field: FieldValue): (r: Event)
    ensures Holds(r, field) && r.owner == e.owner
    ensures forall k :: 0 <= k < 4 && k != Position(field) ==> SameColumn(e, r, k)
  {
    match field
    case TitleField(v) => e.(title := v)
    case StartField(v) => e.(start := v)
    case EndField(v) => e.(end := v)
    case StatusField(v) => e.(status := v)
  }

  /** The sent fields applied one after another, in order: the last write to a
      column wins, a column no field names is kept, and the owner never changes. */
  function SetAttrs(e: Event, fields: seq<FieldValue>): (r: Event)
    ensures r.owner == e.owner
    ensures forall i ::
              (&& 0 <= i < |fields|
               && (forall j :: i < j < |fields| ==> Position(fields[j]) != Position(fields[i])))
              ==> Holds(r, fields[i])
    ensures forall k ::
              (0 <= k < 4 && (forall i :: 0 <= i < |fields| ==> Position(fields[i]) != k))
              ==> SameColumn(e, r, k)
    decreases |fields|
  {
    if fields == [] then e
    else
      var init := fields[..|fields| - 1];
      var prev := SetAttrs(e, init);
      var r := SetAttr(prev, fields[|fields| - 1]);
      assert forall i :: 0 <= i < |init| ==> init[i] == fields[i];
      HoldsKept(prev, r, fields[|fields| - 1]);
      forall k | 0 <= k < 4 && (forall i :: 0 <= i < |fields| ==> Position(fields[i]) != k)
        ensures SameColumn(e, r, k)
      {
        assert Position(fields[|fields| - 1]) != k;
        assert forall i :: 0 <= i < |init| ==> Position(init[i]) != k;
        assert SameColumn(e, prev, k) && SameColumn(prev, r, k);
      }
      r
  }

  /** A column a later write does not name keeps what an earlier write stored. */
  lemma HoldsKept(prev: Event, r: Event, last: FieldValue)
    requires forall k :: 0 <= k < 4 && k != Position(last) ==> SameColumn(prev, r, k)
    ensures forall f :: Position(f) != Position(last) && Holds(prev, f) ==> Holds(r, f)
  {
    forall f | Position(f) != Position(last) && Holds(prev, f) ensures Holds(r, f) {
      assert SameColumn(prev, r, Position(f));
    }
  }

  /** The event after a patch: each sent field overwritten, every other field,
      and the owner, kept. */
  function Patched(e: Event, patch: EventUpdate): (r: Event)
    ensures r.owner == e.owner
    ensures forall f :: Sent(patch, f) ==> Holds(r, f)
    ensures forall k ::
              (0 <= k < 4 && (forall f :: Sent(patch, f) ==> Position(f) != k))
              ==> SameColumn(e, r, k)
    ensures ValidUpdate(patch) && patch.start.Some? && patch.end.Some? ==> r.start < r.end
  {
    var r := Event(patch.title.GetOr(e.title), patch.start.GetOr(e.start), patch.end.GetOr(e.end),
                   patch.status.GetOr(e.status), e.owner);
    forall k | 0 <= k < 4 && (forall f :: Sent(patch, f) ==> Position(f) != k)
      ensures SameColumn(e, r, k)
    {
      if k == 0 && patch.title.Some? { assert Sent(patch, TitleField(patch.title.value)); }
      if k == 1 && patch.start.Some? { assert Sent(patch, StartField(patch.start.value)); }
      if k == 2 && patch.end.Some? { assert Sent(patch, EndField(patch.end.value)); }
      if k == 3 && patch.status.Some? { assert Sent(patch, StatusField(patch.status.value)); }
    }
    r
  }

  lemma {:induction false} SetAttrsAppend(e: Event, a: seq<FieldValue>, b: seq<FieldValue>)
    ensures SetAttrs(e, a + b) == SetAttrs(SetAttrs(e, a), b)
    decreases |b|
  {
    if b == [] {
      assert a + b == a;
    } else {
      assert (a + b)[..|a + b| - 1] == a + b[..|b| - 1];
      SetAttrsAppend(e, a, b[..|b| - 1]);
    }
  }

  /** Applying the dumped fields in order is the same as the field-wise patch. */
  lemma DumpedPatchIsPatched(e: Event, patch: EventUpdate)
    ensures SetAttrs(e, SetFields(patch)) == Patched(e, patch)
  {
    var t := if patch.title.Some? then [TitleField(patch.title.value)] else [];
    var s := if patch.start.Some? then [StartField(patch.start.value)] else [];
    var en := if patch.end.Some? then [EndField(patch.end.value)] else [];
    var st := if patch.status.Some? then [StatusField(patch.status.value)] else [];
    assert SetFields(patch) == ((t + s) + en) + st;
    SetAttrsAppend(e, (t + s) + en, st);
    SetAttrsAppend(e, t + s, en);
    SetAttrsAppend(e, t, s);
    assert t != [] ==> t[..0] == [];
    assert s != [] ==> s[..0] == [];
    assert en != [] ==> en[..0] == [];
    assert st != [] ==> st[..0] == [];
  }

  /** The `setattr` loop over the sent fields. */
  method ApplyPatch(e: Event, patch: EventUpdate) returns (updated: Event)
    ensures updated == Patched(e, patch)
    ensures updated.owner == e.owner
    ensures patch.status.None? ==> updated.status == e.status
  {
    var fields := SetFields(patch);
    updated := e;
    for i := 0 to |fields|
      invariant updated == SetAttrs(e, fields[..i])
    {
      assert fields[..i + 1][..i] == fields[..i];
      updated := SetAttr(updated, fields[i]);
    }
    assert fields[..|fields|] == fields;
    DumpedPatchIsPatched(e, patch);
  }

  function UpdateEventStep(t: Tables, caller: UserId, id: int, patch: EventUpdate): (s: Step<Row>)
    ensures !ValidUpdate(patch) ==> s == Step(t, Err(InvalidInput))
    ensures ValidUpdate(patch) && !OwnedBy(t, caller, id) ==> s == Step(t, Err(EventNotFound))
    ensures ValidUpdate(patch) && OwnedBy(t, caller, id)
      && t.slots[id].status == SwapPending && patch.status != Some(SwapPending)
      ==> s == Step(t, Err(EventLockedForUpdate))
    ensures s.result.Ok? <==>
      (&& ValidUpdate(patch) && OwnedBy(t, caller, id)
       && (t.slots[id].status == SwapPending ==> patch.status == Some(SwapPending)))
    ensures s.result.Ok? ==>
      && s.after == t.(slots := t.slots[id := Patched(t.slots[id], patch)])
      && s.result.value == Row(id, s.after.slots[id])
      && s.after.slots[id].owner == caller
      && (t.slots[id].status == SwapPending ==> s.after.slots[id].status == SwapPending)
    ensures KeysAllocated(t) ==> KeysAllocated(s.after)
  {
    if !ValidUpdate(patch) then Step(t, Err(InvalidInput))
    else if !OwnedBy(t, caller, id) then Step(t, Err(EventNotFound))
    else if t.slots[id].status == SwapPending && patch.status != Some(SwapPending) then
      Step(t, Err(EventLockedForUpdate))
    else
      var e := Patched(t.slots[id], patch);
      Step(t.(slots := t.slots[id := e]), Ok(Row(id, e)))
  }

  method UpdateEvent(db: Database, caller: UserId, id: int, patch: EventUpdate) returns (r: Result<Row>)
    requires db.Valid()
    modifies db
    ensures db.Valid()
    ensures Step(db.State(), r) == UpdateEventStep(old(db.State()), caller, id, patch)
  {
    if !ValidUpdate(patch) {
      return Err(InvalidInput);
    }
    if !(id in db.slots && db.slots[id].owner == caller) {
      return Err(EventNotFound);
    }
    var event := db.slots[id];
    if event.status == SwapPending && patch.status != Some(SwapPending) {
      return Err(EventLockedForUpdate);
    }
    event := ApplyPatch(event, patch);
    db.slots := db.slots[id := event];
    r := Ok(Row(id, event));
  }

  // ----- DELETE /events/{id} -----

  function DeleteEventStep(t: Tables, caller: UserId, id: int): (s: Step<()>)
    ensures !OwnedBy(t, caller, id) ==> s == Step(t, Err(EventNotFound))
    ensures OwnedBy(t, caller, id) && t.slots[id].status == SwapPending
      ==> s == Step(t, Err(EventLockedForDelete))
    ensures s.result.Ok? <==> OwnedBy(t, caller, id) && t.slots[id].status != SwapPending
    ensures s.result.Ok? ==>
      && s.after.slots.Keys == t.slots.Keys - {id}
      && (forall k :: k in s.after.slots ==> s.after.slots[k] == t.slots[k])
      && s.after.requests == CascadeDelete(t.requests, id)
      && s.after.nextEventId == t.nextEventId && s.after.nextRequestId == t.nextRequestId
    ensures KeysAllocated(t) ==> KeysAllocated(s.after)
  {
    if !OwnedBy(t, caller, id) then Step(t, Err(EventNotFound))
    else if t.slots[id].status == SwapPending then Step(t, Err(EventLockedForDelete))
    else Step(t.(slots := t.slots - {id}, requests := CascadeDelete(t.requests, id)), Ok(()))
  }

  method DeleteEvent(db: Database, caller: UserId, id: int) returns (r: Result<()>)
    requires db.Valid()
    modifies db
    ensures db.Valid()
    ensures Step(db.State(), r) == DeleteEventStep(old(db.State()), caller, id)
  {
    if !(id in db.slots && db.slots[id].owner == caller) {
      return Err(EventNotFound);
    }
    if db.slots[id].status == SwapPending {
      return Err(EventLockedForDelete);
    }
    db.slots := db.slots - {id};
    db.requests := CascadeDelete(db.requests, id);  // ON DELETE CASCADE
    r := Ok(());
  }
}
