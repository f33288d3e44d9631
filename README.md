# SlotSwapper negotiation core in Dafny

SlotSwapper is a calendar service in which each user owns time slots (events).
A user can offer a slot as SWAPPABLE and propose to exchange it for another
user's offered slot. The other user accepts or rejects the proposal, and the
proposer may withdraw it while it is still pending. Accepting exchanges the
owners of the two slots.

This project models the core of that service:

- the two tables `events` and `swap_requests`;
- the request schemas that guard them;
- the route handlers that read and change them.

It then proves what the handlers promise, one call at a time and over any
sequence of calls.

Layout, one module per file:

- `outcomes.dfy` (`Outcomes`): the result type of a handler. There is one
  failure per HTTP error detail the handlers raise, each with its status class
  (404, 400, or 422 for a schema violation).
- `event_model.dfy`, `swap_request_model.dfy`: the two ORM models, their
  status enums and column defaults. The second file also holds the
  `ondelete="CASCADE"` rule of the slot foreign keys.
- `event_schemas.dfy`, `swap_schemas.dfy`: the request bodies and their
  validation rules (title length 1..200, end after start, positive slot ids).
- `store.dfy` (`Store`): the persisted state as a value (`Tables`). Ids come
  from per-table sequences that never reuse a key. The file also defines the
  `ORDER BY start_time` used by the slot listings, and `Database`, the session
  object whose fields the handlers change in place.
- `events_routes.dfy` (`EventRoutes`) and `swaps_routes.dfy` (`SwapRoutes`):
  every handler. The read-only handlers are functions or methods of the state.
  Every mutating handler exists in two forms.
  - A pure step function gives the new state and the answer (`CreateSwapStep`,
    …). Its contract lists the guards in source order, states that a failed
    call changes nothing, and spells out the complete effect of a successful
    call.
  - A method on `Database` mutates the fields as the handler does. It is proved
    equal to the step function.
- `invariants.dfy` (`Invariants`): the state invariants and their preservation
  by every handler.
  - `Consistent`: foreign keys hold. A PENDING request locks two distinct
    SWAP_PENDING slots, owned by its requester and its receiver. No two PENDING
    requests share a slot.
  - `LockExact`: every SWAP_PENDING slot is named by a PENDING request.
- `swap_properties.dfy`, `ledger_properties.dfy`: multi-call properties of the
  negotiation, and two behaviours of the update route.
- `traces.dfy` (`Traces`): arbitrary sequences of handler calls from an empty
  database, the invariants of every reachable state, and a concrete
  negotiation among three users.

Where the code does something a reader may not expect, the model follows the code:

- `update_event` (backend/app/api/routes/events.py:94) refuses changes to a
  SWAP_PENDING slot unless the patch itself sets SWAP_PENDING. It lets an
  owner set SWAP_PENDING on any free slot. `LedgerProperties.DirectLockBreaksLockExact`
  shows that such an update leaves a slot locked with no request behind it.
  `Traces.ReachableLockExact` holds only for call sequences without such
  updates.
- The update schema compares end with start only when the patch carries both
  (backend/app/schemas/event.py:30-36). An update that sends only an end is
  therefore committed even when it makes the stored interval end before it
  starts (`LedgerProperties.UpdateCanInvertInterval`). The response model
  re-runs the create-time validator on the stored row, so that call and every
  later listing that contains the row answer with a server error; see
  "Left out".
- Proposing a swap for a slot that is already locked fails with "Requested
  slot is not available for swapping" (or "Your slot must be marked as
  SWAPPABLE"), not with a conflict. The status guards run before the
  pending-request check. That check never fires in a consistent state
  (`Invariants.PendingCheckUnreachable`).
- Deleting a slot deletes every request that names it, whatever its status, as
  the foreign keys declare.

## Model

| member | source | states |
|---|---|---|
| SwapRequestModel.CascadeDelete | backend/app/models/swap_request.py:17-18 | after deleting a slot, exactly the requests that do not name it remain, unchanged, and none left names the slot |
| Store.OrderByStart | backend/app/api/routes/events.py:21 | the listing has one row per stored slot, each with its stored columns, no id twice, in non-decreasing start order |
| Store.FirstExistsWith | backend/app/api/routes/events.py:21 | every nonempty table has a row that sorts first, so ORDER BY start_time is defined |
| Store.Database.constructor | backend/app/models/event.py:17 | a fresh database is empty and both primary-key sequences start at 1 |
| EventRoutes.GetMyEvents | backend/app/api/routes/events.py:21 | the caller's events sorted by start: every row is the caller's and stored as listed, and every event of the caller is listed once |
| EventRoutes.GetEvent | backend/app/api/routes/events.py:34-45 | returns the row exactly when the id exists and belongs to the caller; otherwise "Event not found" (404), including for another user's event |
| EventRoutes.CreateEventStep | backend/app/api/routes/events.py:57-69 | an invalid body (title length, end not after start) is rejected with no change; otherwise a fresh id is allocated and the new slot is BUSY, owned by the caller, with the given title and times, all other rows unchanged |
| EventRoutes.CreateEvent | backend/app/api/routes/events.py:57-69 | the handler's in-place insertion yields the state and answer of CreateEventStep |
| EventSchemas.UpdateSchemaAgreesWithCreate | backend/app/schemas/event.py:7-36 | a patch that sends title, start and end is valid exactly when the same create body is; a patch that leaves out the start or the end is checked only on its title |
| EventSchemas.SetFields | backend/app/api/routes/events.py:101 | the dumped fields are exactly the fields the patch sent, with their values, each once, in declaration order |
| EventRoutes.SetAttr | backend/app/api/routes/events.py:103 | one setattr stores the field's value in its column and keeps every other column and the owner |
| EventRoutes.SetAttrs | backend/app/api/routes/events.py:102-103 | after the loop each column holds the value of the last field that names it, a column no field names is kept, and the owner never changes |
| EventRoutes.Patched | backend/app/api/routes/events.py:101-103 | the patched event holds every sent value, keeps every column that was not sent and the owner, and has start before end when a valid patch sends both |
| EventRoutes.SetAttrsAppend | backend/app/api/routes/events.py:102-103 | applying setattr for the fields of a then of b is applying them for a + b |
| EventRoutes.DumpedPatchIsPatched | backend/app/api/routes/events.py:101-103 | writing the set fields of a patch one by one gives the event with each present field replaced and each absent field and the owner kept |
| EventRoutes.ApplyPatch | backend/app/api/routes/events.py:101-103 | the setattr loop over the dumped patch yields the patched event; the owner never changes and an absent status is kept |
| EventRoutes.UpdateEventStep | backend/app/api/routes/events.py:82-108 | errors in source order (invalid patch, "Event not found", "Cannot modify event with pending swap request" when the slot is SWAP_PENDING and the patch does not set SWAP_PENDING), no change on error; on success only that slot changes, to the patched event |
| EventRoutes.UpdateEvent | backend/app/api/routes/events.py:82-108 | the handler's in-place update yields the state and answer of UpdateEventStep |
| EventRoutes.DeleteEventStep | backend/app/api/routes/events.py:120-141 | "Event not found" unless owned, "Cannot delete event with pending swap request" when SWAP_PENDING, no change on error; on success the slot is gone and the requests naming it are deleted by cascade |
| EventRoutes.DeleteEvent | backend/app/api/routes/events.py:120-141 | the handler's in-place deletion yields the state and answer of DeleteEventStep |
| SwapRoutes.SwappableSlots | backend/app/api/routes/swaps.py:28-31 | exactly the SWAPPABLE slots of other users, each once, sorted by start |
| SwapRoutes.CreateSwapStep | backend/app/api/routes/swaps.py:46-117 | each of the seven guards fires, in source order, exactly when the earlier ones pass and its condition holds, with no change; the call succeeds exactly when all seven guards pass, and then a PENDING request from the caller to the other slot's owner is stored under a fresh id and both slots, and only they, become SWAP_PENDING |
| SwapRoutes.CreateSwapRequest | backend/app/api/routes/swaps.py:46-117 | the handler's queries and in-place writes yield the state and answer of CreateSwapStep |
| SwapRoutes.RespondStep | backend/app/api/routes/swaps.py:134-181 | "Swap request not found" unless the caller is the receiver, "already been processed" unless PENDING, "One or both slots not found" when a slot is gone, no change on error; the call succeeds exactly when the caller is the receiver of a PENDING request whose two slots exist; accepting exchanges the two owners and sets both BUSY, rejecting sets both SWAPPABLE, and the request's status is recorded |
| SwapRoutes.RespondToSwapRequest | backend/app/api/routes/swaps.py:134-186 | the handler's temporary-variable exchange yields the state and answer of RespondStep |
| SwapRoutes.CancelStep | backend/app/api/routes/swaps.py:271-297 | "Swap request not found" unless the caller is the requester, "Can only cancel pending requests" unless PENDING, no change on error; the call succeeds exactly when the caller is the requester of a PENDING request; on success the request is deleted and those of its slots that still exist become SWAPPABLE |
| SwapRoutes.Release | backend/app/api/routes/swaps.py:289-295 | a slot that still exists becomes SWAPPABLE with every other column and its owner kept; a missing slot is skipped; every other slot and the set of ids are unchanged |
| SwapRoutes.CancelSwapRequest | backend/app/api/routes/swaps.py:271-298 | the handler's in-place cancellation yields the state and answer of CancelStep |
| SwapRoutes.IncomingSwapRequests | backend/app/api/routes/swaps.py:197-223 | exactly the PENDING requests addressed to the caller, each once, as stored |
| SwapRoutes.OutgoingSwapRequests | backend/app/api/routes/swaps.py:234-259 | exactly the requests the caller made, of any status, each once, as stored |
| Invariants.EmptyConsistent | backend/app/models/swap_request.py:16-21 | the empty database satisfies both invariants |
| Invariants.PendingOnLocked | backend/app/api/routes/swaps.py:112-114 | in a consistent state a slot named by a PENDING request is SWAP_PENDING |
| Invariants.LockedIffReferenced | backend/app/api/routes/swaps.py:112-114 | with both invariants a slot is SWAP_PENDING exactly when a PENDING request names it, and at most one does |
| Invariants.CreateEventPreserves | backend/app/api/routes/events.py:57-69 | creating an event keeps both invariants |
| Invariants.UpdateEventPreserves | backend/app/api/routes/events.py:93-103 | updating keeps Consistent; it keeps LockExact unless the patch writes SWAP_PENDING |
| Invariants.DeleteEventPreserves | backend/app/api/routes/events.py:131-138 | deleting (with the cascade) keeps both invariants |
| Invariants.CreateSwapPreserves | backend/app/api/routes/swaps.py:86-117 | proposing keeps both invariants: the new request locks two fresh SWAP_PENDING slots that no other PENDING request names |
| Invariants.RespondPreserves | backend/app/api/routes/swaps.py:165-181 | accepting or rejecting keeps both invariants |
| Invariants.CancelPreserves | backend/app/api/routes/swaps.py:288-297 | cancelling keeps both invariants |
| Invariants.CancelFreesSlots | backend/app/api/routes/swaps.py:288-297 | in a consistent state a cancel leaves both slots of the request SWAPPABLE and named by no PENDING request |
| Invariants.PositiveIdsOnlyChangeKind | backend/app/schemas/swap_request.py:6-8 | a proposal with a slot id below 1 fails with the schema error and no change; since no stored key is below 1, the lookup would have failed anyway |
| Invariants.PendingCheckUnreachable | backend/app/api/routes/swaps.py:86-101 | in a consistent state the "already have a pending swap request" error is never answered |
| Invariants.RespondFindsSlots | backend/app/api/routes/swaps.py:159-163 | in a consistent state responding never answers "One or both slots not found" |
| SwapProperties.ExchangeKeepsSize | backend/app/api/routes/swaps.py:170-172 | giving one slot away and receiving another keeps a holding's size |
| SwapProperties.AcceptKeepsHoldingSizes | backend/app/api/routes/swaps.py:165-176 | after an accept every user owns as many slots as before |
| SwapProperties.AcceptTransfersOwnership | backend/app/api/routes/swaps.py:165-176 | in a consistent state an accept hands the requester's slot to the receiver and the requested slot to the requester, both BUSY |
| SwapProperties.SecondResponseFails | backend/app/api/routes/swaps.py:145-149 | after a response, a second response to the same request fails with "already been processed" and changes nothing, and a cancel fails without change |
| SwapProperties.RejectThenRepropose | backend/app/api/routes/swaps.py:177-181 | after a rejection the same caller can propose the same pair again |
| SwapProperties.CreateThenCancelRestores | backend/app/api/routes/swaps.py:271-297 | cancelling a fresh proposal restores both tables; only the request sequence has advanced |
| LedgerProperties.UpdateCanInvertInterval | backend/app/schemas/event.py:30-36 | an owner's update that sends only an end at or before the stored start passes every guard and commits an inverted interval |
| LedgerProperties.DirectLockBreaksLockExact | backend/app/api/routes/events.py:94 | an owner's valid update that writes SWAP_PENDING on a free slot succeeds, and no request names that slot afterwards |
| LedgerProperties.LockedSlotStaysLocked | backend/app/api/routes/events.py:94-98 | a SWAP_PENDING slot cannot be deleted, and an update succeeds only when the patch keeps SWAP_PENDING, so the slot stays locked |
| Traces.ApplyPreserves | backend/app/api/routes/swaps.py:36-300 | any one call of the three swap handlers here or of the three mutating event handlers (events.py:48-141) keeps Consistent, and keeps LockExact unless it is a direct SWAP_PENDING update |
| Traces.ReachableConsistent | backend/app/api/routes/swaps.py:86-117 | every state reachable from an empty database is consistent: at most one PENDING request per slot, each locking its two slots |
| Traces.ReachableLockExact | backend/app/api/routes/swaps.py:86-117 | without direct SWAP_PENDING updates every reachable state also keeps LockExact |
| Traces.ReachableLockedIffReferenced | backend/app/api/routes/swaps.py:112-114 | in such states a slot is SWAP_PENDING exactly when a PENDING request names it |
| Traces.NegotiationScenario | backend/app/api/routes/swaps.py:46-176 | three users offer slots; before the proposal the third user's request for the first slot would succeed; after the first user's proposal both slots are SWAP_PENDING behind one PENDING request, the third user's request for the same slot fails with "Requested slot is not available for swapping" and changes nothing, and the receiver's accept exchanges the owners and marks both BUSY |
| Outcomes.Failure.Kind | backend/app/api/routes/swaps.py:51-163 | only a schema violation answers 422, and exactly the failed lookups answer 404; every other failure is a 400 |

## Left out

- Authentication: the current user is a parameter (`caller`). Token handling, the user table and `ondelete` cascades from users are not part of this model.
- Timestamps (`created_at`, `updated_at`) are not modelled. So `OutgoingSwapRequests` states no order; the source orders by `created_at` descending.
- `IncomingSwapRequests`, `OutgoingSwapRequests`: the joined titles and names of `SwapRequestDetailed`, and the "Unknown" fallback for a missing slot or user, are not modelled. The rows carry the request's own columns only.
- Date-times are integers (`Time`); time zones and the datetime parser are not modelled.
- An explicit `null` in an update body is treated as an absent field. The source would pass it to `setattr` and fail at the NOT NULL constraint on commit.
- Store.OrderByStart: rows with equal start times are ordered by id. The database leaves that order unspecified.
- Primary keys come from sequences that never reuse a key. SQLite without AUTOINCREMENT may reuse the largest deleted rowid.
- Deleting a slot cascades to its requests as the foreign keys declare. Whether the database enforces this (SQLite needs `PRAGMA foreign_keys`) is outside the model.
- Each handler call is one atomic step. Concurrent sessions, transaction isolation and commit failures are not modelled.
- LedgerProperties.UpdateCanInvertInterval: the model answers Ok once the change is committed. The response model `EventResponse` inherits the `end_time` validator of `EventBase` (backend/app/schemas/event.py:12-17, 39), so the HTTP caller receives a server error after the commit. Response validation is not modelled.
- EventRoutes.UpdateEventStep: likewise answers Ok for an end-only or start-only patch that inverts the interval, where the HTTP answer is a server error after the commit.
- EventRoutes.GetMyEvents: lists an inverted row like any other. The HTTP answer is a server error whenever such a row is among the caller's events.
- EventRoutes.GetEvent: returns an inverted row. The HTTP answer is a server error.
- SwapRoutes.SwappableSlots: lists an inverted SWAPPABLE row. The HTTP answer is then a server error for every other user who opens the listing.
- ORM rows are values in maps. Object identity in the session is not modelled, and neither are `db.refresh`, `response_model` serialisation (beyond the `end_time` validator noted above), or HTTP status codes other than the failure kind.
