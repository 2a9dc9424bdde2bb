# Slot swapping: the swap-negotiation core

SlotSwapper lets users publish time slots and trade them with each other.
A slot is an **Event** document with a title, start and end times, an owner
and a status: BUSY, SWAPPABLE or SWAP_PENDING. A trade is a **SwapRequest**
document that ties the requester's slot (`mySlot`) to the responder's slot
(`theirSlot`). Its status is PENDING, ACCEPTED or REJECTED.

The project models the backend's handling of these two collections:

- **Proposing a swap** (`requestSwap`). This is a single MongoDB
  transaction: both slots must be SWAPPABLE and must belong to different
  users. It creates a PENDING request and marks both slots SWAP_PENDING.
- **Answering a swap** (`respondSwap`). Only the responder may answer, and
  only while the request is PENDING. A rejection puts both slots back to
  SWAPPABLE. An acceptance exchanges the two owners and makes both slots
  BUSY.
- **Queries.** The marketplace (`getSwappableSlots`), the caller's own slots
  (`getMyEvents`) and the caller's incoming and outgoing requests
  (`getMySwapRequests`).
- **Owner-scoped slot CRUD** (`createEvent`, `updateEvent`, `deleteEvent`).
- **The two Mongoose schemas.** Required fields, status enumerations,
  defaults, and the trimmed title.

## How the model is organised

- `common.dfy`
  - Ids: an `ObjectId` is compared only for equality. The store's counter
    mints fresh ones.
  - `Option`, `Filter` (a `find` in natural order) and `FindFirst` (a
    `findOne`).
- `event_model.dfy` and `swap_request_model.dfy`
  - The document types and the status enumerations as datatypes. A status
    outside the enumeration cannot be represented.
  - Document creation with validation: `NewSlot` and `NewSwapRequest`.
  - JavaScript's `trim`.
- `store.dfy`
  - The two collections as sequences in natural order, plus the id
    generator, together forming `Store`.
  - The error responses as `ApiError`, with each HTTP status in a comment.
  - `findById`, `findOne`, `updateMany` and `.sort({ startTime: 1 })`.
  - The cross-record invariant.
  - A `Database` class whose fields the controller methods update.
- `swap_controller.dfy` and `event_controller.dfy`
  - One controller operation per pair of members.
  - A pure transition function such as `Propose` gives the effect of one
    call as a `Step` (the committed store plus the response). When the
    response is an error, the store is the old one, which is how the model
    captures the transaction's all-or-nothing commit.
  - A method such as `RequestSwap` carries the call out step by step on a
    `Database`, as the controller does. Its postcondition ties the new
    database state and the response to the transition function.
  - Lemmas state what each call checks, in which order, and what it
    changes.
- `api.dfy`
  - The state-changing calls as one datatype, `Call`. `Run` applies any
    sequence of them to a store.
  - Lemmas about what no sequence of later calls can undo.

### The slot/request invariant

The intended invariant is that a slot is SWAP_PENDING if and only if
exactly one PENDING request names it (`Store.PendingIffOneRequest`). Read literally, this is not
preserved by `requestSwap`: a SWAPPABLE slot named by two PENDING requests
satisfies it, and a proposal on that slot is accepted and leaves it
SWAP_PENDING with three (`SwapController.PendingIffAloneIsNotPreserved`).

The model therefore proves a stronger invariant, `Store.Consistent`. It says
that the number of PENDING requests naming a slot is 1 if the slot is
SWAP_PENDING and 0 otherwise. `Consistent` implies the literal form, holds
for the empty store, and is preserved by propose, respond, create (unless
the body asks for SWAP_PENDING), delete, and any update that does not move a
slot into or out of SWAP_PENDING. Along with it the model keeps
`Store.WellFormed`: ids are unique in each collection, and every id in the
store was issued by the generator. Acceptance needs unique slot ids to
exchange exactly two owners.

### Where the code departs from the intended behaviour

The model follows the code in each of these cases.

- **Error kinds.** The intended error kinds are Forbidden, InvalidOperation
  and Conflict. The code answers as follows:
  - 404 "Slot not found" when the caller does not own `mySlot`.
  - 400 for a self swap.
  - 400 for slots that are not SWAPPABLE.
  - 400 for an answer to a request that is no longer PENDING.
  - 403 only for a caller who is not the responder.
- **No SWAP_PENDING guard on update and delete.** Update and delete are
  meant to refuse SWAP_PENDING slots. `updateEvent` and `deleteEvent` have
  no such guard, and neither does the model.
  - `EventController.UpdateOfPendingSlotBreaksInvariant` shows that a
    status change on a SWAP_PENDING slot (what the dashboard's marketplace
    toggle sends) breaks the invariant.
  - `Api.DeleteOfPendingSlotStrandsRequest` shows what deleting either slot
    of a PENDING request does. After the deletion and any sequence of later
    calls, the request is still PENDING. Every answer to it fails: the
    responder gets "Slots missing" and anyone else "Not authorized".
  - `EventController.DeleteLeavesOtherSlotPending` adds: when the store
    satisfied the invariant before the deletion, the other slot is still
    SWAP_PENDING afterwards, and the stranded request is the only PENDING
    request naming it. In a store that did not satisfy the invariant,
    another PENDING request on that slot can still put it back on the
    marketplace.
- **Initial status.** A slot is meant to be created BUSY. `createEvent`
  stores any status of the enumeration that the body supplies, SWAP_PENDING
  included, and defaults to BUSY only when the status is blank. A status
  outside the enumeration fails validation (`EventController.CreateValidation`).
  `EventController.CreatePendingBreaksInvariant` shows what creating a
  SWAP_PENDING slot does to the invariant.

## Model

| member | source | states |
|---|---|---|
| EventModel.ParseStatus | backend/models/Event.js:8-10 | a status string is accepted exactly when it is BUSY, SWAPPABLE or SWAP_PENDING, and the parsed status carries that name |
| EventModel.StatusNameRoundTrip | backend/models/Event.js:8-10 | each of the three statuses is stored under a name that parses back to it |
| EventModel.Trim | backend/models/Event.js:5 | the stored title is never longer than the input and neither starts nor ends with white space |
| EventModel.TrimShape | backend/models/Event.js:5 | the stored title is the input with leading and trailing white space removed: the slice of the input after its leading white space, with everything cut on either side white space |
| EventModel.TrimEmpty | backend/models/Event.js:5 | a title trims to the empty string exactly when it is all white space |
| EventModel.TrimIdempotent | backend/models/Event.js:5 | trimming an already trimmed title changes nothing |
| EventModel.NewSlot | backend/models/Event.js:5-17 | a document validates exactly when the title is present and not blank after trimming, both times and the owner are present, and any given status is in the enumeration; the stored slot has the trimmed title, the given fields, and status BUSY when none is given, and passes the validation `save` repeats |
| SwapRequestModel.NewSwapRequest | backend/models/SwapRequest.js:5-12 | a request validates exactly when all four references are given; the stored request has them, and status PENDING when none is given |
| Store.FindSlot | backend/controllers/swapController.js:35 | `findById`: the position of the first slot with that id, and none exactly when no slot has it |
| Store.FindOwnedSlot | backend/controllers/swapController.js:34 | `findOne({ _id, owner })`: the first slot with that id and owner, and none exactly when the caller owns no slot with that id |
| Store.FindRequest | backend/controllers/swapController.js:87 | `findById` on requests: the first request with that id, and none exactly when there is none |
| Store.SetStatusWhere | backend/controllers/swapController.js:61-65 | `updateMany` with `$in` and `$set: { status }` writes only the status field: every slot keeps all its other fields, a slot whose id is listed has the new status, and any other slot keeps its old status |
| Store.SortByStart | backend/controllers/swapController.js:14 | `.sort({ startTime: 1 })`: the result is ascending in start time and a permutation of the input |
| Store.ConsistentGivesPendingIff | backend/controllers/swapController.js:47-65 | the invariant the model keeps implies the intended "SWAP_PENDING iff exactly one PENDING request names the slot" |
| Store.WellFormedEmpty | backend/models/Event.js:3-20 | the base case of the store invariants: the empty database, before any document and its `_id` exist, is well-formed and consistent |
| SwapController.GetSwappableSlots | backend/controllers/swapController.js:6-20 | the marketplace holds exactly the SWAPPABLE slots not owned by the caller (all SWAPPABLE slots without a caller), each as often as stored, in ascending start time |
| SwapController.GetMySwapRequests | backend/controllers/swapController.js:142-155 | incoming requests are exactly those whose responder is the caller, outgoing ones exactly those whose requester is the caller, each as often as it is stored |
| SwapController.ProposeListsRequestLast | backend/controllers/swapController.js:145-150 | both lists keep the collection's natural order: after a successful proposal the new request comes last in its responder's incoming list and in its requester's outgoing list, and every other list is unchanged |
| SwapController.Propose | backend/controllers/swapController.js:24-76 | a proposal that fails leaves both collections and the id generator as they were |
| SwapController.RequestSwap | backend/controllers/swapController.js:23-76 | the controller's reads, checks, create, `updateMany` and commit produce exactly the store and response `Propose` gives |
| SwapController.ProposeMissingIds | backend/controllers/swapController.js:30-32 | a missing slot id is "mySlotId and theirSlotId are required" (400), with no change |
| SwapController.ProposeSlotNotFound | backend/controllers/swapController.js:34-40 | when the caller owns no slot `mySlotId` or no slot `theirSlotId` exists, the result is "Slot not found" (404), with no change |
| SwapController.ProposeSelfSwap | backend/controllers/swapController.js:42-45 | proposing one of the caller's slots for another of the caller's slots is "Cannot swap with yourself", with no change |
| SwapController.ProposeSameSlotFails | backend/controllers/swapController.js:34-45 | the same id on both sides always fails, as "Slot not found" or "Cannot swap with yourself", with no change |
| SwapController.ProposeNotSwappable | backend/controllers/swapController.js:47-50 | once ownership checks pass, a slot that is not SWAPPABLE on either side gives "Slots are not swappable", with no change |
| SwapController.ProposeSucceeds | backend/controllers/swapController.js:52-65 | when every check passes, exactly one PENDING request is appended from the caller to the other slot's owner naming both slots under a fresh id, exactly those two slots become SWAP_PENDING, and nothing else changes |
| SwapController.ProposeEffect | backend/controllers/swapController.js:30-65 | a successful proposal had two distinct ids, the caller's SWAPPABLE slot and another user's SWAPPABLE slot, and created the PENDING request between them |
| SwapController.ProposeFailsOnPendingSlot | backend/controllers/swapController.js:47-50 | a proposal naming, on either side, an id whose slots are all SWAP_PENDING fails |
| SwapController.SecondProposalRejected | backend/controllers/swapController.js:47-65 | after a successful proposal, every proposal by anyone that names either of its slots fails and changes nothing |
| SwapController.ProposeOnlyAppends | backend/controllers/swapController.js:52-59 | a proposal never rewrites a stored request: the old requests are a prefix of the new ones, with at most one added |
| SwapController.Respond | backend/controllers/swapController.js:80-136 | an answer that fails, including an acceptance whose slot save fails validation, leaves both collections and the id generator as they were |
| SwapController.RespondSwap | backend/controllers/swapController.js:79-140 | the controller's reads, checks, field writes on the fetched documents, saves and commit produce exactly the store and response `Respond` gives |
| SwapController.RespondRequestNotFound | backend/controllers/swapController.js:87-91 | an unknown request id is "Request not found" (404), with no change |
| SwapController.RespondNotAuthorized | backend/controllers/swapController.js:93-96 | anyone but the responder gets "Not authorized" (403), whatever the request's status, with no change |
| SwapController.RespondAlreadyHandled | backend/controllers/swapController.js:98-101 | the responder answering a request that is no longer PENDING gets "Already handled", with no change |
| SwapController.RespondSlotsMissing | backend/controllers/swapController.js:103-108 | a PENDING request one of whose slots no longer exists gives "Slots missing" (404), with no change |
| SwapController.RejectEffect | backend/controllers/swapController.js:110-117 | a rejection marks the request REJECTED and makes every slot it names SWAPPABLE; owners, titles, times and all other slots and requests stay as they were |
| SwapController.AcceptEffect | backend/controllers/swapController.js:118-130 | when both slots pass the validation `save` runs, an acceptance exchanges the two slots' owners exactly, makes both BUSY, leaves their ids, titles and times as they were and every other slot unchanged, and marks the request ACCEPTED |
| SwapController.AcceptInvalidSlotFails | backend/controllers/swapController.js:127-136 | when either slot has an empty title, which an unvalidated update can store, the acceptance's `save` fails, the transaction aborts and nothing changes; a rejection, which uses `updateMany`, still succeeds |
| SwapController.RespondOnlyWritesStatus | backend/controllers/swapController.js:110-130 | a successful answer writes only the answered request's status, from PENDING to ACCEPTED or REJECTED; its parties and slot references, and every other request, survive the owner exchange |
| SwapController.HandledRequestsAreFinal | backend/controllers/swapController.js:98-101 | a request that is no longer PENDING stays exactly as it is through any proposal or answer |
| SwapController.RespondTwice | backend/controllers/swapController.js:98-101 | the second answer to a request fails and changes nothing; from the responder it is "Already handled" |
| SwapController.ProposePreservesInvariant | backend/controllers/swapController.js:47-65 | a proposal keeps the store well-formed and keeps every slot's PENDING-request count at 1 when SWAP_PENDING and 0 otherwise |
| SwapController.ProposeOnTwiceNamedSlot | backend/controllers/swapController.js:47-65 | a SWAPPABLE slot already named by two PENDING requests can still be proposed, and the proposal leaves it SWAP_PENDING with three, breaking the bare "iff exactly one" reading |
| SwapController.PendingIffAloneIsNotPreserved | backend/controllers/swapController.js:47-65 | there is a well-formed store satisfying "SWAP_PENDING iff exactly one PENDING request" on which a successful proposal breaks it, so the invariant has to be stated as a count |
| SwapController.RespondPreservesInvariant | backend/controllers/swapController.js:110-130 | an answer keeps the store well-formed and the invariant: the request leaves PENDING and both of its slots leave SWAP_PENDING |
| EventController.GetMyEvents | backend/controllers/eventController.js:6 | exactly the caller's slots, each as often as stored, in ascending start time |
| EventController.CreateSlot | backend/controllers/eventController.js:14-31 | a creation that fails inserts nothing and leaves the id generator as it was |
| EventController.CreateEvent | backend/controllers/eventController.js:14-31 | the controller's check and `Event.create` produce exactly the store and response `CreateSlot` gives |
| EventController.CreateMissingFields | backend/controllers/eventController.js:17-19 | a blank title or a missing start or end time is "All fields are required" (400), with no change |
| EventController.CreateValidation | backend/controllers/eventController.js:20-26 | with all fields present, creation fails (a validation error) exactly when the title is all white space or the status is outside the enumeration, and fails in no other way |
| EventController.CreateEffect | backend/controllers/eventController.js:20-26 | a successful creation appends one slot with a fresh id, owned by the caller, with the trimmed title, the given times, and the given status or BUSY when blank; nothing else changes |
| EventController.CreatePreservesInvariant | backend/controllers/eventController.js:20-26 | creation keeps the store well-formed, and keeps the invariant unless the body asks for SWAP_PENDING |
| EventController.CreatePendingBreaksInvariant | backend/controllers/eventController.js:24 | a slot created with status SWAP_PENDING from the body is appended SWAP_PENDING with no PENDING request naming it, so the store is no longer consistent |
| EventController.UpdateSlot | backend/controllers/eventController.js:39-41 | an update that fails leaves the store as it was |
| EventController.UpdateEvent | backend/controllers/eventController.js:34-45 | the controller's `findOneAndUpdate` produces exactly the store and response `UpdateSlot` gives |
| EventController.UpdateNotFound | backend/controllers/eventController.js:39-40 | an id the caller owns no slot under is "Event not found" (404), with no change |
| EventController.UpdateEffect | backend/controllers/eventController.js:39-41 | updating the caller's slot applies the supplied fields to that slot alone, returns the updated slot, and leaves every other slot and every request as it was |
| EventController.UpdatePreservesInvariant | backend/controllers/eventController.js:39 | updates keep the store well-formed, and keep the invariant when they do not move a slot into or out of SWAP_PENDING |
| EventController.UpdateOfPendingSlotBreaksInvariant | backend/controllers/eventController.js:39 | with no SWAP_PENDING guard, the owner's status change on a SWAP_PENDING slot goes through and breaks the invariant |
| EventController.DeleteSlot | backend/controllers/eventController.js:52-53 | a deletion that fails leaves the store as it was |
| EventController.DeleteEvent | backend/controllers/eventController.js:48-58 | the controller's `findOneAndDelete` produces exactly the store and response `DeleteSlot` gives |
| EventController.DeleteNotFound | backend/controllers/eventController.js:52-53 | an id the caller owns no slot under is "Event not found" (404), with no change |
| EventController.DeleteEffect | backend/controllers/eventController.js:52-53 | deleting the caller's slot removes exactly that slot; the other slots remain in order and the requests are untouched |
| EventController.DeletePreservesInvariant | backend/controllers/eventController.js:52 | deletion keeps the store well-formed and the invariant |
| EventController.DeleteLeavesOtherSlotPending | backend/controllers/eventController.js:52 | deleting one slot of a PENDING request from a consistent store leaves the other slot stored and SWAP_PENDING, with that request the only PENDING one naming it |
| Api.RunKeepsWellFormed | backend/controllers/swapController.js:23-140 | after any sequence of requestSwap, respondSwap, createEvent, updateEvent and deleteEvent calls (the last three at eventController.js:14-56), ids stay unique and were all issued, as MongoDB's `_id` index and ObjectId generation guarantee |
| Api.StrandedAnswerFails | backend/controllers/swapController.js:87-108 | every answer to a PENDING request whose slot is missing fails and changes nothing: "Slots missing" for the responder, "Not authorized" for anyone else |
| Api.StrandedForever | backend/controllers/swapController.js:79-140 | no sequence of calls revives such a request: it stays in the store and PENDING, its missing slot never comes back (new slots get fresh ids), and the store stays well-formed |
| Api.DeleteOfPendingSlotStrandsRequest | backend/controllers/eventController.js:52 | with no SWAP_PENDING guard, deleting either slot of a PENDING request leaves the request PENDING after any sequence of later calls, and every answer to it then fails with no change: "Slots missing" for the responder, "Not authorized" for anyone else |

## Left out

- HTTP and Express: routing, the status codes (comments on `ApiError`),
  the response bodies' messages, and `next(err)` for unexpected errors.
  `server.js`, the route files and `config/db.js` are not part of this
  model.
- Sessions, transactions and concurrency: each controller call is a
  sequential step that commits everything or nothing. Two proposers racing
  for one slot are not modelled. Neither is the missing `abortTransaction`
  on the early return at `swapController.js:30-32`, which leaks a session
  but has no effect on the data.
- Errors thrown inside a transaction other than validation: a lost
  connection or a rejected write. The model's writes fail only where
  validation fails, and there it aborts as the catch block does. That is
  the acceptance's `save` of a slot with an empty title, and `Event.create`.
- Authentication: `req.user` is the `caller` parameter.
  `authController.js` and `authMiddleware.js` are not part of this model.
  `getSwappableSlots` takes an optional caller, as the source does.
- `.populate` of names, emails and slots: display only. Results keep ids.
- Mongoose timestamps (`createdAt`, `updatedAt`): they take no part in any
  check.
- Dates: start and end times are integers. A body's time is present or
  absent. Date parsing, time zones and an unparsable date (a cast error)
  are not modelled, and neither is the check `endTime > startTime`, which
  the source never makes.
- ObjectId casting: an id in a request that is not a valid ObjectId makes
  Mongoose throw. The model's ids are always well formed.
- `accept` is a boolean. The source tests its JavaScript truthiness, so the
  string "false" would count as an acceptance.
- EventController.UpdateSlot: the update body is a typed `EventPatch`.
  `findOneAndUpdate` runs no validators by default, so the source would
  store any status string, and a null for a required field (`title`,
  `startTime`, `endTime` or `owner`), neither of which a typed patch can
  send. A later acceptance's `save` would reject such a slot the way it
  rejects an empty title. Unknown fields and `_id` in the body are not
  modelled. The title goes through the trim setter.
- SortByStart: MongoDB does not fix the order of slots with equal start
  times. The contract promises only an ascending permutation, and the
  insertion sort is one such order.
- The React pages. The dashboard's marketplace toggle (`Dashboard.jsx:41`)
  sends a status change through the unguarded `updateEvent`;
  `EventController.UpdateOfPendingSlotBreaksInvariant` covers its effect in
  the backend.
