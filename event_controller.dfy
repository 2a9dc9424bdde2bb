/** Owner-scoped CRUD on slots. `CreateSlot`, `UpdateSlot` and `DeleteSlot`
    give the effect of each call on the store; `CreateEvent`, `UpdateEvent`
    and `DeleteEvent` perform it on a `Database`. Update and delete do not
    look at SWAP_PENDING, and the lemmas at the end show what that does to
    the slot/request invariant. */
module EventController {
  import opened Common
  import opened EventModel
  import opened SwapRequestModel
  import opened Store
  import SwapController

  /** GET my events: exactly the caller's slots, each as often as it is
      stored, in ascending `startTime` order. */
  function GetMyEvents(st: Store, caller: ObjectId): (r: seq<Slot>)
    ensures SortedByStart(r)
    ensures forall s :: s in r <==> s in st.events && s.owner == caller
    ensures forall s :: multiset(r)[s] == if s.owner == caller then multiset(st.events)[s] else 0
  {
    SortByStart(Filter(st.events, (s: Slot) => s.owner == caller))
  }

  // ---------------------------------------------------------------------
  // Create

  /** The request body of createEvent; `None` is an absent field. The
      times arrive as date strings, so an empty one is absent too. */
  datatype EventBody = EventBody(
    title: Option<string>,
    startTime: Option<int>,
    endTime: Option<int>,
    status: Option<string>)

  /** JavaScript falsiness of an optional string: absent or empty. */
  predicate Blank(s: Option<string>) {
    s.None? || s.value == ""
  }

  /** The status createEvent hands to the schema: the supplied one, or
      "BUSY" when it is blank. */
  function RequestedStatus(body: EventBody): string {
    if Blank(body.status) then "BUSY" else body.status.value
  }

  /** The transaction of createEvent: 400 when title, startTime or endTime
      is missing; otherwise the schema validates the new document, owned by
      the caller, and it is appended to the collection. */
  function CreateSlot(st: Store, caller: ObjectId, body: EventBody): (r: Step<Slot>)
    ensures r.result.Err? ==> r.store == st
  {
    if Blank(body.title) || body.startTime.None? || body.endTime.None? then Step(st, Err(FieldsRequired))
    else
      var doc := NewSlot(FreshId(st),
        SlotFields(body.title, body.startTime, body.endTime, Some(RequestedStatus(body)), Some(caller)));
      if doc.None? then Step(st, Err(ValidationFailed))
      else Step(st.(events := st.events + [doc.value], nextId := st.nextId + 1), Ok(doc.value))
  }

  /** createEvent on the database. */
  method CreateEvent(db: Database, caller: ObjectId, body: EventBody) returns (r: Result<Slot>)
    modifies db
    ensures Step(db.State(), r) == CreateSlot(old(db.State()), caller, body)
  {
    ghost var st := db.State();
    if Blank(body.title) || body.startTime.None? || body.endTime.None? {
      return Err(FieldsRequired);
    }
    var doc := NewSlot(ObjectId(db.nextId),
      SlotFields(body.title, body.startTime, body.endTime, Some(RequestedStatus(body)), Some(caller)));
    if doc.None? {
      return Err(ValidationFailed);
    }
    db.events, db.nextId := db.events + [doc.value], db.nextId + 1;
    assert db.State() == CreateSlot(st, caller, body).store;
    r := Ok(doc.value);
  }

  lemma CreateMissingFields(st: Store, caller: ObjectId, body: EventBody)
    requires Blank(body.title) || body.startTime.None? || body.endTime.None?
    ensures CreateSlot(st, caller, body) == Step(st, Err(FieldsRequired))
  {
  }

  /** With all fields present, creation fails validation exactly when the
      title is nothing but white space or the status is not one of the
      enumeration. */
  lemma CreateValidation(st: Store, caller: ObjectId, body: EventBody)
    requires !Blank(body.title) && body.startTime.Some? && body.endTime.Some?
    ensures var r := CreateSlot(st, caller, body);
      r.result == Err(ValidationFailed) <==>
        (forall i :: 0 <= i < |body.title.value| ==> IsWhitespace(body.title.value[i]))
        || ParseStatus(RequestedStatus(body)).None?
    ensures CreateSlot(st, caller, body).result.Err? ==> CreateSlot(st, caller, body).result == Err(ValidationFailed)
  {
    TrimEmpty(body.title.value);
  }

  /** A successful creation appends one slot with a fresh id, owned by the
      caller, with the trimmed title, the given times, and the given status
      or BUSY; nothing else changes. */
  lemma CreateEffect(st: Store, caller: ObjectId, body: EventBody)
    requires CreateSlot(st, caller, body).result.Ok?
    ensures var r := CreateSlot(st, caller, body);
      var s := r.result.value;
      && r.store == st.(events := st.events + [s], nextId := st.nextId + 1)
      && s.id == FreshId(st)
      && s.owner == caller
      && s.title == Trim(body.title.value)
      && body.startTime == Some(s.startTime) && body.endTime == Some(s.endTime)
      && s.status == (if Blank(body.status) then Busy else ParseStatus(body.status.value).value)
  {
  }

  /** Creation keeps the store well-formed, and keeps the invariant unless
      the new slot is created SWAP_PENDING. */
  lemma CreatePreservesInvariant(st: Store, caller: ObjectId, body: EventBody)
    requires WellFormed(st)
    ensures WellFormed(CreateSlot(st, caller, body).store)
    ensures Consistent(st) && RequestedStatus(body) != "SWAP_PENDING" ==>
      Consistent(CreateSlot(st, caller, body).store)
  {
    var r := CreateSlot(st, caller, body);
    if r.result.Ok? {
      CreateEffect(st, caller, body);
      AppendSlotKeepsWellFormed(st, r.result.value);
      if Consistent(st) && RequestedStatus(body) != "SWAP_PENDING" {
        assert StatusName(r.result.value.status) == RequestedStatus(body);
        AppendSlotKeepsConsistent(st, r.result.value);
      }
    }
  }

  /** Appending a slot with a fresh id keeps the store well-formed. */
  lemma AppendSlotKeepsWellFormed(st: Store, s: Slot)
    requires WellFormed(st) && s.id == FreshId(st)
    ensures WellFormed(st.(events := st.events + [s], nextId := st.nextId + 1))
  {
    var st' := st.(events := st.events + [s], nextId := st.nextId + 1);
    assert forall k :: 0 <= k < |st'.swapRequests| ==> IssuedBefore(st'.swapRequests[k], st'.nextId);
  }

  /** Appending a slot that is not SWAP_PENDING keeps the invariant: no
      request names its fresh id. */
  lemma AppendSlotKeepsConsistent(st: Store, s: Slot)
    requires WellFormed(st) && Consistent(st)
    requires s.id == FreshId(st) && s.status != SwapPending
    ensures Consistent(st.(events := st.events + [s], nextId := st.nextId + 1))
  {
    assert forall k :: 0 <= k < |st.swapRequests| ==> !References(st.swapRequests[k], s.id);
    PendingCountUnreferenced(st.swapRequests, s.id);
  }

  /** createEvent accepts status "SWAP_PENDING" from the body: the new slot
      is then SWAP_PENDING with no request naming it. */
  lemma CreatePendingBreaksInvariant(st: Store, caller: ObjectId, body: EventBody)
    requires WellFormed(st)
    requires CreateSlot(st, caller, body).result.Ok?
    requires RequestedStatus(body) == "SWAP_PENDING"
    ensures var r := CreateSlot(st, caller, body);
      && r.store.events[|st.events|] == r.result.value
      && r.result.value.status == SwapPending
      && PendingCount(r.store.swapRequests, r.result.value.id) == 0
      && !Consistent(r.store)
  {
    var r := CreateSlot(st, caller, body);
    var s := r.result.value;
    assert forall k :: 0 <= k < |st.swapRequests| ==> !References(st.swapRequests[k], s.id);
    PendingCountUnreferenced(st.swapRequests, s.id);
    assert r.store.events[|st.events|] == s;
  }

  /** Deleting one slot of a PENDING request from a store that satisfies the
      invariant leaves the other slot stored and SWAP_PENDING, with the
      stranded request as the only PENDING request naming it. */
  lemma DeleteLeavesOtherSlotPending(st: Store, q: nat, i: nat, k: nat)
    requires WellFormed(st) && Consistent(st)
    requires q < |st.swapRequests| && st.swapRequests[q].status == Pending
    requires i < |st.events| && k < |st.events| && i != k
    requires References(st.swapRequests[q], st.events[i].id) && References(st.swapRequests[q], st.events[k].id)
    ensures var other, st1 := st.events[k], DeleteSlot(st, st.events[i].owner, st.events[i].id).store;
      && other in st1.events && other.status == SwapPending
      && st1.swapRequests == st.swapRequests
      && PendingCount(st1.swapRequests, other.id) == 1
  {
    var req := st.swapRequests[q];
    PendingCountUpdate(st.swapRequests, q, req.(status := Rejected), st.events[k].id);
    DeleteEffect(st, i);
  }

  // ---------------------------------------------------------------------
  // Update

  /** The fields of an update body that the schema knows; `None` leaves
      the field as it is. */
  datatype EventPatch = EventPatch(
    title: Option<string>,
    startTime: Option<int>,
    endTime: Option<int>,
    status: Option<SlotStatus>,
    owner: Option<ObjectId>)

  /** `$set` of the supplied fields (the title through the trim setter).
      The id is never changed. */
  function ApplyPatch(s: Slot, p: EventPatch): (u: Slot)
    ensures u.id == s.id
  {
    Slot(s.id,
         if p.title.Some? then Trim(p.title.value) else s.title,
         p.startTime.GetOr(s.startTime),
         p.endTime.GetOr(s.endTime),
         p.status.GetOr(s.status),
         p.owner.GetOr(s.owner))
  }

  /** The effect of updateEvent (`findOneAndUpdate` with `new: true`): the
      caller's slot with that id is patched and returned; any other id is
      404 and changes nothing. */
  function UpdateSlot(st: Store, caller: ObjectId, id: ObjectId, patch: EventPatch): (r: Step<Slot>)
    ensures r.result.Err? ==> r.store == st
  {
    match FindOwnedSlot(st.events, id, caller)
    case None => Step(st, Err(EventNotFound))
    case Some(i) =>
      var updated := ApplyPatch(st.events[i], patch);
      Step(st.(events := st.events[i := updated]), Ok(updated))
  }

  /** updateEvent on the database. */
  method UpdateEvent(db: Database, caller: ObjectId, id: ObjectId, patch: EventPatch) returns (r: Result<Slot>)
    modifies db
    ensures Step(db.State(), r) == UpdateSlot(old(db.State()), caller, id, patch)
  {
    var i := FindOwnedSlot(db.events, id, caller);
    if i.None? {
      return Err(EventNotFound);
    }
    var event := ApplyPatch(db.events[i.value], patch);
    db.events := db.events[i.value := event];
    r := Ok(event);
  }

  lemma UpdateNotFound(st: Store, caller: ObjectId, id: ObjectId, patch: EventPatch)
    requires forall k :: 0 <= k < |st.events| ==> !(st.events[k].id == id && st.events[k].owner == caller)
    ensures UpdateSlot(st, caller, id, patch) == Step(st, Err(EventNotFound))
  {
  }

  /** An update of the caller's slot `i` patches that slot, returns it, and
      leaves every other slot and every request as it was. */
  lemma UpdateEffect(st: Store, i: nat, patch: EventPatch)
    requires WellFormed(st)
    requires i < |st.events|
    ensures var s := st.events[i];
      var r := UpdateSlot(st, s.owner, s.id, patch);
      && r.result == Ok(ApplyPatch(s, patch))
      && r.store.swapRequests == st.swapRequests && r.store.nextId == st.nextId
      && |r.store.events| == |st.events|
      && r.store.events[i] == ApplyPatch(s, patch)
      && (forall k :: 0 <= k < |st.events| && k != i ==> r.store.events[k] == st.events[k])
  {
    SwapController.UniqueSlot(st, i, st.events[i].id);
  }

  /** Updates keep the store well-formed, and keep the invariant as long
      as they do not move a slot into or out of SWAP_PENDING. */
  lemma UpdatePreservesInvariant(st: Store, caller: ObjectId, id: ObjectId, patch: EventPatch)
    requires WellFormed(st)
    ensures WellFormed(UpdateSlot(st, caller, id, patch).store)
    ensures Consistent(st) &&
      (patch.status.None? || forall k :: 0 <= k < |st.events| && st.events[k].id == id ==>
         (st.events[k].status == SwapPending <==> patch.status.value == SwapPending))
      ==> Consistent(UpdateSlot(st, caller, id, patch).store)
  {
  }

  /** The marketplace toggle on the dashboard sends `{ status }` for a slot
      whatever its status. Sent for a SWAP_PENDING slot, the update goes
      through and the invariant breaks: the slot still has its PENDING
      request but is no longer SWAP_PENDING. */
  lemma UpdateOfPendingSlotBreaksInvariant(st: Store, i: nat, status: SlotStatus)
    requires WellFormed(st) && Consistent(st)
    requires i < |st.events| && st.events[i].status == SwapPending && status != SwapPending
    ensures var s := st.events[i];
      var r := UpdateSlot(st, s.owner, s.id, EventPatch(None, None, None, Some(status), None));
      r.result.Ok? && !Consistent(r.store)
  {
    var s := st.events[i];
    var r := UpdateSlot(st, s.owner, s.id, EventPatch(None, None, None, Some(status), None));
    UpdateEffect(st, i, EventPatch(None, None, None, Some(status), None));
    assert r.store.events[i].id == s.id && r.store.events[i].status == status;
    assert PendingCount(r.store.swapRequests, s.id) == 1;
  }

  // ---------------------------------------------------------------------
  // Delete

  /** The effect of deleteEvent (`findOneAndDelete`): the caller's slot
      with that id is removed; any other id is 404 and changes nothing. */
  function DeleteSlot(st: Store, caller: ObjectId, id: ObjectId): (r: Step<()>)
    ensures r.result.Err? ==> r.store == st
  {
    match FindOwnedSlot(st.events, id, caller)
    case None => Step(st, Err(EventNotFound))
    case Some(i) => Step(st.(events := RemoveAt(st.events, i)), Ok(()))
  }

  /** deleteEvent on the database. */
  method DeleteEvent(db: Database, caller: ObjectId, id: ObjectId) returns (r: Result<()>)
    modifies db
    ensures Step(db.State(), r) == DeleteSlot(old(db.State()), caller, id)
  {
    var i := FindOwnedSlot(db.events, id, caller);
    if i.None? {
      return Err(EventNotFound);
    }
    db.events := RemoveAt(db.events, i.value);
    r := Ok(());
  }

  lemma DeleteNotFound(st: Store, caller: ObjectId, id: ObjectId)
    requires forall k :: 0 <= k < |st.events| ==> !(st.events[k].id == id && st.events[k].owner == caller)
    ensures DeleteSlot(st, caller, id) == Step(st, Err(EventNotFound))
  {
  }

  /** Deleting the caller's slot `i` removes exactly that slot: the other
      slots remain, in order, and the requests are untouched. */
  lemma DeleteEffect(st: Store, i: nat)
    requires WellFormed(st)
    requires i < |st.events|
    ensures var s := st.events[i];
      var r := DeleteSlot(st, s.owner, s.id);
      && r.result == Ok(())
      && r.store == st.(events := st.events[..i] + st.events[i + 1..])
      && (forall x :: x in r.store.events <==> x in st.events && x.id != s.id)
  {
    var s := st.events[i];
    SwapController.UniqueSlot(st, i, s.id);
    var e' := st.events[..i] + st.events[i + 1..];
    forall x | x in st.events && x.id != s.id ensures x in e' {
      var k :| 0 <= k < |st.events| && st.events[k] == x;
      if k < i { assert e'[k] == x; } else { assert k != i; assert e'[k - 1] == x; }
    }
  }

  /** Deletion keeps the store well-formed and the invariant, which speaks
      only of slots that exist. */
  lemma DeletePreservesInvariant(st: Store, caller: ObjectId, id: ObjectId)
    requires WellFormed(st)
    ensures WellFormed(DeleteSlot(st, caller, id).store)
    ensures Consistent(st) ==> Consistent(DeleteSlot(st, caller, id).store)
  {
  }
}
