/** The swap coordinator: listing the marketplace, proposing a swap and
    answering one, plus the caller's incoming and outgoing requests.
    `Propose` and `Respond` give the effect of one transaction on the
    store; `RequestSwap` and `RespondSwap` carry it out step by step on a
    `Database`, as the controller does. */
module SwapController {
  import opened Common
  import opened EventModel
  import opened SwapRequestModel
  import opened Store

  // ---------------------------------------------------------------------
  // Queries

  /** Whether `s` is offered on the marketplace to `caller`
      (no owner filter when there is no caller). */
  predicate ListedFor(s: Slot, caller: Option<ObjectId>) {
    s.status == Swappable && (caller.None? || s.owner != caller.value)
  }

  /** GET swappable slots: every SWAPPABLE slot not owned by the caller,
      each as often as it is stored, in ascending `startTime` order. */
  function GetSwappableSlots(st: Store, caller: Option<ObjectId>): (r: seq<Slot>)
    ensures SortedByStart(r)
    ensures forall s :: s in r <==> s in st.events && s.status == Swappable && (caller.None? || s.owner != caller.value)
    ensures forall s :: multiset(r)[s] == if ListedFor(s, caller) then multiset(st.events)[s] else 0
  {
    SortByStart(Filter(st.events, (s: Slot) => ListedFor(s, caller)))
  }

  /** The two lists sent back by getMySwapRequests. */
  datatype MyRequests = MyRequests(incoming: seq<SwapRequest>, outgoing: seq<SwapRequest>)

  /** The filters `{ responder: userId }` and `{ requester: userId }`. */
  function ByResponder(user: ObjectId): SwapRequest -> bool {
    (q: SwapRequest) => q.responder == user
  }

  function ByRequester(user: ObjectId): SwapRequest -> bool {
    (q: SwapRequest) => q.requester == user
  }

  /** Incoming requests are exactly those whose responder is the caller,
      outgoing ones exactly those whose requester is the caller, each as
      often as it is stored (`ProposeListsRequestLast` gives the order). */
  function GetMySwapRequests(st: Store, caller: ObjectId): (r: MyRequests)
    ensures forall q :: q in r.incoming <==> q in st.swapRequests && q.responder == caller
    ensures forall q :: q in r.outgoing <==> q in st.swapRequests && q.requester == caller
    ensures forall q :: multiset(r.incoming)[q] == if q.responder == caller then multiset(st.swapRequests)[q] else 0
    ensures forall q :: multiset(r.outgoing)[q] == if q.requester == caller then multiset(st.swapRequests)[q] else 0
  {
    MyRequests(Filter(st.swapRequests, ByResponder(caller)), Filter(st.swapRequests, ByRequester(caller)))
  }

  // ---------------------------------------------------------------------
  // Propose

  /** The transaction of requestSwap. The checks run in the controller's
      order; a failed check aborts and leaves the store as it was. On
      success one PENDING request is appended and both slots become
      SWAP_PENDING. */
  function Propose(st: Store, caller: ObjectId, mySlotId: Option<ObjectId>, theirSlotId: Option<ObjectId>)
    : (r: Step<SwapRequest>)
    ensures r.result.Err? ==> r.store == st
  {
    if mySlotId.None? || theirSlotId.None? then Step(st, Err(SlotIdsRequired))
    else
      var mi := FindOwnedSlot(st.events, mySlotId.value, caller);
      var ti := FindSlot(st.events, theirSlotId.value);
      if mi.None? || ti.None? then Step(st, Err(SlotNotFound))
      else
        var mySlot := st.events[mi.value];
        var theirSlot := st.events[ti.value];
        if theirSlot.owner == caller then Step(st, Err(CannotSwapWithSelf))
        else if mySlot.status != Swappable || theirSlot.status != Swappable then Step(st, Err(SlotsNotSwappable))
        else
          var swap := NewSwapRequest(FreshId(st),
            RequestFields(Some(caller), Some(theirSlot.owner), mySlotId, theirSlotId, None)).value;
          var events := SetStatusWhere(st.events, {mySlotId.value, theirSlotId.value}, SwapPending);
          Step(Store(events, st.swapRequests + [swap], st.nextId + 1), Ok(swap))
  }

  /** requestSwap, step by step: read both slots in the session, check,
      create the request, update both slots, commit. */
  method RequestSwap(db: Database, caller: ObjectId, mySlotId: Option<ObjectId>, theirSlotId: Option<ObjectId>)
    returns (r: Result<SwapRequest>)
    modifies db
    ensures Step(db.State(), r) == Propose(old(db.State()), caller, mySlotId, theirSlotId)
  {
    ghost var st := db.State();
    if mySlotId.None? || theirSlotId.None? {
      return Err(SlotIdsRequired);
    }
    var events, requests := db.events, db.swapRequests;
    var mi := FindOwnedSlot(events, mySlotId.value, caller);
    var ti := FindSlot(events, theirSlotId.value);
    if mi.None? || ti.None? {
      return Err(SlotNotFound);
    }
    var mySlot, theirSlot := events[mi.value], events[ti.value];
    if theirSlot.owner == caller {
      return Err(CannotSwapWithSelf);
    }
    if mySlot.status != Swappable || theirSlot.status != Swappable {
      return Err(SlotsNotSwappable);
    }
    var created := NewSwapRequest(ObjectId(db.nextId),
      RequestFields(Some(caller), Some(theirSlot.owner), mySlotId, theirSlotId, None));
    var swap := created.value;
    requests := requests + [swap];
    events := SetStatusWhere(events, {mySlotId.value, theirSlotId.value}, SwapPending);
    db.events, db.swapRequests, db.nextId := events, requests, db.nextId + 1;
    assert db.State() == Propose(st, caller, mySlotId, theirSlotId).store;
    r := Ok(swap);
  }

  /** In a well-formed store the owned slot and the slot found by id are the
      only slots with their ids. */
  lemma UniqueSlot(st: Store, i: nat, id: ObjectId)
    requires WellFormed(st)
    requires i < |st.events| && st.events[i].id == id
    ensures FindSlot(st.events, id) == Some(i)
    ensures FindOwnedSlot(st.events, id, st.events[i].owner) == Some(i)
  {
  }

  lemma ProposeMissingIds(st: Store, caller: ObjectId, mySlotId: Option<ObjectId>, theirSlotId: Option<ObjectId>)
    requires mySlotId.None? || theirSlotId.None?
    ensures Propose(st, caller, mySlotId, theirSlotId) == Step(st, Err(SlotIdsRequired))
  {
  }

  /** 404 when the caller owns no slot `m` or there is no slot `t`. */
  lemma ProposeSlotNotFound(st: Store, caller: ObjectId, m: ObjectId, t: ObjectId)
    requires (forall i :: 0 <= i < |st.events| ==> !(st.events[i].id == m && st.events[i].owner == caller))
          || (forall j :: 0 <= j < |st.events| ==> st.events[j].id != t)
    ensures Propose(st, caller, Some(m), Some(t)) == Step(st, Err(SlotNotFound))
  {
  }

  /** Proposing against a slot the caller owns is refused. */
  lemma ProposeSelfSwap(st: Store, caller: ObjectId, i: nat, j: nat)
    requires WellFormed(st)
    requires i < |st.events| && st.events[i].owner == caller
    requires j < |st.events| && st.events[j].owner == caller
    ensures Propose(st, caller, Some(st.events[i].id), Some(st.events[j].id)) == Step(st, Err(CannotSwapWithSelf))
  {
    UniqueSlot(st, i, st.events[i].id);
    UniqueSlot(st, j, st.events[j].id);
  }

  /** A slot can never be swapped with itself: the same id on both sides fails,
      as "not found" or as a self swap, and changes nothing. */
  lemma ProposeSameSlotFails(st: Store, caller: ObjectId, id: ObjectId)
    requires WellFormed(st)
    ensures var r := Propose(st, caller, Some(id), Some(id));
      r.store == st && (r.result == Err(SlotNotFound) || r.result == Err(CannotSwapWithSelf))
  {
    var mi := FindOwnedSlot(st.events, id, caller);
    if mi.Some? {
      UniqueSlot(st, mi.value, id);
    }
  }

  /** Both slots must be SWAPPABLE; any other status (in particular
      SWAP_PENDING) is refused. */
  lemma ProposeNotSwappable(st: Store, caller: ObjectId, i: nat, j: nat)
    requires WellFormed(st)
    requires i < |st.events| && st.events[i].owner == caller
    requires j < |st.events| && st.events[j].owner != caller
    requires st.events[i].status != Swappable || st.events[j].status != Swappable
    ensures Propose(st, caller, Some(st.events[i].id), Some(st.events[j].id)) == Step(st, Err(SlotsNotSwappable))
  {
    UniqueSlot(st, i, st.events[i].id);
    UniqueSlot(st, j, st.events[j].id);
  }

  /** When every check passes the proposal succeeds: one PENDING request from
      the caller to the other slot's owner is appended, exactly the two slots
      become SWAP_PENDING, and nothing else changes. */
  lemma ProposeSucceeds(st: Store, caller: ObjectId, i: nat, j: nat)
    requires WellFormed(st)
    requires i < |st.events| && st.events[i].owner == caller && st.events[i].status == Swappable
    requires j < |st.events| && st.events[j].owner != caller && st.events[j].status == Swappable
    ensures var m, t := st.events[i].id, st.events[j].id;
      var r := Propose(st, caller, Some(m), Some(t));
      && r.result == Ok(SwapRequest(FreshId(st), caller, st.events[j].owner, m, t, Pending))
      && r.store.swapRequests == st.swapRequests + [r.result.value]
      && r.store.nextId == st.nextId + 1
      && |r.store.events| == |st.events|
      && (forall k :: 0 <= k < |st.events| ==>
            r.store.events[k] == if st.events[k].id == m || st.events[k].id == t
                                 then st.events[k].(status := SwapPending) else st.events[k])
  {
    var m, t := st.events[i].id, st.events[j].id;
    UniqueSlot(st, i, m);
    UniqueSlot(st, j, t);
    var swap := NewSwapRequest(FreshId(st), RequestFields(Some(caller), Some(st.events[j].owner), Some(m), Some(t), None));
    assert swap == Some(SwapRequest(FreshId(st), caller, st.events[j].owner, m, t, Pending));
  }

  /** What a successful proposal implies about the store it ran on. */
  lemma ProposeEffect(st: Store, caller: ObjectId, mySlotId: Option<ObjectId>, theirSlotId: Option<ObjectId>)
    requires WellFormed(st)
    requires Propose(st, caller, mySlotId, theirSlotId).result.Ok?
    ensures mySlotId.Some? && theirSlotId.Some? && mySlotId != theirSlotId
    ensures var r := Propose(st, caller, mySlotId, theirSlotId);
      var swap := r.result.value;
      && swap.id == FreshId(st) && swap.requester == caller && swap.responder != caller
      && swap.mySlot == mySlotId.value && swap.theirSlot == theirSlotId.value && swap.status == Pending
      && (exists i :: 0 <= i < |st.events| && st.events[i].id == swap.mySlot
                      && st.events[i].owner == caller && st.events[i].status == Swappable)
      && (exists j :: 0 <= j < |st.events| && st.events[j].id == swap.theirSlot
                      && st.events[j].owner == swap.responder && st.events[j].status == Swappable)
      && r.store.swapRequests == st.swapRequests + [swap]
  {
    var r := Propose(st, caller, mySlotId, theirSlotId);
    var mi := FindOwnedSlot(st.events, mySlotId.value, caller).value;
    var ti := FindSlot(st.events, theirSlotId.value).value;
    var swap := r.result.value;
    UniqueSlot(st, mi, mySlotId.value);
    assert swap == SwapRequest(FreshId(st), caller, st.events[ti].owner, mySlotId.value, theirSlotId.value, Pending);
    assert st.events[mi].id == swap.mySlot && st.events[mi].owner == caller && st.events[mi].status == Swappable;
    assert st.events[ti].id == swap.theirSlot && st.events[ti].owner == swap.responder && st.events[ti].status == Swappable;
  }

  /** A proposal naming a slot id whose slots are all SWAP_PENDING fails,
      on either side. */
  lemma ProposeFailsOnPendingSlot(st: Store, caller: ObjectId, m: ObjectId, t: ObjectId, pending: ObjectId)
    requires pending == m || pending == t
    requires forall k :: 0 <= k < |st.events| && st.events[k].id == pending ==> st.events[k].status == SwapPending
    ensures Propose(st, caller, Some(m), Some(t)).result.Err?
  {
    var mi := FindOwnedSlot(st.events, m, caller);
    var ti := FindSlot(st.events, t);
    if mi.Some? && ti.Some? {
      assert st.events[mi.value].id == m && st.events[ti.value].id == t;
    }
  }

  /** A slot that is part of a pending proposal cannot be proposed again:
      after a successful proposal, every proposal that names either of its
      slots, by anyone and on either side, fails and changes nothing. */
  lemma SecondProposalRejected(st: Store, caller: ObjectId, m: ObjectId, t: ObjectId,
                               caller2: ObjectId, m2: ObjectId, t2: ObjectId)
    requires Propose(st, caller, Some(m), Some(t)).result.Ok?
    requires m2 == m || m2 == t || t2 == m || t2 == t
    ensures var st1 := Propose(st, caller, Some(m), Some(t)).store;
      var r := Propose(st1, caller2, Some(m2), Some(t2));
      r.result.Err? && r.store == st1
  {
    var st1 := Propose(st, caller, Some(m), Some(t)).store;
    assert st1.events == SetStatusWhere(st.events, {m, t}, SwapPending);
    var pending := if m2 == m || m2 == t then m2 else t2;
    forall k | 0 <= k < |st1.events| && st1.events[k].id == pending
      ensures st1.events[k].status == SwapPending
    {
      assert st.events[k].id in {m, t};
    }
    ProposeFailsOnPendingSlot(st1, caller2, m2, t2, pending);
  }

  // ---------------------------------------------------------------------
  // Respond

  /** The transaction of respondSwap. Check order: the request exists, the
      caller is its responder, it is still PENDING, both slots exist. A
      rejection marks the request REJECTED and puts both slots back on the
      marketplace; an acceptance exchanges the two owners, makes both slots
      BUSY and marks the request ACCEPTED, unless saving either slot fails
      validation, which aborts the transaction. */
  function Respond(st: Store, caller: ObjectId, requestId: ObjectId, accept: bool): (r: Step<()>)
    ensures r.result.Err? ==> r.store == st
  {
    var q := FindRequest(st.swapRequests, requestId);
    if q.None? then Step(st, Err(RequestNotFound))
    else
      var request := st.swapRequests[q.value];
      if request.responder != caller then Step(st, Err(NotAuthorized))
      else if request.status != Pending then Step(st, Err(AlreadyHandled))
      else
        var mi := FindSlot(st.events, request.mySlot);
        var ti := FindSlot(st.events, request.theirSlot);
        if mi.None? || ti.None? then Step(st, Err(SlotsMissing))
        else if !accept then
          var events := SetStatusWhere(st.events, {request.mySlot, request.theirSlot}, Swappable);
          Step(Store(events, st.swapRequests[q.value := request.(status := Rejected)], st.nextId), Ok(()))
        else
          var mySlot, theirSlot := st.events[mi.value], st.events[ti.value];
          if !SaveValid(mySlot) || !SaveValid(theirSlot) then Step(st, Err(ValidationFailed))
          else
          var events := st.events[mi.value := mySlot.(owner := theirSlot.owner, status := Busy)]
                                 [ti.value := theirSlot.(owner := mySlot.owner, status := Busy)];
          Step(Store(events, st.swapRequests[q.value := request.(status := Accepted)], st.nextId), Ok(()))
  }

  /** respondSwap, step by step: read the request and both slots in the
      session, check, write the new fields on the fetched records, save
      them, commit. */
  method RespondSwap(db: Database, caller: ObjectId, requestId: ObjectId, accept: bool)
    returns (r: Result<()>)
    modifies db
    ensures Step(db.State(), r) == Respond(old(db.State()), caller, requestId, accept)
  {
    var events, requests := db.events, db.swapRequests;
    var q := FindRequest(requests, requestId);
    if q.None? {
      return Err(RequestNotFound);
    }
    var request := requests[q.value];
    if request.responder != caller {
      return Err(NotAuthorized);
    }
    if request.status != Pending {
      return Err(AlreadyHandled);
    }
    var mi := FindSlot(events, request.mySlot);
    var ti := FindSlot(events, request.theirSlot);
    if mi.None? || ti.None? {
      return Err(SlotsMissing);
    }
    var mySlot, theirSlot := events[mi.value], events[ti.value];
    if !accept {
      request := request.(status := Rejected);
      requests := requests[q.value := request];
      events := SetStatusWhere(events, {mySlot.id, theirSlot.id}, Swappable);
    } else {
      var tempOwner := mySlot.owner;
      mySlot := mySlot.(owner := theirSlot.owner);
      theirSlot := theirSlot.(owner := tempOwner);
      mySlot := mySlot.(status := Busy);
      theirSlot := theirSlot.(status := Busy);
      request := request.(status := Accepted);
      if !SaveValid(mySlot) || !SaveValid(theirSlot) {
        return Err(ValidationFailed);
      }
      events := events[mi.value := mySlot];
      events := events[ti.value := theirSlot];
      requests := requests[q.value := request];
    }
    db.events, db.swapRequests := events, requests;
    r := Ok(());
  }

  /** In a well-formed store a request is the only one with its id. */
  lemma UniqueRequest(st: Store, q: nat)
    requires WellFormed(st)
    requires q < |st.swapRequests|
    ensures FindRequest(st.swapRequests, st.swapRequests[q].id) == Some(q)
  {
  }

  lemma RespondRequestNotFound(st: Store, caller: ObjectId, requestId: ObjectId, accept: bool)
    requires forall k :: 0 <= k < |st.swapRequests| ==> st.swapRequests[k].id != requestId
    ensures Respond(st, caller, requestId, accept) == Step(st, Err(RequestNotFound))
  {
  }

  /** Only the responder may answer (403), whatever the request's status. */
  lemma RespondNotAuthorized(st: Store, caller: ObjectId, q: nat, accept: bool)
    requires WellFormed(st)
    requires q < |st.swapRequests| && st.swapRequests[q].responder != caller
    ensures Respond(st, caller, st.swapRequests[q].id, accept) == Step(st, Err(NotAuthorized))
  {
    UniqueRequest(st, q);
  }

  /** A request that is no longer PENDING is "Already handled". */
  lemma RespondAlreadyHandled(st: Store, q: nat, accept: bool)
    requires WellFormed(st)
    requires q < |st.swapRequests| && st.swapRequests[q].status != Pending
    ensures var req := st.swapRequests[q];
      Respond(st, req.responder, req.id, accept) == Step(st, Err(AlreadyHandled))
  {
    UniqueRequest(st, q);
  }

  /** A PENDING request one of whose slots is gone fails with "Slots missing". */
  lemma RespondSlotsMissing(st: Store, q: nat, accept: bool)
    requires WellFormed(st)
    requires q < |st.swapRequests| && st.swapRequests[q].status == Pending
    requires var req := st.swapRequests[q];
      (forall k :: 0 <= k < |st.events| ==> st.events[k].id != req.mySlot)
      || (forall k :: 0 <= k < |st.events| ==> st.events[k].id != req.theirSlot)
    ensures var req := st.swapRequests[q];
      Respond(st, req.responder, req.id, accept) == Step(st, Err(SlotsMissing))
  {
    UniqueRequest(st, q);
  }

  /** Rejecting: the request becomes REJECTED, every slot it names becomes
      SWAPPABLE, owners and all other fields stay as they were. */
  lemma RejectEffect(st: Store, q: nat, i: nat, j: nat)
    requires WellFormed(st)
    requires q < |st.swapRequests| && st.swapRequests[q].status == Pending
    requires i < |st.events| && st.events[i].id == st.swapRequests[q].mySlot
    requires j < |st.events| && st.events[j].id == st.swapRequests[q].theirSlot
    ensures var req := st.swapRequests[q];
      var r := Respond(st, req.responder, req.id, false);
      && r.result == Ok(())
      && r.store.swapRequests == st.swapRequests[q := req.(status := Rejected)]
      && r.store.nextId == st.nextId
      && |r.store.events| == |st.events|
      && (forall k :: 0 <= k < |st.events| ==>
            r.store.events[k] == if References(req, st.events[k].id)
                                 then st.events[k].(status := Swappable) else st.events[k])
  {
    RejectStep(st, q, i, j);
  }

  lemma RejectStep(st: Store, q: nat, i: nat, j: nat)
    requires WellFormed(st)
    requires q < |st.swapRequests| && st.swapRequests[q].status == Pending
    requires i < |st.events| && st.events[i].id == st.swapRequests[q].mySlot
    requires j < |st.events| && st.events[j].id == st.swapRequests[q].theirSlot
    ensures var req := st.swapRequests[q];
      Respond(st, req.responder, req.id, false)
      == Step(Store(SetStatusWhere(st.events, {req.mySlot, req.theirSlot}, Swappable),
                    st.swapRequests[q := req.(status := Rejected)], st.nextId), Ok(()))
  {
    var req := st.swapRequests[q];
    UniqueRequest(st, q);
    UniqueSlot(st, i, req.mySlot);
    UniqueSlot(st, j, req.theirSlot);
  }

  /** Accepting: the two slots' owners are exchanged and both become BUSY;
      their id, title and times are untouched; every other slot is
      unchanged; the request becomes ACCEPTED. */
  lemma AcceptEffect(st: Store, q: nat, i: nat, j: nat)
    requires WellFormed(st)
    requires q < |st.swapRequests| && st.swapRequests[q].status == Pending
    requires i < |st.events| && st.events[i].id == st.swapRequests[q].mySlot
    requires j < |st.events| && st.events[j].id == st.swapRequests[q].theirSlot
    requires SaveValid(st.events[i]) && SaveValid(st.events[j])
    ensures var req := st.swapRequests[q];
      var r := Respond(st, req.responder, req.id, true);
      var e, e' := st.events, r.store.events;
      && r.result == Ok(())
      && r.store.swapRequests == st.swapRequests[q := req.(status := Accepted)]
      && r.store.nextId == st.nextId
      && |e'| == |e|
      && e'[i].owner == e[j].owner && e'[j].owner == e[i].owner
      && e'[i].status == Busy && e'[j].status == Busy
      && e'[i].(owner := e[i].owner, status := e[i].status) == e[i]
      && e'[j].(owner := e[j].owner, status := e[j].status) == e[j]
      && (forall k :: 0 <= k < |e| && k != i && k != j ==> e'[k] == e[k])
  {
    UniqueRequest(st, q);
    UniqueSlot(st, i, st.events[i].id);
    UniqueSlot(st, j, st.events[j].id);
  }

  /** Accepting when either slot has an empty title (which an update can
      store) fails when that slot is saved: the transaction aborts and
      nothing changes. Rejecting is not affected. */
  lemma AcceptInvalidSlotFails(st: Store, q: nat, i: nat, j: nat)
    requires WellFormed(st)
    requires q < |st.swapRequests| && st.swapRequests[q].status == Pending
    requires i < |st.events| && st.events[i].id == st.swapRequests[q].mySlot
    requires j < |st.events| && st.events[j].id == st.swapRequests[q].theirSlot
    requires !SaveValid(st.events[i]) || !SaveValid(st.events[j])
    ensures var req := st.swapRequests[q];
      Respond(st, req.responder, req.id, true) == Step(st, Err(ValidationFailed))
      && Respond(st, req.responder, req.id, false).result == Ok(())
  {
    UniqueRequest(st, q);
    UniqueSlot(st, i, st.events[i].id);
    UniqueSlot(st, j, st.events[j].id);
  }

  /** A successful respond only ever writes the answered request's status,
      from PENDING: its references, its parties and every other request stay
      as they were. */
  lemma RespondOnlyWritesStatus(st: Store, caller: ObjectId, requestId: ObjectId, accept: bool)
    requires Respond(st, caller, requestId, accept).result.Ok?
    ensures var st' := Respond(st, caller, requestId, accept).store;
      && |st'.swapRequests| == |st.swapRequests|
      && (forall k :: 0 <= k < |st.swapRequests| ==>
            st'.swapRequests[k].(status := Pending) == st.swapRequests[k].(status := Pending))
      && (forall k :: 0 <= k < |st.swapRequests| && st'.swapRequests[k] != st.swapRequests[k] ==>
            st.swapRequests[k].id == requestId && st.swapRequests[k].status == Pending
            && st'.swapRequests[k].status == (if accept then Accepted else Rejected))
  {
    var q := FindRequest(st.swapRequests, requestId).value;
    var req := st.swapRequests[q];
    assert Respond(st, caller, requestId, accept).store.swapRequests
           == st.swapRequests[q := req.(status := if accept then Accepted else Rejected)];
  }

  /** Answered requests are final: a request that is no longer PENDING
      stays exactly as it is through any proposal or response. */
  lemma HandledRequestsAreFinal(st: Store, caller: ObjectId, requestId: ObjectId, accept: bool,
                                m: Option<ObjectId>, t: Option<ObjectId>, k: nat)
    requires k < |st.swapRequests| && st.swapRequests[k].status != Pending
    ensures var st1 := Respond(st, caller, requestId, accept).store;
      k < |st1.swapRequests| && st1.swapRequests[k] == st.swapRequests[k]
    ensures var st2 := Propose(st, caller, m, t).store;
      k < |st2.swapRequests| && st2.swapRequests[k] == st.swapRequests[k]
  {
    var r := Respond(st, caller, requestId, accept);
    if r.result.Ok? {
      RespondOnlyWritesStatus(st, caller, requestId, accept);
    }
    ProposeOnlyAppends(st, caller, m, t);
  }

  /** The lists keep the collection's natural order: after a successful
      proposal the new request comes last in its responder's incoming list
      and its requester's outgoing list, and every other list is as before. */
  lemma ProposeListsRequestLast(st: Store, caller: ObjectId, m: Option<ObjectId>, t: Option<ObjectId>, user: ObjectId)
    requires Propose(st, caller, m, t).result.Ok?
    ensures var r := Propose(st, caller, m, t);
      var swap := r.result.value;
      var before, after := GetMySwapRequests(st, user), GetMySwapRequests(r.store, user);
      && after.incoming == before.incoming + (if swap.responder == user then [swap] else [])
      && after.outgoing == before.outgoing + (if swap.requester == user then [swap] else [])
  {
    ProposeOnlyAppends(st, caller, m, t);
    ListsAppend(st.swapRequests, Propose(st, caller, m, t).result.value, user);
  }

  /** Filtering a collection with one more request at its end. */
  lemma ListsAppend(reqs: seq<SwapRequest>, x: SwapRequest, user: ObjectId)
    ensures Filter(reqs + [x], ByResponder(user)) == Filter(reqs, ByResponder(user)) + (if x.responder == user then [x] else [])
    ensures Filter(reqs + [x], ByRequester(user)) == Filter(reqs, ByRequester(user)) + (if x.requester == user then [x] else [])
  {
    FilterConcat(reqs, [x], ByResponder(user));
    FilterConcat(reqs, [x], ByRequester(user));
    FilterSingle(x, ByResponder(user));
    FilterSingle(x, ByRequester(user));
  }

  /** A proposal never rewrites a request: the old requests are a prefix of
      the new ones, with at most one more. */
  lemma ProposeOnlyAppends(st: Store, caller: ObjectId, m: Option<ObjectId>, t: Option<ObjectId>)
    ensures var st' := Propose(st, caller, m, t).store;
      st.swapRequests <= st'.swapRequests && |st'.swapRequests| <= |st.swapRequests| + 1
    ensures var r := Propose(st, caller, m, t);
      r.result.Ok? ==> r.store.swapRequests == st.swapRequests + [r.result.value]
  {
  }

  /** A second answer to the same request fails and changes nothing; when
      it comes from the responder again it is "Already handled". */
  lemma RespondTwice(st: Store, caller: ObjectId, requestId: ObjectId, accept: bool,
                     caller2: ObjectId, accept2: bool)
    requires WellFormed(st)
    requires Respond(st, caller, requestId, accept).result.Ok?
    ensures var st1 := Respond(st, caller, requestId, accept).store;
      var r := Respond(st1, caller2, requestId, accept2);
      && r.store == st1 && r.result.Err?
      && (caller2 == caller ==> r.result == Err(AlreadyHandled))
  {
    var st1 := Respond(st, caller, requestId, accept).store;
    var q := FindRequest(st.swapRequests, requestId).value;
    RespondOnlyWritesStatus(st, caller, requestId, accept);
    assert st1.swapRequests[q].id == requestId;
    assert FindRequest(st1.swapRequests, requestId) == Some(q);
  }

  // ---------------------------------------------------------------------
  // The invariant

  /** Proposing keeps the store well-formed and the slot/request invariant:
      the two slots had no PENDING request (being SWAPPABLE) and now have
      exactly the new one. */
  lemma ProposePreservesInvariant(st: Store, caller: ObjectId, mySlotId: Option<ObjectId>, theirSlotId: Option<ObjectId>)
    requires WellFormed(st) && Consistent(st)
    ensures var st' := Propose(st, caller, mySlotId, theirSlotId).store;
      WellFormed(st') && Consistent(st')
  {
    ProposeKeepsWellFormed(st, caller, mySlotId, theirSlotId);
    var r := Propose(st, caller, mySlotId, theirSlotId);
    if r.result.Ok? {
      var mi := FindOwnedSlot(st.events, mySlotId.value, caller).value;
      var ti := FindSlot(st.events, theirSlotId.value).value;
      ProposeKeepsConsistent(st, caller, mi, ti);
    }
  }

  /** A successful proposal on slots `i` and `j` keeps the invariant. */
  lemma ProposeKeepsConsistent(st: Store, caller: ObjectId, i: nat, j: nat)
    requires WellFormed(st) && Consistent(st)
    requires i < |st.events| && st.events[i].owner == caller && st.events[i].status == Swappable
    requires j < |st.events| && st.events[j].owner != caller && st.events[j].status == Swappable
    ensures Consistent(Propose(st, caller, Some(st.events[i].id), Some(st.events[j].id)).store)
  {
    ProposeSucceeds(st, caller, i, j);
    var r := Propose(st, caller, Some(st.events[i].id), Some(st.events[j].id));
    AppendKeepsConsistent(st, r.store, r.result.value, i, j);
  }

  /** Appending a PENDING request on the SWAPPABLE slots `i` and `j` keeps the
      invariant when exactly those two slots become SWAP_PENDING. */
  lemma AppendKeepsConsistent(st: Store, st': Store, swap: SwapRequest, i: nat, j: nat)
    requires WellFormed(st) && Consistent(st)
    requires i < |st.events| && st.events[i].status == Swappable && swap.mySlot == st.events[i].id
    requires j < |st.events| && st.events[j].status == Swappable && swap.theirSlot == st.events[j].id
    requires swap.status == Pending
    requires st'.swapRequests == st.swapRequests + [swap]
    requires |st'.events| == |st.events|
    requires forall k :: 0 <= k < |st.events| ==>
               st'.events[k] == if st.events[k].id == swap.mySlot || st.events[k].id == swap.theirSlot
                                then st.events[k].(status := SwapPending) else st.events[k]
    ensures Consistent(st')
  {
    forall k | 0 <= k < |st'.events|
      ensures PendingCount(st'.swapRequests, st'.events[k].id)
              == if st'.events[k].status == SwapPending then 1 else 0
    {
      PendingCountAppend(st.swapRequests, swap, st.events[k].id);
      if References(swap, st.events[k].id) {
        assert k == i || k == j;
      }
    }
  }

  /** Appending a request with a fresh id whose slots were issued keeps the
      store well-formed. */
  lemma AppendKeepsWellFormed(st: Store, st': Store, swap: SwapRequest)
    requires WellFormed(st)
    requires swap.id == FreshId(st) && swap.mySlot.counter < st.nextId && swap.theirSlot.counter < st.nextId
    requires st'.swapRequests == st.swapRequests + [swap] && st'.nextId == st.nextId + 1
    requires |st'.events| == |st.events|
    requires forall k :: 0 <= k < |st.events| ==> st'.events[k].id == st.events[k].id
    ensures WellFormed(st')
  {
    forall k | 0 <= k < |st'.swapRequests| ensures IssuedBefore(st'.swapRequests[k], st'.nextId) {
      if k < |st.swapRequests| {
        assert st'.swapRequests[k] == st.swapRequests[k];
      }
    }
  }

  /** A proposal on a SWAPPABLE slot that two PENDING requests already name
      succeeds and leaves that slot SWAP_PENDING with three. */
  lemma ProposeOnTwiceNamedSlot(st: Store, caller: ObjectId, i: nat, j: nat)
    requires WellFormed(st)
    requires i < |st.events| && st.events[i].owner == caller && st.events[i].status == Swappable
    requires j < |st.events| && st.events[j].owner != caller && st.events[j].status == Swappable
    requires PendingCount(st.swapRequests, st.events[i].id) == 2
    ensures var r := Propose(st, caller, Some(st.events[i].id), Some(st.events[j].id));
      && r.result.Ok? && !PendingIffOneRequest(r.store)
      && r.store.events[i].status == SwapPending
      && PendingCount(r.store.swapRequests, r.store.events[i].id) == 3
  {
    var r := Propose(st, caller, Some(st.events[i].id), Some(st.events[j].id));
    ProposeSucceeds(st, caller, i, j);
    PendingCountAppend(st.swapRequests, r.result.value, st.events[i].id);
    assert r.store.events[i].status == SwapPending;
    assert PendingCount(r.store.swapRequests, r.store.events[i].id) == 3;
  }

  /** Two SWAPPABLE slots, both named by two PENDING requests. */
  function TwiceNamedStore(): Store {
    Store([Slot(ObjectId(0), "a", 1, 2, Swappable, ObjectId(10)),
           Slot(ObjectId(1), "b", 3, 4, Swappable, ObjectId(11))],
          [SwapRequest(ObjectId(2), ObjectId(12), ObjectId(11), ObjectId(0), ObjectId(1), Pending),
           SwapRequest(ObjectId(3), ObjectId(12), ObjectId(11), ObjectId(0), ObjectId(1), Pending)],
          4)
  }

  /** Both slots of the store are named by both of its requests. */
  lemma TwiceNamedCounts()
    ensures PendingCount(TwiceNamedStore().swapRequests, ObjectId(0)) == 2
    ensures PendingCount(TwiceNamedStore().swapRequests, ObjectId(1)) == 2
  {
    var reqs := TwiceNamedStore().swapRequests;
    var r1, r2 := reqs[0], reqs[1];
    assert reqs == [r1] + [r2] && [r1] == [] + [r1];
    PendingCountAppend([], r1, ObjectId(0));
    PendingCountAppend([r1], r2, ObjectId(0));
    PendingCountAppend([], r1, ObjectId(1));
    PendingCountAppend([r1], r2, ObjectId(1));
  }

  lemma TwiceNamedStoreFacts()
    ensures WellFormed(TwiceNamedStore()) && PendingIffOneRequest(TwiceNamedStore())
    ensures PendingCount(TwiceNamedStore().swapRequests, ObjectId(0)) == 2
    ensures !Consistent(TwiceNamedStore())
  {
    var st := TwiceNamedStore();
    TwiceNamedCounts();
    assert st.events[0].status != SwapPending && st.events[0].id == ObjectId(0);
    assert st.events[1].status != SwapPending && st.events[1].id == ObjectId(1);
  }

  /** Why the invariant is stated as a count: the bare "SWAP_PENDING iff
      exactly one PENDING request" also holds of a SWAPPABLE slot named by
      two PENDING requests, and a proposal on such a slot is accepted and
      breaks it. `Consistent` rules that store out. */
  lemma PendingIffAloneIsNotPreserved()
    ensures exists st: Store, caller: ObjectId, m: ObjectId, t: ObjectId ::
      && WellFormed(st) && PendingIffOneRequest(st) && !Consistent(st)
      && Propose(st, caller, Some(m), Some(t)).result.Ok?
      && !PendingIffOneRequest(Propose(st, caller, Some(m), Some(t)).store)
  {
    var st := TwiceNamedStore();
    TwiceNamedStoreFacts();
    ProposeOnTwiceNamedSlot(st, ObjectId(10), 0, 1);
    assert st.events[0].id == ObjectId(0) && st.events[1].id == ObjectId(1);
  }

  /** Answering a PENDING request keeps the invariant when every slot it
      names leaves SWAP_PENDING and every other slot keeps its status. */
  lemma AnswerKeepsConsistent(st: Store, st': Store, q: nat, answered: SwapRequest)
    requires Consistent(st)
    requires q < |st.swapRequests| && st.swapRequests[q].status == Pending && answered.status != Pending
    requires st'.swapRequests == st.swapRequests[q := answered]
    requires |st'.events| == |st.events|
    requires forall k :: 0 <= k < |st.events| ==> st'.events[k].id == st.events[k].id
    requires forall k :: 0 <= k < |st.events| && References(st.swapRequests[q], st.events[k].id) ==>
               st'.events[k].status != SwapPending
    requires forall k :: 0 <= k < |st.events| && !References(st.swapRequests[q], st.events[k].id) ==>
               st'.events[k].status == st.events[k].status
    ensures Consistent(st')
  {
    forall k | 0 <= k < |st'.events|
      ensures PendingCount(st'.swapRequests, st'.events[k].id)
              == if st'.events[k].status == SwapPending then 1 else 0
    {
      PendingCountUpdate(st.swapRequests, q, answered, st.events[k].id);
    }
  }

  /** Changing slot fields other than ids and request statuses keeps the
      store well-formed. */
  lemma SameIdsKeepWellFormed(st: Store, st': Store)
    requires WellFormed(st)
    requires st'.nextId == st.nextId
    requires |st'.events| == |st.events|
    requires forall k :: 0 <= k < |st.events| ==> st'.events[k].id == st.events[k].id
    requires |st'.swapRequests| == |st.swapRequests|
    requires forall k :: 0 <= k < |st.swapRequests| ==>
               st'.swapRequests[k].(status := Pending) == st.swapRequests[k].(status := Pending)
    ensures WellFormed(st')
  {
    forall k | 0 <= k < |st.swapRequests|
      ensures st'.swapRequests[k].id == st.swapRequests[k].id
      ensures IssuedBefore(st'.swapRequests[k], st'.nextId)
    {
      assert st'.swapRequests[k].(status := Pending) == st.swapRequests[k].(status := Pending);
    }
  }

  /** Responding keeps the store well-formed and the slot/request invariant:
      the request leaves PENDING and both of its slots leave SWAP_PENDING. */
  lemma RespondPreservesInvariant(st: Store, caller: ObjectId, requestId: ObjectId, accept: bool)
    requires WellFormed(st) && Consistent(st)
    ensures var st' := Respond(st, caller, requestId, accept).store;
      WellFormed(st') && Consistent(st')
  {
    var r := Respond(st, caller, requestId, accept);
    if r.result.Ok? {
      var q := FindRequest(st.swapRequests, requestId).value;
      var req := st.swapRequests[q];
      var i := FindSlot(st.events, req.mySlot).value;
      var j := FindSlot(st.events, req.theirSlot).value;
      assert req.responder == caller && req.status == Pending && req.id == requestId;
      var st' := r.store;
      RespondOnlyWritesStatus(st, caller, requestId, accept);
      if accept {
        AcceptEffect(st, q, i, j);
        AnswerKeepsConsistent(st, st', q, req.(status := Accepted));
      } else {
        RejectEffect(st, q, i, j);
        AnswerKeepsConsistent(st, st', q, req.(status := Rejected));
      }
      SameIdsKeepWellFormed(st, st');
    }
  }

  /** Neither a proposal nor an answer adds, removes or renames a slot. */
  lemma ProposeKeepsSlotIds(st: Store, caller: ObjectId, mySlotId: Option<ObjectId>, theirSlotId: Option<ObjectId>)
    ensures var e' := Propose(st, caller, mySlotId, theirSlotId).store.events;
      |e'| == |st.events| && forall k :: 0 <= k < |e'| ==> e'[k].id == st.events[k].id
  {
  }

  lemma RespondKeepsSlotIds(st: Store, caller: ObjectId, requestId: ObjectId, accept: bool)
    ensures var e' := Respond(st, caller, requestId, accept).store.events;
      |e'| == |st.events| && forall k :: 0 <= k < |e'| ==> e'[k].id == st.events[k].id
  {
  }

  /** A proposal keeps the store well-formed, whatever the slot statuses. */
  lemma ProposeKeepsWellFormed(st: Store, caller: ObjectId, mySlotId: Option<ObjectId>, theirSlotId: Option<ObjectId>)
    requires WellFormed(st)
    ensures WellFormed(Propose(st, caller, mySlotId, theirSlotId).store)
  {
    var r := Propose(st, caller, mySlotId, theirSlotId);
    if r.result.Ok? {
      var mi := FindOwnedSlot(st.events, mySlotId.value, caller).value;
      var ti := FindSlot(st.events, theirSlotId.value).value;
      ProposeSucceeds(st, caller, mi, ti);
      ProposeKeepsSlotIds(st, caller, mySlotId, theirSlotId);
      AppendKeepsWellFormed(st, r.store, r.result.value);
    }
  }

  /** An answer keeps the store well-formed, whatever the slot statuses. */
  lemma RespondKeepsWellFormed(st: Store, caller: ObjectId, requestId: ObjectId, accept: bool)
    requires WellFormed(st)
    ensures WellFormed(Respond(st, caller, requestId, accept).store)
  {
    if Respond(st, caller, requestId, accept).result.Ok? {
      RespondOnlyWritesStatus(st, caller, requestId, accept);
      RespondKeepsSlotIds(st, caller, requestId, accept);
      SameIdsKeepWellFormed(st, Respond(st, caller, requestId, accept).store);
    }
  }
}
