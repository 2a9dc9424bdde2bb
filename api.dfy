/** The state-changing calls the REST API offers, and any sequence of them.
    The queries change nothing and are not calls here. */
module Api {
  import opened Common
  import opened SwapRequestModel
  import opened Store
  import SwapController
  import EventController

  /** One POST, PUT or DELETE handled by a controller. */
  datatype Call =
    | RequestSwapCall(caller: ObjectId, mySlotId: Option<ObjectId>, theirSlotId: Option<ObjectId>)
    | RespondSwapCall(caller: ObjectId, requestId: ObjectId, accept: bool)
    | CreateEventCall(caller: ObjectId, body: EventController.EventBody)
    | UpdateEventCall(caller: ObjectId, id: ObjectId, patch: EventController.EventPatch)
    | DeleteEventCall(caller: ObjectId, id: ObjectId)

  /** The store after one call, whatever its response. */
  function Apply(st: Store, c: Call): Store {
    match c
    case RequestSwapCall(u, m, t) => SwapController.Propose(st, u, m, t).store
    case RespondSwapCall(u, q, a) => SwapController.Respond(st, u, q, a).store
    case CreateEventCall(u, b) => EventController.CreateSlot(st, u, b).store
    case UpdateEventCall(u, id, p) => EventController.UpdateSlot(st, u, id, p).store
    case DeleteEventCall(u, id) => EventController.DeleteSlot(st, u, id).store
  }

  /** The store after the calls, in order. */
  function Run(st: Store, calls: seq<Call>): Store
    decreases |calls|
  {
    if calls == [] then st else Run(Apply(st, calls[0]), calls[1..])
  }

  /** Every call keeps the store well-formed. */
  lemma ApplyKeepsWellFormed(st: Store, c: Call)
    requires WellFormed(st)
    ensures WellFormed(Apply(st, c))
  {
    match c
    case RequestSwapCall(u, m, t) => SwapController.ProposeKeepsWellFormed(st, u, m, t);
    case RespondSwapCall(u, q, a) => SwapController.RespondKeepsWellFormed(st, u, q, a);
    case CreateEventCall(u, b) => EventController.CreatePreservesInvariant(st, u, b);
    case UpdateEventCall(u, id, p) => EventController.UpdatePreservesInvariant(st, u, id, p);
    case DeleteEventCall(u, id) => EventController.DeletePreservesInvariant(st, u, id);
  }

  /** So does every sequence of calls, starting from the empty database. */
  lemma {:induction false} RunKeepsWellFormed(st: Store, calls: seq<Call>)
    requires WellFormed(st)
    ensures WellFormed(Run(st, calls))
    decreases |calls|
  {
    if calls != [] {
      ApplyKeepsWellFormed(st, calls[0]);
      RunKeepsWellFormed(Apply(st, calls[0]), calls[1..]);
    }
  }

  // ---------------------------------------------------------------------
  // A request whose slot was deleted

  /** `req` is a PENDING request in the store, one of its slots (`gone`) no
      longer exists, and its id was issued, so it is never issued again. */
  ghost predicate Stranded(st: Store, req: SwapRequest, gone: ObjectId) {
    && WellFormed(st)
    && req in st.swapRequests && req.status == Pending
    && References(req, gone)
    && gone.counter < st.nextId
    && forall k :: 0 <= k < |st.events| ==> st.events[k].id != gone
  }

  /** Every answer to a stranded request fails and changes nothing: the
      responder gets "Slots missing", anyone else "Not authorized". */
  lemma StrandedAnswerFails(st: Store, req: SwapRequest, gone: ObjectId, caller: ObjectId, accept: bool)
    requires Stranded(st, req, gone)
    ensures SwapController.Respond(st, caller, req.id, accept)
            == Step(st, Err(if caller == req.responder then SlotsMissing else NotAuthorized))
  {
    var q :| 0 <= q < |st.swapRequests| && st.swapRequests[q] == req;
    SwapController.UniqueRequest(st, q);
  }

  /** No call revives a stranded request: no call re-creates the missing
      slot, and no call can change the request. */
  lemma StrandedKept(st: Store, req: SwapRequest, gone: ObjectId, c: Call)
    requires Stranded(st, req, gone)
    ensures Stranded(Apply(st, c), req, gone)
  {
    ApplyKeepsWellFormed(st, c);
    match c
    case RequestSwapCall(u, m, t) => StrandedKeptByPropose(st, req, gone, u, m, t);
    case RespondSwapCall(u, rid, a) => StrandedKeptByRespond(st, req, gone, u, rid, a);
    case CreateEventCall(u, b) =>
      if EventController.CreateSlot(st, u, b).result.Ok? {
        EventController.CreateEffect(st, u, b);
      }
    case UpdateEventCall(u, id, p) =>
    case DeleteEventCall(u, id) =>
  }

  lemma StrandedKeptByPropose(st: Store, req: SwapRequest, gone: ObjectId,
                              u: ObjectId, m: Option<ObjectId>, t: Option<ObjectId>)
    requires Stranded(st, req, gone)
    ensures Stranded(SwapController.Propose(st, u, m, t).store, req, gone)
  {
    var q :| 0 <= q < |st.swapRequests| && st.swapRequests[q] == req;
    var st' := SwapController.Propose(st, u, m, t).store;
    SwapController.ProposeKeepsWellFormed(st, u, m, t);
    SwapController.ProposeOnlyAppends(st, u, m, t);
    SwapController.ProposeKeepsSlotIds(st, u, m, t);
    assert st'.swapRequests[q] == req;
  }

  lemma StrandedKeptByRespond(st: Store, req: SwapRequest, gone: ObjectId,
                              u: ObjectId, rid: ObjectId, a: bool)
    requires Stranded(st, req, gone)
    ensures Stranded(SwapController.Respond(st, u, rid, a).store, req, gone)
  {
    var q :| 0 <= q < |st.swapRequests| && st.swapRequests[q] == req;
    var st' := SwapController.Respond(st, u, rid, a).store;
    SwapController.RespondKeepsWellFormed(st, u, rid, a);
    SwapController.RespondKeepsSlotIds(st, u, rid, a);
    if rid == req.id {
      StrandedAnswerFails(st, req, gone, u, a);
    } else if SwapController.Respond(st, u, rid, a).result.Ok? {
      SwapController.RespondOnlyWritesStatus(st, u, rid, a);
      assert st'.swapRequests[q] == req;
    }
  }

  lemma {:induction false} StrandedForever(st: Store, req: SwapRequest, gone: ObjectId, calls: seq<Call>)
    requires Stranded(st, req, gone)
    ensures Stranded(Run(st, calls), req, gone)
    decreases |calls|
  {
    if calls != [] {
      StrandedKept(st, req, gone, calls[0]);
      StrandedForever(Apply(st, calls[0]), req, gone, calls[1..]);
    }
  }

  /** updateEvent and deleteEvent do not look at SWAP_PENDING. Deleting
      either slot of a PENDING request strands the request: after the
      deletion and any later calls, the request is still there and still
      PENDING, and every answer to it fails and changes nothing. */
  lemma DeleteOfPendingSlotStrandsRequest(st: Store, q: nat, i: nat, calls: seq<Call>,
                                          caller: ObjectId, accept: bool)
    requires WellFormed(st)
    requires q < |st.swapRequests| && st.swapRequests[q].status == Pending
    requires i < |st.events| && References(st.swapRequests[q], st.events[i].id)
    ensures var req, s := st.swapRequests[q], st.events[i];
      var stn := Run(EventController.DeleteSlot(st, s.owner, s.id).store, calls);
      && req in stn.swapRequests
      && SwapController.Respond(stn, caller, req.id, accept)
         == Step(stn, Err(if caller == req.responder then SlotsMissing else NotAuthorized))
  {
    var req, s := st.swapRequests[q], st.events[i];
    var st1 := EventController.DeleteSlot(st, s.owner, s.id).store;
    EventController.DeleteEffect(st, i);
    EventController.DeletePreservesInvariant(st, s.owner, s.id);
    forall k | 0 <= k < |st1.events| ensures st1.events[k].id != s.id {
      assert st1.events[k] in st1.events;
    }
    assert req == st1.swapRequests[q];
    StrandedForever(st1, req, s.id, calls);
    StrandedAnswerFails(Run(st1, calls), req, s.id, caller, accept);
  }
}
