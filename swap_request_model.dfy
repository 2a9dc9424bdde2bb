/** The SwapRequest schema: one negotiation between two slots. */
module SwapRequestModel {
  import opened Common

  /** The values allowed by the schema's `status` enumeration. */
  datatype RequestStatus = Pending | Accepted | Rejected

  /** The status a request gets when none is given. */
  const DefaultRequestStatus: RequestStatus := Pending

  /** A stored SwapRequest document. The four references are ids;
      `mySlot` is the requester's slot, `theirSlot` the responder's. */
  datatype SwapRequest = SwapRequest(
    id: ObjectId,
    requester: ObjectId,
    responder: ObjectId,
    mySlot: ObjectId,
    theirSlot: ObjectId,
    status: RequestStatus)

  /** The fields handed to `SwapRequest.create`; `None` is an absent field. */
  datatype RequestFields = RequestFields(
    requester: Option<ObjectId>,
    responder: Option<ObjectId>,
    mySlot: Option<ObjectId>,
    theirSlot: Option<ObjectId>,
    status: Option<RequestStatus>)

  /** Document construction and validation: `None` is a ValidationError.
      All four references are required and the status defaults to PENDING. */
  function NewSwapRequest(id: ObjectId, f: RequestFields): (r: Option<SwapRequest>)
    ensures r.Some? <==> f.requester.Some? && f.responder.Some? && f.mySlot.Some? && f.theirSlot.Some?
    ensures r.Some? ==>
      && r.value.id == id
      && r.value.requester == f.requester.value
      && r.value.responder == f.responder.value
      && r.value.mySlot == f.mySlot.value
      && r.value.theirSlot == f.theirSlot.value
      && r.value.status == f.status.GetOr(DefaultRequestStatus)
  {
    if f.requester.None? || f.responder.None? || f.mySlot.None? || f.theirSlot.None? then None
    else Some(SwapRequest(id, f.requester.value, f.responder.value, f.mySlot.value, f.theirSlot.value,
                          f.status.GetOr(DefaultRequestStatus)))
  }

  /** Whether a request names the slot `slot` on either side. */
  predicate References(r: SwapRequest, slot: ObjectId) {
    r.mySlot == slot || r.theirSlot == slot
  }
}
