/** The MongoDB database behind the controllers: the Event and SwapRequest
    collections, the queries and bulk updates the controllers use on them,
    the controllers' error responses, and the cross-record invariant that
    ties slot statuses to pending requests. */
module Store {
  import opened Common
  import opened EventModel
  import opened SwapRequestModel

  /** The error responses the controllers send. */
  datatype ApiError =
    | FieldsRequired      // 400 'All fields are required'
    | ValidationFailed    // Mongoose ValidationError, forwarded with next(err)
    | EventNotFound       // 404 'Event not found'
    | SlotIdsRequired     // 400 'mySlotId and theirSlotId are required'
    | SlotNotFound        // 404 'Slot not found'
    | CannotSwapWithSelf  // 400 'Cannot swap with yourself'
    | SlotsNotSwappable   // 400 'Slots are not swappable'
    | RequestNotFound     // 404 'Request not found'
    | NotAuthorized       // 403 'Not authorized'
    | AlreadyHandled      // 400 'Already handled'
    | SlotsMissing        // 404 'Slots missing'

  /** A controller's response: an error or the value sent back. */
  datatype Result<T> = Err(error: ApiError) | Ok(value: T)

  /** Both collections, in natural (insertion) order, and the ObjectId
      generator: every id issued so far is below `nextId`. */
  datatype Store = Store(events: seq<Slot>, swapRequests: seq<SwapRequest>, nextId: nat)

  /** The result of one controller call: the committed store and the response. */
  datatype Step<T> = Step(store: Store, result: Result<T>)

  const EmptyStore: Store := Store([], [], 0)

  /** The id the next inserted document receives. */
  function FreshId(st: Store): ObjectId {
    ObjectId(st.nextId)
  }

  /** `Event.findById(id)`: the position of the slot with that id. */
  function FindSlot(events: seq<Slot>, id: ObjectId): (r: Option<nat>)
    ensures r.Some? ==> r.value < |events| && events[r.value].id == id
    ensures r.Some? ==> forall j :: 0 <= j < r.value ==> events[j].id != id
    ensures r.None? <==> forall j :: 0 <= j < |events| ==> events[j].id != id
  {
    FindFirst(events, (s: Slot) => s.id == id)
  }

  /** `Event.findOne({ _id: id, owner: owner })`. */
  function FindOwnedSlot(events: seq<Slot>, id: ObjectId, owner: ObjectId): (r: Option<nat>)
    ensures r.Some? ==> r.value < |events| && events[r.value].id == id && events[r.value].owner == owner
    ensures r.Some? ==> forall j :: 0 <= j < r.value ==> !(events[j].id == id && events[j].owner == owner)
    ensures r.None? <==> forall j :: 0 <= j < |events| ==> !(events[j].id == id && events[j].owner == owner)
  {
    FindFirst(events, (s: Slot) => s.id == id && s.owner == owner)
  }

  /** `SwapRequest.findById(id)`. */
  function FindRequest(reqs: seq<SwapRequest>, id: ObjectId): (r: Option<nat>)
    ensures r.Some? ==> r.value < |reqs| && reqs[r.value].id == id
    ensures r.Some? ==> forall j :: 0 <= j < r.value ==> reqs[j].id != id
    ensures r.None? <==> forall j :: 0 <= j < |reqs| ==> reqs[j].id != id
  {
    FindFirst(reqs, (r: SwapRequest) => r.id == id)
  }

  /** `Event.updateMany({ _id: { $in: ids } }, { $set: { status } })`:
      every slot whose id is in `ids` gets `status`, nothing else changes. */
  function SetStatusWhere(events: seq<Slot>, ids: set<ObjectId>, status: SlotStatus): (r: seq<Slot>)
    ensures |r| == |events|
    ensures forall i :: 0 <= i < |r| ==> r[i].(status := events[i].status) == events[i]
    ensures forall i :: 0 <= i < |r| ==> r[i].status == if events[i].id in ids then status else events[i].status
  {
    seq(|events|, i requires 0 <= i < |events| =>
      if events[i].id in ids then events[i].(status := status) else events[i])
  }

  /** `s` without its element at position `i`. */
  function RemoveAt<T>(s: seq<T>, i: nat): (r: seq<T>)
    requires i < |s|
    ensures |r| == |s| - 1
    ensures forall j :: 0 <= j < i ==> r[j] == s[j]
    ensures forall j :: i <= j < |r| ==> r[j] == s[j + 1]
  {
    s[..i] + s[i + 1..]
  }

  // ---------------------------------------------------------------------
  // `.sort({ startTime: 1 })`

  predicate SortedByStart(s: seq<Slot>) {
    forall i, j :: 0 <= i < j < |s| ==> s[i].startTime <= s[j].startTime
  }

  function InsertByStart(x: Slot, s: seq<Slot>): (r: seq<Slot>)
    requires SortedByStart(s)
    ensures SortedByStart(r)
    ensures multiset(r) == multiset(s) + multiset{x}
    ensures r[0] == x || (s != [] && r[0] == s[0])
  {
    if s == [] then [x]
    else if x.startTime <= s[0].startTime then [x] + s
    else
      var rest := InsertByStart(x, s[1..]);
      assert s == [s[0]] + s[1..];
      assert s[0].startTime <= rest[0].startTime;
      [s[0]] + rest
  }

  /** An ascending sort on `startTime`: sorted, and a permutation of `s`. */
  function SortByStart(s: seq<Slot>): (r: seq<Slot>)
    ensures SortedByStart(r)
    ensures multiset(r) == multiset(s)
  {
    if s == [] then []
    else
      assert s == [s[0]] + s[1..];
      InsertByStart(s[0], SortByStart(s[1..]))
  }

  // ---------------------------------------------------------------------
  // Well-formedness: what the database guarantees about ids.

  /** The ids a request holds for documents (its own and its two slots)
      were all issued before `bound`. */
  predicate IssuedBefore(r: SwapRequest, bound: nat) {
    r.id.counter < bound && r.mySlot.counter < bound && r.theirSlot.counter < bound
  }

  /** `_id` is unique in each collection, and every document id in the
      store has been issued by the generator. */
  ghost predicate WellFormed(st: Store) {
    && (forall i :: 0 <= i < |st.events| ==> st.events[i].id.counter < st.nextId)
    && (forall i, j :: 0 <= i < j < |st.events| ==> st.events[i].id != st.events[j].id)
    && (forall i :: 0 <= i < |st.swapRequests| ==> IssuedBefore(st.swapRequests[i], st.nextId))
    && (forall i, j :: 0 <= i < j < |st.swapRequests| ==> st.swapRequests[i].id != st.swapRequests[j].id)
  }

  // ---------------------------------------------------------------------
  // The slot/request invariant.

  /** 1 if `r` is a PENDING request naming `slot`, else 0. */
  function Counts(r: SwapRequest, slot: ObjectId): nat {
    if r.status == Pending && References(r, slot) then 1 else 0
  }

  /** The number of PENDING requests that name `slot`. */
  function PendingCount(reqs: seq<SwapRequest>, slot: ObjectId): nat {
    if reqs == [] then 0
    else PendingCount(reqs[..|reqs| - 1], slot) + Counts(reqs[|reqs| - 1], slot)
  }

  /** Every slot is SWAP_PENDING with exactly one PENDING request naming it,
      or is not SWAP_PENDING and no PENDING request names it. */
  ghost predicate Consistent(st: Store) {
    forall i :: 0 <= i < |st.events| ==>
      PendingCount(st.swapRequests, st.events[i].id) == if st.events[i].status == SwapPending then 1 else 0
  }

  /** The intended invariant, read literally: a slot is SWAP_PENDING if and
      only if exactly one PENDING request names it. */
  ghost predicate PendingIffOneRequest(st: Store) {
    forall i :: 0 <= i < |st.events| ==>
      (st.events[i].status == SwapPending <==> PendingCount(st.swapRequests, st.events[i].id) == 1)
  }

  lemma ConsistentGivesPendingIff(st: Store)
    requires Consistent(st)
    ensures PendingIffOneRequest(st)
  {
  }

  lemma PendingCountAppend(reqs: seq<SwapRequest>, r: SwapRequest, slot: ObjectId)
    ensures PendingCount(reqs + [r], slot) == PendingCount(reqs, slot) + Counts(r, slot)
  {
    assert (reqs + [r])[..|reqs|] == reqs;
  }

  /** Replacing one request changes the count by exactly that request's share. */
  lemma {:induction false} PendingCountUpdate(reqs: seq<SwapRequest>, q: nat, r: SwapRequest, slot: ObjectId)
    requires q < |reqs|
    ensures PendingCount(reqs[q := r], slot) == PendingCount(reqs, slot) - Counts(reqs[q], slot) + Counts(r, slot)
  {
    var n := |reqs| - 1;
    if q == n {
      assert reqs[q := r][..n] == reqs[..n];
    } else {
      assert reqs[q := r][..n] == reqs[..n][q := r];
      PendingCountUpdate(reqs[..n], q, r, slot);
    }
  }

  /** A slot that no request names has no PENDING request. */
  lemma {:induction false} PendingCountUnreferenced(reqs: seq<SwapRequest>, slot: ObjectId)
    requires forall i :: 0 <= i < |reqs| ==> !References(reqs[i], slot)
    ensures PendingCount(reqs, slot) == 0
  {
    if reqs != [] {
      PendingCountUnreferenced(reqs[..|reqs| - 1], slot);
    }
  }

  lemma WellFormedEmpty()
    ensures WellFormed(EmptyStore) && Consistent(EmptyStore)
  {
  }

  // ---------------------------------------------------------------------
  // The database object the controllers read and write.

  /** The two collections as the controllers see them. Each controller
      method works on a copy of the collections (the transaction's
      snapshot) and assigns the fields once, at commit. */
  class Database {
    var events: seq<Slot>
    var swapRequests: seq<SwapRequest>
    var nextId: nat

    constructor ()
      ensures State() == EmptyStore
    {
      events, swapRequests, nextId := [], [], 0;
    }

    function State(): Store
      reads this
    {
      Store(events, swapRequests, nextId)
    }
  }
}
