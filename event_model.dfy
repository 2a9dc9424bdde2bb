/** The Event schema: a user's time slot with its exchange status.
    Mongoose's validation of a new document (required fields, the status
    enumeration and its default, the trimmed title) is modelled by `NewSlot`. */
module EventModel {
  import opened Common

  /** The values allowed by the schema's `status` enumeration. */
  datatype SlotStatus = Busy | Swappable | SwapPending

  /** The status a slot gets when none is given. */
  const DefaultStatus: SlotStatus := Busy

  /** The string stored for each status. */
  function StatusName(s: SlotStatus): string {
    match s
    case Busy => "BUSY"
    case Swappable => "SWAPPABLE"
    case SwapPending => "SWAP_PENDING"
  }

  /** Enumeration validation: a string is accepted exactly when it is the
      name of one of the three statuses. */
  function ParseStatus(name: string): (r: Option<SlotStatus>)
    ensures r.Some? <==> name == "BUSY" || name == "SWAPPABLE" || name == "SWAP_PENDING"
    ensures r.Some? ==> StatusName(r.value) == name
  {
    if name == "BUSY" then Some(Busy)
    else if name == "SWAPPABLE" then Some(Swappable)
    else if name == "SWAP_PENDING" then Some(SwapPending)
    else None
  }

  lemma StatusNameRoundTrip(s: SlotStatus)
    ensures ParseStatus(StatusName(s)) == Some(s)
  {
  }

  /** A stored Event document. Times are abstracted to integers. */
  datatype Slot = Slot(
    id: ObjectId,
    title: string,
    startTime: int,
    endTime: int,
    status: SlotStatus,
    owner: ObjectId)

  /** The characters that JavaScript's String.prototype.trim removes:
      white space and line terminators. */
  predicate IsWhitespace(c: char) {
    c == ' ' || c == '\t' || c == '\n' || c == '\r' || c == '\U{000B}' || c == '\U{000C}'
    || c == '\U{00A0}' || c == '\U{1680}' || ('\U{2000}' <= c <= '\U{200A}')
    || c == '\U{2028}' || c == '\U{2029}' || c == '\U{202F}' || c == '\U{205F}'
    || c == '\U{3000}' || c == '\U{FEFF}'
  }

  function TrimStart(s: string): (t: string)
    ensures |t| <= |s| && t == s[|s| - |t|..]
    ensures forall i :: 0 <= i < |s| - |t| ==> IsWhitespace(s[i])
    ensures t == [] || !IsWhitespace(t[0])
  {
    if s != [] && IsWhitespace(s[0]) then TrimStart(s[1..]) else s
  }

  function TrimEnd(s: string): (t: string)
    ensures |t| <= |s| && t == s[..|t|]
    ensures forall i :: |t| <= i < |s| ==> IsWhitespace(s[i])
    ensures t == [] || !IsWhitespace(t[|t| - 1])
  {
    if s != [] && IsWhitespace(s[|s| - 1]) then TrimEnd(s[..|s| - 1]) else s
  }

  /** The schema's `trim: true` setter: `s` without leading and trailing
      white space. */
  function Trim(s: string): (t: string)
    ensures |t| <= |s|
    ensures t == [] || (!IsWhitespace(t[0]) && !IsWhitespace(t[|t| - 1]))
  {
    var u := TrimStart(s);
    var t := TrimEnd(u);
    assert t != [] ==> t[0] == u[0];
    t
  }

  /** What trimming cuts: the trimmed string is the slice of `s` that
      starts after the leading white space, and everything cut off on
      either side is white space. */
  lemma TrimShape(s: string)
    ensures var a, t := |s| - |TrimStart(s)|, Trim(s);
      && a + |t| <= |s| && t == s[a..a + |t|]
      && (forall i :: 0 <= i < a ==> IsWhitespace(s[i]))
      && (forall i :: a + |t| <= i < |s| ==> IsWhitespace(s[i]))
  {
    var u := TrimStart(s);
    TrimParts(s, |s| - |u|, u, TrimEnd(u));
  }

  /** `u` is `s` from position `a` on, and `t` is a prefix of `u` followed
      only by white space: then `t` is the slice of `s` at `a`, and what
      follows it in `s` is white space. */
  lemma TrimParts(s: string, a: nat, u: string, t: string)
    requires a <= |s| && u == s[a..]
    requires |t| <= |u| && t == u[..|t|]
    requires forall j :: |t| <= j < |u| ==> IsWhitespace(u[j])
    ensures a + |t| <= |s| && t == s[a..a + |t|]
    ensures forall i :: a + |t| <= i < |s| ==> IsWhitespace(s[i])
  {
    forall i | a + |t| <= i < |s| ensures IsWhitespace(s[i]) {
      assert s[i] == u[i - a];
    }
  }

  /** A string is trimmed to nothing exactly when it is all white space. */
  lemma TrimEmpty(s: string)
    ensures Trim(s) == [] <==> forall i :: 0 <= i < |s| ==> IsWhitespace(s[i])
  {
    TrimShape(s);
  }

  /** Trimming twice is trimming once. */
  lemma TrimIdempotent(s: string)
    ensures Trim(Trim(s)) == Trim(s)
  {
    var t := Trim(s);
    if t != [] {
      assert TrimStart(t) == t;
      assert TrimEnd(t) == t;
    }
  }

  /** Whether `save` accepts a stored slot. Saving validates the document
      again: `required` rejects an empty title. An update runs no
      validators, so it may store an empty title. In this model the other
      required fields always hold a value, because a typed patch cannot
      send a null, and the status is always in the enumeration. */
  predicate SaveValid(s: Slot) {
    s.title != []
  }

  /** The fields handed to `Event.create`; `None` stands for a field
      that is absent. */
  datatype SlotFields = SlotFields(
    title: Option<string>,
    startTime: Option<int>,
    endTime: Option<int>,
    status: Option<string>,
    owner: Option<ObjectId>)

  /** Document construction and validation: `None` is a ValidationError.
      title, startTime, endTime and owner are required (a title that trims
      to the empty string fails `required`), a given status must be one of
      the enumeration, an absent status defaults to BUSY, and the title is
      stored trimmed. */
  function NewSlot(id: ObjectId, f: SlotFields): (r: Option<Slot>)
    ensures r.Some? <==>
      && f.title.Some? && Trim(f.title.value) != []
      && f.startTime.Some? && f.endTime.Some? && f.owner.Some?
      && (f.status.None? || ParseStatus(f.status.value).Some?)
    ensures r.Some? ==>
      && r.value.id == id
      && r.value.title == Trim(f.title.value)
      && r.value.startTime == f.startTime.value
      && r.value.endTime == f.endTime.value
      && r.value.owner == f.owner.value
      && r.value.status == (if f.status.None? then DefaultStatus else ParseStatus(f.status.value).value)
    ensures r.Some? ==> SaveValid(r.value)
  {
    if f.title.None? || Trim(f.title.value) == [] then None
    else if f.startTime.None? || f.endTime.None? || f.owner.None? then None
    else
      var status := if f.status.None? then Some(DefaultStatus) else ParseStatus(f.status.value);
      if status.None? then None
      else Some(Slot(id, Trim(f.title.value), f.startTime.value, f.endTime.value, status.value, f.owner.value))
  }
}
