/** Nostr events as far as the thread loader looks at them: an id, a creation
    time, an optional address (replaceable events) and the three groups of
    NIP-10 references that the `Tags` helper hands back. */
module Events {
  import opened Wrappers

  /** Event ids and addresses. The empty string is the "missing" id that the
      loader drops before fetching. */
  type Id = string

  datatype Event = Event(
    id: Id,
    createdAt: int,
    address: Option<Id>,  // present for replaceable events
    rootRefs: seq<Id>,    // ids and addresses marked "root"
    replyRefs: seq<Id>,   // ids and addresses marked "reply"
    mentionRefs: seq<Id>) // ids and addresses marked "mention"

  /** The key an incoming event is classified by: its address when it is
      replaceable, its id otherwise. */
  function IdOrAddress(e: Event): Id
  {
    match e.address
    case Some(a) => a
    case None => e.id
  }

  /** Every identifier an event can be requested by: its id, then its address. */
  function EventIds(e: Event): (r: seq<Id>)
    ensures e.id in r && IdOrAddress(e) in r
    ensures forall x :: x in r ==> x == e.id || x == IdOrAddress(e)
  {
    [e.id] + (match e.address case Some(a) => [a] case None => [])
  }

  /** The identifiers of a list of events, flattened into a set. */
  function IdsOf(s: seq<Event>): (r: set<Id>)
    ensures forall x :: x in r <==> exists e :: e in s && x in EventIds(e)
  {
    if s == [] then {}
    else
      assert forall e :: e in s <==> e == s[0] || e in s[1..];
      (set x | x in EventIds(s[0])) + IdsOf(s[1..])
  }
}
