/** The thread loader: starting from one subject note it requests the notes
    the subject refers to, files every delivered note as the thread's root,
    the subject's parent or a generic ancestor, and requests in turn the
    notes those refer to, skipping ids it already holds. */
module Thread {
  import opened Wrappers
  import opened Events
  import opened AncestorList

  /** The ids a note refers to: its root references, then its reply
      references, then its mentions, duplicates kept. */
  function AncestorIds(e: Event): (r: seq<Id>)
    ensures |r| == |e.rootRefs| + |e.replyRefs| + |e.mentionRefs|
    ensures r[..|e.rootRefs|] == e.rootRefs
    ensures r[|e.rootRefs|..|e.rootRefs| + |e.replyRefs|] == e.replyRefs
    ensures r[|e.rootRefs| + |e.replyRefs|..] == e.mentionRefs
  {
    e.rootRefs + e.replyRefs + e.mentionRefs
  }

  /** The ids a whole batch refers to, note after note. */
  function BatchAncestorIds(events: seq<Event>): (r: seq<Id>)
    ensures forall id :: id in r <==> exists e :: e in events && id in AncestorIds(e)
  {
    if events == [] then []
    else
      assert forall e :: e in events <==> e == events[0] || e in events[1..];
      AncestorIds(events[0]) + BatchAncestorIds(events[1..])
  }

  /** Asking for the ancestors of two batches in turn asks for the same ids,
      in the same order, as asking for them of the joined batch. */
  lemma {:induction false} BatchAncestorIdsAppend(a: seq<Event>, b: seq<Event>)
    ensures BatchAncestorIds(a + b) == BatchAncestorIds(a) + BatchAncestorIds(b)
  {
    if a == [] {
      assert a + b == b;
    } else {
      assert (a + b)[0] == a[0];
      assert (a + b)[1..] == a[1..] + b;
      BatchAncestorIdsAppend(a[1..], b);
    }
  }

  /** Where a delivered note is filed. */
  datatype Slot = ParentSlot | RootSlot | AncestorSlot

  /** A delivered note becomes the parent when the subject's reply references
      name it, else the root when the subject's root references name it,
      else a generic ancestor. Only the subject's tags are consulted. */
  function Classify(subject: Event, e: Event): (slot: Slot)
    ensures slot == ParentSlot <==> IdOrAddress(e) in subject.replyRefs
    ensures slot == RootSlot <==>
              IdOrAddress(e) !in subject.replyRefs && IdOrAddress(e) in subject.rootRefs
    ensures slot == AncestorSlot <==>
              IdOrAddress(e) !in subject.replyRefs && IdOrAddress(e) !in subject.rootRefs
  {
    if IdOrAddress(e) in subject.replyRefs then ParentSlot
    else if IdOrAddress(e) in subject.rootRefs then RootSlot
    else AncestorSlot
  }

  /** The generic ancestors of a batch, in delivery order. */
  function Staged(subject: Event, events: seq<Event>): (r: seq<Event>)
    ensures forall e :: e in r <==> e in events && Classify(subject, e) == AncestorSlot
  {
    if events == [] then []
    else
      var n := |events| - 1;
      assert events == events[..n] + [events[n]];
      Staged(subject, events[..n]) +
        (if Classify(subject, events[n]) == AncestorSlot then [events[n]] else [])
  }

  lemma {:induction false} StagedAppend(subject: Event, a: seq<Event>, b: seq<Event>)
    ensures Staged(subject, a + b) == Staged(subject, a) + Staged(subject, b)
    decreases |b|
  {
    if b == [] {
      assert a + b == a;
    } else {
      var n := |b| - 1;
      assert (a + b)[..|a| + n] == a + b[..n];
      StagedAppend(subject, a, b[..n]);
    }
  }

  /** What a cell holds after a batch: the last note of the batch filed into
      `slot`, or what it held before when there is none. */
  function LastMatch(subject: Event, events: seq<Event>, slot: Slot, prior: Option<Event>): (r: Option<Event>)
    ensures r == prior || (r.Some? && r.value in events && Classify(subject, r.value) == slot)
    ensures (forall e :: e in events ==> Classify(subject, e) != slot) ==> r == prior
  {
    if events == [] then prior
    else
      var n := |events| - 1;
      assert events == events[..n] + [events[n]];
      if Classify(subject, events[n]) == slot then Some(events[n])
      else LastMatch(subject, events[..n], slot, prior)
  }

  /** When several notes of a batch are filed into the same cell, the last
      of them wins. */
  lemma {:induction false} LastMatchLastWins(subject: Event, events: seq<Event>, slot: Slot, prior: Option<Event>, i: nat)
    requires i < |events| && Classify(subject, events[i]) == slot
    ensures exists j :: i <= j < |events| && LastMatch(subject, events, slot, prior) == Some(events[j])
                        && Classify(subject, events[j]) == slot
                        && forall k :: j < k < |events| ==> Classify(subject, events[k]) != slot
  {
    var n := |events| - 1;
    if Classify(subject, events[n]) == slot {
      assert LastMatch(subject, events, slot, prior) == Some(events[n]);
    } else {
      LastMatchLastWins(subject, events[..n], slot, prior, i);
      var j :| i <= j < n && LastMatch(subject, events[..n], slot, prior) == Some(events[..n][j])
               && Classify(subject, events[..n][j]) == slot
               && forall k :: j < k < n ==> Classify(subject, events[..n][k]) != slot;
      assert events[..n][j] == events[j];
      forall k | j < k < |events| ensures Classify(subject, events[k]) != slot {
        if k < n { assert events[..n][k] == events[k]; }
      }
    }
  }

  /** The ids of `ids` still to fetch: non-empty and not already held, in
      input order. */
  function Unseen(ids: seq<Id>, seen: set<Id>): (r: seq<Id>)
    ensures forall id :: id in r <==> id in ids && id != "" && id !in seen
    ensures |r| <= |ids|
  {
    if ids == [] then []
    else
      assert forall id :: id in ids <==> id == ids[0] || id in ids[1..];
      (if ids[0] != "" && ids[0] !in seen then [ids[0]] else []) + Unseen(ids[1..], seen)
  }

  /** Filtering works id by id, so it keeps the input order. */
  lemma {:induction false} UnseenAppend(a: seq<Id>, b: seq<Id>, seen: set<Id>)
    ensures Unseen(a + b, seen) == Unseen(a, seen) + Unseen(b, seen)
  {
    if a == [] {
      assert a + b == b;
    } else {
      assert (a + b)[0] == a[0];
      assert (a + b)[1..] == a[1..] + b;
      UnseenAppend(a[1..], b, seen);
    }
  }

  /** Each cell holds only notes that belong in it. */
  ghost predicate Placed(subject: Event, root: Option<Event>, ancestors: seq<Event>, parent: Option<Event>) {
    && (root.Some? ==> Classify(subject, root.value) == RootSlot)
    && (parent.Some? ==> Classify(subject, parent.value) == ParentSlot)
    && (forall e :: e in ancestors ==> Classify(subject, e) == AncestorSlot)
  }

  /** A note's id-or-address appears in at most one of root, parent and the
      ancestors. */
  lemma SlotsDisjoint(subject: Event, root: Option<Event>, ancestors: seq<Event>, parent: Option<Event>)
    requires Placed(subject, root, ancestors, parent)
    ensures root.Some? ==> forall e :: e in ancestors ==> IdOrAddress(e) != IdOrAddress(root.value)
    ensures parent.Some? ==> forall e :: e in ancestors ==> IdOrAddress(e) != IdOrAddress(parent.value)
    ensures root.Some? && parent.Some? ==> IdOrAddress(root.value) != IdOrAddress(parent.value)
  {
  }

  /** The present cells, in display order. */
  function Present(o: Option<Event>): seq<Event> {
    match o
    case Some(e) => [e]
    case None => []
  }

  class ThreadLoader {
    const note: Event
    const relays: seq<string>
    var stopped: bool
    var root: Option<Event>
    var ancestors: seq<Event>
    var parent: Option<Event>

    /** Ancestors are sorted by time and unique by id, and every cell holds
        only notes that belong in it. */
    ghost predicate Valid()
      reads this
    {
      SortedByTime(ancestors) && IdsUnique(ancestors) && Placed(note, root, ancestors, parent)
    }

    constructor (note: Event, relays: seq<string>)
      ensures this.note == note && this.relays == relays
      ensures !stopped && root == None && ancestors == [] && parent == None
      ensures Valid()
    {
      this.note := note;
      this.relays := relays;
      stopped := false;
      root := None;
      ancestors := [];
      parent := None;
    }

    /** A fresh loader and the request it issues at once: every non-empty id
        the subject refers to. */
    static method Start(note: Event, relays: seq<string>) returns (loader: ThreadLoader, request: Option<seq<Id>>)
      ensures fresh(loader) && loader.Valid()
      ensures loader.note == note && loader.relays == relays
      ensures !loader.stopped && loader.root == None && loader.ancestors == [] && loader.parent == None
      ensures request.Some? <==> Unseen(AncestorIds(note), {}) != []
      ensures request.Some? ==> request.value == Unseen(AncestorIds(note), {})
    {
      loader := new ThreadLoader(note, relays);
      assert loader.GetThread() == [];
      request := loader.LoadNotes(AncestorIds(note));
    }

    method Stop()
      modifies this
      ensures stopped
      ensures root == old(root) && ancestors == old(ancestors) && parent == old(parent)
    {
      stopped := true;
    }

    /** The thread as displayed: root, ancestors in stored order, parent,
        leaving out the empty cells. */
    function GetThread(): (r: seq<Event>)
      reads this
      ensures |r| == |Present(root)| + |ancestors| + |Present(parent)|
      ensures root.Some? ==> r[0] == root.value
      ensures parent.Some? ==> r[|r| - 1] == parent.value
      ensures forall i :: 0 <= i < |ancestors| ==> r[|Present(root)| + i] == ancestors[i]
      ensures forall e :: e in r <==> root == Some(e) || parent == Some(e) || e in ancestors
    {
      Present(root) + ancestors + Present(parent)
    }

    /** Every identifier of every note in the thread. */
    function Seen(): (r: set<Id>)
      reads this
      ensures forall x :: x in r <==>
                || (root.Some? && x in EventIds(root.value))
                || (parent.Some? && x in EventIds(parent.value))
                || exists e :: e in ancestors && x in EventIds(e)
    {
      IdsOf(GetThread())
    }

    /** The fetch `LoadNotes` issues, as the list of ids it asks for: none
        once stopped, none when every id is empty or already held, and
        otherwise exactly the non-empty ids not yet held, in input order. */
    method LoadNotes(ids: seq<Id>) returns (request: Option<seq<Id>>)
      ensures stopped ==> request == None
      ensures !stopped && Unseen(ids, Seen()) == [] ==> request == None
      ensures !stopped && Unseen(ids, Seen()) != [] ==> request == Some(Unseen(ids, Seen()))
      ensures request.Some? ==> forall id :: id in request.value <==> id in ids && id != "" && id !in Seen()
    {
      if stopped {
        return None;
      }
      var filtered := Unseen(ids, Seen());
      if |filtered| > 0 {
        request := Some(filtered);
      } else {
        request := None;
      }
    }

    /** Files a delivered batch: the last note naming a reply reference of
        the subject becomes the parent, the last naming a root reference the
        root, and the rest join the ancestors by `Merge`. */
    method AddToThread(events: seq<Event>)
      requires Valid()
      modifies this
      ensures Valid()
      ensures stopped == old(stopped)
      ensures parent == LastMatch(note, events, ParentSlot, old(parent))
      ensures root == LastMatch(note, events, RootSlot, old(root))
      ensures Staged(note, events) == [] ==> ancestors == old(ancestors)
      ensures Staged(note, events) != [] ==> ancestors == Merge(Staged(note, events), old(ancestors))
      ensures IdSet(ancestors) == IdSet(old(ancestors)) + IdSet(Staged(note, events))
    {
      var staged: seq<Event> := [];
      var i := 0;
      while i < |events|
        invariant 0 <= i <= |events|
        invariant staged == Staged(note, events[..i])
        invariant parent == LastMatch(note, events[..i], ParentSlot, old(parent))
        invariant root == LastMatch(note, events[..i], RootSlot, old(root))
        invariant ancestors == old(ancestors) && stopped == old(stopped)
        invariant Placed(note, root, old(ancestors), parent)
      {
        var event := events[i];
        ghost var done := events[..i + 1];
        assert done[..i] == events[..i] && done[i] == event;
        match Classify(note, event) {
          case ParentSlot => parent := Some(event);
          case RootSlot => root := Some(event);
          case AncestorSlot => staged := staged + [event];
        }
        i := i + 1;
      }
      assert events[..i] == events;
      if |staged| > 0 {
        forall e | e in Merge(staged, ancestors) ensures Classify(note, e) == AncestorSlot {
          MergeSpec(staged, ancestors, e);
        }
        ancestors := Merge(staged, ancestors);
      }
    }

    /** One delivered batch: file it, then request whatever the batch refers
        to that the thread does not hold yet. No id held by the thread after
        filing, in particular no id of the batch's generic ancestors, is
        requested again. */
    method OnBatch(events: seq<Event>) returns (request: Option<seq<Id>>)
      requires Valid()
      modifies this
      ensures Valid()
      ensures stopped == old(stopped)
      ensures parent == LastMatch(note, events, ParentSlot, old(parent))
      ensures root == LastMatch(note, events, RootSlot, old(root))
      ensures Staged(note, events) == [] ==> ancestors == old(ancestors)
      ensures Staged(note, events) != [] ==> ancestors == Merge(Staged(note, events), old(ancestors))
      ensures IdSet(ancestors) == IdSet(old(ancestors)) + IdSet(Staged(note, events))
      ensures stopped ==> request == None
      ensures !stopped && Unseen(BatchAncestorIds(events), Seen()) == [] ==> request == None
      ensures !stopped && Unseen(BatchAncestorIds(events), Seen()) != [] ==>
                request == Some(Unseen(BatchAncestorIds(events), Seen()))
      ensures request.Some? ==> forall e :: e in Staged(note, events) ==> e.id !in request.value
    {
      AddToThread(events);
      request := LoadNotes(BatchAncestorIds(events));
      if request.Some? {
        forall e | e in Staged(note, events) ensures e.id !in request.value {
          assert e.id in IdSet(ancestors);
          var a :| a in ancestors && a.id == e.id;
          assert a in GetThread();
          assert e.id in EventIds(a);
        }
      }
    }
  }
}
