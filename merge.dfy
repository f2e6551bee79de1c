/** How a batch of generic ancestors joins the stored ones: the batch is put
    in front of the stored list, the result is made unique by id keeping the
    first element with each id, and then sorted by creation time with a
    stable sort. */
module AncestorList {
  import opened Events

  predicate SortedByTime(s: seq<Event>) {
    forall i, j :: 0 <= i < j < |s| ==> s[i].createdAt <= s[j].createdAt
  }

  /** No two entries share an id. */
  predicate IdsUnique(s: seq<Event>) {
    forall i, j :: 0 <= i < j < |s| ==> s[i].id != s[j].id
  }

  function IdSet(s: seq<Event>): set<Id> {
    set e | e in s :: e.id
  }

  lemma IdSetAppend(a: seq<Event>, b: seq<Event>)
    ensures IdSet(a + b) == IdSet(a) + IdSet(b)
  {
    assert forall e :: e in a + b <==> e in a || e in b;
  }

  /** The first element of `s` that carries `id`. */
  function FirstWithId(s: seq<Event>, id: Id): (e: Event)
    requires id in IdSet(s)
    ensures e in s && e.id == id
    ensures exists k :: 0 <= k < |s| && s[k] == e && forall j :: 0 <= j < k ==> s[j].id != id
  {
    if s[0].id == id then s[0]
    else
      IdSetAppend([s[0]], s[1..]);
      assert s == [s[0]] + s[1..];
      var e := FirstWithId(s[1..], id);
      var k :| 0 <= k < |s[1..]| && s[1..][k] == e && forall j :: 0 <= j < k ==> s[1..][j].id != id;
      assert s[k + 1] == e;
      e
  }

  lemma {:induction false} FirstWithIdAppend(a: seq<Event>, b: seq<Event>, id: Id)
    requires id in IdSet(a) + IdSet(b)
    ensures id in IdSet(a + b)
    ensures id in IdSet(a) ==> FirstWithId(a + b, id) == FirstWithId(a, id)
    ensures id !in IdSet(a) ==> FirstWithId(a + b, id) == FirstWithId(b, id)
  {
    IdSetAppend(a, b);
    if a != [] {
      assert (a + b)[0] == a[0];
      assert (a + b)[1..] == a[1..] + b;
      IdSetAppend([a[0]], a[1..]);
      assert a == [a[0]] + a[1..];
      if a[0].id != id {
        FirstWithIdAppend(a[1..], b, id);
      }
    } else {
      assert a + b == b;
    }
  }

  /** Uniqueness by id, keeping the first element with each id; `seen`
      holds the ids kept so far. */
  function UniqByFrom(s: seq<Event>, seen: set<Id>): (r: seq<Event>)
    ensures IdsUnique(r)
    ensures IdSet(r) == IdSet(s) - seen
    ensures forall e :: e in r ==> e in s
    decreases |s|
  {
    if s == [] then []
    else
      IdSetAppend([s[0]], s[1..]);
      assert s == [s[0]] + s[1..];
      if s[0].id in seen then UniqByFrom(s[1..], seen)
      else
        var rest := UniqByFrom(s[1..], seen + {s[0].id});
        IdSetAppend([s[0]], rest);
        assert forall j :: 0 <= j < |rest| ==> rest[j].id in IdSet(rest);
        [s[0]] + rest
  }

  function UniqById(s: seq<Event>): seq<Event> {
    UniqByFrom(s, {})
  }

  /** Every kept element is the first one in the input with its id. */
  lemma {:induction false} UniqByFromKeepsFirst(s: seq<Event>, seen: set<Id>)
    ensures forall e :: e in UniqByFrom(s, seen) ==> e.id in IdSet(s) && e == FirstWithId(s, e.id)
  {
    if s != [] {
      IdSetAppend([s[0]], s[1..]);
      assert s == [s[0]] + s[1..];
      var seen' := if s[0].id in seen then seen else seen + {s[0].id};
      UniqByFromKeepsFirst(s[1..], seen');
      var rest := UniqByFrom(s[1..], seen');
      forall e | e in rest
        ensures e.id in IdSet(s) && e == FirstWithId(s, e.id)
      {
        assert e.id in IdSet(rest);
      }
    }
  }

  /** Uniqueness works left to right: the second part keeps only the ids the
      first part did not. */
  lemma {:induction false} UniqByFromAppend(a: seq<Event>, b: seq<Event>, seen: set<Id>)
    ensures UniqByFrom(a + b, seen) == UniqByFrom(a, seen) + UniqByFrom(b, seen + IdSet(a))
  {
    if a == [] {
      assert a + b == b;
      assert IdSet(a) == {};
      assert seen + IdSet(a) == seen;
      assert UniqByFrom(a, seen) == [];
    } else {
      assert (a + b)[0] == a[0];
      assert (a + b)[1..] == a[1..] + b;
      IdSetAppend([a[0]], a[1..]);
      assert a == [a[0]] + a[1..];
      assert UniqByFrom(a + b, seen) ==
        if a[0].id in seen then UniqByFrom(a[1..] + b, seen)
        else [a[0]] + UniqByFrom(a[1..] + b, seen + {a[0].id});
      if a[0].id in seen {
        UniqByFromAppend(a[1..], b, seen);
        assert seen + IdSet(a[1..]) == seen + IdSet(a);
      } else {
        UniqByFromAppend(a[1..], b, seen + {a[0].id});
        assert seen + {a[0].id} + IdSet(a[1..]) == seen + IdSet(a);
      }
    }
  }

  /** Places `x` before the first element that is not older than it. */
  function InsertByTime(x: Event, t: seq<Event>): (r: seq<Event>)
    ensures multiset(r) == multiset(t) + multiset{x}
  {
    if t == [] || x.createdAt <= t[0].createdAt then [x] + t
    else
      assert t == [t[0]] + t[1..];
      [t[0]] + InsertByTime(x, t[1..])
  }

  lemma {:induction false} InsertByTimeSorted(x: Event, t: seq<Event>)
    requires SortedByTime(t)
    ensures SortedByTime(InsertByTime(x, t))
  {
    if t != [] && x.createdAt > t[0].createdAt {
      var rest := InsertByTime(x, t[1..]);
      InsertByTimeSorted(x, t[1..]);
      assert t == [t[0]] + t[1..];
      forall j | 0 <= j < |rest| ensures t[0].createdAt <= rest[j].createdAt {
        assert rest[j] in multiset(rest);
        if rest[j] != x {
          assert rest[j] in t[1..];
        }
      }
    }
  }

  /** Stable insertion sort by creation time. */
  function SortByTime(s: seq<Event>): (r: seq<Event>)
    ensures multiset(r) == multiset(s)
    ensures SortedByTime(r)
  {
    if s == [] then []
    else
      assert s == [s[0]] + s[1..];
      var t := SortByTime(s[1..]);
      InsertByTimeSorted(s[0], t);
      InsertByTime(s[0], t)
  }

  /** The entries created at time `t`, in order. */
  function AtTime(s: seq<Event>, t: int): seq<Event> {
    if s == [] then []
    else (if s[0].createdAt == t then [s[0]] else []) + AtTime(s[1..], t)
  }

  lemma {:induction false} InsertByTimeAtTime(x: Event, t: seq<Event>, k: int)
    ensures AtTime(InsertByTime(x, t), k) == (if x.createdAt == k then [x] else []) + AtTime(t, k)
  {
    if t == [] || x.createdAt <= t[0].createdAt {
      assert ([x] + t)[1..] == t;
    } else {
      var rest := InsertByTime(x, t[1..]);
      assert ([t[0]] + rest)[1..] == rest;
      InsertByTimeAtTime(x, t[1..], k);
    }
  }

  /** The sort is stable: entries with equal creation times keep their
      relative order. */
  lemma {:induction false} SortByTimeStable(s: seq<Event>, k: int)
    ensures AtTime(SortByTime(s), k) == AtTime(s, k)
  {
    if s != [] {
      SortByTimeStable(s[1..], k);
      InsertByTimeAtTime(s[0], SortByTime(s[1..]), k);
    }
  }

  lemma SameElements(a: seq<Event>, b: seq<Event>)
    requires multiset(a) == multiset(b)
    ensures forall e :: e in a <==> e in b
    ensures IdSet(a) == IdSet(b)
  {
    assert forall e :: e in a <==> e in multiset(a);
    assert forall e :: e in b <==> e in multiset(b);
  }

  lemma {:induction false} InsertByTimeIdsUnique(x: Event, t: seq<Event>)
    requires IdsUnique(t) && x.id !in IdSet(t)
    ensures IdsUnique(InsertByTime(x, t))
  {
    assert forall j :: 0 <= j < |t| ==> t[j] in t;
    if t != [] && x.createdAt > t[0].createdAt {
      var rest := InsertByTime(x, t[1..]);
      IdSetAppend([t[0]], t[1..]);
      assert t == [t[0]] + t[1..];
      InsertByTimeIdsUnique(x, t[1..]);
      SameElements(rest, t[1..] + [x]);
      forall j | 0 <= j < |rest| ensures t[0].id != rest[j].id {
        assert rest[j] in rest;
        if rest[j] != x {
          var k :| 0 <= k < |t[1..]| && t[1..][k] == rest[j];
          assert t[k + 1] == rest[j];
        }
      }
    }
  }

  lemma {:induction false} SortByTimeIdsUnique(s: seq<Event>)
    requires IdsUnique(s)
    ensures IdsUnique(SortByTime(s))
  {
    if s != [] {
      IdSetAppend([s[0]], s[1..]);
      assert s == [s[0]] + s[1..];
      SortByTimeIdsUnique(s[1..]);
      SameElements(SortByTime(s[1..]), s[1..]);
      assert s[0].id !in IdSet(s[1..]);
      InsertByTimeIdsUnique(s[0], SortByTime(s[1..]));
    }
  }

  /** The new stored ancestors: batch first, unique by id, sorted by time. */
  function Merge(batch: seq<Event>, stored: seq<Event>): (r: seq<Event>)
    ensures SortedByTime(r) && IdsUnique(r)
    ensures IdSet(r) == IdSet(batch) + IdSet(stored)
  {
    var u := UniqById(batch + stored);
    SortByTimeIdsUnique(u);
    SameElements(SortByTime(u), u);
    IdSetAppend(batch, stored);
    SortByTime(u)
  }

  /** Beyond what `Merge` itself promises: the merge invents no entry. */
  lemma MergeSpec(batch: seq<Event>, stored: seq<Event>, e: Event)
    requires e in Merge(batch, stored)
    ensures e in batch || e in stored
  {
    SameElements(Merge(batch, stored), UniqById(batch + stored));
  }

  /** On an id clash the merge keeps the batch's first entry with that id;
      an id only the stored list has keeps the stored list's first entry. */
  lemma MergeBatchWins(batch: seq<Event>, stored: seq<Event>, e: Event)
    requires e in Merge(batch, stored)
    ensures e.id in IdSet(batch) ==> e == FirstWithId(batch, e.id)
    ensures e.id !in IdSet(batch) ==> e.id in IdSet(stored) && e == FirstWithId(stored, e.id)
  {
    SameElements(Merge(batch, stored), UniqById(batch + stored));
    IdSetAppend(batch, stored);
    UniqByFromKeepsFirst(batch + stored, {});
    FirstWithIdAppend(batch, stored, e.id);
  }

  /** The merge keeps the order that the uniqueness step leaves among
      entries created at the same time. */
  lemma MergeStable(batch: seq<Event>, stored: seq<Event>, k: int)
    ensures AtTime(Merge(batch, stored), k) == AtTime(UniqById(batch + stored), k)
  {
    SortByTimeStable(UniqById(batch + stored), k);
  }
}
