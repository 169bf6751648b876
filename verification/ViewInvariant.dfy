/** The invariant of the materialized view: indexes and pointers say exactly what the stored events say. */
module ViewInvariant {
  import opened NostrEvents
  import opened Keys
  import opened Consensus

  /** A stored event is live when it is the current one of its kind: a superseded version is stored but not live. */
  predicate Live(v: View, id: string)
    requires id in v.events
  {
    HasSlot(v.events[id]) ==> Names(v, v.events[id])
  }

  /** The live events of a view, by id. */
  function LiveEvents(v: View): map<string, Event> {
    map id | id in v.events && Live(v, id) :: v.events[id]
  }

  /** The six indexes hold exactly the keys of the given events, each naming its event. */
  ghost predicate IndexedBy(ix: Indexes, live: map<string, Event>) {
    && (forall s, k :: k in Index(ix, s) ==> Index(ix, s)[k] in live && k in KeysFor(s, live[Index(ix, s)[k]]))
    && (forall s, id, k :: id in live && k in KeysFor(s, live[id]) ==> k in Index(ix, s) && Index(ix, s)[k] == id)
  }

  ghost predicate FiledById(events: map<string, Event>) {
    forall id :: id in events ==> events[id].id == id && |id| == 64
  }

  /** Every stored event is filed under its id and was fit to be stored. */
  ghost predicate EventsSound(b: Base, v: View) {
    FiledById(v.events) && forall id :: id in v.events ==> Storable(b, v.events[id]) && Class(v.events[id]) != Ephemeral
  }

  /** Every pointer of a class leads to a stored event of that class and slot. */
  ghost predicate PointersResolve(v: View, c: EventClass) {
    forall r :: r in Pointers(v, c) ==>
      var id := Pointers(v, c)[r];
      id in v.events && Class(v.events[id]) == c && SlotKey(v.events[id]) == r
  }

  ghost predicate Consistent(b: Base, v: View) {
    && EventsSound(b, v)
    && IndexedBy(v.indexes, LiveEvents(v))
    && PointersResolve(v, Replaceable)
    && PointersResolve(v, Addressable)
  }

  /** Every index key of an event ends with its id, so no two events share a key. */
  lemma KeysCarryId(s: IndexName, e: Event, k: string)
    requires |e.id| == 64 && k in KeysFor(s, e)
    ensures IdOf(k) == e.id
  {
    match s
    case ByKind => StampTail(EncodeKind(e.kind) + SEPARATOR, e.createdAt, e.id);
    case ByAuthor => StampTail(e.pubkey + SEPARATOR, e.createdAt, e.id);
    case ByAuthorKind => StampTail(AuthorKindPrefix(e.pubkey, e.kind) + SEPARATOR, e.createdAt, e.id);
    case ByTag =>
      var t :| t in IndexableTags(e.tags) && k == TagKey(t.name, t.value, e.createdAt, e.id);
      StampTail(TagPrefix(t.name, t.value) + SEPARATOR, e.createdAt, e.id);
    case ByCreatedAt => StampTail("", e.createdAt, e.id);
    case ByExpiration => StampTail("", MAX_U32 - Expiration(e).value, e.id);
  }

  lemma DelEntriesAt(ix: Indexes, e: Event, s: IndexName)
    ensures Index(DelEntries(ix, e), s) == Index(ix, s) - KeysFor(s, e)
  {
  }

  lemma AddEntriesAt(ix: Indexes, e: Event, s: IndexName)
    ensures Index(AddEntries(ix, e), s) == AddKeys(Index(ix, s), KeysFor(s, e), e.id)
  {
  }

  /** Deleting an event's keys takes its own entries (if it has any) and no one else's. */
  lemma DelEntriesIndexed(ix: Indexes, live: map<string, Event>, e: Event)
    requires IndexedBy(ix, live) && FiledById(live) && |e.id| == 64
    requires e.id in live ==> live[e.id] == e
    ensures IndexedBy(DelEntries(ix, e), live - {e.id})
  {
    hide KeysFor, DelEntries, Index, IdOf;
    var ix' := DelEntries(ix, e);
    forall s, k | k in Index(ix', s)
      ensures Index(ix', s)[k] in live - {e.id} && k in KeysFor(s, live[Index(ix', s)[k]])
    {
      DelEntriesAt(ix, e, s);
      assert k in Index(ix, s) && k !in KeysFor(s, e);
    }
    forall s, i, k | i in live - {e.id} && k in KeysFor(s, live[i])
      ensures k in Index(ix', s) && Index(ix', s)[k] == i
    {
      DelEntriesAt(ix, e, s);
      KeysCarryId(s, live[i], k);
      if k in KeysFor(s, e) {
        KeysCarryId(s, e, k);
      }
    }
  }

  /** Adding a new event's keys overwrites no one's entries. */
  lemma AddEntriesIndexed(ix: Indexes, live: map<string, Event>, e: Event)
    requires IndexedBy(ix, live) && FiledById(live) && |e.id| == 64 && e.id !in live
    ensures IndexedBy(AddEntries(ix, e), live[e.id := e])
  {
    hide KeysFor, AddEntries, Index, IdOf;
    var ix', live' := AddEntries(ix, e), live[e.id := e];
    forall s, k | k in Index(ix', s)
      ensures Index(ix', s)[k] in live' && k in KeysFor(s, live'[Index(ix', s)[k]])
    {
      AddEntriesAt(ix, e, s);
      if k !in KeysFor(s, e) {
        assert k in Index(ix, s);
      }
    }
    forall s, i, k | i in live' && k in KeysFor(s, live'[i])
      ensures k in Index(ix', s) && Index(ix', s)[k] == i
    {
      AddEntriesAt(ix, e, s);
      KeysCarryId(s, live'[i], k);
      if k in KeysFor(s, e) {
        KeysCarryId(s, e, k);
      }
    }
  }

  lemma LiveAreStored(v: View)
    ensures forall id :: id in LiveEvents(v) ==> id in v.events && LiveEvents(v)[id] == v.events[id]
  {
  }

  // ─── Pointers ───────────────────────────────────────────────────

  lemma PointersAt(v: View, c: EventClass, m: map<string, string>, d: EventClass)
    ensures Pointers(WithPointers(v, c, m), d) == if (c == Addressable) == (d == Addressable) then m else Pointers(v, d)
  {
  }

  lemma ClearSlotPointers(v: View, e: Event, c: EventClass)
    requires c == Replaceable || c == Addressable
    ensures Pointers(ClearSlot(v, e), c) ==
      if Class(e) == c && Names(v, e) then Pointers(v, c) - {SlotKey(e)} else Pointers(v, c)
  {
    hide SlotKey, ClassifyKind;
  }

  /** Clearing the slot of an event ends at most its own life. */
  lemma ClearSlotLive(v: View, e: Event)
    requires FiledById(v.events) && e.id in v.events && v.events[e.id] == e
    requires PointersResolve(v, Replaceable) && PointersResolve(v, Addressable)
    ensures
      var w := ClearSlot(v, e);
      && PointersResolve(w, Replaceable) && PointersResolve(w, Addressable)
      && w.events == v.events
      && LiveEvents(w) == (if HasSlot(e) then LiveEvents(v) - {e.id} else LiveEvents(v))
      && (HasSlot(e) ==> !Names(w, e))
      && (HasSlot(e) && Names(v, e) ==> SlotKey(e) !in Pointers(w, Class(e)))
  {
    hide SlotKey, ClassifyKind, ClearSlot, Pointers, PointersResolve, LiveEvents;
    ClearSlotPointers(v, e, Replaceable);
    ClearSlotPointers(v, e, Addressable);
    ClearSlotEvents(v, e);
    var w := ClearSlot(v, e);
    FewerPointers(v, w, e, Replaceable);
    FewerPointers(v, w, e, Addressable);
    ClearedLives(v, w, e);
  }

  lemma FewerPointers(v: View, w: View, e: Event, c: EventClass)
    requires PointersResolve(v, c) && w.events == v.events
    requires Pointers(w, c) == Pointers(v, c) || Pointers(w, c) == Pointers(v, c) - {SlotKey(e)}
    ensures PointersResolve(w, c)
  {
    hide SlotKey, ClassifyKind, Pointers;
  }

  /** With its own pointer gone, an event's life ends and no one else's. */
  lemma ClearedLives(v: View, w: View, e: Event)
    requires FiledById(v.events) && e.id in v.events && v.events[e.id] == e && w.events == v.events
    requires forall c :: c == Replaceable || c == Addressable ==>
      Pointers(w, c) == if Class(e) == c && Names(v, e) then Pointers(v, c) - {SlotKey(e)} else Pointers(v, c)
    ensures LiveEvents(w) == if HasSlot(e) then LiveEvents(v) - {e.id} else LiveEvents(v)
  {
    hide SlotKey, ClassifyKind, Pointers;
    forall i | i in v.events && i != e.id ensures Live(w, i) <==> Live(v, i) {
      var x := v.events[i];
      assert x.id == i;
    }
  }

  lemma ClearSlotEvents(v: View, e: Event)
    ensures ClearSlot(v, e).events == v.events
  {
    hide SlotKey, ClassifyKind, Names;
  }

  /** Unindexing the current holder of a slot leaves it stored, superseded and unindexed. */
  lemma UnlinkConsistent(b: Base, v: View, e: Event)
    requires Consistent(b, v) && e.id in v.events && v.events[e.id] == e && HasSlot(e) && Names(v, e)
    ensures Consistent(b, RemoveIndexes(v, e))
    ensures SlotKey(e) !in Pointers(RemoveIndexes(v, e), Class(e))
    ensures LiveEvents(RemoveIndexes(v, e)) == LiveEvents(v) - {e.id}
  {
    hide SlotKey, ClassifyKind, KeysFor, DelEntries, IndexedBy, ClearSlot, Names, LiveEvents, PointersResolve;
    LiveAreStored(v);
    ClearSlotLive(v, e);
    DelEntriesIndexed(v.indexes, LiveEvents(v), e);
    SameLife(ClearSlot(v, e), RemoveIndexes(v, e));
  }

  lemma SameLife(v: View, w: View)
    requires v.events == w.events && v.replaceableAt == w.replaceableAt && v.addressableAt == w.addressableAt
    ensures forall c :: Pointers(w, c) == Pointers(v, c)
    ensures forall e :: Names(w, e) == Names(v, e)
    ensures LiveEvents(w) == LiveEvents(v)
    ensures forall c :: PointersResolve(w, c) == PointersResolve(v, c)
  {
  }

  lemma ForgetPointers(v: View, w: View, e: Event, c: EventClass)
    requires e.id in v.events && v.events[e.id] == e && (HasSlot(e) ==> !Names(v, e))
    requires PointersResolve(v, c) && (c == Replaceable || c == Addressable)
    requires w.events == v.events - {e.id} && Pointers(w, c) == Pointers(v, c)
    ensures PointersResolve(w, c)
  {
    hide SlotKey, ClassifyKind;
    assert forall r :: r in Pointers(v, c) && Pointers(v, c)[r] == e.id ==> Names(v, e);
  }

  /** Removing an event no pointer names from the primary map leaves every pointer resolved. */
  lemma ForgetLive(v: View, w: View, e: Event)
    requires FiledById(v.events) && e.id in v.events && v.events[e.id] == e && (HasSlot(e) ==> !Names(v, e))
    requires PointersResolve(v, Replaceable) && PointersResolve(v, Addressable)
    requires w.events == v.events - {e.id} && w.replaceableAt == v.replaceableAt && w.addressableAt == v.addressableAt
    ensures PointersResolve(w, Replaceable) && PointersResolve(w, Addressable)
    ensures LiveEvents(w) == LiveEvents(v) - {e.id}
  {
    hide SlotKey, ClassifyKind;
    ForgetPointers(v, w, e, Replaceable);
    ForgetPointers(v, w, e, Addressable);
    assert forall c :: Pointers(w, c) == Pointers(v, c);
    assert forall i :: i in w.events ==> (Live(w, i) <==> Live(v, i));
  }

  /** Dropping a stored event, live or superseded, removes its entries and no one else's. */
  lemma DropConsistent(b: Base, v: View, id: string)
    requires Consistent(b, v) && id in v.events
    ensures Consistent(b, Drop(v, id))
    ensures LiveEvents(Drop(v, id)) == LiveEvents(v) - {id}
  {
    hide SlotKey, ClassifyKind, KeysFor, DelEntries, IndexedBy, PointersResolve, LiveEvents, HasSlot, Names;
    hide ClearSlot;
    var e := v.events[id];
    LiveAreStored(v);
    ClearSlotLive(v, e);
    DelEntriesIndexed(v.indexes, LiveEvents(v), e);
    ForgetLive(ClearSlot(v, e), Drop(v, id), e);
    assert LiveEvents(ClearSlot(v, e)) - {id} == LiveEvents(v) - {id};
  }

  /** Pointing a free slot at a new event makes exactly that event live. */
  lemma PointLive(v: View, w: View, e: Event)
    requires FiledById(v.events) && e.id !in v.events && Class(e) != Ephemeral
    requires PointersResolve(v, Replaceable) && PointersResolve(v, Addressable)
    requires HasSlot(e) ==> SlotKey(e) !in Pointers(v, Class(e))
    requires w.events == v.events[e.id := e]
    requires w.replaceableAt == Point(v, e).replaceableAt && w.addressableAt == Point(v, e).addressableAt
    ensures PointersResolve(w, Replaceable) && PointersResolve(w, Addressable)
    ensures LiveEvents(w) == LiveEvents(v)[e.id := e]
  {
    hide SlotKey, ClassifyKind, Point, PointersResolve;
    PointAt(v, e, Replaceable);
    PointAt(v, e, Addressable);
    PointPointers(v, w, e, Replaceable);
    PointPointers(v, w, e, Addressable);
    PointLives(v, w, e);
  }

  lemma PointAt(v: View, e: Event, c: EventClass)
    requires c == Replaceable || c == Addressable
    ensures Pointers(Point(v, e), c) == if Class(e) == c then Pointers(v, c)[SlotKey(e) := e.id] else Pointers(v, c)
  {
    hide SlotKey, ClassifyKind;
  }

  lemma PointEvents(v: View, e: Event)
    ensures Point(v, e).events == v.events && Point(v, e).indexes == v.indexes
  {
    hide SlotKey, ClassifyKind;
  }

  lemma PointLives(v: View, w: View, e: Event)
    requires FiledById(v.events) && e.id !in v.events
    requires HasSlot(e) ==> SlotKey(e) !in Pointers(v, Class(e))
    requires w.events == v.events[e.id := e]
    requires Pointers(w, Replaceable) ==
      if Class(e) == Replaceable then Pointers(v, Replaceable)[SlotKey(e) := e.id] else Pointers(v, Replaceable)
    requires Pointers(w, Addressable) ==
      if Class(e) == Addressable then Pointers(v, Addressable)[SlotKey(e) := e.id] else Pointers(v, Addressable)
    ensures LiveEvents(w) == LiveEvents(v)[e.id := e]
  {
    hide SlotKey, ClassifyKind, Pointers;
    assert forall i :: i in v.events ==> (Live(w, i) <==> Live(v, i));
  }

  lemma PointPointers(v: View, w: View, e: Event, c: EventClass)
    requires FiledById(v.events) && e.id !in v.events
    requires PointersResolve(v, c) && (c == Replaceable || c == Addressable)
    requires w.events == v.events[e.id := e]
    requires Pointers(w, c) == (if Class(e) == c then Pointers(v, c)[SlotKey(e) := e.id] else Pointers(v, c))
    ensures PointersResolve(w, c)
  {
    hide SlotKey, ClassifyKind;
  }

  /** Inserting a new event into a free slot (or a regular one anywhere) keeps the view consistent. */
  lemma InsertConsistent(b: Base, v: View, e: Event)
    requires Consistent(b, v) && Storable(b, e) && Class(e) != Ephemeral && e.id !in v.events
    requires HasSlot(e) ==> SlotKey(e) !in Pointers(v, Class(e))
    ensures Consistent(b, Insert(Point(v, e), e))
    ensures LiveEvents(Insert(Point(v, e), e)) == LiveEvents(v)[e.id := e]
  {
    hide SlotKey, ClassifyKind, KeysFor, AddEntries, IndexedBy, PointersResolve, LiveEvents, HasSlot, Point;
    LiveAreStored(v);
    PointEvents(v, e);
    AddEntriesIndexed(v.indexes, LiveEvents(v), e);
    PointLive(v, Insert(Point(v, e), e), e);
  }

  lemma HolderNamed(b: Base, v: View, e: Event)
    requires Consistent(b, v) && HasSlot(e)
    ensures Holder(v, e).Some? <==> SlotKey(e) in Pointers(v, Class(e))
    ensures Holder(v, e).Some? ==>
      var h := Holder(v, e).value;
      h.id in v.events && v.events[h.id] == h && Names(v, h) && Class(h) == Class(e) && SlotKey(h) == SlotKey(e)
  {
  }

  lemma FreeSlotConsistent(b: Base, v: View, e: Event)
    requires Consistent(b, v) && HasSlot(e)
    ensures
      var w := FreeSlot(v, e);
      && Consistent(b, w) && w.events == v.events && SlotKey(e) !in Pointers(w, Class(e))
      && LiveEvents(w) == if Holder(v, e).Some? then LiveEvents(v) - {Holder(v, e).value.id} else LiveEvents(v)
  {
    hide Consistent, SlotKey, ClassifyKind, DelEntries, ClearSlot, LiveEvents;
    HolderNamed(b, v, e);
    if Holder(v, e).Some? {
      ClearSlotEvents(v, Holder(v, e).value);
      UnlinkConsistent(b, v, Holder(v, e).value);
    }
  }

  lemma PutConsistent(b: Base, v: View, e: Event)
    requires Consistent(b, v)
    ensures Consistent(b, Put(b, v, e))
    ensures Accepts(b, v, e) ==>
      var others := if HasSlot(e) && Holder(v, e).Some? then LiveEvents(v) - {Holder(v, e).value.id} else LiveEvents(v);
      LiveEvents(Put(b, v, e)) == others[e.id := e]
  {
    hide Consistent, LiveEvents, SlotKey, ClassifyKind, Holder, FreeSlot, Point, Insert;
    if Accepts(b, v, e) {
      if HasSlot(e) {
        FreeSlotConsistent(b, v, e);
        InsertConsistent(b, FreeSlot(v, e), e);
      } else {
        InsertConsistent(b, v, e);
      }
    }
  }

  /** Tombstones, writers and config play no part in the invariant. */
  lemma OtherFieldsConsistent(b: Base, v: View, w: View)
    requires Consistent(b, v)
    requires w.events == v.events && w.indexes == v.indexes
    requires w.replaceableAt == v.replaceableAt && w.addressableAt == v.addressableAt
    ensures Consistent(b, w)
  {
    SameLife(v, w);
  }

  lemma {:induction false} DeleteTargetsConsistent(b: Base, v: View, d: Event, targets: seq<string>)
    requires Consistent(b, v)
    ensures Consistent(b, DeleteTargets(v, d, targets))
  {
    if targets != [] {
      var u := DeleteTargets(v, d, targets[..|targets| - 1]);
      var t := targets[|targets| - 1];
      DeleteTargetsConsistent(b, v, d, targets[..|targets| - 1]);
      var w := if t in u.events && u.events[t].pubkey == d.pubkey then Drop(u, t) else u;
      if t in u.events {
        DropConsistent(b, u, t);
      }
      OtherFieldsConsistent(b, w, DeleteTarget(u, d, t));
    }
  }

  lemma {:induction false} EvictConsistent(b: Base, v: View, ids: seq<string>, expiringOnly: bool)
    requires Consistent(b, v)
    ensures Consistent(b, Evict(v, ids, expiringOnly))
  {
    if ids != [] {
      var u := Evict(v, ids[..|ids| - 1], expiringOnly);
      EvictConsistent(b, v, ids[..|ids| - 1], expiringOnly);
      if ids[|ids| - 1] in u.events {
        DropConsistent(b, u, ids[|ids| - 1]);
      }
    }
  }

  /** Every node keeps the invariant. */
  lemma ApplyNodeConsistent(b: Base, v: View, n: Node)
    requires Consistent(b, v)
    ensures Consistent(b, ApplyNode(b, v, n))
  {
    hide Put, Consistent, HonorsOptimistic, ApplyOp, ApplyNode;
    NodeIs(b, v, n);
    if n.value.Some? {
      ApplyOpConsistent(b, v, n.value.value, n.from);
      if n.value.value.PutOp? {
        PutConsistent(b, v, n.value.value.event);
      }
    }
  }

  lemma DeleteConsistent(b: Base, v: View, d: Event)
    requires Consistent(b, v)
    ensures Consistent(b, Delete(b, v, d))
  {
    hide Put, DeleteTargets, Consistent, Targets, Valid;
    DeleteTargetsConsistent(b, v, d, Targets(d.tags));
    PutConsistent(b, DeleteTargets(v, d, Targets(d.tags)), d);
  }

  lemma ApplyOpConsistent(b: Base, v: View, op: Op, from: string)
    requires Consistent(b, v)
    ensures Consistent(b, ApplyOp(b, v, op, from))
  {
    hide Put, Delete, Evict, Consistent, ApplyOp;
    OpIs(b, v, op, from);
    match op
    case PutOp(e, _) => PutConsistent(b, v, e);
    case DeleteOp(d, _) => DeleteConsistent(b, v, d);
    case ExpiryDeleteOp(ids, _) => EvictConsistent(b, v, ids, true);
    case PruneDeleteOp(ids, _) => EvictConsistent(b, v, ids, false);
    case _ => OtherFieldsConsistent(b, v, ApplyOp(b, v, op, from));
  }

  /** Every view a run reaches, from any consistent state and under any log, is consistent. */
  lemma {:induction false} RunConsistent(b: Base, s: State, log: seq<Node>)
    requires Consistent(b, s.view)
    ensures Consistent(b, Run(b, s, log).view)
  {
    if log != [] {
      RunConsistent(b, s, log[..|log| - 1]);
      ApplyNodeConsistent(b, Run(b, s, log[..|log| - 1]).view, log[|log| - 1]);
    }
  }

  lemma EmptyConsistent(b: Base)
    ensures Consistent(b, EMPTY_VIEW)
  {
    assert forall s :: Index(EMPTY_INDEXES, s) == map[];
  }

  lemma StoredFiled(b: Base, v: View)
    requires Consistent(b, v)
    ensures FiledById(v.events)
  {
  }

  /** The index entries of a consistent view are exactly the keys of its live events. */
  lemma EntriesExact(b: Base, v: View, s: IndexName, k: string)
    requires Consistent(b, v)
    ensures k in Index(v.indexes, s) <==> exists id :: id in v.events && Live(v, id) && k in KeysFor(s, v.events[id])
    ensures k in Index(v.indexes, s) ==> Index(v.indexes, s)[k] == IdOf(k)
  {
    hide KeysFor, IdOf, HasSlot, Live, PointersResolve, EventsSound, Index;
    assert FiledById(v.events) by {
      StoredFiled(b, v);
    }
    if id: string :| id in v.events && Live(v, id) && k in KeysFor(s, v.events[id]) {
      assert LiveEvents(v)[id] == v.events[id];
    }
    if k in Index(v.indexes, s) {
      var id := Index(v.indexes, s)[k];
      assert id in v.events && Live(v, id) && k in KeysFor(s, v.events[id]);
      KeysCarryId(s, v.events[Index(v.indexes, s)[k]], k);
    }
  }

  /** From the empty view: the whole invariant, spelled out for one stored event and one key. */
  lemma ReachableViewExact(b: Base, log: seq<Node>, s: IndexName, k: string, id: string)
    ensures var v := Run(b, INITIAL, log).view;
      && Consistent(b, v)
      && (k in Index(v.indexes, s) <==> exists i :: i in v.events && Live(v, i) && k in KeysFor(s, v.events[i]))
      && (id in v.events ==>
            var e := v.events[id];
            && e.id == id && Storable(b, e) && Class(e) != Ephemeral
            && (k in KeysFor(s, e) ==>
                  (k in Index(v.indexes, s) <==>
                     (HasSlot(e) ==> SlotKey(e) in Pointers(v, Class(e)) && Pointers(v, Class(e))[SlotKey(e)] == id))))
  {
    EmptyConsistent(b);
    RunConsistent(b, INITIAL, log);
    var v := Run(b, INITIAL, log).view;
    EntriesExact(b, v, s, k);
    if id in v.events && k in KeysFor(s, v.events[id]) {
      KeysCarryId(s, v.events[id], k);
    }
  }
}
