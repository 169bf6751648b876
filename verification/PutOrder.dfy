/** Order independence of put-only runs: pointers and indexes depend only on the set of events put. */
module PutOrder {
  import opened NostrEvents
  import opened Keys
  import opened Consensus
  import opened ViewInvariant
  import opened Effects
  import opened RunSafety

  /** Ids are hashes of everything but the signature: valid events with one id differ in their signature at most. */
  ghost predicate CollisionFree(b: Base) {
    forall x, y :: Valid(b, x) && Valid(b, y) && x.id == y.id ==> SameContent(x, y)
  }

  /** An ack, or a writer's put this version understands. */
  predicate PutOnly(n: Node) {
    n.value.None? || (!n.optimistic && n.value.value.PutOp? && !Halts(n))
  }

  function PutEvents(log: seq<Node>): set<Event> {
    set n | n in log && n.value.Some? && n.value.value.PutOp? :: n.value.value.event
  }

  lemma SameContentSameKeys(e: Event, f: Event)
    requires SameContent(e, f)
    ensures e.id == f.id && e.pubkey == f.pubkey && e.createdAt == f.createdAt && e.kind == f.kind && e.tags == f.tags
    ensures Class(e) == Class(f) && SlotKey(e) == SlotKey(f) && IsProtected(e) == IsProtected(f)
    ensures Expiration(e) == Expiration(f)
    ensures forall s :: KeysFor(s, e) == KeysFor(s, f)
  {
    assert e.id == f.id && e.pubkey == f.pubkey && e.createdAt == f.createdAt && e.kind == f.kind && e.tags == f.tags;
    hide ClassifyKind, AddressableKey, ReplaceableKey, FindTag, TagValue, ParseInt, IndexableTags, TagKeys;
    hide KindKey, AuthorKey, AuthorKindKey, CreatedAtKey, ExpirationKey;
  }

  /** The slot of `e` points at `e` itself or at something newer. */
  ghost predicate Outranked(v: View, e: Event) {
    && SlotKey(e) in Pointers(v, Class(e))
    && var p := Pointers(v, Class(e))[SlotKey(e)];
       p in v.events && (p == e.id || Newer(v.events[p], e))
  }

  /** What is known after putting the events `put` in some order. */
  ghost predicate Settled(b: Base, v: View, put: set<Event>) {
    && Consistent(b, v)
    && v.deletion == map[]
    && (forall id :: id in v.events ==> v.events[id] in put)
    && (forall e :: e in put && Storable(b, e) && Class(e) == Regular ==> e.id in v.events)
    && (forall e :: e in put && Storable(b, e) && HasSlot(e) ==> Outranked(v, e))
  }

  /** The slot pointers after an accepted put: the event's own slot moves to it, the others stay. */
  lemma PutPointers(b: Base, v: View, e: Event, c: EventClass)
    requires Consistent(b, v) && Accepts(b, v, e) && (c == Replaceable || c == Addressable)
    ensures Pointers(Put(b, v, e), c) == if Class(e) == c then Pointers(v, c)[SlotKey(e) := e.id] else Pointers(v, c)
  {
    hide SlotKey, ClassifyKind, DelEntries, AddEntries, Accepts, Consistent;
    if HasSlot(e) {
      HolderNamed(b, v, e);
      var w := FreeSlot(v, e);
      forall d | d == Replaceable || d == Addressable
        ensures Pointers(w, d) == if Class(e) == d then Pointers(v, d) - {SlotKey(e)} else Pointers(v, d)
      {
        if Holder(v, e).Some? {
          var h := Holder(v, e).value;
          PointersAt(v, Class(h), Pointers(v, Class(h)) - {SlotKey(h)}, d);
        }
      }
      PointersAt(w, Class(e), Pointers(w, Class(e))[SlotKey(e) := e.id], c);
    }
  }

  /** A put its holder refuses is outranked by it. */
  lemma RefusedOutranked(b: Base, v: View, e: Event, put: set<Event>)
    requires CollisionFree(b) && Settled(b, v, put) && Storable(b, e) && HasSlot(e) && !Accepts(b, v, e)
    ensures Outranked(v, e)
  {
    hide SlotKey, ClassifyKind, Valid, KeysFor, IsProtected;
    HolderNamed(b, v, e);
    if e.id in v.events {
      var x := v.events[e.id];
      assert Storable(b, x) && SameContent(x, e);
      SameContentSameKeys(x, e);
      assert Outranked(v, x);
    } else {
      var h := Holder(v, e).value;
      NewerIsStrictOrder(e, h, e);
    }
  }

  lemma AcceptedOutranks(b: Base, v: View, e: Event, put: set<Event>, f: Event)
    requires CollisionFree(b) && Settled(b, v, put) && Accepts(b, v, e) && f in put && Storable(b, f) && HasSlot(f)
    ensures Outranked(Put(b, v, e), f)
  {
    hide SlotKey, ClassifyKind, Valid, KeysFor, IsProtected, Put;
    PutEffect(b, v, e);
    PutPointers(b, v, e, Class(f));
    assert Outranked(v, f);
    var p := Pointers(v, Class(f))[SlotKey(f)];
    if Class(e) == Class(f) && SlotKey(e) == SlotKey(f) {
      HolderNamed(b, v, e);
      var h := Holder(v, e).value;
      assert h == v.events[p];
      if p == f.id {
        assert Storable(b, h) && SameContent(h, f);
        SameContentSameKeys(h, f);
      }
      NewerIsStrictOrder(e, h, f);
    }
  }

  lemma PutSettled(b: Base, v: View, e: Event, put: set<Event>)
    requires CollisionFree(b) && Settled(b, v, put)
    ensures Settled(b, Put(b, v, e), put + {e})
  {
    hide SlotKey, ClassifyKind, Valid, KeysFor, IsProtected, Put, Consistent, Outranked, Accepts;
    var w := Put(b, v, e);
    PutConsistent(b, v, e);
    PutEffect(b, v, e);
    forall f | f in put + {e} && Storable(b, f) && HasSlot(f) ensures Outranked(w, f) {
      if Accepts(b, v, e) {
        if f == e {
          AcceptedNamed(b, v, e);
        } else {
          AcceptedOutranks(b, v, e, put, f);
        }
      } else {
        RefusedUnchanged(b, v, e);
        if f == e {
          RefusedOutranked(b, v, e, put);
        }
      }
    }
    if Storable(b, e) && Class(e) == Regular && !Accepts(b, v, e) {
      RegularRefused(b, v, e);
    }
  }

  lemma RefusedUnchanged(b: Base, v: View, e: Event)
    requires !Accepts(b, v, e)
    ensures Put(b, v, e) == v
  {
  }

  lemma RegularRefused(b: Base, v: View, e: Event)
    requires Storable(b, e) && Class(e) == Regular && v.deletion == map[] && !Accepts(b, v, e)
    ensures e.id in v.events
  {
  }

  lemma AcceptedNamed(b: Base, v: View, e: Event)
    requires Consistent(b, v) && Accepts(b, v, e) && HasSlot(e)
    ensures Outranked(Put(b, v, e), e)
  {
    hide SlotKey, ClassifyKind, Put, Accepts;
    PutEffect(b, v, e);
    PutPointers(b, v, e, Class(e));
  }

  lemma {:induction false} RunSettled(b: Base, log: seq<Node>)
    requires CollisionFree(b) && forall i :: 0 <= i < |log| ==> PutOnly(log[i])
    ensures Settled(b, Run(b, INITIAL, log).view, PutEvents(log)) && !Run(b, INITIAL, log).halted
  {
    hide Put, Settled, CollisionFree, HostCalls, Presents;
    if log == [] {
      NothingSettled(b);
    } else {
      var init, n := log[..|log| - 1], log[|log| - 1];
      RunSettled(b, init);
      assert log == init + [n];
      var s := Run(b, INITIAL, init);
      if n.value.None? {
        assert PutEvents(log) == PutEvents(init);
      } else {
        PutSettled(b, s.view, n.value.value.event, PutEvents(init));
        assert PutEvents(log) == PutEvents(init) + {n.value.value.event};
      }
    }
  }

  lemma NothingSettled(b: Base)
    ensures Settled(b, EMPTY_VIEW, PutEvents([]))
  {
    EmptyConsistent(b);
  }

  /** Two settled views over one set of events agree on every pointer. */
  lemma SettledPointers(b: Base, v: View, w: View, put: set<Event>, c: EventClass, r: string)
    requires Settled(b, v, put) && Settled(b, w, put) && (c == Replaceable || c == Addressable)
    requires r in Pointers(v, c)
    ensures r in Pointers(w, c) && Pointers(w, c)[r] == Pointers(v, c)[r]
  {
    hide SlotKey, ClassifyKind, Valid, KeysFor, IsProtected;
    var x := v.events[Pointers(v, c)[r]];
    assert Outranked(w, x);
    var y := w.events[Pointers(w, c)[r]];
    assert Outranked(v, y);
    NewerIsStrictOrder(x, y, x);
  }

  ghost predicate SameLiveContent(v: map<string, Event>, w: map<string, Event>) {
    v.Keys == w.Keys && forall id :: id in v ==> SameContent(v[id], w[id])
  }

  lemma SettledLive(b: Base, v: View, w: View, put: set<Event>, id: string)
    requires CollisionFree(b) && Settled(b, v, put) && Settled(b, w, put) && id in LiveEvents(v)
    ensures id in LiveEvents(w) && SameContent(v.events[id], w.events[id])
  {
    hide SlotKey, ClassifyKind, Valid, KeysFor, IsProtected;
    var x := v.events[id];
    if HasSlot(x) {
      SettledPointers(b, v, w, put, Class(x), SlotKey(x));
      assert Outranked(w, x);
    }
    assert id in w.events;
    var y := w.events[id];
    assert Storable(b, x) && Storable(b, y);
    SameContentSameKeys(x, y);
  }

  /** Indexes over live events of the same content are the same maps. */
  lemma SameContentSameIndex(ix: Indexes, jx: Indexes, v: map<string, Event>, w: map<string, Event>)
    requires IndexedBy(ix, v) && IndexedBy(jx, w) && SameLiveContent(v, w)
    ensures ix == jx
  {
    hide KeysFor, SameContent, Index;
    forall s ensures Index(ix, s) == Index(jx, s) {
      forall id | id in v ensures KeysFor(s, v[id]) == KeysFor(s, w[id]) {
        SameContentSameKeys(v[id], w[id]);
      }
      assert forall k :: k in Index(ix, s) ==> k in Index(jx, s) && Index(jx, s)[k] == Index(ix, s)[k];
      assert forall k :: k in Index(jx, s) ==> k in Index(ix, s);
    }
    EqualIndexes(ix, jx);
  }

  lemma EqualIndexes(ix: Indexes, jx: Indexes)
    requires forall s :: Index(ix, s) == Index(jx, s)
    ensures ix == jx
  {
    assert Index(ix, ByKind) == Index(jx, ByKind);
    assert Index(ix, ByAuthor) == Index(jx, ByAuthor);
    assert Index(ix, ByAuthorKind) == Index(jx, ByAuthorKind);
    assert Index(ix, ByTag) == Index(jx, ByTag);
    assert Index(ix, ByCreatedAt) == Index(jx, ByCreatedAt);
    assert Index(ix, ByExpiration) == Index(jx, ByExpiration);
  }

  /**
   * Put-only runs over the same set of events, in any order and with any repetition, end with the same
   * pointers and the same six indexes.
   */
  lemma PutOrderIrrelevant(b: Base, log: seq<Node>, log': seq<Node>)
    requires CollisionFree(b) && PutEvents(log) == PutEvents(log')
    requires forall i :: 0 <= i < |log| ==> PutOnly(log[i])
    requires forall i :: 0 <= i < |log'| ==> PutOnly(log'[i])
    ensures
      var v, w := Run(b, INITIAL, log).view, Run(b, INITIAL, log').view;
      v.indexes == w.indexes && v.replaceableAt == w.replaceableAt && v.addressableAt == w.addressableAt
  {
    var v, w, put := Run(b, INITIAL, log).view, Run(b, INITIAL, log').view, PutEvents(log);
    RunSettled(b, log);
    RunSettled(b, log');
    hide Settled, PutEvents, Run, CollisionFree;
    SettledSamePointers(b, v, w, put, Replaceable);
    SettledSamePointers(b, v, w, put, Addressable);
    SettledSameIndexes(b, v, w, put);
  }

  lemma SettledSamePointers(b: Base, v: View, w: View, put: set<Event>, c: EventClass)
    requires Settled(b, v, put) && Settled(b, w, put) && (c == Replaceable || c == Addressable)
    ensures Pointers(v, c) == Pointers(w, c)
  {
    hide Settled, Pointers;
    forall r | r in Pointers(v, c) || r in Pointers(w, c)
      ensures r in Pointers(v, c) && r in Pointers(w, c) && Pointers(v, c)[r] == Pointers(w, c)[r]
    {
      if r in Pointers(v, c) {
        SettledPointers(b, v, w, put, c, r);
      } else {
        SettledPointers(b, w, v, put, c, r);
      }
    }
  }

  lemma SettledSameIndexes(b: Base, v: View, w: View, put: set<Event>)
    requires CollisionFree(b) && Settled(b, v, put) && Settled(b, w, put)
    ensures v.indexes == w.indexes
  {
    hide Outranked, LiveEvents, SameContent, IndexedBy, EventsSound, PointersResolve, CollisionFree, Storable;
    forall id | id in LiveEvents(v) || id in LiveEvents(w)
      ensures id in LiveEvents(v) && id in LiveEvents(w) && SameContent(LiveEvents(v)[id], LiveEvents(w)[id])
    {
      LiveAreStored(v);
      LiveAreStored(w);
      if id in LiveEvents(v) {
        SettledLive(b, v, w, put, id);
      } else {
        SettledLive(b, w, v, put, id);
        SettledLive(b, v, w, put, id);
      }
    }
    SameContentSameIndex(v.indexes, w.indexes, LiveEvents(v), LiveEvents(w));
  }

  /**
   * After a put-only run each slot points at the maximum, by creation time and then smallest id, of all the
   * fit events put for it; and it points at something as soon as one was.
   */
  lemma PointerNamesMaximum(b: Base, log: seq<Node>, e: Event)
    requires CollisionFree(b) && forall i :: 0 <= i < |log| ==> PutOnly(log[i])
    requires e in PutEvents(log) && Storable(b, e) && HasSlot(e)
    ensures
      var v := Run(b, INITIAL, log).view;
      && SlotKey(e) in Pointers(v, Class(e))
      && var p := Pointers(v, Class(e))[SlotKey(e)];
         p in v.events && v.events[p] in PutEvents(log) && Storable(b, v.events[p])
         && Class(v.events[p]) == Class(e) && SlotKey(v.events[p]) == SlotKey(e)
         && (p == e.id || Newer(v.events[p], e))
  {
    RunSettled(b, log);
    hide SlotKey, ClassifyKind, Valid, KeysFor, IsProtected, Run, PutEvents;
    assert Outranked(Run(b, INITIAL, log).view, e);
  }

  // ─── The primary map ────────────────────────────────────────────

  /** A put-only log of exactly these events. */
  ghost predicate PutLog(log: seq<Node>, put: set<Event>) {
    (forall i :: 0 <= i < |log| ==> PutOnly(log[i])) && PutEvents(log) == put
  }

  /** No two fit events of different ids compete for a slot. */
  ghost predicate Uncontested(b: Base, put: set<Event>) {
    forall x, y :: x in put && y in put && Competing(b, x, y) ==> x.id == y.id
  }

  predicate Competing(b: Base, x: Event, y: Event) {
    Storable(b, x) && Storable(b, y) && HasSlot(x) && Class(x) == Class(y) && SlotKey(x) == SlotKey(y)
  }

  /** All put-only logs of these events leave the same stored events, up to signatures. */
  ghost predicate OrderFree(b: Base, put: set<Event>) {
    forall log, log' :: PutLog(log, put) && PutLog(log', put) ==>
      SameLiveContent(Run(b, INITIAL, log).view.events, Run(b, INITIAL, log').view.events)
  }

  /** Without contests every fit event is stored. */
  lemma AllStored(b: Base, v: View, put: set<Event>, e: Event)
    requires Settled(b, v, put) && Uncontested(b, put) && e in put && Storable(b, e) && Class(e) != Ephemeral
    ensures e.id in v.events
  {
    hide SlotKey, ClassifyKind, Valid, KeysFor, IsProtected;
    if HasSlot(e) {
      assert Outranked(v, e);
      var h := v.events[Pointers(v, Class(e))[SlotKey(e)]];
      assert Storable(b, h) && Competing(b, h, e);
    }
  }

  lemma UncontestedSame(b: Base, v: View, w: View, put: set<Event>)
    requires CollisionFree(b) && Settled(b, v, put) && Settled(b, w, put) && Uncontested(b, put)
    ensures SameLiveContent(v.events, w.events)
  {
    hide SlotKey, ClassifyKind, Valid, KeysFor, IsProtected, Outranked, IndexedBy, PointersResolve, Competing;
    forall id | id in v.events || id in w.events
      ensures id in v.events && id in w.events && SameContent(v.events[id], w.events[id])
    {
      if id in v.events {
        AllStored(b, w, put, v.events[id]);
      } else {
        AllStored(b, v, put, w.events[id]);
      }
      assert Storable(b, v.events[id]) && Storable(b, w.events[id]);
    }
  }

  function PutNode(e: Event): Node {
    Node(Some(PutOp(e, None)), "", false)
  }

  /** Some log of a set of events. */
  ghost function LogOf(put: set<Event>): seq<Node> {
    if put == {} then []
    else
      var e :| e in put;
      [PutNode(e)] + LogOf(put - {e})
  }

  lemma PutEventsOf(n: Node, log: seq<Node>)
    requires n.value.Some? && n.value.value.PutOp?
    ensures PutEvents([n] + log) == {n.value.value.event} + PutEvents(log)
  {
    assert n in [n] + log;
    assert forall m :: m in log ==> m in [n] + log;
  }

  lemma {:induction false} LogOfAll(put: set<Event>)
    ensures PutLog(LogOf(put), put)
  {
    if put != {} {
      var e :| e in put && LogOf(put) == [PutNode(e)] + LogOf(put - {e});
      LogOfAll(put - {e});
      PutEventsOf(PutNode(e), LogOf(put - {e}));
    }
  }

  /** A log of a set, after one of its events. */
  lemma StartingWith(put: set<Event>, e: Event)
    requires e in put
    ensures PutLog([PutNode(e)] + LogOf(put), put)
  {
    LogOfAll(put);
    PutEventsOf(PutNode(e), LogOf(put));
  }

  /** Once a newer event was put for the slot, nothing with the older one's id is accepted. */
  lemma LoserRefused(b: Base, v: View, put: set<Event>, newer: Event, older: Event, e: Event)
    requires CollisionFree(b) && Settled(b, v, put) && newer in put
    requires Competing(b, older, newer) && Newer(newer, older) && e.id == older.id
    ensures !Accepts(b, v, e)
  {
    hide SlotKey, ClassifyKind, Valid, KeysFor, IsProtected;
    if Storable(b, e) {
      assert SameContent(e, older);
      SameContentSameKeys(e, older);
      assert Outranked(v, newer);
      HolderNamed(b, v, e);
      var h := Holder(v, e).value;
      if h.id == newer.id {
        assert Storable(b, h) && SameContent(h, newer);
        SameContentSameKeys(h, newer);
      }
      NewerIsStrictOrder(h, newer, older);
      NewerIsStrictOrder(h, older, h);
    }
  }

  lemma {:induction false} LoserStaysOut(b: Base, log: seq<Node>, newer: Event, older: Event)
    requires CollisionFree(b) && forall i :: 0 <= i < |log| ==> PutOnly(log[i])
    requires log != [] && log[0] == PutNode(newer) && Competing(b, older, newer) && Newer(newer, older) && older.id != newer.id
    ensures older.id !in Run(b, INITIAL, log).view.events
  {
    hide Put, Settled, CollisionFree, Competing, HostCalls, Presents, Newer, Accepts;
    var init, n := log[..|log| - 1], log[|log| - 1];
    if init == [] {
      assert Run(b, INITIAL, []) == INITIAL && log == [PutNode(newer)];
      PutEffect(b, EMPTY_VIEW, newer);
    } else {
      LoserStaysOut(b, init, newer, older);
      RunSettled(b, init);
      assert init[0] == PutNode(newer) && init[0] in init;
      assert newer in PutEvents(init);
      if n.value.Some? {
        var e := n.value.value.event;
        PutEffect(b, Run(b, INITIAL, init).view, e);
        if e.id == older.id {
          LoserRefused(b, Run(b, INITIAL, init).view, PutEvents(init), newer, older, e);
        }
      }
    }
  }

  lemma FirstStays(b: Base, first: Event, log: seq<Node>)
    requires Storable(b, first) && Class(first) != Ephemeral && forall i :: 0 <= i < |log| ==> PutOnly(log[i])
    ensures first.id in Run(b, INITIAL, [PutNode(first)] + log).view.events
  {
    hide Put, Storable, ClassifyKind, HostCalls, Presents, Consistent;
    var s := Run(b, INITIAL, [PutNode(first)]);
    assert [PutNode(first)][..0] == [] && Run(b, INITIAL, []) == INITIAL;
    RunBatches(b, INITIAL, [PutNode(first)], log);
    EmptyConsistent(b);
    RunConsistent(b, INITIAL, [PutNode(first)]);
    PutEffect(b, EMPTY_VIEW, first);
    FreshAccepted(b, first);
    RemovalJustified(b, s, log, first.id);
  }

  lemma FreshAccepted(b: Base, e: Event)
    requires Storable(b, e) && Class(e) != Ephemeral
    ensures Accepts(b, EMPTY_VIEW, e)
  {
    hide SlotKey, Storable;
  }

  /** Two logs of the same events, one starting with each of two competitors, leave different events. */
  lemma ContestedDiffers(b: Base, put: set<Event>, older: Event, newer: Event)
    requires CollisionFree(b) && older in put && newer in put && Competing(b, older, newer) && Newer(newer, older) && older.id != newer.id
    ensures !OrderFree(b, put)
  {
    hide Storable, CollisionFree, Run, Newer, SlotKey, ClassifyKind, PutOnly;
    var log, log' := [PutNode(older)] + LogOf(put), [PutNode(newer)] + LogOf(put);
    LogOfAll(put);
    StartingWith(put, older);
    StartingWith(put, newer);
    FirstStays(b, older, LogOf(put));
    LoserStaysOut(b, log', newer, older);
    assert !SameLiveContent(Run(b, INITIAL, log).view.events, Run(b, INITIAL, log').view.events);
  }

  /** The primary map does not depend on the order of the puts exactly when no two of the fit events compete for a slot. */
  lemma PrimaryMapOrderFreeIff(b: Base, put: set<Event>)
    requires CollisionFree(b)
    ensures OrderFree(b, put) <==> Uncontested(b, put)
  {
    hide CollisionFree, Competing, Run, Settled, PutEvents, PutOnly, SameLiveContent;
    if Uncontested(b, put) {
      forall log, log' | PutLog(log, put) && PutLog(log', put)
        ensures SameLiveContent(Run(b, INITIAL, log).view.events, Run(b, INITIAL, log').view.events)
      {
        RunSettled(b, log);
        RunSettled(b, log');
        UncontestedSame(b, Run(b, INITIAL, log).view, Run(b, INITIAL, log').view, put);
      }
    } else {
      var x, y :| x in put && y in put && Competing(b, x, y) && x.id != y.id;
      CompetingBack(b, x, y);
      NewerIsStrictOrder(x, y, x);
      if Newer(x, y) {
        ContestedDiffers(b, put, y, x);
      } else {
        ContestedDiffers(b, put, x, y);
      }
    }
  }

  lemma CompetingBack(b: Base, x: Event, y: Event)
    requires Competing(b, x, y)
    ensures Competing(b, y, x)
  {
    hide Storable, SlotKey, ClassifyKind;
  }

  /** For two competitors: the older version is kept if it came first and refused if it came second. */
  lemma PrimaryMapDependsOnOrder(b: Base, older: Event, newer: Event, from: string)
    requires CollisionFree(b) && Storable(b, older) && Storable(b, newer) && HasSlot(older)
    requires Class(older) == Class(newer) && SlotKey(older) == SlotKey(newer) && Newer(newer, older)
    ensures
      var o, n := Node(Some(PutOp(older, None)), from, false), Node(Some(PutOp(newer, None)), from, false);
      && older.id in Run(b, INITIAL, [o, n]).view.events
      && older.id !in Run(b, INITIAL, [n, o]).view.events
  {
    hide SlotKey, ClassifyKind, Valid, IsProtected, Put, Run, Consistent, KeysFor;
    NewerIsStrictOrder(newer, older, newer);
    if older.id == newer.id {
      assert SameContent(older, newer);
      SameContentSameKeys(older, newer);
      assert false;
    }
    var o, n := Node(Some(PutOp(older, None)), from, false), Node(Some(PutOp(newer, None)), from, false);
    RunTwo(b, o, n);
    RunTwo(b, n, o);
    EmptyConsistent(b);
    var v1, w1 := Put(b, EMPTY_VIEW, older), Put(b, EMPTY_VIEW, newer);
    PutEffect(b, EMPTY_VIEW, older);
    PutEffect(b, v1, newer);
    PutEffect(b, EMPTY_VIEW, newer);
    PutPointers(b, EMPTY_VIEW, newer, Class(newer));
    PutEffect(b, w1, older);
  }
}
