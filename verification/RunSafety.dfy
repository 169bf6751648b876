/** Safety over whole runs: who may remove an event, what a deletion prevents, what optimistic blocks cannot do. */
module RunSafety {
  import opened NostrEvents
  import opened Keys
  import opened Consensus
  import opened ViewInvariant
  import opened Effects

  // ─── Removal ────────────────────────────────────────────────────

  /** The three ways a stored event may be removed: by its author's deletion, or reclaimed by the founder. */
  predicate Removes(b: Base, n: Node, e: Event) {
    n.value.Some? && !n.optimistic && match n.value.value {
      case DeleteOp(d, _) => Valid(b, d) && d.pubkey == e.pubkey && e.id in Targets(d.tags)
      case PruneDeleteOp(ids, _) => n.from == b.founder && e.id in ids
      case ExpiryDeleteOp(ids, _) => n.from == b.founder && e.id in ids && Expiration(e).Some?
      case _ => false
    }
  }

  /** A node that applies takes a stored event out exactly when it removes it, and never alters one it keeps. */
  lemma ApplyNodeRemoves(b: Base, v: View, n: Node, id: string)
    requires FiledById(v.events) && id in v.events
    ensures id !in ApplyNode(b, v, n).events <==> Removes(b, n, v.events[id])
    ensures id in ApplyNode(b, v, n).events ==> ApplyNode(b, v, n).events[id] == v.events[id]
  {
    hide Put, DeleteTargets, Evict, Expiration, Targets, Valid, ApplyNode, ApplyOp, HonorsOptimistic, Accepts;
    NodeIs(b, v, n);
    if n.value.Some? {
      OpIs(b, v, n.value.value, n.from);
      match n.value.value
      case PutOp(e, _) =>
        PutEffect(b, v, e);
        AcceptsOnlyNew(b, v, e);
      case DeleteOp(d, _) =>
        DeleteTargetsEffect(v, d, Targets(d.tags));
        var w := DeleteTargets(v, d, Targets(d.tags));
        PutEffect(b, w, d);
        AcceptsOnlyNew(b, w, d);
      case ExpiryDeleteOp(ids, _) => EvictEffect(v, ids, true);
      case PruneDeleteOp(ids, _) => EvictEffect(v, ids, false);
      case _ =>
    }
  }

  lemma AcceptsOnlyNew(b: Base, v: View, e: Event)
    ensures Accepts(b, v, e) ==> e.id !in v.events && !Tombstoned(v, e) && Storable(b, e) && Class(e) != Ephemeral
  {
  }

  /** The event a node carries, if it is one that can store anything. */
  predicate Carries(n: Node, e: Event) {
    n.value.Some? && (n.value.value.PutOp? || n.value.value.DeleteOp?) && n.value.value.event == e
  }

  lemma PutAdds(b: Base, v: View, e: Event, id: string)
    requires id !in v.events && id in Put(b, v, e).events
    ensures Put(b, v, e).events[id] == e && e.id == id && Storable(b, e) && Class(e) != Ephemeral
  {
    hide Put, Accepts, Storable, Class;
    PutEffect(b, v, e);
    AcceptsOnlyNew(b, v, e);
  }

  /** An event enters the store only as the fit, carried event of the node. */
  lemma ApplyNodeAdds(b: Base, v: View, n: Node, id: string)
    ensures var w := ApplyNode(b, v, n);
      id !in v.events && id in w.events ==>
        var e := w.events[id];
        e.id == id && Carries(n, e) && Storable(b, e) && Class(e) != Ephemeral
  {
    if id !in v.events && id in ApplyNode(b, v, n).events {
      NodeAdds(b, v, n, id);
    }
  }

  lemma NodeAdds(b: Base, v: View, n: Node, id: string)
    requires id !in v.events && id in ApplyNode(b, v, n).events
    ensures var e := ApplyNode(b, v, n).events[id];
      e.id == id && Carries(n, e) && Storable(b, e) && Class(e) != Ephemeral
  {
    hide Put, DeleteTargets, Evict, Expiration, Targets, Valid, Storable, Class, ApplyNode, ApplyOp, HonorsOptimistic;
    NodeIs(b, v, n);
    OpIs(b, v, n.value.value, n.from);
    match n.value.value
    case PutOp(e, _) => PutAdds(b, v, e, id);
    case DeleteOp(d, _) =>
      var w := DeleteTargets(v, d, Targets(d.tags));
      DeleteTargetsEffect(v, d, Targets(d.tags));
      if Valid(b, d) {
        PutAdds(b, w, d, id);
      }
    case ExpiryDeleteOp(ids, _) => EvictEffect(v, ids, true);
    case PruneDeleteOp(ids, _) => EvictEffect(v, ids, false);
    case _ =>
  }

  lemma RunFiled(b: Base, s: State, log: seq<Node>)
    requires Consistent(b, s.view)
    ensures FiledById(Run(b, s, log).view.events)
  {
    RunConsistent(b, s, log);
  }

  /** The node at a place of the log is applied: nothing halted the run before it, and it does not halt it itself. */
  predicate Applied(b: Base, s: State, log: seq<Node>, j: nat)
    requires j < |log|
  {
    !Run(b, s, log[..j]).halted && !Halts(log[j])
  }

  /** Some node the run applies is entitled to remove the event. */
  predicate RemovedBy(b: Base, s: State, log: seq<Node>, e: Event) {
    exists j :: 0 <= j < |log| && Applied(b, s, log, j) && Removes(b, log[j], e)
  }

  /** Over any run: a stored event is still there, unaltered, unless some node it applied was entitled to remove it. */
  lemma {:induction false} RemovalJustified(b: Base, s: State, log: seq<Node>, id: string)
    requires Consistent(b, s.view) && id in s.view.events
    ensures
      var t := Run(b, s, log).view;
      RemovedBy(b, s, log, s.view.events[id]) || (id in t.events && t.events[id] == s.view.events[id])
  {
    hide Consistent, ApplyNode, Removes, HostCalls, Presents, Halts;
    if log != [] {
      var init, n := log[..|log| - 1], log[|log| - 1];
      RemovalJustified(b, s, init, id);
      var u := Run(b, s, init);
      if RemovedBy(b, s, init, s.view.events[id]) {
        var j :| 0 <= j < |init| && Applied(b, s, init, j) && Removes(b, init[j], s.view.events[id]);
        assert log[..j] == init[..j] && Applied(b, s, log, j) && Removes(b, log[j], s.view.events[id]);
      } else {
        RunFiled(b, s, init);
        ApplyNodeRemoves(b, u.view, n, id);
        assert Applied(b, s, log, |init|) <==> !u.halted && !Halts(n);
      }
    }
  }

  // ─── Tombstones ─────────────────────────────────────────────────

  predicate IsDeletionNaming(b: Base, n: Node, id: string) {
    n.value.Some? && !n.optimistic && n.value.value.DeleteOp? &&
    Valid(b, n.value.value.event) && id in Targets(n.value.value.event.tags)
  }

  /** The author of the last valid deletion in the log that names an id. */
  function LastDeleter(b: Base, log: seq<Node>, id: string): Option<string> {
    if log == [] then None
    else
      var n := log[|log| - 1];
      if IsDeletionNaming(b, n, id) then Some(n.value.value.event.pubkey)
      else LastDeleter(b, log[..|log| - 1], id)
  }

  function TombstoneAuthor(v: View, id: string): Option<string> {
    if id in v.deletion then Some(v.deletion[id].pubkey) else None
  }

  /** Only deletions write tombstones: each leaves its author's on everything it names. */
  lemma ApplyNodeTombstones(b: Base, v: View, n: Node, id: string)
    ensures TombstoneAuthor(ApplyNode(b, v, n), id) ==
      if IsDeletionNaming(b, n, id) then Some(n.value.value.event.pubkey) else TombstoneAuthor(v, id)
  {
    hide Put, DeleteTargets, Evict, Expiration, Targets, Valid, ApplyNode, ApplyOp, HonorsOptimistic, Accepts;
    NodeIs(b, v, n);
    if n.value.Some? {
      OpIs(b, v, n.value.value, n.from);
      match n.value.value
      case PutOp(e, _) => PutEffect(b, v, e);
      case DeleteOp(d, _) =>
        DeleteTargetsEffect(v, d, Targets(d.tags));
        PutEffect(b, DeleteTargets(v, d, Targets(d.tags)), d);
      case ExpiryDeleteOp(ids, _) => EvictEffect(v, ids, true);
      case PruneDeleteOp(ids, _) => EvictEffect(v, ids, false);
      case _ =>
    }
  }

  /** In a run that does not halt, the tombstone on an id is its last deleter's. */
  lemma {:induction false} RunTombstones(b: Base, log: seq<Node>, id: string)
    requires !Run(b, INITIAL, log).halted
    ensures TombstoneAuthor(Run(b, INITIAL, log).view, id) == LastDeleter(b, log, id)
  {
    hide ApplyNode, IsDeletionNaming;
    if log != [] {
      RunTombstones(b, log[..|log| - 1], id);
      ApplyNodeTombstones(b, Run(b, INITIAL, log[..|log| - 1]).view, log[|log| - 1], id);
    }
  }

  /**
   * Exactly when a put of an event that is not stored takes effect after any run: it is fit and not ephemeral, the
   * last valid deletion naming it is not its own author's, and the holder of its slot, if any, gives way.
   */
  lemma PutTakesEffectIff(b: Base, log: seq<Node>, e: Event, from: string)
    requires !Run(b, INITIAL, log).halted && e.id !in Run(b, INITIAL, log).view.events
    ensures
      var v := Run(b, INITIAL, log).view;
      e.id in Run(b, INITIAL, log + [Node(Some(PutOp(e, None)), from, false)]).view.events <==>
        && Storable(b, e) && Class(e) != Ephemeral
        && LastDeleter(b, log, e.id) != Some(e.pubkey)
        && (HasSlot(e) && Holder(v, e).Some? ==> ShouldReplace(Holder(v, e).value, e))
  {
    hide Storable, Put, Holder, ShouldReplace, LastDeleter, ClassifyKind, Step;
    var s := Run(b, INITIAL, log);
    var n := Node(Some(PutOp(e, None)), from, false);
    assert (log + [n])[..|log|] == log;
    StepPut(b, s, n);
    RunTombstones(b, log, e.id);
    PutEffect(b, s.view, e);
  }

  lemma StepPut(b: Base, s: State, n: Node)
    requires !s.halted && !n.optimistic && n.value.Some? && n.value.value.PutOp? && !Halts(n)
    ensures Step(b, s, n).view == Put(b, s.view, n.value.value.event)
  {
    hide Put, HostCalls, Presents;
  }

  /** Some node the run applies is a valid deletion by another pubkey naming the id. */
  predicate ForeignDeletion(b: Base, s: State, log: seq<Node>, id: string, pubkey: string) {
    exists j :: 0 <= j < |log| && Applied(b, s, log, j) && NamedByOther(b, log[j], id, pubkey)
  }

  predicate NamedByOther(b: Base, n: Node, id: string, pubkey: string) {
    IsDeletionNaming(b, n, id) && n.value.value.event.pubkey != pubkey
  }

  /** Once its author's tombstone is on an id, no event of that author is stored under it. */
  predicate Buried(v: View, id: string, pubkey: string) {
    TombstoneAuthor(v, id) == Some(pubkey) && (id in v.events ==> v.events[id].pubkey != pubkey)
  }

  lemma ApplyNodeBuried(b: Base, v: View, n: Node, id: string, pubkey: string)
    requires FiledById(v.events)
    requires Buried(v, id, pubkey) || (IsDeletionNaming(b, n, id) && n.value.value.event.pubkey == pubkey)
    requires IsDeletionNaming(b, n, id) ==> n.value.value.event.pubkey == pubkey
    ensures Buried(ApplyNode(b, v, n), id, pubkey)
  {
    hide Put, DeleteTargets, Evict, Targets, Valid, ApplyNode, ApplyOp, HonorsOptimistic, Accepts;
    ApplyNodeTombstones(b, v, n, id);
    NodeIs(b, v, n);
    if n.value.Some? {
      OpIs(b, v, n.value.value, n.from);
      match n.value.value
      case PutOp(e, _) =>
        PutEffect(b, v, e);
        AcceptsOnlyNew(b, v, e);
      case DeleteOp(d, _) =>
        var w := DeleteTargets(v, d, Targets(d.tags));
        DeleteTargetsEffect(v, d, Targets(d.tags));
        PutEffect(b, w, d);
        AcceptsOnlyNew(b, w, d);
      case ExpiryDeleteOp(ids, _) => EvictEffect(v, ids, true);
      case PruneDeleteOp(ids, _) => EvictEffect(v, ids, false);
      case _ =>
    }
  }

  /**
   * After a valid deletion by pubkey P names an id, no later run of puts, optimistic puts, reclaims, admissions
   * or P's own deletions stores an event of P under it, as long as no deletion by another pubkey names it.
   */
  lemma {:induction false} DeletionPersists(b: Base, s: State, deletion: Node, later: seq<Node>, id: string)
    requires Consistent(b, s.view) && !s.halted
    requires IsDeletionNaming(b, deletion, id) && !Halts(deletion)
    ensures var s', p := Step(b, s, deletion), deletion.value.value.event.pubkey;
      !ForeignDeletion(b, s', later, id, p) ==> Buried(Run(b, s', later).view, id, p)
  {
    hide ApplyNode, Consistent, Buried, HostCalls, Presents, Valid, Targets, NamedByOther;
    var p := deletion.value.value.event.pubkey;
    var s' := Step(b, s, deletion);
    RunFiled(b, s, []);
    ApplyNodeBuried(b, s.view, deletion, id, p);
    if later != [] && !ForeignDeletion(b, s', later, id, p) {
      var init, n := later[..|later| - 1], later[|later| - 1];
      var u := Run(b, s', init);
      ForeignDeletionMore(b, s', later, id, p);
      DeletionPersists(b, s, deletion, init, id);
      assert Applied(b, s', later, |init|) ==> !NamedByOther(b, later[|init|], id, p);
      ApplyNodeConsistent(b, s.view, deletion);
      RunFiled(b, s', init);
      if !u.halted && !Halts(n) {
        NotByOther(b, n, id, p);
        ApplyNodeBuried(b, u.view, n, id, p);
      }
    }
  }

  lemma ForeignDeletionMore(b: Base, s: State, log: seq<Node>, id: string, pubkey: string)
    requires log != []
    ensures ForeignDeletion(b, s, log[..|log| - 1], id, pubkey) ==> ForeignDeletion(b, s, log, id, pubkey)
  {
    hide Run, NamedByOther;
    var init := log[..|log| - 1];
    if j :| 0 <= j < |init| && Applied(b, s, init, j) && NamedByOther(b, init[j], id, pubkey) {
      assert log[..j] == init[..j] && Applied(b, s, log, j) && NamedByOther(b, log[j], id, pubkey);
    }
  }

  lemma NotByOther(b: Base, n: Node, id: string, pubkey: string)
    requires !NamedByOther(b, n, id, pubkey)
    ensures IsDeletionNaming(b, n, id) ==> n.value.value.event.pubkey == pubkey
  {
    hide Valid, Targets;
  }

  /** Whatever a run from the empty view stores was carried by one of its nodes. */
  lemma {:induction false} StoredWasCarried(b: Base, log: seq<Node>, id: string)
    requires id in Run(b, INITIAL, log).view.events
    ensures exists j :: 0 <= j < |log| && Carries(log[j], Run(b, INITIAL, log).view.events[id])
  {
    hide ApplyNode, HostCalls, Presents, Halts, Carries;
    if log != [] {
      var init, n := log[..|log| - 1], log[|log| - 1];
      var u := Run(b, INITIAL, init);
      if id in u.view.events {
        StoredWasCarried(b, init, id);
        var j :| 0 <= j < |init| && Carries(init[j], u.view.events[id]);
        EmptyConsistent(b);
        RunFiled(b, INITIAL, init);
        ApplyNodeRemoves(b, u.view, n, id);
        assert Carries(log[j], u.view.events[id]);
      } else {
        ApplyNodeAdds(b, u.view, n, id);
        assert log[|log| - 1] == n;
      }
    }
  }

  /** An event of another pubkey, class or slot is no holder of this one's slot. */
  predicate SharesSlot(x: Event, e: Event) {
    HasSlot(x) && Class(x) == Class(e) && SlotKey(x) == SlotKey(e)
  }

  lemma OtherAuthorOtherSlot(x: Event, e: Event)
    requires |x.pubkey| == |e.pubkey| && SharesSlot(x, e)
    ensures x.pubkey == e.pubkey
  {
    hide EncodeKind, ClassifyKind, DTag;
    var k, k' := SlotKey(x), SlotKey(e);
    assert k[..|x.pubkey|] == x.pubkey && k'[..|x.pubkey|] == e.pubkey;
  }

  /**
   * The condition on tombstones is needed, for every class of stored events: a deletion by anyone else that names the
   * same id overwrites the author's tombstone, and the deleted event can then be put again. (Unless the author's
   * deletion took the event's slot itself, which one of kind 5 cannot.)
   */
  lemma ForeignDeletionResurrects(b: Base, e: Event, own: Event, foreign: Event, from: string)
    requires Storable(b, e) && Class(e) != Ephemeral && !SharesSlot(own, e)
    requires Valid(b, own) && own.pubkey == e.pubkey && e.id in Targets(own.tags) && own.id != e.id
    requires Valid(b, foreign) && foreign.pubkey != e.pubkey && e.id in Targets(foreign.tags) && foreign.id != e.id
    ensures
      var put := Node(Some(PutOp(e, None)), from, false);
      var del, other := Node(Some(DeleteOp(own, None)), from, false), Node(Some(DeleteOp(foreign, None)), from, false);
      && e.id !in Run(b, INITIAL, [put, del, other]).view.events
      && e.id in Run(b, INITIAL, [put, del, other, put]).view.events
  {
    hide Targets, Valid, Storable, Delete, Put, ClassifyKind, Run, SlotKey, Holder, LastDeleter, DeleteTargets, Evict,
         SharesSlot, Consistent;
    var put := Node(Some(PutOp(e, None)), from, false);
    var del, other := Node(Some(DeleteOp(own, None)), from, false), Node(Some(DeleteOp(foreign, None)), from, false);
    var v1 := ApplyNode(b, EMPTY_VIEW, put);
    var v2 := ApplyNode(b, v1, del);
    EmptyConsistent(b);
    ApplyNodeConsistent(b, EMPTY_VIEW, put);
    ApplyNodeConsistent(b, v1, del);
    StoredFiled(b, v1);
    PutEffect(b, EMPTY_VIEW, e);
    if e.id in v1.events {
      ApplyNodeRemoves(b, v1, del, e.id);
    }
    ApplyNodeAdds(b, v1, del, e.id);
    ApplyNodeAdds(b, v2, other, e.id);
    RunThree(b, put, del, other);
    LastOfThree(b, put, del, other, e.id);
    SlotFree(b, e, own, foreign, put, del, other);
    PutTakesEffectIff(b, [put, del, other], e, from);
    assert [put, del, other, put] == [put, del, other] + [put];
  }

  lemma SlotFree(b: Base, e: Event, own: Event, foreign: Event, put: Node, del: Node, other: Node)
    requires put.value == Some(PutOp(e, None)) && del.value == Some(DeleteOp(own, None)) && other.value == Some(DeleteOp(foreign, None))
    requires e.id !in Run(b, INITIAL, [put, del, other]).view.events && !SharesSlot(own, e)
    requires Storable(b, e) && Valid(b, foreign) && foreign.pubkey != e.pubkey
    ensures HasSlot(e) ==> Holder(Run(b, INITIAL, [put, del, other]).view, e).None?
  {
    hide Run, SlotKey, ClassifyKind, Consistent;
    var log := [put, del, other];
    var v := Run(b, INITIAL, log).view;
    EmptyConsistent(b);
    RunConsistent(b, INITIAL, log);
    if HasSlot(e) {
      HolderNamed(b, v, e);
      if Holder(v, e).Some? {
        var h := Holder(v, e).value;
        StoredWasCarried(b, log, h.id);
        assert h == e || h == own || h == foreign;
        assert SharesSlot(h, e);
        if h == foreign {
          OtherAuthorOtherSlot(foreign, e);
        }
        assert false;
      }
    }
  }

  lemma RunThree(b: Base, x: Node, y: Node, z: Node)
    requires !Halts(x) && !Halts(y) && !Halts(z)
    ensures var s := Run(b, INITIAL, [x, y, z]);
      !s.halted && s.view == ApplyNode(b, ApplyNode(b, ApplyNode(b, EMPTY_VIEW, x), y), z)
  {
    hide ApplyNode, HostCalls, Presents;
    assert [x, y, z][..2] == [x, y] && [x, y][..1] == [x] && [x][..0] == [];
    assert Run(b, INITIAL, [x]) == Step(b, Run(b, INITIAL, []), x);
    assert Run(b, INITIAL, [x, y]) == Step(b, Run(b, INITIAL, [x]), y);
  }

  lemma LastOfThree(b: Base, x: Node, y: Node, z: Node, id: string)
    requires IsDeletionNaming(b, z, id)
    ensures LastDeleter(b, [x, y, z], id) == Some(z.value.value.event.pubkey)
  {
  }
}
