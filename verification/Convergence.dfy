/** Convergence of runs of puts and deletions: when presence depends only on which ops were applied, not on their order. */
module Convergence {
  import opened NostrEvents
  import opened Consensus
  import opened ViewInvariant
  import opened Effects
  import opened RunSafety
  import opened PutOrder

  /** An ack, or a writer's put or deletion this version understands. */
  predicate PutOrDelete(n: Node) {
    n.value.None? || (!n.optimistic && (n.value.value.PutOp? || n.value.value.DeleteOp?) && !Halts(n))
  }

  function Ops(log: seq<Node>): set<Op> {
    set n | n in log && n.value.Some? :: n.value.value
  }

  /** A log of puts and deletions, of any kinds of events. */
  predicate PutDeleteLog(log: seq<Node>) {
    forall i :: 0 <= i < |log| ==> PutOrDelete(log[i])
  }

  /** The op carries the event, up to its signature, in a form fit to be stored. */
  predicate Carries(b: Base, op: Op, e: Event) {
    (op.PutOp? || op.DeleteOp?) && SameContent(op.event, e) && Storable(b, op.event)
  }

  predicate DeletesAs(b: Base, op: Op, id: string, pubkey: string) {
    op.DeleteOp? && Valid(b, op.event) && op.event.pubkey == pubkey && id in Targets(op.event.tags)
  }

  ghost predicate DeletedBy(b: Base, ops: set<Op>, id: string, pubkey: string) {
    exists op :: op in ops && DeletesAs(b, op, id, pubkey)
  }

  ghost predicate Carried(b: Base, ops: set<Op>, e: Event) {
    exists op :: op in ops && Carries(b, op, e)
  }

  /** The event's id is named by a deletion of its author and by one of someone else. */
  ghost predicate Disputed(b: Base, ops: set<Op>, e: Event) {
    DeletedBy(b, ops, e.id, e.pubkey) && exists q :: q != e.pubkey && DeletedBy(b, ops, e.id, q)
  }

  /** Carried other than by a deletion that names its own event. */
  ghost predicate CarriedFreely(b: Base, ops: set<Op>, e: Event) {
    exists op :: op in ops && Carries(b, op, e) && !DeletesAs(b, op, e.id, e.pubkey)
  }

  lemma DeletedByMore(b: Base, ops: set<Op>, op: Op, id: string, p: string)
    ensures DeletedBy(b, ops + {op}, id, p) <==> DeletedBy(b, ops, id, p) || DeletesAs(b, op, id, p)
  {
    hide DeletesAs;
    assert op in ops + {op};
    assert forall x :: x in ops ==> x in ops + {op};
  }

  lemma OpsSnoc(log: seq<Node>)
    requires log != []
    ensures var init, n := log[..|log| - 1], log[|log| - 1];
      Ops(log) == if n.value.None? then Ops(init) else Ops(init) + {n.value.value}
  {
    assert log == log[..|log| - 1] + [log[|log| - 1]];
  }

  lemma {:induction false} NeverHalts(b: Base, s: State, log: seq<Node>)
    requires PutDeleteLog(log) && !s.halted
    ensures !Run(b, s, log).halted
  {
    hide ApplyNode, HostCalls, Presents;
    if log != [] {
      NeverHalts(b, s, log[..|log| - 1]);
    }
  }

  // ─── Tombstones ─────────────────────────────────────────────────

  /** The last deleter of an id is one of its deleters, and there is one as soon as anyone deleted it. */
  lemma {:induction false} LastDeleterDeletes(b: Base, log: seq<Node>, id: string, p: string)
    requires PutDeleteLog(log)
    ensures LastDeleter(b, log, id) == Some(p) ==> DeletedBy(b, Ops(log), id, p)
    ensures DeletedBy(b, Ops(log), id, p) ==> LastDeleter(b, log, id).Some?
  {
    hide DeletedBy, DeletesAs, IsDeletionNaming, Ops;
    if log == [] {
      NobodyDeletes(b, id, p);
    } else {
      var init, n := log[..|log| - 1], log[|log| - 1];
      LastDeleterDeletes(b, init, id, p);
      OpsSnoc(log);
      if n.value.Some? {
        DeletedByMore(b, Ops(init), n.value.value, id, p);
      }
      DeletionIs(b, n, id, p);
    }
  }

  lemma NobodyDeletes(b: Base, id: string, p: string)
    ensures !DeletedBy(b, Ops([]), id, p)
  {
  }

  lemma DeletionIs(b: Base, n: Node, id: string, p: string)
    requires PutOrDelete(n)
    ensures n.value.Some? && DeletesAs(b, n.value.value, id, p) <==>
      IsDeletionNaming(b, n, id) && n.value.value.event.pubkey == p
  {
    hide Valid, Targets;
  }

  /** In a run of puts and deletions, the tombstone on an id whose deleters are all one is theirs, and there is none without. */
  lemma TombstoneDecided(b: Base, log: seq<Node>, id: string, p: string)
    requires PutDeleteLog(log)
    requires forall q, r :: DeletedBy(b, Ops(log), id, q) && DeletedBy(b, Ops(log), id, r) ==> q == r
    ensures TombstoneAuthor(Run(b, INITIAL, log).view, id) == Some(p) <==> DeletedBy(b, Ops(log), id, p)
  {
    hide Run, DeletedBy, Ops, LastDeleter;
    NeverHalts(b, INITIAL, log);
    RunTombstones(b, log, id);
    LastDeleterDeletes(b, log, id, p);
    if LastDeleter(b, log, id).Some? {
      LastDeleterDeletes(b, log, id, LastDeleter(b, log, id).value);
    }
  }

  // ─── Presence ───────────────────────────────────────────────────

  /** An event stored under the id of a fit one is that event, up to its signature. */
  lemma StoredIsContent(b: Base, log: seq<Node>, e: Event)
    requires CollisionFree(b) && Storable(b, e)
    ensures var v := Run(b, INITIAL, log).view;
      && Consistent(b, v)
      && (e.id in v.events ==> SameContent(v.events[e.id], e) && v.events[e.id].pubkey == e.pubkey && v.events[e.id].id == e.id)
  {
    EmptyConsistent(b);
    RunConsistent(b, INITIAL, log);
    hide Run, Valid, IndexedBy, PointersResolve, IsProtected, ClassifyKind;
    var v := Run(b, INITIAL, log).view;
    if e.id in v.events {
      assert Storable(b, v.events[e.id]) && v.events[e.id].id == e.id;
    }
  }

  /** The node deletes the event in its author's name. */
  predicate Withdraws(b: Base, n: Node, e: Event) {
    n.value.Some? && DeletesAs(b, n.value.value, e.id, e.pubkey)
  }

  /** The node at `j` carries the event, when the last deletion naming it was not its author's. */
  predicate Offered(b: Base, log: seq<Node>, j: nat, e: Event)
    requires j < |log|
  {
    log[j].value.Some? && Carries(b, log[j].value.value, e) && LastDeleter(b, log[..j], e.id) != Some(e.pubkey)
  }

  /** Some node offers the event, and neither it nor a later one is its author's deletion of it. */
  predicate Standing(b: Base, log: seq<Node>, e: Event) {
    exists j :: 0 <= j < |log| && Offered(b, log, j, e) && forall k :: j <= k < |log| ==> !Withdraws(b, log[k], e)
  }

  lemma StandingMore(b: Base, log: seq<Node>, e: Event)
    requires log != []
    ensures var init, n := log[..|log| - 1], log[|log| - 1];
      Standing(b, log, e) <==> !Withdraws(b, n, e) && (Standing(b, init, e) || Offered(b, log, |init|, e))
  {
    hide Withdraws, LastDeleter, Carries;
    var init, n := log[..|log| - 1], log[|log| - 1];
    assert forall j :: 0 <= j < |init| ==> log[..j] == init[..j];
    if Standing(b, init, e) && !Withdraws(b, n, e) {
      var j :| 0 <= j < |init| && Offered(b, init, j, e) && forall k :: j <= k < |init| ==> !Withdraws(b, init[k], e);
      assert Offered(b, log, j, e);
    }
    if Standing(b, log, e) {
      var j :| 0 <= j < |log| && Offered(b, log, j, e) && forall k :: j <= k < |log| ==> !Withdraws(b, log[k], e);
      assert j < |init| ==> Offered(b, init, j, e);
    }
  }

  /**
   * After any run of puts and deletions a fit regular event is present exactly when some op carried it while the
   * last deletion naming it was not its author's, and from then on its author did not delete it.
   */
  lemma {:induction false} PresentIffStanding(b: Base, log: seq<Node>, e: Event)
    requires CollisionFree(b) && PutDeleteLog(log) && Storable(b, e) && Class(e) == Regular
    ensures e.id in Run(b, INITIAL, log).view.events <==> Standing(b, log, e)
  {
    hide ApplyNode, CollisionFree, Storable, ClassifyKind, PutOrDelete, HostCalls, Presents, Standing, LastDeleter;
    if log == [] {
      NeverStanding(b, e);
    } else {
      var init, n := log[..|log| - 1], log[|log| - 1];
      PresentIffStanding(b, init, e);
      StandingMore(b, log, e);
      NeverHalts(b, INITIAL, init);
      NeverHalts(b, INITIAL, log);
      RunSnoc(b, log);
      PresenceStep(b, init, n, e);
    }
  }

  lemma NeverStanding(b: Base, e: Event)
    ensures !Standing(b, [], e)
  {
  }

  lemma RunSnoc(b: Base, log: seq<Node>)
    requires PutDeleteLog(log) && log != []
    ensures var init, n := log[..|log| - 1], log[|log| - 1];
      PutOrDelete(n) && Run(b, INITIAL, log).view == ApplyNode(b, Run(b, INITIAL, init).view, n)
  {
    hide ApplyNode, HostCalls, Presents;
    NeverHalts(b, INITIAL, log[..|log| - 1]);
  }

  lemma PresenceStep(b: Base, init: seq<Node>, n: Node, e: Event)
    requires CollisionFree(b) && PutDeleteLog(init) && PutOrDelete(n) && Storable(b, e) && Class(e) == Regular
    ensures var v := Run(b, INITIAL, init).view;
      e.id in ApplyNode(b, v, n).events <==>
        !Withdraws(b, n, e) && (e.id in v.events ||
          (n.value.Some? && Carries(b, n.value.value, e) && LastDeleter(b, init, e.id) != Some(e.pubkey)))
  {
    hide Run, ApplyNode, CollisionFree, Storable, ClassifyKind, Carries, Consistent, LastDeleter, Put, Withdraws,
         PutOrDelete;
    var v := Run(b, INITIAL, init).view;
    StoredIsContent(b, init, e);
    StoredFiled(b, v);
    NeverHalts(b, INITIAL, init);
    RunTombstones(b, init, e.id);
    NodeIs(b, v, n);
    if e.id in v.events {
      RemovesAsAuthor(b, n, v.events[e.id]);
      ApplyNodeRemoves(b, v, n, e.id);
      WithdrawsAlike(b, n, v.events[e.id], e);
    } else if n.value.Some? {
      AddsCarried(b, v, n, e);
      AddsOnlyStanding(b, v, n, e);
      if Carries(b, n.value.value, e) && LastDeleter(b, init, e.id) != Some(e.pubkey) && !Withdraws(b, n, e) {
        CarriedAccepted(b, v, n, e);
      }
    } else {
      AcksWithdrawNothing(b, n, e);
    }
  }

  lemma WithdrawsAlike(b: Base, n: Node, x: Event, e: Event)
    requires x.id == e.id && x.pubkey == e.pubkey
    ensures Withdraws(b, n, x) <==> Withdraws(b, n, e)
  {
    hide DeletesAs;
  }

  lemma AcksWithdrawNothing(b: Base, n: Node, e: Event)
    requires n.value.None?
    ensures !Withdraws(b, n, e)
  {
  }

  /** A put or deletion removes an event only as its author's deletion naming it. */
  lemma RemovesAsAuthor(b: Base, n: Node, e: Event)
    requires PutOrDelete(n)
    ensures Removes(b, n, e) <==> Withdraws(b, n, e)
  {
    hide Valid, Targets;
  }

  /** Only an op that carries the event can add it. */
  lemma AddsCarried(b: Base, v: View, n: Node, e: Event)
    requires CollisionFree(b) && Storable(b, e) && n.value.Some?
    requires e.id !in v.events
    ensures e.id in ApplyNode(b, v, n).events ==> Carries(b, n.value.value, e)
  {
    hide ApplyNode, Valid, IsProtected, ClassifyKind;
    ApplyNodeAdds(b, v, n, e.id);
  }

  /** An op adds an event neither against its author's tombstone nor against its own verdict. */
  lemma AddsOnlyStanding(b: Base, v: View, n: Node, e: Event)
    requires CollisionFree(b) && Storable(b, e) && PutOrDelete(n) && FiledById(v.events) && e.id !in v.events
    ensures e.id in ApplyNode(b, v, n).events ==> !Withdraws(b, n, e) && TombstoneAuthor(v, e.id) != Some(e.pubkey)
  {
    hide ApplyNode, IsProtected, ClassifyKind, Valid, Targets, CollisionFree, PutOrDelete, TombstoneAuthor;
    ApplyNodeAdds(b, v, n, e.id);
    if e.id in ApplyNode(b, v, n).events {
      SameAuthor(b, ApplyNode(b, v, n).events[e.id], e);
      WithdrawsAsDeletion(b, n, e);
      AddedNamingsAreOwn(b, n, ApplyNode(b, v, n).events[e.id], e);
      if Withdraws(b, n, e) || TombstoneAuthor(v, e.id) == Some(e.pubkey) {
        ApplyNodeBuried(b, v, n, e.id, e.pubkey);
      }
    }
  }

  lemma SameAuthor(b: Base, x: Event, e: Event)
    requires CollisionFree(b) && Storable(b, x) && Storable(b, e) && x.id == e.id
    ensures SameContent(x, e) && x.pubkey == e.pubkey
  {
    hide Valid, IsProtected;
  }

  lemma WithdrawsAsDeletion(b: Base, n: Node, e: Event)
    requires PutOrDelete(n)
    ensures Withdraws(b, n, e) <==> IsDeletionNaming(b, n, e.id) && n.value.value.event.pubkey == e.pubkey
  {
    hide Valid, Targets;
  }

  /** A deletion that carries the event is by its author. */
  lemma AddedNamingsAreOwn(b: Base, n: Node, x: Event, e: Event)
    requires RunSafety.Carries(n, x) && x.pubkey == e.pubkey
    ensures IsDeletionNaming(b, n, e.id) ==> n.value.value.event.pubkey == e.pubkey
  {
    hide Valid, Targets;
  }

  lemma CarriedAlike(b: Base, op: Op, e: Event)
    requires Carries(b, op, e)
    ensures op.event.id == e.id && op.event.pubkey == e.pubkey && Class(op.event) == Class(e) && Storable(b, op.event)
    ensures op.PutOp? || op.DeleteOp?
  {
    hide Storable, ClassifyKind;
  }

  lemma RegularAccepted(b: Base, v: View, e: Event)
    requires Storable(b, e) && Class(e) == Regular && e.id !in v.events && TombstoneAuthor(v, e.id) != Some(e.pubkey)
    ensures Accepts(b, v, e)
  {
    hide Storable, SlotKey;
  }

  /** A carried regular event that is absent and not its author's to refuse is stored. */
  lemma CarriedAccepted(b: Base, v: View, n: Node, e: Event)
    requires PutOrDelete(n) && n.value.Some? && Carries(b, n.value.value, e) && Class(e) == Regular
    requires !Withdraws(b, n, e) && TombstoneAuthor(v, e.id) != Some(e.pubkey) && e.id !in v.events
    ensures e.id in ApplyNode(b, v, n).events
  {
    hide ApplyNode, ApplyOp, Put, Storable, ClassifyKind, Accepts, Carries, Targets, TombstoneAuthor;
    var op := n.value.value;
    CarriedAlike(b, op, e);
    NodeIs(b, v, n);
    OpIs(b, v, op, n.from);
    if op.PutOp? {
      RegularAccepted(b, v, op.event);
      PutEffect(b, v, op.event);
    } else {
      NamesNotItself(b, op, e);
      CarriedByDeletion(b, v, op.event);
    }
  }

  lemma NamesNotItself(b: Base, op: Op, e: Event)
    requires op.DeleteOp? && Storable(b, op.event) && op.event.pubkey == e.pubkey && !DeletesAs(b, op, e.id, e.pubkey)
    ensures e.id !in Targets(op.event.tags)
  {
    hide Valid, Targets;
  }

  lemma CarriedByDeletion(b: Base, v: View, d: Event)
    requires Storable(b, d) && Class(d) == Regular && d.id !in Targets(d.tags) && d.id !in v.events
    requires TombstoneAuthor(v, d.id) != Some(d.pubkey)
    ensures d.id in Delete(b, v, d).events
  {
    hide Put, IsProtected, ValidateStructure, ClassifyKind, DeleteTargets, Targets, Accepts;
    var w := DeleteTargets(v, d, Targets(d.tags));
    DeleteTargetsEffect(v, d, Targets(d.tags));
    RegularAccepted(b, w, d);
    PutEffect(b, w, d);
  }

  // ─── Sets of ops ────────────────────────────────────────────────

  lemma OpsOfPart(b: Base, log: seq<Node>, j: nat, id: string, p: string)
    requires j <= |log|
    ensures DeletedBy(b, Ops(log[..j]), id, p) ==> DeletedBy(b, Ops(log), id, p)
  {
    hide DeletesAs;
  }

  lemma WithdrawnIffDeleted(b: Base, log: seq<Node>, e: Event)
    ensures DeletedBy(b, Ops(log), e.id, e.pubkey) <==> exists k :: 0 <= k < |log| && Withdraws(b, log[k], e)
  {
    hide DeletesAs;
    if DeletedBy(b, Ops(log), e.id, e.pubkey) {
      var op :| op in Ops(log) && DeletesAs(b, op, e.id, e.pubkey);
      var n :| n in log && n.value.Some? && n.value.value == op;
      assert Withdraws(b, n, e);
    }
    if k :| 0 <= k < |log| && Withdraws(b, log[k], e) {
      assert log[k].value.value in Ops(log);
    }
  }

  /** Unless deletions of its author and of someone else both name it, standing does not depend on the order of the ops. */
  lemma UndisputedStanding(b: Base, log: seq<Node>, e: Event)
    requires PutDeleteLog(log) && !Disputed(b, Ops(log), e)
    ensures Standing(b, log, e) <==> Carried(b, Ops(log), e) && !DeletedBy(b, Ops(log), e.id, e.pubkey)
  {
    hide DeletedBy, Withdraws, Carries, LastDeleter;
    WithdrawnIffDeleted(b, log, e);
    if Standing(b, log, e) {
      var j :| 0 <= j < |log| && Offered(b, log, j, e) && forall k :: j <= k < |log| ==> !Withdraws(b, log[k], e);
      assert log[j].value.value in Ops(log);
      NotDeletedBefore(b, log, j, e);
    }
    if Carried(b, Ops(log), e) && !DeletedBy(b, Ops(log), e.id, e.pubkey) {
      var op :| op in Ops(log) && Carries(b, op, e);
      var j :| 0 <= j < |log| && log[j].value.Some? && log[j].value.value == op;
      LastDeleterDeletes(b, log[..j], e.id, e.pubkey);
      OpsOfPart(b, log, j, e.id, e.pubkey);
      assert Offered(b, log, j, e);
    }
  }

  /** If the last deletion before some place is not the author's, nor any later one, then none is. */
  lemma NotDeletedBefore(b: Base, log: seq<Node>, j: nat, e: Event)
    requires PutDeleteLog(log) && j < |log| && !Disputed(b, Ops(log), e)
    requires LastDeleter(b, log[..j], e.id) != Some(e.pubkey) && forall k :: j <= k < |log| ==> !Withdraws(b, log[k], e)
    ensures !DeletedBy(b, Ops(log), e.id, e.pubkey)
  {
    hide DeletedBy, Withdraws, LastDeleter, Ops;
    if DeletedBy(b, Ops(log), e.id, e.pubkey) {
      WithdrawnIffDeleted(b, log, e);
      var k :| 0 <= k < |log| && Withdraws(b, log[k], e);
      assert log[..j][k] == log[k];
      WithdrawnIffDeleted(b, log[..j], e);
      LastDeleterDeletes(b, log[..j], e.id, e.pubkey);
      var q := LastDeleter(b, log[..j], e.id).value;
      LastDeleterDeletes(b, log[..j], e.id, q);
      OpsOfPart(b, log, j, e.id, q);
    }
  }

  /**
   * After a run of puts and deletions, whatever else the log holds, a fit regular event not named by deletions of both
   * its author and someone else is present exactly when some op carried it and its author never deleted it.
   */
  lemma PresentIffNeverDeleted(b: Base, log: seq<Node>, e: Event)
    requires CollisionFree(b) && PutDeleteLog(log) && Storable(b, e) && Class(e) == Regular
    requires !Disputed(b, Ops(log), e)
    ensures e.id in Run(b, INITIAL, log).view.events <==>
      Carried(b, Ops(log), e) && !DeletedBy(b, Ops(log), e.id, e.pubkey)
  {
    PresentIffStanding(b, log, e);
    UndisputedStanding(b, log, e);
  }

  /** Every undisputed regular event is where it belongs, and on every id with one deleter at most is exactly its tombstone. */
  ghost predicate Converged(b: Base, v: View, ops: set<Op>) {
    && Consistent(b, v)
    && (forall e :: Storable(b, e) && Class(e) == Regular && !Disputed(b, ops, e) ==>
          (e.id in v.events <==> Carried(b, ops, e) && !DeletedBy(b, ops, e.id, e.pubkey)))
    && (forall id, p :: OneDeleter(b, ops, id) ==> (TombstoneAuthor(v, id) == Some(p) <==> DeletedBy(b, ops, id, p)))
  }

  ghost predicate OneDeleter(b: Base, ops: set<Op>, id: string) {
    forall p, q :: DeletedBy(b, ops, id, p) && DeletedBy(b, ops, id, q) ==> p == q
  }

  lemma RunConverged(b: Base, log: seq<Node>)
    requires CollisionFree(b) && PutDeleteLog(log)
    ensures Converged(b, Run(b, INITIAL, log).view, Ops(log)) && !Run(b, INITIAL, log).halted
  {
    hide CollisionFree, PutDeleteLog, Storable, ClassifyKind, Consistent, Run, Disputed, DeletedBy, Carried, Ops,
         TombstoneAuthor;
    EmptyConsistent(b);
    RunConsistent(b, INITIAL, log);
    NeverHalts(b, INITIAL, log);
    var v, ops := Run(b, INITIAL, log).view, Ops(log);
    forall e | Storable(b, e) && Class(e) == Regular && !Disputed(b, ops, e)
      ensures e.id in v.events <==> Carried(b, ops, e) && !DeletedBy(b, ops, e.id, e.pubkey)
    {
      PresentIffNeverDeleted(b, log, e);
    }
    forall id, p | OneDeleter(b, ops, id) ensures TombstoneAuthor(v, id) == Some(p) <==> DeletedBy(b, ops, id, p) {
      TombstoneDecided(b, log, id, p);
    }
  }

  // ─── Which orders agree ─────────────────────────────────────────

  /** A log of puts and deletions with exactly these ops. */
  ghost predicate LogWith(log: seq<Node>, ops: set<Op>) {
    PutDeleteLog(log) && Ops(log) == ops
  }

  /** All such logs agree on whether the event is stored. */
  ghost predicate PresenceOrderFree(b: Base, ops: set<Op>, e: Event) {
    forall log, log' :: LogWith(log, ops) && LogWith(log', ops) ==>
      (e.id in Run(b, INITIAL, log).view.events <==> e.id in Run(b, INITIAL, log').view.events)
  }

  predicate PutsAndDeletions(ops: set<Op>) {
    forall op :: op in ops ==> (op.PutOp? || op.DeleteOp?) && !FutureVersion(op)
  }

  function OpNode(op: Op): Node {
    Node(Some(op), "", false)
  }

  lemma Extended(log: seq<Node>, ops: set<Op>, op: Op)
    requires LogWith(log, ops) && (op.PutOp? || op.DeleteOp?) && !FutureVersion(op)
    ensures LogWith(log + [OpNode(op)], ops + {op})
  {
    hide FutureVersion;
    assert OpNode(op) in log + [OpNode(op)];
    assert forall n :: n in log ==> n in log + [OpNode(op)];
  }

  /** Some log of a set of ops. */
  lemma {:induction false} SomeLog(ops: set<Op>) returns (log: seq<Node>)
    requires PutsAndDeletions(ops)
    ensures LogWith(log, ops)
  {
    if ops == {} {
      log := [];
    } else {
      var op :| op in ops;
      var rest := SomeLog(ops - {op});
      Extended(rest, ops - {op}, op);
      assert ops - {op} + {op} == ops;
      log := rest + [OpNode(op)];
    }
  }

  /** With its author's deletion last, an event is absent. */
  lemma AbsentAfterOwn(b: Base, log: seq<Node>, own: Op, e: Event)
    requires DeletesAs(b, own, e.id, e.pubkey)
    ensures !Standing(b, log + [OpNode(own)], e)
  {
    hide DeletesAs, Offered;
    StandingMore(b, log + [OpNode(own)], e);
  }

  /** Carried right after someone else's deletion, an event stands, whatever happened before. */
  lemma PresentAfterOther(b: Base, log: seq<Node>, foreign: Op, q: string, carrier: Op, e: Event)
    requires DeletesAs(b, foreign, e.id, q) && q != e.pubkey
    requires Carries(b, carrier, e) && !DeletesAs(b, carrier, e.id, e.pubkey)
    ensures Standing(b, log + [OpNode(foreign)] + [OpNode(carrier)], e)
  {
    hide Valid, Targets, Carries, Standing;
    var init := log + [OpNode(foreign)];
    var all := init + [OpNode(carrier)];
    assert all[..|init|] == init && init[..|log|] == log;
    StandingMore(b, all, e);
    assert LastDeleter(b, init, e.id) == Some(q);
    assert Offered(b, all, |init|, e);
  }

  /** An event only carried by its author's own deletions of it never stands. */
  lemma StandingIsFree(b: Base, log: seq<Node>, e: Event)
    ensures Standing(b, log, e) ==> CarriedFreely(b, Ops(log), e)
  {
    hide DeletesAs, Carries, LastDeleter;
    if Standing(b, log, e) {
      var j :| 0 <= j < |log| && Offered(b, log, j, e) && forall k :: j <= k < |log| ==> !Withdraws(b, log[k], e);
      assert log[j].value.value in Ops(log);
    }
  }

  lemma DisputedDiffers(b: Base, ops: set<Op>, e: Event)
    requires CollisionFree(b) && PutsAndDeletions(ops) && Storable(b, e) && Class(e) == Regular
    requires CarriedFreely(b, ops, e) && Disputed(b, ops, e)
    ensures !PresenceOrderFree(b, ops, e)
  {
    hide CollisionFree, Storable, ClassifyKind, Run, DeletesAs, Carries, Standing, PutDeleteLog, Ops, FutureVersion;
    var carrier :| carrier in ops && Carries(b, carrier, e) && !DeletesAs(b, carrier, e.id, e.pubkey);
    var own :| own in ops && DeletesAs(b, own, e.id, e.pubkey);
    var q :| q != e.pubkey && DeletedBy(b, ops, e.id, q);
    var foreign :| foreign in ops && DeletesAs(b, foreign, e.id, q);
    assert ops + {own} == ops && ops + {foreign} == ops && ops + {carrier} == ops;
    var log := SomeLog(ops);
    Extended(log, ops, own);
    Extended(log, ops, foreign);
    Extended(log + [OpNode(foreign)], ops, carrier);
    var gone, kept := log + [OpNode(own)], log + [OpNode(foreign)] + [OpNode(carrier)];
    AbsentAfterOwn(b, log, own, e);
    PresentAfterOther(b, log, foreign, q, carrier, e);
    PresentIffStanding(b, gone, e);
    PresentIffStanding(b, kept, e);
    assert LogWith(gone, ops) && LogWith(kept, ops);
  }

  /**
   * Whether a fit regular event ends up stored depends on the order of the ops exactly when deletions of its author and
   * of someone else both name it, and some op other than such a deletion of its author carries it.
   */
  lemma PresenceOrderFreeIff(b: Base, ops: set<Op>, e: Event)
    requires CollisionFree(b) && PutsAndDeletions(ops) && Storable(b, e) && Class(e) == Regular
    ensures PresenceOrderFree(b, ops, e) <==> !(CarriedFreely(b, ops, e) && Disputed(b, ops, e))
  {
    hide CollisionFree, Storable, ClassifyKind, Run, CarriedFreely, Disputed, Standing, PutDeleteLog, Ops,
         PutsAndDeletions, DeletedBy, Carried;
    if CarriedFreely(b, ops, e) && Disputed(b, ops, e) {
      DisputedDiffers(b, ops, e);
    } else {
      forall log, log' | LogWith(log, ops) && LogWith(log', ops)
        ensures e.id in Run(b, INITIAL, log).view.events <==> e.id in Run(b, INITIAL, log').view.events
      {
        DecidedAlike(b, ops, log, log', e);
      }
    }
  }

  lemma DecidedAlike(b: Base, ops: set<Op>, log: seq<Node>, log': seq<Node>, e: Event)
    requires CollisionFree(b) && Storable(b, e) && Class(e) == Regular && LogWith(log, ops) && LogWith(log', ops)
    requires !CarriedFreely(b, ops, e) || !Disputed(b, ops, e)
    ensures e.id in Run(b, INITIAL, log).view.events <==> e.id in Run(b, INITIAL, log').view.events
  {
    hide CollisionFree, Storable, ClassifyKind, Run, CarriedFreely, Disputed, Standing, PutDeleteLog, Ops, DeletedBy,
         Carried;
    if !Disputed(b, ops, e) {
      PresentIffNeverDeleted(b, log, e);
      PresentIffNeverDeleted(b, log', e);
    } else {
      PresentIffStanding(b, log, e);
      PresentIffStanding(b, log', e);
      StandingIsFree(b, log, e);
      StandingIsFree(b, log', e);
    }
  }

  // ─── The regular part of a view ─────────────────────────────────

  function RegularEvents(v: View): map<string, Event> {
    map id | id in v.events && Class(v.events[id]) == Regular :: v.events[id]
  }

  /** The entries that name a stored regular event. */
  function NamingRegular(m: map<string, string>, v: View): map<string, string> {
    map k | k in m && m[k] in RegularEvents(v) :: m[k]
  }

  function RegularIndexes(v: View): Indexes {
    var ix := v.indexes;
    Indexes(NamingRegular(ix.kind, v), NamingRegular(ix.author, v), NamingRegular(ix.authorKind, v),
      NamingRegular(ix.tag, v), NamingRegular(ix.createdAt, v), NamingRegular(ix.expiration, v))
  }

  lemma RegularIndexed(b: Base, v: View)
    requires Consistent(b, v)
    ensures IndexedBy(RegularIndexes(v), RegularEvents(v))
  {
    hide KeysFor, ClassifyKind, EventsSound, PointersResolve, SlotKey, Names, NamingRegular;
    forall s ensures Index(RegularIndexes(v), s) == NamingRegular(Index(v.indexes, s), v) {
    }
    NamingRegularIs(v);
    assert forall id :: id in RegularEvents(v) ==> id in LiveEvents(v) && LiveEvents(v)[id] == RegularEvents(v)[id];
  }

  lemma NamingRegularIs(v: View)
    ensures forall m, k :: k in NamingRegular(m, v) <==> k in m && m[k] in RegularEvents(v)
    ensures forall m, k :: k in NamingRegular(m, v) ==> NamingRegular(m, v)[k] == m[k]
  {
    hide RegularEvents;
  }

  /** No fit regular event that is carried freely is disputed. */
  ghost predicate RegularsUndisputed(b: Base, ops: set<Op>) {
    forall e :: Storable(b, e) && Class(e) == Regular && CarriedFreely(b, ops, e) ==> !Disputed(b, ops, e)
  }

  /**
   * Two runs of puts and deletions over one set of ops, of any kinds, end with the same regular events up to signatures
   * and the same index entries naming them, if no regular event is disputed; and with the same six indexes if no fit
   * event competes for a slot.
   */
  lemma PutDeleteOrderIrrelevant(b: Base, log: seq<Node>, log': seq<Node>)
    requires CollisionFree(b) && PutDeleteLog(log) && LogWith(log', Ops(log)) && RegularsUndisputed(b, Ops(log))
    ensures
      var v, w := Run(b, INITIAL, log).view, Run(b, INITIAL, log').view;
      && SameLiveContent(RegularEvents(v), RegularEvents(w)) && RegularIndexes(v) == RegularIndexes(w)
      && (Slotless(b, Ops(log)) ==> SameLiveContent(v.events, w.events) && v.indexes == w.indexes)
  {
    hide CollisionFree, PutDeleteLog, Run, Ops, Consistent, SameContent, RegularIndexes, Disputed, CarriedFreely,
         Storable, Slotless;
    var v, w := Run(b, INITIAL, log).view, Run(b, INITIAL, log').view;
    EmptyConsistent(b);
    RunConsistent(b, INITIAL, log);
    RunConsistent(b, INITIAL, log');
    forall id | id in RegularEvents(v)
      ensures id in RegularEvents(w) && SameContent(v.events[id], w.events[id])
    {
      RegularInBoth(b, log, log', id);
    }
    forall id | id in RegularEvents(w) ensures id in RegularEvents(v) {
      RegularInBoth(b, log', log, id);
    }
    RegularIndexed(b, v);
    RegularIndexed(b, w);
    SameContentSameIndex(RegularIndexes(v), RegularIndexes(w), RegularEvents(v), RegularEvents(w));
    if Slotless(b, Ops(log)) {
      AllRegular(b, log);
      AllRegular(b, log');
      AllLive(b, v);
      AllLive(b, w);
      SameContentSameIndex(v.indexes, w.indexes, v.events, w.events);
    }
  }

  /** No fit event the ops carry competes for a slot. */
  predicate Slotless(b: Base, ops: set<Op>) {
    forall op :: op in ops && (op.PutOp? || op.DeleteOp?) && Storable(b, op.event) ==> !HasSlot(op.event)
  }

  lemma AllRegular(b: Base, log: seq<Node>)
    requires Slotless(b, Ops(log))
    ensures var v := Run(b, INITIAL, log).view; RegularEvents(v) == v.events
  {
    hide Run, ClassifyKind, Valid, IsProtected, IndexedBy, PointersResolve;
    EmptyConsistent(b);
    RunConsistent(b, INITIAL, log);
    var v := Run(b, INITIAL, log).view;
    forall id | id in v.events ensures Class(v.events[id]) == Regular {
      StoredWasCarried(b, log, id);
      var j :| 0 <= j < |log| && RunSafety.Carries(log[j], v.events[id]);
      assert log[j].value.value in Ops(log);
      assert Storable(b, v.events[id]);
    }
  }

  lemma AllLive(b: Base, v: View)
    requires Consistent(b, v) && RegularEvents(v) == v.events
    ensures IndexedBy(v.indexes, v.events)
  {
    hide IndexedBy, EventsSound, PointersResolve, ClassifyKind, Names;
    forall id | id in v.events ensures Live(v, id) {
      assert id in RegularEvents(v);
    }
    assert LiveEvents(v) == v.events;
  }

  lemma RegularInBoth(b: Base, log: seq<Node>, log': seq<Node>, id: string)
    requires CollisionFree(b) && PutDeleteLog(log) && LogWith(log', Ops(log)) && RegularsUndisputed(b, Ops(log))
    requires id in RegularEvents(Run(b, INITIAL, log).view)
    ensures var v, w := Run(b, INITIAL, log).view, Run(b, INITIAL, log').view;
      id in RegularEvents(w) && SameContent(v.events[id], w.events[id])
  {
    hide CollisionFree, PutDeleteLog, Run, Ops, SameContent, CarriedFreely, Disputed, ClassifyKind, IndexedBy,
         PointersResolve, Valid, IsProtected;
    EmptyConsistent(b);
    RunConsistent(b, INITIAL, log);
    var v, w := Run(b, INITIAL, log).view, Run(b, INITIAL, log').view;
    var e := v.events[id];
    assert e.id == id && Storable(b, e);
    DecidedAlike(b, Ops(log), log, log', e);
    StoredIsContent(b, log', e);
    SameContentBack(w.events[id], e);
  }

  lemma SameContentBack(x: Event, e: Event)
    requires SameContent(x, e)
    ensures SameContent(e, x) && Class(x) == Class(e)
  {
    SameContentSameKeys(x, e);
  }

  /** All logs of these ops end with the same regular events, up to signatures. */
  ghost predicate RegularsOrderFree(b: Base, ops: set<Op>) {
    forall log, log' :: LogWith(log, ops) && LogWith(log', ops) ==>
      SameLiveContent(RegularEvents(Run(b, INITIAL, log).view), RegularEvents(Run(b, INITIAL, log').view))
  }

  /** The regular events do not depend on the order of puts and deletions exactly when none that is carried freely is disputed. */
  lemma RegularsOrderFreeIff(b: Base, ops: set<Op>)
    requires CollisionFree(b) && PutsAndDeletions(ops)
    ensures RegularsOrderFree(b, ops) <==> RegularsUndisputed(b, ops)
  {
    hide CollisionFree, PutDeleteLog, PutsAndDeletions, Run, Ops, Disputed, CarriedFreely, Storable, ClassifyKind,
         SameLiveContent, RegularEvents, RegularIndexes;
    if RegularsUndisputed(b, ops) {
      forall log, log' | LogWith(log, ops) && LogWith(log', ops)
        ensures SameLiveContent(RegularEvents(Run(b, INITIAL, log).view), RegularEvents(Run(b, INITIAL, log').view))
      {
        PutDeleteOrderIrrelevant(b, log, log');
      }
    }
    if RegularsOrderFree(b, ops) {
      forall e | Storable(b, e) && Class(e) == Regular && CarriedFreely(b, ops, e) ensures !Disputed(b, ops, e) {
        forall log, log' | LogWith(log, ops) && LogWith(log', ops)
          ensures e.id in Run(b, INITIAL, log).view.events <==> e.id in Run(b, INITIAL, log').view.events
        {
          PresentInRegulars(b, log, e);
          PresentInRegulars(b, log', e);
          SameKeys(RegularEvents(Run(b, INITIAL, log).view), RegularEvents(Run(b, INITIAL, log').view));
        }
        PresenceOrderFreeIff(b, ops, e);
      }
    }
  }

  lemma SameKeys(v: map<string, Event>, w: map<string, Event>)
    requires SameLiveContent(v, w)
    ensures v.Keys == w.Keys
  {
  }

  lemma PresentInRegulars(b: Base, log: seq<Node>, e: Event)
    requires CollisionFree(b) && Storable(b, e) && Class(e) == Regular
    ensures var v := Run(b, INITIAL, log).view; e.id in RegularEvents(v) <==> e.id in v.events
  {
    hide CollisionFree, Storable, ClassifyKind, Run, Consistent, SameContent;
    StoredIsContent(b, log, e);
    var v := Run(b, INITIAL, log).view;
    if e.id in v.events {
      SameContentBack(v.events[e.id], e);
    }
  }
}
