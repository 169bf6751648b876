/** Storage-budget pruning of src/light/store.ts: which events a cycle evicts, and where repeated cycles end. */
module Prune {
  import opened Strings
  import opened NostrEvents
  import opened Consensus
  import opened ViewInvariant
  import opened Effects
  import opened Streams
  import EventStores
  import Expiry

  const EXEMPT_KINDS := {0, 3, 10000}
  const PRUNE_BATCH := 1000

  /** The JSON byte length of an event is foreign code; any measure will do. */
  type Measure = Event -> nat

  predicate Exempt(e: Event) {
    e.kind in EXEMPT_KINDS
  }

  // ─── Measuring ──────────────────────────────────────────────────

  /** Events of the listed ids, in order. */
  function Lookup(events: map<string, Event>, ks: seq<string>): (es: seq<Event>)
    requires forall k :: k in ks ==> k in events
    ensures |es| == |ks| && forall i :: 0 <= i < |ks| ==> es[i] == events[ks[i]]
  {
    if ks == [] then [] else Lookup(events, ks[..|ks| - 1]) + [events[ks[|ks| - 1]]]
  }

  function Bytes(size: Measure, es: seq<Event>): nat {
    if es == [] then 0 else Bytes(size, es[..|es| - 1]) + size(es[|es| - 1])
  }

  /** The total size of a set of stored events. */
  ghost function BytesOf(size: Measure, events: map<string, Event>, ids: set<string>): nat
    requires ids <= events.Keys
  {
    if ids == {} then 0
    else
      var id :| id in ids;
      size(events[id]) + BytesOf(size, events, ids - {id})
  }

  ghost function TotalBytes(size: Measure, events: map<string, Event>): nat {
    BytesOf(size, events, events.Keys)
  }

  lemma {:induction false} BytesOfAny(size: Measure, events: map<string, Event>, ids: set<string>, id: string)
    requires ids <= events.Keys && id in ids
    ensures BytesOf(size, events, ids) == size(events[id]) + BytesOf(size, events, ids - {id})
  {
    var x :| x in ids && BytesOf(size, events, ids) == size(events[x]) + BytesOf(size, events, ids - {x});
    if x != id {
      BytesOfAny(size, events, ids - {x}, id);
      BytesOfAny(size, events, ids - {id}, x);
      assert ids - {x} - {id} == ids - {id} - {x};
    }
  }

  lemma {:induction false} BytesOfSplit(size: Measure, events: map<string, Event>, ids: set<string>, part: set<string>)
    requires part <= ids <= events.Keys
    ensures BytesOf(size, events, ids) == BytesOf(size, events, part) + BytesOf(size, events, ids - part)
  {
    if part == {} {
      assert ids - part == ids;
    } else {
      var id :| id in part;
      BytesOfAny(size, events, ids, id);
      BytesOfAny(size, events, part, id);
      BytesOfSplit(size, events, ids - {id}, part - {id});
      assert ids - {id} - (part - {id}) == ids - part;
    }
  }

  lemma {:induction false} BytesOfSame(size: Measure, events: map<string, Event>, other: map<string, Event>,
                                       ids: set<string>)
    requires ids <= events.Keys && ids <= other.Keys && forall id :: id in ids ==> events[id] == other[id]
    ensures BytesOf(size, events, ids) == BytesOf(size, other, ids)
  {
    if ids != {} {
      var id :| id in ids;
      BytesOfAny(size, events, ids, id);
      BytesOfAny(size, other, ids, id);
      BytesOfSame(size, events, other, ids - {id});
    }
  }

  /** The list holds stored events, each once. */
  ghost predicate ListsStored(events: map<string, Event>, es: seq<Event>) {
    && (forall i :: 0 <= i < |es| ==> es[i].id in events && events[es[i].id] == es[i])
    && DistinctIds(es)
  }

  lemma {:induction false} BytesListed(size: Measure, events: map<string, Event>, es: seq<Event>)
    requires ListsStored(events, es)
    ensures IdSet(es) <= events.Keys && Bytes(size, es) == BytesOf(size, events, IdSet(es))
    ensures |IdSet(es)| == |es|
  {
    hide BytesOf, IdSet;
    if es == [] {
      NoIds();
      assert IdSet(es) == {};
      NoBytes(size, events);
    } else {
      var init, last := es[..|es| - 1], es[|es| - 1];
      BytesListed(size, events, init);
      IdsSnoc(es);
      BytesOfAny(size, events, IdSet(es), last.id);
      assert IdSet(es) - {last.id} == IdSet(init);
    }
  }

  lemma NoIds()
    ensures IdSet([]) == {}
  {
  }

  lemma NoBytes(size: Measure, events: map<string, Event>)
    ensures BytesOf(size, events, {}) == 0
  {
  }

  lemma IdsSnoc(es: seq<Event>)
    requires es != [] && DistinctIds(es)
    ensures var init, last := es[..|es| - 1], es[|es| - 1];
      IdSet(es) == IdSet(init) + {last.id} && last.id !in IdSet(init)
  {
    var init, last := es[..|es| - 1], es[|es| - 1];
    assert es == init + [last];
  }

  // ─── Choosing ───────────────────────────────────────────────────

  function Evictables(es: seq<Event>): seq<Event> {
    if es == [] then []
    else Evictables(es[..|es| - 1]) + (if Exempt(es[|es| - 1]) then [] else [es[|es| - 1]])
  }

  /** Insert behind everything not younger, as a stable sort does. */
  function InsertStable(es: seq<Event>, e: Event): seq<Event> {
    if es != [] && e.createdAt < es[|es| - 1].createdAt then InsertStable(es[..|es| - 1], e) + [es[|es| - 1]]
    else es + [e]
  }

  function SortByAge(es: seq<Event>): seq<Event> {
    if es == [] then [] else InsertStable(SortByAge(es[..|es| - 1]), es[|es| - 1])
  }

  /** Older first, by id on a tie. */
  predicate Older(a: Event, b: Event) {
    a.createdAt < b.createdAt || (a.createdAt == b.createdAt && Less(a.id, b.id))
  }

  ghost predicate OldestFirst(es: seq<Event>) {
    forall i, j :: 0 <= i < j < |es| ==> Older(es[i], es[j])
  }

  lemma {:induction false} InsertStableFacts(es: seq<Event>, e: Event)
    requires OldestFirst(es) && forall x: Event :: x in es ==> Less(x.id, e.id)
    ensures OldestFirst(InsertStable(es, e)) && |InsertStable(es, e)| == |es| + 1
    ensures forall x :: x in InsertStable(es, e) <==> x in es || x == e
  {
    if es != [] && e.createdAt < es[|es| - 1].createdAt {
      var init, last := es[..|es| - 1], es[|es| - 1];
      assert es == init + [last];
      InsertStableFacts(init, e);
      var r := InsertStable(init, e);
      forall i | 0 <= i < |r| ensures Older(r[i], last) {
        assert r[i] in r;
        if r[i] != e {
          var j :| 0 <= j < |init| && init[j] == r[i];
          assert es[j] == r[i];
        }
      }
    } else {
      forall i | 0 <= i < |es| ensures Older(es[i], e) {
        assert es[i] in es;
        if i < |es| - 1 {
          assert Older(es[i], es[|es| - 1]);
        }
      }
    }
  }

  ghost predicate IdsAscend(es: seq<Event>) {
    forall i, j :: 0 <= i < j < |es| ==> Less(es[i].id, es[j].id)
  }

  lemma {:induction false} SortByAgeFacts(es: seq<Event>)
    requires IdsAscend(es)
    ensures OldestFirst(SortByAge(es)) && |SortByAge(es)| == |es|
    ensures forall x :: x in SortByAge(es) <==> x in es
  {
    if es != [] {
      var init, last := es[..|es| - 1], es[|es| - 1];
      assert es == init + [last];
      SortByAgeFacts(init);
      forall x: Event | x in SortByAge(init) ensures Less(x.id, last.id) {
        var i :| 0 <= i < |init| && init[i] == x;
        assert es[i] == x;
      }
      InsertStableFacts(SortByAge(init), last);
    }
  }

  lemma {:induction false} EvictablesFacts(es: seq<Event>)
    requires IdsAscend(es)
    ensures IdsAscend(Evictables(es)) && forall x :: x in Evictables(es) <==> x in es && !Exempt(x)
  {
    hide Less, Exempt;
    if es != [] {
      var init, last := es[..|es| - 1], es[|es| - 1];
      assert es == init + [last];
      EvictablesFacts(init);
      forall i | 0 <= i < |Evictables(init)| ensures Less(Evictables(init)[i].id, last.id) {
        assert Evictables(init)[i] in init;
        var j :| 0 <= j < |init| && init[j] == Evictables(init)[i];
        assert es[j] == init[j];
      }
    }
  }

  /** All stored events in the order the scan reads them. */
  ghost function Scanned(events: map<string, Event>): seq<Event> {
    Lookup(events, SortedKeys(events.Keys))
  }

  /** The non-exempt stored events, oldest first. */
  ghost function ByAge(events: map<string, Event>): seq<Event> {
    SortByAge(Evictables(Scanned(events)))
  }

  lemma ScannedFacts(events: map<string, Event>)
    requires FiledById(events)
    ensures IdsAscend(Scanned(events)) && forall e :: e in Scanned(events) <==> e.id in events && events[e.id] == e
  {
    var ks := SortedKeys(events.Keys);
    forall e: Event | e.id in events && events[e.id] == e ensures e in Scanned(events) {
      assert e.id in ks;
      var i :| 0 <= i < |ks| && ks[i] == e.id;
      assert Scanned(events)[i] == e;
    }
    forall e: Event | e in Scanned(events) ensures e.id in events && events[e.id] == e {
      var i :| 0 <= i < |ks| && Scanned(events)[i] == e;
      assert ks[i] in ks;
    }
    forall i, j | 0 <= i < j < |ks| ensures Less(Scanned(events)[i].id, Scanned(events)[j].id) {
      assert ks[i] in ks && ks[j] in ks;
    }
  }

  /** The eviction order: every non-exempt stored event once, oldest first. */
  lemma ByAgeFacts(events: map<string, Event>)
    requires FiledById(events)
    ensures OldestFirst(ByAge(events)) && ListsStored(events, ByAge(events))
    ensures forall e :: e in ByAge(events) <==> e.id in events && events[e.id] == e && !Exempt(e)
  {
    hide Exempt, Lookup, SortedKeys, Less, SortByAge, Evictables, Scanned, FiledById;
    ScannedFacts(events);
    EvictablesFacts(Scanned(events));
    SortByAgeFacts(Evictables(Scanned(events)));
    var es := ByAge(events);
    forall i, j | 0 <= i < j < |es| ensures es[i].id != es[j].id {
      assert es[i] in es && es[j] in es && Older(es[i], es[j]);
      LessIrreflexive(es[i].id);
    }
    forall i | 0 <= i < |es| ensures es[i].id in events && events[es[i].id] == es[i] {
      assert es[i] in es;
    }
  }

  /** How many of the candidates are dropped: until the projection meets the target, the batch is full, or none is left. */
  function CutAt(size: Measure, candidates: seq<Event>, projected: int, target: real, batch: nat): (n: nat)
    ensures n <= |candidates| && n <= batch
  {
    if candidates == [] || projected as real <= target || batch == 0 then 0
    else 1 + CutAt(size, candidates[1..], projected - size(candidates[0]), target, batch - 1)
  }

  function Target(max: nat): real {
    max as real * 0.8
  }

  /** The events one cycle evicts. */
  ghost function Plan(size: Measure, events: map<string, Event>, max: nat): seq<Event> {
    if max == 0 || TotalBytes(size, events) <= max then []
    else ByAge(events)[..CutAt(size, ByAge(events), TotalBytes(size, events), Target(max), PRUNE_BATCH)]
  }

  lemma {:induction false} BytesPrefix(size: Measure, es: seq<Event>, n: nat)
    requires 0 < n <= |es|
    ensures Bytes(size, es[..n]) == size(es[0]) + Bytes(size, es[1..][..n - 1])
  {
    assert es[..n][..n - 1] == es[..n - 1];
    if n > 1 {
      BytesPrefix(size, es, n - 1);
      assert es[1..][..n - 1][..n - 2] == es[1..][..n - 2];
    } else {
      assert es[..0] == [];
    }
  }

  /** The cut is the shortest prefix that meets the target, unless the batch or the candidates run out first. */
  lemma {:induction false} CutMinimal(size: Measure, es: seq<Event>, projected: int, target: real, batch: nat, j: nat)
    requires j <= CutAt(size, es, projected, target, batch)
    ensures var n := CutAt(size, es, projected, target, batch);
      && (j < n ==> (projected - Bytes(size, es[..j])) as real > target)
      && (j == n ==> (projected - Bytes(size, es[..j])) as real <= target || n == batch || n == |es|)
  {
    if j > 0 {
      CutMinimal(size, es[1..], projected - size(es[0]), target, batch - 1, j - 1);
      BytesPrefix(size, es, j);
    } else {
      assert es[..0] == [];
    }
  }

  /**
   * A cycle over budget evicts an oldest-first prefix of the non-exempt events: no exempt kind, every one it
   * takes older than every one it leaves, and the shortest prefix that brings the total to 80% of the budget
   * unless it is cut at 1000 or has taken everything.
   */
  lemma PlanExact(size: Measure, events: map<string, Event>, max: nat, j: nat)
    requires FiledById(events)
    ensures
      var plan, all, total := Plan(size, events, max), ByAge(events), TotalBytes(size, events);
      && (max == 0 || total <= max ==> plan == [])
      && (0 < max < total ==>
            && plan <= all && OldestFirst(all) && (forall e :: e in all <==> e.id in events && events[e.id] == e && !Exempt(e))
            && |plan| <= PRUNE_BATCH
            && (j < |plan| ==> (total - Bytes(size, plan[..j])) as real > Target(max))
            && ((total - Bytes(size, plan)) as real <= Target(max) || |plan| == PRUNE_BATCH || plan == all)
            && (all != [] ==> plan != []))
  {
    hide TotalBytes, Exempt, OldestFirst, FiledById, Target, Bytes, ByAge;
    if 0 < max < TotalBytes(size, events) {
      OverBudget(size, events, max, j);
    }
  }

  lemma OverBudget(size: Measure, events: map<string, Event>, max: nat, j: nat)
    requires FiledById(events) && 0 < max < TotalBytes(size, events)
    ensures
      var plan, all, total := Plan(size, events, max), ByAge(events), TotalBytes(size, events);
      && plan <= all && OldestFirst(all) && (forall e :: e in all <==> e.id in events && events[e.id] == e && !Exempt(e))
      && |plan| <= PRUNE_BATCH
      && (j < |plan| ==> (total - Bytes(size, plan[..j])) as real > Target(max))
      && ((total - Bytes(size, plan)) as real <= Target(max) || |plan| == PRUNE_BATCH || plan == all)
      && (all != [] ==> plan != [])
  {
    hide Plan, ByAge, TotalBytes, Exempt, OldestFirst, FiledById, Target, ListsStored, Bytes, CutAt;
    ByAgeFacts(events);
    PlanIs(size, events, max);
    var plan, all, total := Plan(size, events, max), ByAge(events), TotalBytes(size, events);
    CutSome(size, all, total, max);
    CutMinimal(size, all, total, Target(max), PRUNE_BATCH, |plan|);
    if j < |plan| {
      CutMinimal(size, all, total, Target(max), PRUNE_BATCH, j);
      assert plan[..j] == all[..j];
    }
  }

  lemma PlanIs(size: Measure, events: map<string, Event>, max: nat)
    requires 0 < max < TotalBytes(size, events)
    ensures Plan(size, events, max) ==
      ByAge(events)[..CutAt(size, ByAge(events), TotalBytes(size, events), Target(max), PRUNE_BATCH)]
  {
    hide ByAge, TotalBytes, CutAt, Target;
  }

  lemma CutSome(size: Measure, es: seq<Event>, total: int, max: nat)
    requires 0 < max < total
    ensures es != [] ==> CutAt(size, es, total, Target(max), PRUNE_BATCH) > 0
  {
  }

  // ─── The cycle ──────────────────────────────────────────────────

  /** One `prune` by a writer, and the op it appends applied. */
  ghost function PruneBy(b: Base, size: Measure, v: View, max: nat, from: string): View {
    var plan := Plan(size, v.events, max);
    if plan == [] then v
    else ApplyNode(b, v, Node(Some(PruneDeleteOp(EventIds(plan), Some(CONSENSUS_VERSION))), from, false))
  }

  /** The same by the founder. */
  ghost function PruneCycle(b: Base, size: Measure, v: View, max: nat): View {
    PruneBy(b, size, v, max, b.founder)
  }

  /** Applying the op removes exactly the planned events and lowers the total by exactly their sizes. */
  lemma CycleEffect(b: Base, size: Measure, v: View, max: nat)
    requires Consistent(b, v)
    ensures
      var w, plan := PruneCycle(b, size, v, max), Plan(size, v.events, max);
      && Consistent(b, w)
      && w.events == v.events - IdSet(plan) && |w.events| == |v.events| - |plan|
      && TotalBytes(size, w.events) == TotalBytes(size, v.events) - Bytes(size, plan)
      && (forall id :: id in v.events && Exempt(v.events[id]) ==> id in w.events)
  {
    hide Plan, TotalBytes, Consistent, FiledById, ListsStored, IdSet, Exempt, PruneCycle;
    var plan := Plan(size, v.events, max);
    StoredFiled(b, v);
    PlanStored(size, v.events, max);
    RemovalBytes(size, v.events, plan);
    CycleEvicts(b, size, v, max);
  }

  /** The cycle as an eviction of the planned ids. */
  lemma CycleEvicts(b: Base, size: Measure, v: View, max: nat)
    requires Consistent(b, v)
    ensures var w, plan := PruneCycle(b, size, v, max), Plan(size, v.events, max);
      Consistent(b, w) && w.events == v.events - IdSet(plan)
  {
    hide Plan, Evict, Consistent, IdSet, Unevicted, EventIds;
    var plan := Plan(size, v.events, max);
    var ids := EventIds(plan);
    EventIdsFacts(plan);
    if plan == [] {
      EmptyPlan(v.events);
    } else {
      EvictConsistent(b, v, ids, false);
      EvictEffect(v, ids, false);
      UnevictedIs(v.events, ids, IdSet(plan));
    }
  }

  lemma EmptyPlan(events: map<string, Event>)
    ensures events - IdSet([]) == events
  {
    assert IdSet([]) == {};
  }

  lemma UnevictedIs(events: map<string, Event>, ids: seq<string>, gone: set<string>)
    requires forall id :: id in ids <==> id in gone
    ensures Unevicted(events, ids, false) == events - gone
  {
  }

  /** Taking stored, non-exempt events out lowers count and total by theirs. */
  lemma RemovalBytes(size: Measure, events: map<string, Event>, plan: seq<Event>)
    requires ListsStored(events, plan) && forall e :: e in plan ==> !Exempt(e)
    ensures
      var left := events - IdSet(plan);
      && |left| == |events| - |plan|
      && TotalBytes(size, left) == TotalBytes(size, events) - Bytes(size, plan)
      && (forall id :: id in events && Exempt(events[id]) ==> id in left)
  {
    hide TotalBytes, Exempt;
    BytesListed(size, events, plan);
    RemainingBytes(size, events, IdSet(plan));
    var left := events - IdSet(plan);
    assert left.Keys == events.Keys - IdSet(plan);
    assert |left.Keys| == |events.Keys| - |IdSet(plan)|;
    forall id | id in IdSet(plan) ensures !Exempt(events[id]) {
      var e :| e in plan && e.id == id;
      var i :| 0 <= i < |plan| && plan[i] == e;
    }
  }

  lemma PlanStored(size: Measure, events: map<string, Event>, max: nat)
    requires FiledById(events)
    ensures ListsStored(events, Plan(size, events, max)) && forall e :: e in Plan(size, events, max) ==> !Exempt(e)
  {
    hide TotalBytes, CutAt, ByAge, Exempt, FiledById, OldestFirst, Target, ListsStored;
    ByAgeFacts(events);
    PrefixStored(events, ByAge(events), |Plan(size, events, max)|);
  }

  lemma PrefixStored(events: map<string, Event>, es: seq<Event>, n: nat)
    requires ListsStored(events, es) && n <= |es|
    ensures ListsStored(events, es[..n]) && (forall e :: e in es[..n] ==> e in es) && ListsStored(events, [])
  {
  }

  lemma RemainingBytes(size: Measure, events: map<string, Event>, gone: set<string>)
    requires gone <= events.Keys
    ensures TotalBytes(size, events - gone) == TotalBytes(size, events) - BytesOf(size, events, gone)
  {
    BytesOfSplit(size, events, events.Keys, gone);
    BytesOfSame(size, events, events - gone, events.Keys - gone);
    assert (events - gone).Keys == events.Keys - gone;
  }

  ghost function PruneCycles(b: Base, size: Measure, v: View, max: nat, n: nat): View {
    if n == 0 then v else PruneCycle(b, size, PruneCycles(b, size, v, max, n - 1), max)
  }

  /** Nothing more to do: within budget, or nothing left that may be evicted. */
  ghost predicate AtRest(size: Measure, events: map<string, Event>, max: nat) {
    TotalBytes(size, events) <= max || forall id :: id in events ==> Exempt(events[id])
  }

  lemma RestIffNoPlan(size: Measure, events: map<string, Event>, max: nat)
    requires FiledById(events) && max > 0
    ensures AtRest(size, events, max) <==> Plan(size, events, max) == []
  {
    hide TotalBytes, Plan, Exempt, ByAge, FiledById;
    NoCandidates(events);
    if TotalBytes(size, events) > max {
      PlanIs(size, events, max);
      CutSome(size, ByAge(events), TotalBytes(size, events), max);
      CutNone(size, ByAge(events), TotalBytes(size, events), max);
    } else {
      NoPlanWithin(size, events, max);
    }
  }

  /** There are no candidates exactly when every stored event is exempt. */
  lemma NoCandidates(events: map<string, Event>)
    requires FiledById(events)
    ensures ByAge(events) == [] <==> forall id :: id in events ==> Exempt(events[id])
  {
    hide ByAge, Exempt, OldestFirst, ListsStored;
    ByAgeFacts(events);
    var all := ByAge(events);
    if all == [] {
      forall id | id in events ensures Exempt(events[id]) {
        assert events[id].id == id;
        assert events[id] in all || Exempt(events[id]);
      }
    } else {
      assert all[0] in all;
    }
  }

  lemma NoPlanWithin(size: Measure, events: map<string, Event>, max: nat)
    requires TotalBytes(size, events) <= max
    ensures Plan(size, events, max) == []
  {
    hide TotalBytes;
  }

  lemma CutNone(size: Measure, es: seq<Event>, total: int, max: nat)
    ensures es == [] ==> CutAt(size, es, total, Target(max), PRUNE_BATCH) == 0
  {
  }

  lemma {:induction false} CyclesShrink(b: Base, size: Measure, v: View, max: nat, n: nat)
    requires Consistent(b, v) && max > 0
    ensures
      var w := PruneCycles(b, size, v, max, n);
      && Consistent(b, w)
      && (AtRest(size, w.events, max) || |w.events| + n <= |v.events|)
      && (forall id :: id in v.events && Exempt(v.events[id]) ==> id in w.events && w.events[id] == v.events[id])
  {
    hide PruneCycle, AtRest, Exempt, Consistent, Plan;
    if n > 0 {
      CyclesShrink(b, size, v, max, n - 1);
      CycleShrinks(b, size, PruneCycles(b, size, v, max, n - 1), max);
    }
  }

  /** One cycle leaves the store at rest as it is, and otherwise smaller; exempt events stay. */
  lemma CycleShrinks(b: Base, size: Measure, v: View, max: nat)
    requires Consistent(b, v) && max > 0
    ensures var w := PruneCycle(b, size, v, max);
      && Consistent(b, w)
      && (if AtRest(size, v.events, max) then w == v else |w.events| < |v.events|)
      && (forall id :: id in v.events && Exempt(v.events[id]) ==> id in w.events && w.events[id] == v.events[id])
  {
    hide PruneCycle, AtRest, Exempt, Consistent, Plan, TotalBytes, FiledById;
    StoredFiled(b, v);
    CycleEffect(b, size, v, max);
    RestIffNoPlan(size, v.events, max);
    RestStays(b, size, v, max);
  }

  lemma RestStays(b: Base, size: Measure, v: View, max: nat)
    ensures Plan(size, v.events, max) == [] ==> PruneCycle(b, size, v, max) == v
  {
    hide Plan, ApplyNode;
  }

  // ─── Repeated cycles ────────────────────────────────────────────

  /** The stored events that may be evicted. */
  function Candidates(events: map<string, Event>): set<string> {
    set id | id in events && !Exempt(events[id])
  }

  /** Down to the target, or nothing left to evict. */
  ghost predicate Reduced(size: Measure, events: map<string, Event>, max: nat) {
    TotalBytes(size, events) as real <= Target(max) || Candidates(events) == {}
  }

  lemma ReducedRests(size: Measure, events: map<string, Event>, max: nat)
    requires Reduced(size, events, max)
    ensures AtRest(size, events, max)
  {
    hide TotalBytes, Exempt;
    assert forall id :: id in events && !Exempt(events[id]) ==> id in Candidates(events);
  }

  lemma ListedCandidates(events: map<string, Event>, plan: seq<Event>)
    requires ListsStored(events, plan) && forall e :: e in plan ==> !Exempt(e)
    ensures IdSet(plan) <= Candidates(events) && |IdSet(plan)| == |plan|
    ensures Candidates(events - IdSet(plan)) == Candidates(events) - IdSet(plan)
    ensures |Candidates(events - IdSet(plan))| == |Candidates(events)| - |plan|
  {
    hide Exempt, BytesOf;
    BytesListed(e => 0, events, plan);
    forall id | id in IdSet(plan) ensures id in Candidates(events) {
      var i :| 0 <= i < |plan| && plan[i].id == id;
      assert plan[i] in plan;
    }
    assert Candidates(events - IdSet(plan)) == Candidates(events) - IdSet(plan);
  }

  /** `ByAge` lists the candidates. */
  lemma CandidatesByAge(events: map<string, Event>)
    requires FiledById(events)
    ensures IdSet(ByAge(events)) == Candidates(events) && |ByAge(events)| == |Candidates(events)|
  {
    hide ByAge, Exempt, OldestFirst;
    ByAgeFacts(events);
    var all := ByAge(events);
    ListedCandidates(events, all);
    forall id | id in Candidates(events) ensures id in IdSet(all) {
      assert events[id].id == id && events[id] in all;
    }
  }

  /** A cycle over budget reduces the store, or evicts a full batch. */
  lemma CycleProgress(b: Base, size: Measure, v: View, max: nat)
    requires Consistent(b, v) && max > 0 && !AtRest(size, v.events, max)
    ensures var w := PruneCycle(b, size, v, max);
      Reduced(size, w.events, max) || |Candidates(w.events)| + PRUNE_BATCH == |Candidates(v.events)|
  {
    hide Plan, TotalBytes, Consistent, FiledById, ListsStored, IdSet, Exempt, PruneCycle, ByAge, OldestFirst, Target,
         Candidates;
    StoredFiled(b, v);
    CycleEffect(b, size, v, max);
    PlanStored(size, v.events, max);
    PlanExact(size, v.events, max, 0);
    CandidatesByAge(v.events);
    ListedCandidates(v.events, Plan(size, v.events, max));
  }

  /** After `n` cycles: reduced, or only full batches were evicted, one a cycle until the store was at rest. */
  ghost predicate Batched(size: Measure, before: map<string, Event>, after: map<string, Event>, max: nat, n: nat) {
    exists k: nat :: TookBatches(before, after, k) && (k == n || (0 < k < n && AtRest(size, after, max)))
  }

  predicate TookBatches(before: map<string, Event>, after: map<string, Event>, k: nat) {
    |Candidates(after)| + PRUNE_BATCH * k == |Candidates(before)|
  }

  lemma {:induction false} CyclesProgress(b: Base, size: Measure, v: View, max: nat, n: nat)
    requires Consistent(b, v) && max > 0 && !AtRest(size, v.events, max)
    ensures var w := PruneCycles(b, size, v, max, n);
      Reduced(size, w.events, max) || Batched(size, v.events, w.events, max, n)
  {
    hide PruneCycle, AtRest, Consistent, Reduced, Batched, Exempt;
    if n == 0 {
      NoBatches(size, v.events, max);
    } else {
      CyclesProgress(b, size, v, max, n - 1);
      CyclesShrink(b, size, v, max, n - 1);
      BatchedStep(b, size, v.events, PruneCycles(b, size, v, max, n - 1), max, n);
    }
  }

  /** A store at rest stays as it is. */
  lemma {:induction false} CyclesRest(b: Base, size: Measure, v: View, max: nat, n: nat)
    requires Consistent(b, v) && max > 0 && AtRest(size, v.events, max)
    ensures PruneCycles(b, size, v, max, n) == v
  {
    hide PruneCycle, AtRest, Consistent;
    if n > 0 {
      CyclesRest(b, size, v, max, n - 1);
      CycleShrinks(b, size, v, max);
    }
  }

  lemma BatchedStep(b: Base, size: Measure, before: map<string, Event>, u: View, max: nat, n: nat)
    requires Consistent(b, u) && max > 0 && n > 0 && (n == 1 ==> before == u.events)
    requires Reduced(size, u.events, max) || Batched(size, before, u.events, max, n - 1)
    ensures var w := PruneCycle(b, size, u, max);
      AtRest(size, before, max) || Reduced(size, w.events, max) || Batched(size, before, w.events, max, n)
  {
    hide PruneCycle, AtRest, Consistent, Candidates, Reduced, Exempt, Batched;
    CycleShrinks(b, size, u, max);
    if AtRest(size, u.events, max) {
      RestKeeps(size, before, u.events, max, n);
    } else {
      NotYetReduced(size, u.events, max);
      CycleProgress(b, size, u, max);
      BatchMore(size, before, u.events, PruneCycle(b, size, u, max).events, max, n);
    }
  }

  lemma NoBatches(size: Measure, events: map<string, Event>, max: nat)
    ensures Batched(size, events, events, max, 0)
  {
    hide Candidates, AtRest;
    assert TookBatches(events, events, 0);
  }

  lemma NotYetReduced(size: Measure, events: map<string, Event>, max: nat)
    requires !AtRest(size, events, max)
    ensures !Reduced(size, events, max)
  {
    if Reduced(size, events, max) {
      ReducedRests(size, events, max);
    }
  }

  lemma RestKeeps(size: Measure, before: map<string, Event>, after: map<string, Event>, max: nat, n: nat)
    requires n > 0 && AtRest(size, after, max) && (n == 1 ==> before == after)
    ensures AtRest(size, before, max) || (Batched(size, before, after, max, n - 1) ==> Batched(size, before, after, max, n))
  {
    hide AtRest, TookBatches;
  }

  lemma BatchMore(size: Measure, before: map<string, Event>, u: map<string, Event>, after: map<string, Event>, max: nat, n: nat)
    requires n > 0 && !AtRest(size, u, max) && Batched(size, before, u, max, n - 1)
    requires Reduced(size, after, max) || |Candidates(after)| + PRUNE_BATCH == |Candidates(u)|
    ensures Reduced(size, after, max) || Batched(size, before, after, max, n)
  {
    hide AtRest, Candidates, Reduced;
    assert TookBatches(before, u, n - 1);
    assert !Reduced(size, after, max) ==> TookBatches(before, after, n);
  }
  /**
   * Repeated cycles on a founder base come to rest after at most a thousandth as many cycles as there are events that may
   * be evicted. A store that was over budget then is at 80% of it, or has nothing left to evict, or only evicted full
   * batches of 1000 and the last of them ended between 80% and the budget. No exempt event is ever evicted.
   */
  lemma PruningTerminates(b: Base, size: Measure, v: View, max: nat)
    requires Consistent(b, v) && max > 0
    ensures
      var n := Expiry.CeilDiv(|Candidates(v.events)|, PRUNE_BATCH);
      var w := PruneCycles(b, size, v, max, n);
      && AtRest(size, w.events, max) && PruneCycle(b, size, w, max) == w
      && (AtRest(size, v.events, max) ==> w == v)
      && (AtRest(size, v.events, max) || Reduced(size, w.events, max)
          || exists k: nat :: 0 < k < n && TookBatches(v.events, w.events, k))
      && (forall id :: id in v.events && Exempt(v.events[id]) ==> id in w.events && w.events[id] == v.events[id])
  {
    hide PruneCycle, PruneCycles, TotalBytes, Exempt, Candidates, AtRest, Reduced, Batched, Consistent, FiledById, Plan;
    var n := Expiry.CeilDiv(|Candidates(v.events)|, PRUNE_BATCH);
    CyclesShrink(b, size, v, max, n);
    if AtRest(size, v.events, max) {
      CyclesRest(b, size, v, max, n);
    } else {
      CyclesProgress(b, size, v, max, n);
    }
    var w := PruneCycles(b, size, v, max, n);
    if Reduced(size, w.events, max) {
      ReducedRests(size, w.events, max);
    } else if !AtRest(size, v.events, max) {
      NoMoreBatches(size, v.events, w.events, max);
    }
    StoredFiled(b, w);
    RestIffNoPlan(size, w.events, max);
    RestStays(b, size, w, max);
  }

  lemma NoMoreBatches(size: Measure, before: map<string, Event>, after: map<string, Event>, max: nat)
    requires var n := Expiry.CeilDiv(|Candidates(before)|, PRUNE_BATCH); Batched(size, before, after, max, n)
    requires !Reduced(size, after, max)
    ensures AtRest(size, after, max)
    ensures exists k: nat :: 0 < k < Expiry.CeilDiv(|Candidates(before)|, PRUNE_BATCH) && TookBatches(before, after, k)
  {
    hide AtRest, Candidates, TotalBytes;
    assert Candidates(after) != {};
    assert |Candidates(after)| != 0;
  }

  // ─── Stopping above the target ──────────────────────────────────

  lemma {:induction false} BytesMonotone(size: Measure, es: seq<Event>, i: nat, j: nat)
    requires i <= j <= |es|
    ensures Bytes(size, es[..i]) <= Bytes(size, es[..j])
  {
    if i < j {
      BytesMonotone(size, es, i, j - 1);
      assert es[..j][..j - 1] == es[..j - 1];
    }
  }

  /**
   * A cycle leaves the store at rest above its target, with events left that may be evicted, exactly when its full
   * batch of 1000 brings the total within the budget but not down to 80% of it.
   */
  lemma StopsAboveTargetIff(b: Base, size: Measure, v: View, max: nat)
    requires Consistent(b, v) && 0 < max < TotalBytes(size, v.events)
    ensures
      var w, all := PruneCycle(b, size, v, max), ByAge(v.events);
      AtRest(size, w.events, max) && !Reduced(size, w.events, max) <==>
        && |all| > PRUNE_BATCH
        && TotalBytes(size, v.events) - Bytes(size, all[..PRUNE_BATCH]) <= max
        && (TotalBytes(size, v.events) - Bytes(size, all[..PRUNE_BATCH])) as real > Target(max)
  {
    hide Plan, TotalBytes, Consistent, FiledById, ListsStored, IdSet, Exempt, PruneCycle, ByAge, OldestFirst,
         Candidates, Bytes, AtRest, Reduced, Target;
    StoredFiled(b, v);
    CycleEffect(b, size, v, max);
    PlanStored(size, v.events, max);
    ListedCandidates(v.events, Plan(size, v.events, max));
    CandidatesByAge(v.events);
    PlanStops(size, v.events, max);
    RestAboveTarget(size, PruneCycle(b, size, v, max).events, max);
  }

  lemma RestAboveTarget(size: Measure, events: map<string, Event>, max: nat)
    ensures AtRest(size, events, max) && !Reduced(size, events, max) <==>
      Target(max) < TotalBytes(size, events) as real <= max as real && Candidates(events) != {}
  {
    hide TotalBytes, Exempt;
    assert forall id :: id in events && !Exempt(events[id]) ==> id in Candidates(events);
  }

  /** The plan stops short of the target, with candidates left, exactly when the first 1000 do not reach it. */
  lemma PlanStops(size: Measure, events: map<string, Event>, max: nat)
    requires FiledById(events) && 0 < max < TotalBytes(size, events)
    ensures
      var plan, all, total := Plan(size, events, max), ByAge(events), TotalBytes(size, events);
      if |plan| < |all| && (total - Bytes(size, plan)) as real > Target(max)
      then PRUNE_BATCH < |all| && plan == all[..PRUNE_BATCH]
      else |all| <= PRUNE_BATCH || (total - Bytes(size, all[..PRUNE_BATCH])) as real <= Target(max)
  {
    hide Plan, TotalBytes, FiledById, Exempt, ByAge, OldestFirst, Bytes, Target;
    PlanExact(size, events, max, 0);
    var plan, all := Plan(size, events, max), ByAge(events);
    assert plan == all[..|plan|];
    if |all| > PRUNE_BATCH {
      BytesMonotone(size, all, |plan|, PRUNE_BATCH);
      assert Bytes(size, plan) <= Bytes(size, all[..PRUNE_BATCH]);
      assert |plan| == PRUNE_BATCH ==> plan == all[..PRUNE_BATCH];
    }
  }

  /** One event of 9000 bytes, newest of 1001, and a thousand of one byte each. */
  function OneHeavy(heavy: Event): Measure {
    (e: Event) => if e == heavy then 9000 else 1
  }

  lemma {:induction false} LightBytes(heavy: Event, es: seq<Event>)
    requires heavy !in es
    ensures Bytes(OneHeavy(heavy), es) == |es|
  {
    if es != [] {
      assert es[|es| - 1] in es && forall e :: e in es[..|es| - 1] ==> e in es;
      LightBytes(heavy, es[..|es| - 1]);
    }
  }

  /**
   * It happens: of 1001 events that may be evicted, 10000 bytes in all under a budget of 9999, one cycle evicts the 1000
   * oldest and the store rests above the target of 7999.2, though the newest could go too.
   */
  lemma StopsAboveTarget(b: Base, v: View, heavy: Event)
    requires Consistent(b, v) && |v.events| == |ByAge(v.events)| == PRUNE_BATCH + 1 && heavy == ByAge(v.events)[PRUNE_BATCH]
    ensures
      var size := OneHeavy(heavy);
      var w := PruneCycle(b, size, v, 9999);
      AtRest(size, w.events, 9999) && !Reduced(size, w.events, 9999)
  {
    hide TotalBytes, Consistent, FiledById, ListsStored, IdSet, Exempt, PruneCycle, ByAge, OldestFirst, Bytes, AtRest,
         Reduced, OneHeavy, BytesOf;
    StoredFiled(b, v);
    var events, all := v.events, ByAge(v.events);
    CandidatesByAge(events);
    AllCandidates(events);
    var light := all[..PRUNE_BATCH];
    var size := OneHeavy(heavy);
    ByAgeFacts(events);
    BytesListed(size, events, all);
    HeavyLast(events, all);
    LightBytes(heavy, light);
    AllBytes(size, events);
    BytesSnoc(size, all);
    assert all[..|all| - 1] == light;
    StopsAboveTargetIff(b, size, v, 9999);
  }

  lemma AllCandidates(events: map<string, Event>)
    requires |Candidates(events)| == |events|
    ensures Candidates(events) == events.Keys
  {
    hide Exempt;
    var left := events.Keys - Candidates(events);
    assert events.Keys == Candidates(events) + left;
    assert |events.Keys| == |Candidates(events)| + |left|;
  }

  lemma HeavyLast(events: map<string, Event>, es: seq<Event>)
    requires ListsStored(events, es) && |es| == PRUNE_BATCH + 1
    ensures es[PRUNE_BATCH] !in es[..PRUNE_BATCH] && OneHeavy(es[PRUNE_BATCH])(es[PRUNE_BATCH]) == 9000
  {
  }

  lemma AllBytes(size: Measure, events: map<string, Event>)
    ensures TotalBytes(size, events) == BytesOf(size, events, events.Keys)
  {
  }

  lemma BytesSnoc(size: Measure, es: seq<Event>)
    requires es != []
    ensures Bytes(size, es) == Bytes(size, es[..|es| - 1]) + size(es[|es| - 1])
  {
  }

  /** Profiles, contact lists and mute lists are spared; everything else may be evicted. */
  predicate SparedKind(e: Event) {
    e.kind == 0 || e.kind == 3 || e.kind == 10000
  }

  /**
   * In terms of kinds and numbers: over budget, a cycle on a founder base evicts the oldest stored events that are not of
   * kind 0, 3 or 10000, at most 1000 of them, only while the rest is over 80% of the budget, and stops earlier only when
   * none is left.
   */
  lemma EvictsOldest(b: Base, size: Measure, v: View, max: nat, id: string)
    requires Consistent(b, v) && 0 < max < TotalBytes(size, v.events)
    ensures
      var w := PruneCycle(b, size, v, max);
      && (id in v.events && id !in w.events ==>
            && !SparedKind(v.events[id])
            && forall other :: other in w.events && !SparedKind(w.events[other]) ==>
                 w.events[other].createdAt >= v.events[id].createdAt)
      && |v.events| - |w.events| <= 1000
      && (5 * TotalBytes(size, w.events) <= 4 * max || |v.events| - |w.events| == 1000
          || forall other :: other in w.events ==> SparedKind(w.events[other]))
      && (w.events != v.events ==>
            exists last :: last in v.events && last !in w.events && 5 * (TotalBytes(size, w.events) + size(v.events[last])) > 4 * max)
  {
    hide Plan, TotalBytes, Consistent, IdSet, PruneCycle, ByAge, OldestFirst, FiledById, Bytes;
    StoredFiled(b, v);
    CycleEffect(b, size, v, max);
    PlanExact(size, v.events, max, 0);
    PlanStored(size, v.events, max);
    var plan, all := Plan(size, v.events, max), ByAge(v.events);
    var w := PruneCycle(b, size, v, max);
    EvictedFirst(v.events, all, plan, id);
    if plan == all {
      AllEvicted(v.events, plan);
    }
    if plan == [] {
      EmptyPlan(v.events);
    } else {
      NoneTooMany(size, v.events, max);
    }
  }

  /** Without its last event, the plan would not reach the target. */
  lemma NoneTooMany(size: Measure, events: map<string, Event>, max: nat)
    requires FiledById(events) && 0 < max < TotalBytes(size, events) && Plan(size, events, max) != []
    ensures
      var plan := Plan(size, events, max);
      var last := plan[|plan| - 1];
      && last.id in IdSet(plan) && last.id in events && events[last.id] == last
      && 5 * (TotalBytes(size, events) - Bytes(size, plan) + size(last)) > 4 * max
  {
    hide Plan, TotalBytes, FiledById, ByAge, OldestFirst, Exempt, IdSet;
    var plan := Plan(size, events, max);
    PlanExact(size, events, max, |plan| - 1);
    PlanStored(size, events, max);
    BytesSnoc(size, plan);
    IdsSnoc(plan);
  }

  /** What an oldest-first prefix takes is no newer than what it leaves. */
  lemma EvictedFirst(events: map<string, Event>, all: seq<Event>, plan: seq<Event>, id: string)
    requires FiledById(events) && OldestFirst(all) && plan <= all && ListsStored(events, plan)
    requires forall e :: e in all <==> e.id in events && events[e.id] == e && !Exempt(e)
    ensures id in IdSet(plan) ==>
      && id in events && !SparedKind(events[id])
      && forall other :: other in events && other !in IdSet(plan) && !SparedKind(events[other]) ==>
           events[other].createdAt >= events[id].createdAt
  {
    hide Less;
    if id in IdSet(plan) {
      var i :| 0 <= i < |plan| && plan[i].id == id;
      assert all[i] in all;
      forall other | other in events && other !in IdSet(plan) && !SparedKind(events[other])
        ensures events[other].createdAt >= events[id].createdAt
      {
        var y := events[other];
        assert y.id == other && y in all;
        var j :| 0 <= j < |all| && all[j] == y;
        InPrefix(all, plan, j);
        assert Older(all[i], all[j]);
      }
    }
  }

  lemma AllEvicted(events: map<string, Event>, plan: seq<Event>)
    requires FiledById(events) && forall e :: e in plan <==> e.id in events && events[e.id] == e && !Exempt(e)
    ensures forall other :: other in events && other !in IdSet(plan) ==> SparedKind(events[other])
  {
    forall other | other in events && !SparedKind(events[other]) ensures other in IdSet(plan) {
      assert events[other].id == other && events[other] in plan;
    }
  }

  lemma InPrefix(all: seq<Event>, plan: seq<Event>, j: nat)
    requires plan <= all && j < |all|
    ensures j < |plan| ==> all[j].id in IdSet(plan)
  {
    if j < |plan| {
      assert plan[j] in plan;
    }
  }

  /** Any writer appends its plan, but the view changes exactly when the writer is the founder and the plan not empty. */
  lemma PruneTakesEffectIff(b: Base, size: Measure, v: View, max: nat, from: string)
    requires Consistent(b, v)
    ensures PruneBy(b, size, v, max, from) != v <==> from == b.founder && Plan(size, v.events, max) != []
  {
    hide Plan, Evict, TotalBytes, Consistent, IndexedBy;
    var plan := Plan(size, v.events, max);
    if from == b.founder && plan != [] {
      CycleEffect(b, size, v, max);
    }
  }

  // ─── prune() ────────────────────────────────────────────────────

  class LightStore {
    const store: EventStores.EventStore
    const maxStorageBytes: nat
    const size: Measure

    constructor (store: EventStores.EventStore, maxStorageBytes: nat, size: Measure)
      ensures this.store == store && this.maxStorageBytes == maxStorageBytes && this.size == size
    {
      this.store, this.maxStorageBytes, this.size := store, maxStorageBytes, size;
    }

    /** Append the eviction of the planned events; nothing on a read-only replica. */
    method PruneStore()
      requires FiledById(store.events)
      modifies store`appended
      ensures
        var plan := Plan(size, old(store.events), maxStorageBytes);
        store.appended == old(store.appended) +
          (if (store.localKey == store.base.founder || store.localKey in store.writers) && plan != [] then [PruneDeleteOp(EventIds(plan), Some(CONSENSUS_VERSION))] else [])
    {
      if !store.Writable() {
        return;
      }
      var toDrop := ChooseEvictions(store.events, size, maxStorageBytes);
      store.PruneEvents(toDrop);
    }
  }

  /** Measure, gather, sort by age and cut. */
  method ChooseEvictions(events: map<string, Event>, size: Measure, max: nat) returns (toDrop: seq<string>)
    requires FiledById(events)
    ensures toDrop == EventIds(Plan(size, events, max))
    ensures toDrop == [] <==> Plan(size, events, max) == []
  {
    hide SortByAge, Evictables, TotalBytes, FiledById;
    EventIdsFacts(Plan(size, events, max));
    toDrop := [];
    if max == 0 {
      return;
    }
    var ks := ReadSet(events.Keys);
    var totalBytes, gathered := MeasureAll(events, ks, size);
    ScannedTotal(size, events);
    if totalBytes <= max {
      return;
    }
    var candidates := SortCandidates(gathered);
    toDrop := CutToTarget(size, candidates, totalBytes, Target(max), PRUNE_BATCH);
  }

  lemma ScannedTotal(size: Measure, events: map<string, Event>)
    requires FiledById(events)
    ensures Bytes(size, Scanned(events)) == TotalBytes(size, events)
  {
    hide Scanned, Bytes, BytesOf, FiledById, ListsStored, IdSet, IdsAscend;
    var es := Scanned(events);
    ScannedFacts(events);
    AscendingStored(events, es);
    BytesListed(size, events, es);
    ScannedAll(events, es);
  }

  lemma ScannedAll(events: map<string, Event>, es: seq<Event>)
    requires FiledById(events) && forall e :: e in es <==> e.id in events && events[e.id] == e
    ensures IdSet(es) == events.Keys
  {
    forall id | id in events ensures id in IdSet(es) {
      assert events[id] in es;
    }
  }

  lemma AscendingStored(events: map<string, Event>, es: seq<Event>)
    requires IdsAscend(es) && forall e :: e in es ==> e.id in events && events[e.id] == e
    ensures ListsStored(events, es)
  {
    hide Less;
    assert forall i :: 0 <= i < |es| ==> es[i] in es;
    forall i, j | 0 <= i < j < |es| ensures es[i].id != es[j].id {
      LessIrreflexive(es[i].id);
    }
  }

  method MeasureAll(events: map<string, Event>, ks: seq<string>, size: Measure)
    returns (totalBytes: nat, candidates: seq<Event>)
    requires forall k :: k in ks ==> k in events
    ensures totalBytes == Bytes(size, Lookup(events, ks)) && candidates == Evictables(Lookup(events, ks))
  {
    totalBytes, candidates := 0, [];
    var es := Lookup(events, ks);
    var i := 0;
    while i < |es|
      invariant 0 <= i <= |es|
      invariant totalBytes == Bytes(size, es[..i]) && candidates == Evictables(es[..i])
    {
      assert es[..i + 1][..i] == es[..i];
      totalBytes := totalBytes + size(es[i]);
      if !Exempt(es[i]) {
        candidates := candidates + [es[i]];
      }
      i := i + 1;
    }
    assert es[..i] == es;
  }

  method SortCandidates(es: seq<Event>) returns (sorted: seq<Event>)
    ensures sorted == SortByAge(es)
  {
    sorted := [];
    var i := 0;
    while i < |es|
      invariant 0 <= i <= |es| && sorted == SortByAge(es[..i])
    {
      assert es[..i + 1][..i] == es[..i];
      sorted := InsertStable(sorted, es[i]);
      i := i + 1;
    }
    assert es[..i] == es;
  }

  method CutToTarget(size: Measure, candidates: seq<Event>, totalBytes: nat, target: real,
                     batch: nat) returns (toDrop: seq<string>)
    ensures toDrop == EventIds(candidates[..CutAt(size, candidates, totalBytes, target, batch)])
  {
    hide CutAt, EventIds;
    toDrop := [];
    CutNothing(candidates);
    var projected: int := totalBytes;
    ghost var n := CutAt(size, candidates, totalBytes, target, batch);
    assert candidates[0..] == candidates;
    var i := 0;
    while i < |candidates|
      invariant 0 <= i <= |candidates| && i == |toDrop| <= batch
      invariant toDrop == EventIds(candidates[..i])
      invariant n == i + CutAt(size, candidates[i..], projected, target, batch - i)
    {
      CutStep(size, candidates, i, projected, target, batch - i);
      if projected as real <= target || |toDrop| >= batch {
        break;
      }
      toDrop := toDrop + [candidates[i].id];
      projected := projected - size(candidates[i]);
      i := i + 1;
    }
    CutEnd(size, candidates[i..], projected, target, batch - i);
  }

  lemma CutNothing(candidates: seq<Event>)
    ensures EventIds(candidates[..0]) == []
  {
  }

  /** One more candidate is dropped, or the cut ends here. */
  lemma CutStep(size: Measure, candidates: seq<Event>, i: nat, projected: int, target: real, batch: nat)
    requires i < |candidates|
    ensures CutAt(size, candidates[i..], projected, target, batch) ==
      if projected as real <= target || batch == 0 then 0
      else 1 + CutAt(size, candidates[i + 1..], projected - size(candidates[i]), target, batch - 1)
    ensures EventIds(candidates[..i + 1]) == EventIds(candidates[..i]) + [candidates[i].id]
  {
    assert candidates[i..][1..] == candidates[i + 1..];
    assert candidates[..i + 1][..i] == candidates[..i];
  }

  lemma CutEnd(size: Measure, rest: seq<Event>, projected: int, target: real, batch: nat)
    requires rest == [] || projected as real <= target || batch == 0
    ensures CutAt(size, rest, projected, target, batch) == 0
  {
  }
}
