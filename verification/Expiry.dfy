/** NIP-40 reclaim: which indexed events are listed as due, and what repeated reclaim cycles leave (src/relay.ts). */
module Expiry {
  import opened Strings
  import opened NostrEvents
  import opened Keys
  import opened Consensus
  import opened ViewInvariant
  import opened Effects
  import opened Streams
  import opened Sets

  const EXPIRY_DELETE_BATCH := 256

  /** Every expiration key up to and including `now`. */
  function DueRange(now: int): Range {
    Range("", Lte(Hex32(now) + TILDE))
  }

  /** The collecting loop of `listExpired`: push an id, then stop once the limit is reached. */
  method CollectIds(m: map<string, string>, ks: seq<string>, limit: nat) returns (ids: seq<string>)
    requires forall k :: k in ks ==> k in m
    ensures ids == Resolve(m, ks, if limit == 0 then 1 else limit)
  {
    ids := [];
    var i := 0;
    while i < |ks|
      invariant 0 <= i <= |ks|
      invariant ids == Resolve(m, ks, i) && |ids| == i
      invariant i == 0 || i < limit
    {
      ResolveSnoc(m, ks, i);
      ids := ids + [m[ks[i]]];
      i := i + 1;
      if |ids| >= limit {
        break;
      }
    }
    ResolveAll(m, ks, i, if limit == 0 then 1 else limit);
  }

  ghost function DueKeys(v: View, now: int): (ks: seq<string>)
    ensures forall k :: k in ks ==> k in v.indexes.expiration
  {
    Stream(v.indexes.expiration, DueRange(now))
  }

  /** The ids `listExpired` returns: it collects before it compares with the limit, so never fewer than one if any is due. */
  ghost function ListDue(v: View, now: int, limit: nat): seq<string> {
    Resolve(v.indexes.expiration, DueKeys(v, now), if limit == 0 then 1 else limit)
  }

  /** The u32 the index files an expiration under. */
  function Filed(e: Event): int
    requires Expiration(e).Some?
  {
    Expiration(e).value % TWO_32
  }

  /** The live events filed as due. */
  ghost function DueIds(v: View, now: int): set<string> {
    set id | id in LiveEvents(v) && Expiration(v.events[id]).Some? && Filed(v.events[id]) <= now % TWO_32
  }

  lemma DueAreStored(v: View, now: int)
    ensures forall id :: id in DueIds(v, now) ==> id in v.events && Expiration(v.events[id]).Some?
  {
    hide Expiration, Live;
  }

  lemma ExpirationKeyForm(expiry: int, id: string)
    ensures ExpirationKey(expiry, id) == Hex32(expiry) + (SEPARATOR + id)
  {
    assert MAX_U32 - (MAX_U32 - expiry) == expiry;
  }

  lemma Hex32Wrapped(m: int, n: int)
    ensures Less(Hex32(m), Hex32(n)) <==> m % TWO_32 < n % TWO_32
    ensures Hex32(m) == Hex32(n) <==> m % TWO_32 == n % TWO_32
  {
    Pow16Eight();
    PaddedHexOrder(m % TWO_32, n % TWO_32, 8);
  }

  /** An expiration key is in the due range exactly when its expiry, modulo 2^32, is at or before `now`. */
  lemma DueRangeExact(expiry: int, id: string, now: int)
    ensures InRange(ExpirationKey(expiry, id), DueRange(now)) <==> expiry % TWO_32 <= now % TWO_32
  {
    hide Hex32;
    ExpirationKeyForm(expiry, id);
    LessBlocks(Hex32(now), Hex32(expiry), TILDE, SEPARATOR + id);
    Hex32Wrapped(now, expiry);
    assert !Less(TILDE, SEPARATOR + id);
  }

  /** Expiration keys sort by filed expiry, then id. */
  lemma ExpirationKeyOrder(x: int, id: string, y: int, id': string)
    ensures Less(ExpirationKey(x, id), ExpirationKey(y, id')) <==>
      x % TWO_32 < y % TWO_32 || (x % TWO_32 == y % TWO_32 && Less(id, id'))
  {
    hide Hex32;
    ExpirationKeyForm(x, id);
    ExpirationKeyForm(y, id');
    LessBlocks(Hex32(x), Hex32(y), SEPARATOR + id, SEPARATOR + id');
    LessCommonPrefix(SEPARATOR, id, id');
    Hex32Wrapped(x, y);
  }

  /** A key of the due stream belongs to a due event, and every due event has exactly one. */
  lemma DueKeyOwner(b: Base, v: View, now: int, k: string)
    requires Consistent(b, v) && k in DueKeys(v, now)
    ensures
      var id := v.indexes.expiration[k];
      id in DueIds(v, now) && k == ExpirationKey(Expiration(v.events[id]).value, id)
  {
    hide ExpirationKey, Expiration, DueRange;
    assert Index(v.indexes, ByExpiration) == v.indexes.expiration;
    var id := v.indexes.expiration[k];
    assert id in LiveEvents(v) && k in KeysFor(ByExpiration, v.events[id]);
    DueRangeExact(Expiration(v.events[id]).value, id, now);
  }

  lemma DueIdListed(b: Base, v: View, now: int, id: string)
    requires Consistent(b, v) && id in DueIds(v, now)
    ensures
      var k := ExpirationKey(Expiration(v.events[id]).value, id);
      k in DueKeys(v, now) && v.indexes.expiration[k] == id
  {
    hide ExpirationKey, Expiration, DueRange, KeysFor, InRange, EventsSound, PointersResolve, LiveEvents, Index;
    hide FiledById;
    ExpirationIndex(v.indexes);
    LiveAreStored(v);
    var e := v.events[id];
    var k := ExpirationKey(Expiration(e).value, id);
    LiveFiled(b, v, id);
    ExpirationEntry(e);
    assert k in Index(v.indexes, ByExpiration) && Index(v.indexes, ByExpiration)[k] == id;
    DueRangeExact(Expiration(e).value, id, now);
  }

  lemma ExpirationIndex(ix: Indexes)
    ensures Index(ix, ByExpiration) == ix.expiration
  {
  }

  lemma LiveFiled(b: Base, v: View, id: string)
    requires Consistent(b, v) && id in LiveEvents(v)
    ensures v.events[id].id == id
  {
    hide IndexedBy, PointersResolve, Storable, Live;
  }

  lemma ExpirationEntry(e: Event)
    requires Expiration(e).Some?
    ensures KeysFor(ByExpiration, e) == {ExpirationKey(Expiration(e).value, e.id)}
  {
  }

  /** The stream's ids are distinct, are the due events, and come by filed expiry and then id. */
  lemma DueStream(b: Base, v: View, now: int, i: nat, j: nat)
    requires Consistent(b, v) && i < j < |DueKeys(v, now)|
    ensures
      var m, ks := v.indexes.expiration, DueKeys(v, now);
      var x, y := m[ks[i]], m[ks[j]];
      && x != y && x in DueIds(v, now) && y in DueIds(v, now)
      && DueBefore(v, x, y)
  {
    hide Consistent, ExpirationKey, Expiration, KeysIn;
    var m, ks := v.indexes.expiration, DueKeys(v, now);
    var x, y := m[ks[i]], m[ks[j]];
    DueKeyOwner(b, v, now, ks[i]);
    DueKeyOwner(b, v, now, ks[j]);
    assert Less(ks[i], ks[j]);
    ExpirationKeyOrder(Expiration(v.events[x]).value, x, Expiration(v.events[y]).value, y);
    LessIrreflexive(x);
  }

  /** There are as many due keys as due events. */
  lemma DueCount(b: Base, v: View, now: int)
    requires Consistent(b, v)
    ensures |DueKeys(v, now)| == |DueIds(v, now)|
  {
    hide Consistent, DueIds;
    var ids := Resolve(v.indexes.expiration, DueKeys(v, now), |DueKeys(v, now)|);
    DueDistinct(b, v, now, |DueKeys(v, now)|);
    DueListed(b, v, now);
    DistinctSize(ids);
    assert Elements(ids) == DueIds(v, now);
  }

  lemma DueDistinct(b: Base, v: View, now: int, n: nat)
    requires Consistent(b, v)
    ensures var ids := Resolve(v.indexes.expiration, DueKeys(v, now), n);
      Distinct(ids) && forall id :: id in ids ==> id in DueIds(v, now)
  {
    hide Consistent, DueIds, DueKeys;
    var m, ks := v.indexes.expiration, DueKeys(v, now);
    var ids := Resolve(m, ks, n);
    forall i, j | 0 <= i < j < |ids| ensures ids[i] != ids[j] {
      DueStream(b, v, now, i, j);
    }
    forall i | 0 <= i < |ids| ensures ids[i] in DueIds(v, now) {
      DueKeyOwner(b, v, now, ks[i]);
    }
  }

  lemma DueListed(b: Base, v: View, now: int)
    requires Consistent(b, v)
    ensures var ids := Resolve(v.indexes.expiration, DueKeys(v, now), |DueKeys(v, now)|);
      forall id :: id in DueIds(v, now) ==> id in ids
  {
    hide Consistent, DueIds, DueKeys, Expiration;
    var m, ks := v.indexes.expiration, DueKeys(v, now);
    var ids := Resolve(m, ks, |ks|);
    DueAreStored(v, now);
    forall id | id in DueIds(v, now) ensures id in ids {
      DueIdListed(b, v, now, id);
      var k := ExpirationKey(Expiration(v.events[id]).value, id);
      var i :| 0 <= i < |ks| && ks[i] == k;
      assert ids[i] == id;
    }
  }

  /**
   * `listExpired` with a limit of at least one returns exactly the `limit` due events that expire earliest (by
   * filed expiry, then id): distinct, all due, and no due event it omits precedes one it lists.
   */
  lemma ListDueExact(b: Base, v: View, now: int, limit: nat, id: string)
    requires Consistent(b, v) && limit >= 1
    ensures var ids := ListDue(v, now, limit);
      && |ids| == (if limit < |DueIds(v, now)| then limit else |DueIds(v, now)|)
      && Distinct(ids) && (forall i :: i in ids ==> i in DueIds(v, now))
      && (id in DueIds(v, now) && id !in ids ==>
            forall i :: i in ids ==> DueBefore(v, i, id))
  {
    hide Consistent, DueKeys, DueIds, Expiration;
    DueCount(b, v, now);
    DueDistinct(b, v, now, limit);
    var ids := ListDue(v, now, limit);
    DueAreStored(v, now);
    if id in DueIds(v, now) && id !in ids {
      forall i | i in ids ensures DueBefore(v, i, id) {
        ListedBefore(b, v, now, limit, i, id);
      }
    }
  }

  /** Filed to expire earlier, or at the same second with the smaller id. */
  predicate DueBefore(v: View, i: string, j: string)
    requires i in v.events && Expiration(v.events[i]).Some? && j in v.events && Expiration(v.events[j]).Some?
  {
    Filed(v.events[i]) < Filed(v.events[j]) || (Filed(v.events[i]) == Filed(v.events[j]) && Less(i, j))
  }

  lemma ResolvedIn(m: map<string, string>, ks: seq<string>, n: nat, j: nat)
    requires (forall k :: k in ks ==> k in m) && j < |ks|
    ensures j < |Resolve(m, ks, n)| ==> m[ks[j]] in Resolve(m, ks, n)
  {
  }

  lemma ListedBefore(b: Base, v: View, now: int, limit: nat, i: string, id: string)
    requires Consistent(b, v) && i in Resolve(v.indexes.expiration, DueKeys(v, now), limit)
    requires id in DueIds(v, now) && id !in Resolve(v.indexes.expiration, DueKeys(v, now), limit)
    ensures i in DueIds(v, now) && DueBefore(v, i, id)
  {
    hide Consistent, DueKeys, DueIds, Expiration;
    DueAreStored(v, now);
    var m, ks := v.indexes.expiration, DueKeys(v, now);
    var ids := Resolve(m, ks, limit);
    DueIdListed(b, v, now, id);
    var j :| 0 <= j < |ks| && ks[j] == ExpirationKey(Expiration(v.events[id]).value, id);
    ResolvedIn(m, ks, limit, j);
    var n :| 0 <= n < |ids| && ids[n] == i;
    DueStream(b, v, now, n, j);
  }

  /** With u32 clock and u32 expiries, due means expired: the filed events are the indexed events past their expiration. */
  lemma DueMeansExpired(v: View, now: int, id: string)
    requires U32(now) && id in LiveEvents(v)
    requires Expiration(v.events[id]).Some? ==> U32(Expiration(v.events[id]).value)
    ensures id in DueIds(v, now) <==> IsExpired(v.events[id], now)
  {
    hide Expiration, LiveEvents;
    LiveAreStored(v);
  }

  /** Outside u32 the index misfiles: an event is listed as due while it has not expired exactly when its wrapped expiry is due. */
  lemma DueWhileUnexpired(v: View, now: int, id: string)
    requires U32(now) && id in LiveEvents(v) && Expiration(v.events[id]).Some?
    ensures id in DueIds(v, now) && !IsExpired(v.events[id], now) <==>
      Expiration(v.events[id]).value >= TWO_32 && Expiration(v.events[id]).value % TWO_32 <= now
  {
    hide Expiration;
  }

  /** And an expired event is never listed exactly when its expiration is negative and wraps past the clock. */
  lemma ExpiredButNotDue(v: View, now: int, id: string)
    requires U32(now) && id in LiveEvents(v) && Expiration(v.events[id]).Some?
    ensures IsExpired(v.events[id], now) && id !in DueIds(v, now) <==>
      Expiration(v.events[id]).value < 0 && Expiration(v.events[id]).value % TWO_32 > now
  {
    hide Expiration;
  }

  // ─── Reclaim cycles ─────────────────────────────────────────────

  /** The founder's node carrying one reclaim batch. */
  function ReclaimNode(b: Base, ids: seq<string>): Node {
    Node(Some(ExpiryDeleteOp(ids, Some(CONSENSUS_VERSION))), b.founder, false)
  }

  /** One `cleanupExpired` on the founder, and the op it appends applied. */
  ghost function ReclaimCycle(b: Base, v: View, now: int, batch: nat): View {
    var ids := ListDue(v, now, batch);
    if ids == [] then v else ApplyNode(b, v, ReclaimNode(b, ids))
  }

  ghost function ReclaimCycles(b: Base, v: View, now: int, batch: nat, n: nat): View {
    if n == 0 then v else ReclaimCycle(b, ReclaimCycles(b, v, now, batch, n - 1), now, batch)
  }

  lemma {:induction false} EvictLive(b: Base, v: View, ids: seq<string>, expiringOnly: bool)
    requires Consistent(b, v)
    ensures Consistent(b, Evict(v, ids, expiringOnly))
    ensures LiveEvents(Evict(v, ids, expiringOnly)) == Unevicted(LiveEvents(v), ids, expiringOnly)
  {
    hide Consistent, Drop, Evictable, LiveEvents, Unevicted;
    EvictConsistent(b, v, ids, expiringOnly);
    LiveAreStored(v);
    if ids == [] {
      assert Unevicted(LiveEvents(v), [], expiringOnly) == LiveEvents(v) by {
        UnevictedNone(LiveEvents(v), expiringOnly);
      }
    } else {
      var init, id := ids[..|ids| - 1], ids[|ids| - 1];
      var u := Evict(v, init, expiringOnly);
      EvictLive(b, v, init, expiringOnly);
      UnevictedSnoc(LiveEvents(v), init, id, expiringOnly);
      assert ids == init + [id];
      LiveAreStored(u);
      if id in u.events {
        DropConsistent(b, u, id);
        MinusAbsent(LiveEvents(u), id);
      }
    }
  }

  lemma MinusAbsent(m: map<string, Event>, id: string)
    ensures id !in m ==> m - {id} == m
  {
  }

  /** One cycle takes the earliest batch of due events out, and touches nothing else. */
  lemma CycleTakesBatch(b: Base, v: View, now: int, batch: nat)
    requires Consistent(b, v) && batch >= 1
    ensures
      var w, ids := ReclaimCycle(b, v, now, batch), ListDue(v, now, batch);
      var taken := set id | id in ids;
      && Consistent(b, w)
      && w.events == v.events - taken && LiveEvents(w) == LiveEvents(v) - taken
      && taken <= DueIds(v, now) && DueIds(w, now) == DueIds(v, now) - taken
      && |taken| == (if batch < |DueIds(v, now)| then batch else |DueIds(v, now)|)
  {
    hide Consistent, Evict, Expiration, DueKeys, DueIds, ListDue, LiveEvents, Unevicted, Distinct, Evictable, DueBefore;
    var ids := ListDue(v, now, batch);
    var taken := set id | id in ids;
    var w := Evict(v, ids, true);
    ListDueExact(b, v, now, batch, "");
    DistinctSize(ids);
    assert Elements(ids) == taken;
    EvictEffect(v, ids, true);
    EvictLive(b, v, ids, true);
    LiveAreStored(v);
    DueAreStored(v, now);
    DueAreLive(v, now);
    UnevictedTaken(v.events, ids, taken);
    UnevictedTaken(LiveEvents(v), ids, taken);
    DueLeft(v, w, now, taken);
    CycleIs(b, v, now, batch);
    if ids == [] {
      assert taken == {};
      assert v.events - {} == v.events && LiveEvents(v) - {} == LiveEvents(v) && DueIds(v, now) - {} == DueIds(v, now);
    }
  }

  lemma CycleIs(b: Base, v: View, now: int, batch: nat)
    ensures var ids := ListDue(v, now, batch);
      ReclaimCycle(b, v, now, batch) == if ids == [] then v else Evict(v, ids, true)
  {
    hide ListDue, Evict;
  }

  lemma DueAreLive(v: View, now: int)
    ensures DueIds(v, now) <= LiveEvents(v).Keys
  {
    hide Expiration, Live;
  }

  /** Taking listed events that all declared an expiration evicts exactly those. */
  lemma UnevictedTaken(events: map<string, Event>, ids: seq<string>, taken: set<string>)
    requires taken == set id | id in ids
    requires forall id :: id in taken && id in events ==> Expiration(events[id]).Some?
    ensures Unevicted(events, ids, true) == events - taken
  {
    hide Expiration;
  }

  /** Without some of the live events, the others are as due as before. */
  lemma DueLeft(v: View, w: View, now: int, taken: set<string>)
    requires LiveEvents(w) == LiveEvents(v) - taken
    ensures DueIds(w, now) == DueIds(v, now) - taken
  {
    hide Expiration, LiveEvents;
    LiveAreStored(v);
    LiveAreStored(w);
    forall id | id in LiveEvents(w) ensures w.events[id] == v.events[id] {
      assert LiveEvents(w)[id] == LiveEvents(v)[id];
    }
  }

  /** `Math.ceil(n / batch)` */
  function CeilDiv(n: nat, batch: nat): nat
    requires batch > 0
  {
    (n + batch - 1) / batch
  }

  /** What is left of `due` events after `n` batches. */
  function Remaining(due: nat, batch: nat, n: nat): nat {
    if n * batch < due then due - n * batch else 0
  }

  lemma RemainingStep(due: nat, batch: nat, n: nat)
    requires n > 0
    ensures var u := Remaining(due, batch, n - 1);
      Remaining(due, batch, n) == u - (if batch < u then batch else u)
    ensures Remaining(due, batch, 0) == due
  {
    assert n * batch == (n - 1) * batch + batch;
  }

  lemma MinusTwice<V>(m: map<string, V>, a: set<string>, b: set<string>)
    ensures m - a - b == m - (a + b)
  {
  }

  /** After `n` cycles the first n batches of due events are gone and everything else is as it was. */
  lemma {:induction false} CyclesTake(b: Base, v: View, now: int, batch: nat, n: nat)
    requires Consistent(b, v) && batch >= 1
    ensures
      var w := ReclaimCycles(b, v, now, batch, n);
      var due := DueIds(v, now);
      && Consistent(b, w) && DueIds(w, now) <= due
      && |DueIds(w, now)| == Remaining(|due|, batch, n)
      && w.events == v.events - (due - DueIds(w, now)) && LiveEvents(w) == LiveEvents(v) - (due - DueIds(w, now))
  {
    hide Consistent, ReclaimCycle, DueIds, ListDue, LiveEvents, Remaining;
    RemainingStep(|DueIds(v, now)|, batch, if n == 0 then 1 else n);
    var due := DueIds(v, now);
    if n == 0 {
      assert due - due == {};
      assert v.events - {} == v.events && LiveEvents(v) - {} == LiveEvents(v);
    } else {
      CyclesTake(b, v, now, batch, n - 1);
      var u := ReclaimCycles(b, v, now, batch, n - 1);
      var w := ReclaimCycle(b, u, now, batch);
      CycleTakesBatch(b, u, now, batch);
      var taken := set id | id in ListDue(u, now, batch);
      assert due - DueIds(w, now) == (due - DueIds(u, now)) + taken;
      MinusTwice(v.events, due - DueIds(u, now), taken);
      MinusTwice(LiveEvents(v), due - DueIds(u, now), taken);
    }
  }

  /**
   * Repeating list, append, apply with batches of 256 ends after ceil(n / 256) cycles: no indexed event is due
   * any more, exactly the due ones are gone, and one cycle fewer is not enough.
   */
  lemma ReclaimTerminates(b: Base, v: View, now: int)
    requires Consistent(b, v)
    ensures
      var n := CeilDiv(|DueIds(v, now)|, 256);
      var w := ReclaimCycles(b, v, now, 256, n);
      && DueIds(w, now) == {}
      && w.events == v.events - DueIds(v, now) && LiveEvents(w) == LiveEvents(v) - DueIds(v, now)
      && (n > 0 ==> DueIds(ReclaimCycles(b, v, now, 256, n - 1), now) != {})
  {
    hide Consistent, ReclaimCycles, DueIds;
    var due := DueIds(v, now);
    var n := CeilDiv(|due|, EXPIRY_DELETE_BATCH);
    CyclesTake(b, v, now, EXPIRY_DELETE_BATCH, n);
    var w := ReclaimCycles(b, v, now, EXPIRY_DELETE_BATCH, n);
    assert due - DueIds(w, now) == due;
    if n > 0 {
      CyclesTake(b, v, now, EXPIRY_DELETE_BATCH, n - 1);
    }
  }

  /** The live events past their expiration. */
  function ExpiredIds(v: View, now: int): set<string> {
    set id | id in LiveEvents(v) && IsExpired(v.events[id], now)
  }

  ghost predicate U32Expiries(v: View) {
    forall id :: id in LiveEvents(v) && Expiration(v.events[id]).Some? ==> U32(Expiration(v.events[id]).value)
  }

  lemma DueAreExpired(v: View, now: int)
    requires U32(now) && U32Expiries(v)
    ensures DueIds(v, now) == ExpiredIds(v, now)
  {
    hide Expiration, Filed, Live, IsExpired;
    forall id ensures id in DueIds(v, now) <==> id in ExpiredIds(v, now) {
      if id in LiveEvents(v) {
        DueMeansExpired(v, now, id);
      }
    }
  }

  /**
   * With u32 clock and expirations, ceil(n / 256) cycles for n expired live events, and no fewer, leave no expired
   * live event, and take away exactly the expired ones.
   */
  lemma ReclaimClearsExpired(b: Base, v: View, now: int)
    requires Consistent(b, v) && U32(now) && U32Expiries(v)
    ensures
      var n := CeilDiv(|ExpiredIds(v, now)|, 256);
      var w := ReclaimCycles(b, v, now, 256, n);
      && ExpiredIds(w, now) == {}
      && w.events == v.events - ExpiredIds(v, now) && LiveEvents(w) == LiveEvents(v) - ExpiredIds(v, now)
      && (n > 0 ==> ExpiredIds(ReclaimCycles(b, v, now, 256, n - 1), now) != {})
  {
    hide Consistent, ReclaimCycles, DueIds, ExpiredIds, LiveEvents;
    var n := CeilDiv(|ExpiredIds(v, now)|, EXPIRY_DELETE_BATCH);
    DueAreExpired(v, now);
    ReclaimTerminates(b, v, now);
    CyclesKeepU32(b, v, now, EXPIRY_DELETE_BATCH, n);
    DueAreExpired(ReclaimCycles(b, v, now, EXPIRY_DELETE_BATCH, n), now);
    if n > 0 {
      CyclesKeepU32(b, v, now, EXPIRY_DELETE_BATCH, n - 1);
      DueAreExpired(ReclaimCycles(b, v, now, EXPIRY_DELETE_BATCH, n - 1), now);
    }
  }

  lemma CyclesKeepU32(b: Base, v: View, now: int, batch: nat, n: nat)
    requires Consistent(b, v) && batch >= 1 && U32Expiries(v)
    ensures U32Expiries(ReclaimCycles(b, v, now, batch, n))
  {
    hide Consistent, ReclaimCycles, DueIds, LiveEvents, Expiration;
    var w := ReclaimCycles(b, v, now, batch, n);
    CyclesTake(b, v, now, batch, n);
    LiveAreStored(v);
    LiveAreStored(w);
  }
}
