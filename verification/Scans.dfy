/** What a series of index scans collects (src/storage/query.ts): a function of the view, and when it misses nothing. */
module Scans {
  import opened Strings
  import opened NostrEvents
  import opened Keys
  import opened Consensus
  import opened ViewInvariant
  import opened Filters
  import opened Ranking
  import opened Streams
  import opened Sets

  // ─── What a query should return ─────────────────────────────────

  /** The `ids` branch is taken only when every id is full length. */
  predicate LooksUpIds(f: Filter) {
    f.ids.Some? && f.ids.value != [] && forall i :: 0 <= i < |f.ids.value| ==> |f.ids.value[i]| == 64
  }

  /** An event a query may serve at `now`. */
  predicate Serves(f: Filter, now: int, e: Event) {
    !IsExpired(e, now) && MatchFilter(f, e)
  }

  /** The events of a map that a query may serve. */
  function Hits(events: map<string, Event>, f: Filter, now: int): map<string, Event> {
    map id | id in events && Serves(f, now, events[id]) :: events[id]
  }

  /** The ids branch reads primary storage, superseded versions included; the scans read the live events. */
  function Candidates(v: View, f: Filter): map<string, Event> {
    if LooksUpIds(f) then v.events else LiveEvents(v)
  }

  /** All candidates that match and have not expired. */
  function Matches(v: View, f: Filter, now: int): set<Event> {
    Hits(Candidates(v, f), f, now).Values
  }

  lemma MatchIs(b: Base, v: View, f: Filter, now: int, e: Event)
    requires Consistent(b, v)
    ensures e in Matches(v, f, now) <==>
      e.id in Candidates(v, f) && Candidates(v, f)[e.id] == e && Serves(f, now, e)
    ensures e in Matches(v, f, now) ==>
      e.id in v.events && v.events[e.id] == e && |e.id| == 64 && |e.pubkey| == 64
  {
    hide Serves, Live, IndexedBy, PointersResolve, IsProtected;
    var hits := Hits(Candidates(v, f), f, now);
    if e in hits.Values {
      var id :| id in hits && hits[id] == e;
      assert Storable(b, v.events[id]);
    }
    if e.id in Candidates(v, f) && Candidates(v, f)[e.id] == e && Serves(f, now, e) {
      assert e.id in hits && hits[e.id] == e;
    }
  }

  lemma MatchesDistinct(b: Base, v: View, f: Filter, now: int)
    requires Consistent(b, v)
    ensures forall x, y :: x in Matches(v, f, now) && y in Matches(v, f, now) && x.id == y.id ==> x == y
  {
    hide Consistent, Matches, Candidates, Serves;
    forall x, y | x in Matches(v, f, now) && y in Matches(v, f, now) && x.id == y.id ensures x == y {
      MatchIs(b, v, f, now, x);
      MatchIs(b, v, f, now, y);
    }
  }

  // ─── One scan ───────────────────────────────────────────────────

  /** The hits among a list of ids, each at its first place, leaving out what was seen before. */
  ghost function FirstHits(ids: seq<string>, hits: map<string, Event>, seen: set<string>): seq<Event> {
    if ids == [] then []
    else if ids[0] in seen || ids[0] !in hits then FirstHits(ids[1..], hits, seen)
    else [hits[ids[0]]] + FirstHits(ids[1..], hits, seen + {ids[0]})
  }

  lemma {:induction false} FirstHitIs(ids: seq<string>, hits: map<string, Event>, seen: set<string>, j: nat)
    requires FiledById(hits) && j < |FirstHits(ids, hits, seen)|
    ensures var e := FirstHits(ids, hits, seen)[j];
      e.id in ids && e.id !in seen && e.id in hits && hits[e.id] == e
  {
    if ids[0] in seen || ids[0] !in hits {
      FirstHitIs(ids[1..], hits, seen, j);
    } else if j > 0 {
      FirstHitIs(ids[1..], hits, seen + {ids[0]}, j - 1);
    }
  }

  lemma {:induction false} FirstHitsDistinct(ids: seq<string>, hits: map<string, Event>, seen: set<string>, i: nat, j: nat)
    requires FiledById(hits) && i < j < |FirstHits(ids, hits, seen)|
    ensures FirstHits(ids, hits, seen)[i].id != FirstHits(ids, hits, seen)[j].id
  {
    if ids[0] in seen || ids[0] !in hits {
      FirstHitsDistinct(ids[1..], hits, seen, i, j);
    } else if i > 0 {
      FirstHitsDistinct(ids[1..], hits, seen + {ids[0]}, i - 1, j - 1);
    } else {
      FirstHitIs(ids[1..], hits, seen + {ids[0]}, j - 1);
    }
  }

  /** Every listed hit was seen before or is there. */
  lemma {:induction false} FirstHitsAll(ids: seq<string>, hits: map<string, Event>, seen: set<string>, id: string)
    requires id in ids && id in hits && id !in seen
    ensures hits[id] in FirstHits(ids, hits, seen)
  {
    if ids[0] in seen || ids[0] !in hits {
      FirstHitsAll(ids[1..], hits, seen, id);
    } else if ids[0] != id {
      FirstHitsAll(ids[1..], hits, seen + {ids[0]}, id);
    }
  }

  /** Of two hits, the one that comes first is listed somewhere before any place of the other. */
  lemma {:induction false} FirstComesFirst(ids: seq<string>, hits: map<string, Event>, seen: set<string>, i: nat, j: nat, q: nat)
    returns (p: nat)
    requires FiledById(hits) && i < j < |FirstHits(ids, hits, seen)|
    requires q < |ids| && ids[q] == FirstHits(ids, hits, seen)[j].id
    ensures p < q && ids[p] == FirstHits(ids, hits, seen)[i].id
  {
    FirstHitIs(ids, hits, seen, j);
    if ids[0] in seen || ids[0] !in hits {
      p := FirstComesFirst(ids[1..], hits, seen, i, j, q - 1);
      p := p + 1;
    } else {
      FirstHitIs(ids[1..], hits, seen + {ids[0]}, j - 1);
      if i == 0 {
        p := 0;
      } else {
        p := FirstComesFirst(ids[1..], hits, seen + {ids[0]}, i - 1, j - 1, q - 1);
        p := p + 1;
      }
    }
  }

  /** The hit at a place has a position in the list before all positions of the hits behind it. */
  lemma FirstPlace(ids: seq<string>, hits: map<string, Event>, seen: set<string>, i: nat) returns (p: nat)
    requires FiledById(hits) && i < |FirstHits(ids, hits, seen)|
    ensures p < |ids| && ids[p] == FirstHits(ids, hits, seen)[i].id
    ensures forall j, q :: i < j < |FirstHits(ids, hits, seen)| && 0 <= q < |ids| && ids[q] == FirstHits(ids, hits, seen)[j].id ==>
      p < q
  {
    FirstHitIs(ids, hits, seen, i);
    var all := FirstHits(ids, hits, seen);
    p := FirstIndex(ids, all[i].id);
    forall j, q | i < j < |all| && 0 <= q < |ids| && ids[q] == all[j].id ensures p < q {
      var r := FirstComesFirst(ids, hits, seen, i, j, q);
    }
  }

  lemma {:induction false} FirstIndex(ids: seq<string>, id: string) returns (p: nat)
    requires id in ids
    ensures p < |ids| && ids[p] == id && forall q :: 0 <= q < p ==> ids[q] != id
  {
    if ids[0] == id {
      p := 0;
    } else {
      p := FirstIndex(ids[1..], id);
      p := p + 1;
    }
  }

  /** The ids a range read of an index resolves to. */
  ghost function IdsIn(index: map<string, string>, range: Range): seq<string> {
    Resolve(index, Stream(index, range), |Stream(index, range)|)
  }

  lemma IdsInAre(index: map<string, string>, range: Range, id: string)
    ensures id in IdsIn(index, range) <==> exists k :: k in index && InRange(k, range) && index[k] == id
  {
    hide InRange;
    var ks := Stream(index, range);
    if k :| k in index && InRange(k, range) && index[k] == id {
      var i :| 0 <= i < |ks| && ks[i] == k;
      assert IdsIn(index, range)[i] == id;
    }
    if id in IdsIn(index, range) {
      var i :| 0 <= i < |ks| && IdsIn(index, range)[i] == id;
      assert ks[i] in ks;
    }
  }

  /** What one scan takes of its range: the first `cap` hits not seen before. */
  ghost function Taken(index: map<string, string>, range: Range, hits: map<string, Event>, seen: set<string>, cap: nat): seq<Event> {
    Take(FirstHits(IdsIn(index, range), hits, seen), cap)
  }

  /**
   * A hit with an entry in the range was seen before or is taken, unless the whole budget went to other hits, each
   * with an entry ahead of that one.
   */
  lemma TakenUnlessSpent(index: map<string, string>, range: Range, hits: map<string, Event>, seen: set<string>, cap: nat, k: string)
    requires FiledById(hits) && k in index && InRange(k, range) && index[k] in hits && index[k] !in seen
    ensures var taken := Taken(index, range, hits, seen, cap);
      || hits[index[k]] in taken
      || (|taken| == cap && forall i :: 0 <= i < |taken| ==>
            exists k' :: k' in index && InRange(k', range) && index[k'] == taken[i].id && Less(k', k))
  {
    hide InRange, Less, FirstHits, FiledById;
    var ks, ids := Stream(index, range), IdsIn(index, range);
    var q :| 0 <= q < |ks| && ks[q] == k;
    assert ids[q] == index[k];
    var all := FirstHits(ids, hits, seen);
    FirstHitsAll(ids, hits, seen, index[k]);
    var j :| 0 <= j < |all| && all[j] == hits[index[k]];
    if j >= cap {
      IdOfHit(hits, index[k]);
      forall i | 0 <= i < cap
        ensures exists k' :: k' in index && InRange(k', range) && index[k'] == all[i].id && Less(k', k)
      {
        var p := FirstComesFirst(ids, hits, seen, i, j, q);
        assert Less(ks[p], ks[q]) && ks[p] in ks;
      }
    } else {
      assert Take(all, cap)[j] == hits[index[k]];
    }
  }

  lemma IdOfHit(hits: map<string, Event>, id: string)
    requires FiledById(hits) && id in hits
    ensures hits[id].id == id
  {
  }

  // ─── The scans of one filter ────────────────────────────────────

  /** The range scanned for a prefix of an index; the global index has none. */
  function RangeOf(s: IndexName, prefix: string, f: Filter): Range {
    if s == ByCreatedAt then TimeRangeForCreatedAt(f.since, f.until) else TimeRangeForPrefix(prefix, f.since, f.until)
  }

  /** The hits under a prefix that were not seen before, in the order of their first entries. */
  ghost function Fresh(v: View, s: IndexName, prefix: string, f: Filter, now: int, seen: set<string>): seq<Event> {
    FirstHits(IdsIn(Index(v.indexes, s), RangeOf(s, prefix, f)), Hits(v.events, f, now), seen)
  }

  /** What scanning one prefix after the other collects, each with a budget of its own. */
  ghost function Gather(v: View, s: IndexName, prefixes: seq<string>, f: Filter, now: int, limit: nat): seq<Event> {
    if prefixes == [] then []
    else
      var before := Gather(v, s, prefixes[..|prefixes| - 1], f, now, limit);
      before + Take(Fresh(v, s, prefixes[|prefixes| - 1], f, now, IdSet(before)), limit)
  }

  ghost predicate HasEntry(s: IndexName, range: Range, e: Event) {
    exists k :: k in KeysFor(s, e) && InRange(k, range)
  }

  /** The event has an entry under one of the prefixes. */
  ghost predicate Entered(s: IndexName, prefixes: seq<string>, f: Filter, e: Event) {
    exists i :: 0 <= i < |prefixes| && HasEntry(s, RangeOf(s, prefixes[i], f), e)
  }

  /** An entry in the range, ahead of which there are only entries of newer matches (and of events that do not match). */
  ghost predicate Leads(v: View, s: IndexName, range: Range, f: Filter, now: int, e: Event, k: string) {
    && k in KeysFor(s, e) && InRange(k, range)
    && forall e', k' :: e' in Matches(v, f, now) && e' != e && k' in KeysFor(s, e') && InRange(k', range) && Less(k', k) ==>
         Newer(e', e)
  }

  ghost predicate Served(v: View, s: IndexName, prefixes: seq<string>, f: Filter, now: int, e: Event) {
    exists i, k :: 0 <= i < |prefixes| && Leads(v, s, RangeOf(s, prefixes[i], f), f, now, e, k)
  }

  /** What scanning a prefix turns up: new matches with an entry there, each once. */
  ghost predicate FreshMatches(v: View, s: IndexName, prefix: string, f: Filter, now: int, seen: set<string>, es: seq<Event>) {
    && DistinctIds(es)
    && forall e :: e in es ==> e in Matches(v, f, now) && e.id !in seen && HasEntry(s, RangeOf(s, prefix, f), e)
  }

  lemma StoredHits(b: Base, v: View, f: Filter, now: int)
    requires Consistent(b, v)
    ensures FiledById(Hits(v.events, f, now))
    ensures forall id :: id in Hits(v.events, f, now) <==> id in v.events && Serves(f, now, v.events[id])
    ensures forall id :: id in Hits(v.events, f, now) ==> Hits(v.events, f, now)[id] == v.events[id]
  {
    hide Serves, IndexedBy, PointersResolve, Storable;
  }

  /** The entry of a live event, and the event of an entry. */
  lemma EntryIs(b: Base, v: View, s: IndexName, k: string)
    requires Consistent(b, v) && k in Index(v.indexes, s)
    ensures var id := Index(v.indexes, s)[k];
      id in LiveEvents(v) && id in v.events && v.events[id] == LiveEvents(v)[id] && k in KeysFor(s, v.events[id])
  {
    hide KeysFor, Index, Live, EventsSound, PointersResolve;
    LiveAreStored(v);
  }

  lemma MatchEntry(b: Base, v: View, s: IndexName, f: Filter, now: int, e: Event, k: string)
    requires Consistent(b, v) && !LooksUpIds(f) && e in Matches(v, f, now) && k in KeysFor(s, e)
    ensures k in Index(v.indexes, s) && Index(v.indexes, s)[k] == e.id
    ensures e.id in Hits(v.events, f, now) && Hits(v.events, f, now)[e.id] == e
  {
    hide KeysFor, Index, Live, EventsSound, PointersResolve, Matches, Serves, LiveEvents;
    MatchIs(b, v, f, now, e);
    StoredHits(b, v, f, now);
  }

  /** A hit that an entry leads to is a match. */
  lemma EntryMatches(b: Base, v: View, s: IndexName, f: Filter, now: int, k: string)
    requires Consistent(b, v) && !LooksUpIds(f) && k in Index(v.indexes, s)
    requires Index(v.indexes, s)[k] in Hits(v.events, f, now)
    ensures var e := v.events[Index(v.indexes, s)[k]];
      e in Matches(v, f, now) && e.id == Index(v.indexes, s)[k] && k in KeysFor(s, e)
      && Hits(v.events, f, now)[e.id] == e
  {
    hide KeysFor, Index, Live, Matches, Serves, LiveEvents, Consistent;
    StoredHits(b, v, f, now);
    EntryIs(b, v, s, k);
    StoredFiled(b, v);
    MatchIs(b, v, f, now, v.events[Index(v.indexes, s)[k]]);
  }

  lemma FreshIs(b: Base, v: View, s: IndexName, prefix: string, f: Filter, now: int, seen: set<string>)
    requires Consistent(b, v) && !LooksUpIds(f)
    ensures FreshMatches(v, s, prefix, f, now, seen, Fresh(v, s, prefix, f, now, seen))
  {
    hide Consistent, KeysFor, InRange, RangeOf, Matches, Hits, FirstHits, Index, LooksUpIds, FiledById;
    var index, range, hits := Index(v.indexes, s), RangeOf(s, prefix, f), Hits(v.events, f, now);
    var ids, es := IdsIn(index, range), Fresh(v, s, prefix, f, now, seen);
    StoredHits(b, v, f, now);
    forall e | e in es ensures e in Matches(v, f, now) && e.id !in seen && HasEntry(s, range, e) {
      var j :| 0 <= j < |es| && es[j] == e;
      FirstHitIs(ids, hits, seen, j);
      IdsInAre(index, range, e.id);
      var k :| k in index && InRange(k, range) && index[k] == e.id;
      EntryMatches(b, v, s, f, now, k);
    }
    forall i, j | 0 <= i < j < |es| ensures es[i].id != es[j].id {
      FirstHitsDistinct(ids, hits, seen, i, j);
    }
  }

  /** Everything collected is a match with an entry under one of the prefixes, and no event is collected twice. */
  lemma {:induction false} GatherSound(b: Base, v: View, s: IndexName, prefixes: seq<string>, f: Filter, now: int, limit: nat)
    requires Consistent(b, v) && !LooksUpIds(f)
    ensures var es := Gather(v, s, prefixes, f, now, limit);
      DistinctIds(es) && forall e :: e in es ==> e in Matches(v, f, now) && Entered(s, prefixes, f, e)
  {
    hide Consistent, Matches, HasEntry, Fresh, LooksUpIds, RangeOf, Entered, IdSet, Take, DistinctIds;
    if prefixes == [] {
      NoneDistinct();
    } else {
      var init, last := prefixes[..|prefixes| - 1], prefixes[|prefixes| - 1];
      var before := Gather(v, s, init, f, now, limit);
      GatherSound(b, v, s, init, f, now, limit);
      FreshIs(b, v, s, last, f, now, IdSet(before));
      var all := Fresh(v, s, last, f, now, IdSet(before));
      AppendDistinct(before, all, limit);
      forall e | e in before + Take(all, limit) ensures e in Matches(v, f, now) && Entered(s, prefixes, f, e) {
        EnteredMore(s, prefixes, f, e);
      }
    }
  }

  lemma NoneDistinct()
    ensures DistinctIds([])
  {
  }

  lemma AppendDistinct(before: seq<Event>, all: seq<Event>, limit: nat)
    requires DistinctIds(before) && DistinctIds(all) && forall e :: e in all ==> e.id !in IdSet(before)
    ensures DistinctIds(before + Take(all, limit))
    ensures forall e :: e in Take(all, limit) ==> e in all
  {
    var r := before + Take(all, limit);
    forall i, j | 0 <= i < j < |r| ensures r[i].id != r[j].id {
      if i < |before| <= j {
        assert before[i] in before && all[j - |before|] in all;
      }
    }
  }

  // ─── When nothing is missed ─────────────────────────────────────

  /** A scan covers the match an ordered entry leads to. */
  lemma ScanCovers(b: Base, v: View, s: IndexName, prefix: string, f: Filter, now: int, limit: nat,
                   before: seq<Event>, e: Event, k: string)
    requires Consistent(b, v) && !LooksUpIds(f) && e in Matches(v, f, now)
    requires forall x :: x in before ==> x in Matches(v, f, now)
    requires Leads(v, s, RangeOf(s, prefix, f), f, now, e, k)
    ensures Covered(Elements(before + Take(Fresh(v, s, prefix, f, now, IdSet(before)), limit)), e, limit)
  {
    hide Consistent, KeysFor, InRange, RangeOf, Matches, Hits, FirstHits, Index, Less, Newer, LooksUpIds, FiledById,
         IdsIn, Fresh;
    var index, range, hits := Index(v.indexes, s), RangeOf(s, prefix, f), Hits(v.events, f, now);
    var taken := Take(Fresh(v, s, prefix, f, now, IdSet(before)), limit);
    StoredHits(b, v, f, now);
    MatchEntry(b, v, s, f, now, e, k);
    if e.id in IdSet(before) {
      SeenIsCollected(b, v, f, now, before, e);
      assert e in before + taken;
    } else {
      FreshTaken(v, s, prefix, f, now, IdSet(before), limit);
      TakenUnlessSpent(index, range, hits, IdSet(before), limit, k);
      if e in taken {
        assert e in before + taken;
      } else {
        FreshIs(b, v, s, prefix, f, now, IdSet(before));
        TakenDistinct(Fresh(v, s, prefix, f, now, IdSet(before)), limit);
        forall i | 0 <= i < |taken| ensures Newer(taken[i], e) {
          var k' :| k' in index && InRange(k', range) && index[k'] == taken[i].id && Less(k', k);
          TakenEntry(b, v, s, prefix, f, now, IdSet(before), limit, i, k');
          assert taken[i] in taken;
        }
        AllNewer(before, taken, e);
      }
    }
  }

  lemma FreshTaken(v: View, s: IndexName, prefix: string, f: Filter, now: int, seen: set<string>, limit: nat)
    ensures Take(Fresh(v, s, prefix, f, now, seen), limit) ==
            Taken(Index(v.indexes, s), RangeOf(s, prefix, f), Hits(v.events, f, now), seen, limit)
  {
    hide Take, FirstHits, Index, RangeOf, Hits, IdsIn;
  }

  lemma TakenDistinct(es: seq<Event>, limit: nat)
    requires DistinctIds(es)
    ensures DistinctIds(Take(es, limit)) && forall e :: e in Take(es, limit) ==> e in es
  {
  }

  /** The entry of a taken match is one of its own. */
  lemma TakenEntry(b: Base, v: View, s: IndexName, prefix: string, f: Filter, now: int, seen: set<string>, limit: nat, i: nat, k: string)
    requires Consistent(b, v) && !LooksUpIds(f)
    requires i < |Take(Fresh(v, s, prefix, f, now, seen), limit)| && k in Index(v.indexes, s)
    requires Index(v.indexes, s)[k] == Take(Fresh(v, s, prefix, f, now, seen), limit)[i].id
    ensures var e := Take(Fresh(v, s, prefix, f, now, seen), limit)[i]; e in Matches(v, f, now) && k in KeysFor(s, e)
  {
    hide Consistent, KeysFor, Matches, Hits, FirstHits, Index, Fresh, RangeOf, LooksUpIds, HasEntry, FiledById;
    FreshIs(b, v, s, prefix, f, now, seen);
    var e := Take(Fresh(v, s, prefix, f, now, seen), limit)[i];
    assert e in Fresh(v, s, prefix, f, now, seen);
    EntryIs(b, v, s, k);
    MatchIs(b, v, f, now, e);
  }

  lemma SeenIsCollected(b: Base, v: View, f: Filter, now: int, before: seq<Event>, e: Event)
    requires Consistent(b, v) && e in Matches(v, f, now) && e.id in IdSet(before)
    requires forall x :: x in before ==> x in Matches(v, f, now)
    ensures e in before
  {
    hide Consistent, Matches, Candidates;
    var x :| x in before && x.id == e.id;
    MatchIs(b, v, f, now, x);
    MatchIs(b, v, f, now, e);
  }

  lemma AllNewer(before: seq<Event>, added: seq<Event>, e: Event)
    requires forall j :: 0 <= j < |added| ==> Newer(added[j], e)
    requires DistinctIds(added)
    ensures |NewerThan(Elements(before + added), e)| >= |added|
  {
    hide Newer;
    assert Distinct(added);
    DistinctSize(added);
    SmallerSubset(Elements(added), NewerThan(Elements(before + added), e));
  }

  lemma GatherSnoc(v: View, s: IndexName, prefixes: seq<string>, f: Filter, now: int, limit: nat)
    requires prefixes != []
    ensures var before := Gather(v, s, prefixes[..|prefixes| - 1], f, now, limit);
      Gather(v, s, prefixes, f, now, limit) ==
      before + Take(Fresh(v, s, prefixes[|prefixes| - 1], f, now, IdSet(before)), limit)
  {
    hide Fresh, IdSet, Take;
  }

  lemma ServedLast(v: View, s: IndexName, prefixes: seq<string>, f: Filter, now: int, e: Event) returns (k: string)
    requires prefixes != [] && Served(v, s, prefixes, f, now, e)
    ensures Served(v, s, prefixes[..|prefixes| - 1], f, now, e) ||
      Leads(v, s, RangeOf(s, prefixes[|prefixes| - 1], f), f, now, e, k)
  {
    hide Leads, RangeOf;
    var i, k' :| 0 <= i < |prefixes| && Leads(v, s, RangeOf(s, prefixes[i], f), f, now, e, k');
    k := k';
    assert i < |prefixes| - 1 ==> prefixes[..|prefixes| - 1][i] == prefixes[i];
  }

  lemma EnteredLast(s: IndexName, prefixes: seq<string>, f: Filter, e: Event)
    requires prefixes != [] && Entered(s, prefixes, f, e)
    ensures Entered(s, prefixes[..|prefixes| - 1], f, e) || HasEntry(s, RangeOf(s, prefixes[|prefixes| - 1], f), e)
  {
    hide HasEntry, RangeOf;
    var i :| 0 <= i < |prefixes| && HasEntry(s, RangeOf(s, prefixes[i], f), e);
    assert i < |prefixes| - 1 ==> prefixes[..|prefixes| - 1][i] == prefixes[i];
  }

  lemma EnteredMore(s: IndexName, prefixes: seq<string>, f: Filter, e: Event)
    requires prefixes != []
    requires Entered(s, prefixes[..|prefixes| - 1], f, e) || HasEntry(s, RangeOf(s, prefixes[|prefixes| - 1], f), e)
    ensures Entered(s, prefixes, f, e)
  {
    hide HasEntry, RangeOf;
    var init := prefixes[..|prefixes| - 1];
    if i :| 0 <= i < |init| && HasEntry(s, RangeOf(s, init[i], f), e) {
      assert prefixes[i] == init[i];
    }
  }

  /** A match served by some prefix is collected, or `limit` newer ones are. */
  lemma {:induction false} GatherCovers(b: Base, v: View, s: IndexName, prefixes: seq<string>, f: Filter, now: int,
                                        limit: nat, e: Event)
    requires Consistent(b, v) && !LooksUpIds(f)
    ensures e in Matches(v, f, now) && Served(v, s, prefixes, f, now, e) ==>
      Covered(Elements(Gather(v, s, prefixes, f, now, limit)), e, limit)
  {
    hide Consistent, Matches, Leads, Fresh, LooksUpIds, Covered, Entered, Take, RangeOf, Gather, IdSet, Elements,
         DistinctIds;
    hide Served;
    ServedByOne(v, s, prefixes, f, now, e);
    if e in Matches(v, f, now) && Served(v, s, prefixes, f, now, e) {
      var init, last := prefixes[..|prefixes| - 1], prefixes[|prefixes| - 1];
      var before := Gather(v, s, init, f, now, limit);
      GatherSnoc(v, s, prefixes, f, now, limit);
      var k := ServedLast(v, s, prefixes, f, now, e);
      if Served(v, s, init, f, now, e) {
        GatherCovers(b, v, s, init, f, now, limit, e);
        ElementsAppend(before, Take(Fresh(v, s, last, f, now, IdSet(before)), limit));
        CoveredGrows(Elements(before), Elements(Gather(v, s, prefixes, f, now, limit)), e, limit);
      } else {
        GatherSound(b, v, s, init, f, now, limit);
        ScanCovers(b, v, s, last, f, now, limit, before, e, k);
      }
    }
  }

  lemma ServedByOne(v: View, s: IndexName, prefixes: seq<string>, f: Filter, now: int, e: Event)
    ensures Served(v, s, prefixes, f, now, e) ==> prefixes != []
  {
    hide Leads, RangeOf;
  }

  lemma ElementsAppend(a: seq<Event>, b: seq<Event>)
    ensures Elements(a) <= Elements(a + b)
  {
  }

  /** As long as there are no more matches than the limit, order does not matter: having an entry is enough. */
  lemma {:induction false} GatherFinds(b: Base, v: View, s: IndexName, prefixes: seq<string>, f: Filter, now: int,
                                       limit: nat, e: Event)
    requires Consistent(b, v) && !LooksUpIds(f) && |Matches(v, f, now)| <= limit
    ensures e in Matches(v, f, now) && Entered(s, prefixes, f, e) ==> e in Gather(v, s, prefixes, f, now, limit)
  {
    hide Consistent, Matches, HasEntry, Fresh, LooksUpIds, RangeOf, Gather, IdSet, Take, DistinctIds, Entered;
    EnteredByOne(s, prefixes, f, e);
    if e in Matches(v, f, now) && Entered(s, prefixes, f, e) {
      var init, last := prefixes[..|prefixes| - 1], prefixes[|prefixes| - 1];
      var before := Gather(v, s, init, f, now, limit);
      GatherSnoc(v, s, prefixes, f, now, limit);
      EnteredLast(s, prefixes, f, e);
      if Entered(s, init, f, e) {
        GatherFinds(b, v, s, init, f, now, limit, e);
      } else if e.id in IdSet(before) {
        GatherSound(b, v, s, init, f, now, limit);
        SeenIsCollected(b, v, f, now, before, e);
      } else {
        ScanFinds(b, v, s, last, f, now, IdSet(before), limit, e);
      }
    }
  }

  lemma EnteredByOne(s: IndexName, prefixes: seq<string>, f: Filter, e: Event)
    ensures Entered(s, prefixes, f, e) ==> prefixes != []
  {
    hide HasEntry, RangeOf;
  }

  lemma ScanFinds(b: Base, v: View, s: IndexName, prefix: string, f: Filter, now: int, seen: set<string>, limit: nat, e: Event)
    requires Consistent(b, v) && !LooksUpIds(f) && e in Matches(v, f, now) && e.id !in seen
    requires HasEntry(s, RangeOf(s, prefix, f), e) && |Matches(v, f, now)| <= limit
    ensures e in Take(Fresh(v, s, prefix, f, now, seen), limit)
  {
    hide Consistent, Matches, Fresh, LooksUpIds, KeysFor, InRange, RangeOf;
    FreshHas(b, v, s, prefix, f, now, seen, e);
    FreshIs(b, v, s, prefix, f, now, seen);
    var all := Fresh(v, s, prefix, f, now, seen);
    if |all| > limit {
      TooMany(all, Matches(v, f, now), limit);
    }
  }

  lemma TooMany(all: seq<Event>, matches: set<Event>, limit: nat)
    requires DistinctIds(all) && (forall e :: e in all ==> e in matches) && |matches| <= limit
    ensures |all| <= limit
  {
    assert Distinct(all);
    DistinctSize(all);
    SmallerSubset(Elements(all), matches);
  }

  /** Whatever the limit, a match with an entry is among the hits of its range. */
  lemma FreshHas(b: Base, v: View, s: IndexName, prefix: string, f: Filter, now: int, seen: set<string>, e: Event)
    requires Consistent(b, v) && !LooksUpIds(f) && e in Matches(v, f, now) && e.id !in seen
    requires HasEntry(s, RangeOf(s, prefix, f), e)
    ensures e in Fresh(v, s, prefix, f, now, seen)
  {
    hide Consistent, Matches, LooksUpIds, KeysFor, InRange, RangeOf, Hits, FirstHits, Index;
    var index, range := Index(v.indexes, s), RangeOf(s, prefix, f);
    var k :| k in KeysFor(s, e) && InRange(k, range);
    MatchEntry(b, v, s, f, now, e, k);
    IdsInAre(index, range, e.id);
    FirstHitsAll(IdsIn(index, range), Hits(v.events, f, now), seen, e.id);
  }

  // ─── Exactly what is collected ──────────────────────────────────

  /** One event has an entry in the range ahead of all entries of the other. */
  ghost predicate Precedes(s: IndexName, range: Range, x: Event, y: Event) {
    exists k :: k in KeysFor(s, x) && InRange(k, range) && AheadOfAll(s, range, k, y)
  }

  ghost predicate AheadOfAll(s: IndexName, range: Range, k: string, y: Event) {
    forall k' :: k' in KeysFor(s, y) && InRange(k', range) ==> Less(k, k')
  }

  lemma PrecedesAsymmetric(s: IndexName, range: Range, x: Event, y: Event)
    requires Precedes(s, range, x, y)
    ensures !Precedes(s, range, y, x)
  {
    hide KeysFor, InRange, Less;
    var k :| k in KeysFor(s, x) && InRange(k, range) && AheadOfAll(s, range, k, y);
    if k' :| k' in KeysFor(s, y) && InRange(k', range) && AheadOfAll(s, range, k', x) {
      LessAsymmetric(k, k');
    }
  }

  /** The matches ahead of an event in the range of a prefix. */
  ghost function Ahead(v: View, s: IndexName, prefix: string, f: Filter, now: int, e: Event): set<Event> {
    set x | x in Matches(v, f, now) && Precedes(s, RangeOf(s, prefix, f), x, e)
  }

  /**
   * The matches near enough for a limit, prefix by prefix: those near before, and those with an entry under the prefix
   * that have fewer than `limit` of the others ahead of them there.
   */
  ghost function NearSet(v: View, s: IndexName, prefixes: seq<string>, f: Filter, now: int, limit: nat): set<Event> {
    if prefixes == [] then {}
    else
      var before := NearSet(v, s, prefixes[..|prefixes| - 1], f, now, limit);
      before + set e | e in Matches(v, f, now) && NearUnder(v, s, prefixes[|prefixes| - 1], f, now, limit, e, before)
  }

  ghost predicate NearUnder(v: View, s: IndexName, prefix: string, f: Filter, now: int, limit: nat, e: Event, gone: set<Event>) {
    HasEntry(s, RangeOf(s, prefix, f), e) && |Ahead(v, s, prefix, f, now, e) - gone| < limit
  }

  /** Of the fresh hits of a scan, an earlier one precedes a later one. */
  lemma FreshPrecedes(b: Base, v: View, s: IndexName, prefix: string, f: Filter, now: int, seen: set<string>, i: nat, j: nat)
    requires Consistent(b, v) && !LooksUpIds(f) && i < j < |Fresh(v, s, prefix, f, now, seen)|
    ensures var es := Fresh(v, s, prefix, f, now, seen); Precedes(s, RangeOf(s, prefix, f), es[i], es[j])
  {
    hide Consistent, Matches, LooksUpIds, KeysFor, InRange, Less, RangeOf, Hits, FirstHits, Index, FiledById,
         HasEntry, IdsIn;
    var es := Fresh(v, s, prefix, f, now, seen);
    var index, range, hits := Index(v.indexes, s), RangeOf(s, prefix, f), Hits(v.events, f, now);
    StoredHits(b, v, f, now);
    FreshIs(b, v, s, prefix, f, now, seen);
    assert es[i] in es && es[j] in es;
    var ks, ids := Stream(index, range), IdsIn(index, range);
    IdsInStream(index, range);
    var p := FirstPlace(ids, hits, seen, i);
    var k := ks[p];
    assert k in ks;
    EntryIs(b, v, s, k);
    MatchIs(b, v, f, now, es[i]);
    forall k' | k' in KeysFor(s, es[j]) && InRange(k', range) ensures Less(k, k') {
      MatchEntry(b, v, s, f, now, es[j], k');
      var q :| 0 <= q < |ks| && ks[q] == k';
      assert ids[q] == es[j].id;
    }
    assert AheadOfAll(s, range, k, es[j]);
  }

  lemma IdsInStream(index: map<string, string>, range: Range)
    ensures var ks, ids := Stream(index, range), IdsIn(index, range);
      |ids| == |ks| && forall i :: 0 <= i < |ks| ==> ks[i] in index && InRange(ks[i], range) && ids[i] == index[ks[i]]
  {
    hide InRange, Ascending;
    var ks := Stream(index, range);
    assert forall i :: 0 <= i < |ks| ==> ks[i] in ks;
  }

  /** A match's place among the fresh hits of a scan is the number of unseen matches ahead of it. */
  lemma FreshPlace(b: Base, v: View, s: IndexName, prefix: string, f: Filter, now: int, before: seq<Event>, j: nat)
    requires Consistent(b, v) && !LooksUpIds(f) && (forall x :: x in before ==> x in Matches(v, f, now))
    requires j < |Fresh(v, s, prefix, f, now, IdSet(before))|
    ensures var e := Fresh(v, s, prefix, f, now, IdSet(before))[j];
      j == |Ahead(v, s, prefix, f, now, e) - Elements(before)|
  {
    hide Consistent, Matches, LooksUpIds, Fresh, RangeOf, Precedes, HasEntry, IdSet, DistinctIds;
    var es := Fresh(v, s, prefix, f, now, IdSet(before));
    var e, range := es[j], RangeOf(s, prefix, f);
    FreshIs(b, v, s, prefix, f, now, IdSet(before));
    forall x ensures x in Elements(es[..j]) <==> x in Ahead(v, s, prefix, f, now, e) - Elements(before) {
      if x in Elements(es[..j]) {
        var i :| 0 <= i < j && es[i] == x;
        assert x in es;
        FreshPrecedes(b, v, s, prefix, f, now, IdSet(before), i, j);
        UnseenIsNew(before, x);
      }
      if x in Ahead(v, s, prefix, f, now, e) && x !in before {
        AheadHasEntry(s, range, x, e);
        if x.id in IdSet(before) {
          SeenIsCollected(b, v, f, now, before, x);
        }
        FreshHas(b, v, s, prefix, f, now, IdSet(before), x);
        var i :| 0 <= i < |es| && es[i] == x;
        PrecedesAsymmetric(s, range, x, e);
        if i > j {
          FreshPrecedes(b, v, s, prefix, f, now, IdSet(before), j, i);
        }
        assert i < j ==> es[..j][i] == x;
      }
    }
    assert Elements(es[..j]) == Ahead(v, s, prefix, f, now, e) - Elements(before);
    PrefixSize(es, j);
  }

  lemma UnseenIsNew(before: seq<Event>, x: Event)
    requires x.id !in IdSet(before)
    ensures x !in before
  {
  }

  lemma AheadHasEntry(s: IndexName, range: Range, x: Event, e: Event)
    requires Precedes(s, range, x, e)
    ensures HasEntry(s, range, x)
  {
    hide KeysFor, InRange, AheadOfAll;
  }

  lemma PrefixSize(es: seq<Event>, j: nat)
    requires DistinctIds(es) && j <= |es|
    ensures |Elements(es[..j])| == j
  {
    assert Distinct(es[..j]);
    DistinctSize(es[..j]);
  }

  /** One more scan collects exactly the unseen matches that are near under its prefix. */
  lemma ScanTakesNear(b: Base, v: View, s: IndexName, prefix: string, f: Filter, now: int, limit: nat, before: seq<Event>, e: Event)
    requires Consistent(b, v) && !LooksUpIds(f) && (forall x :: x in before ==> x in Matches(v, f, now)) && e !in before
    ensures e in Take(Fresh(v, s, prefix, f, now, IdSet(before)), limit) <==>
      e in Matches(v, f, now) && NearUnder(v, s, prefix, f, now, limit, e, Elements(before))
  {
    hide Consistent, Matches, LooksUpIds, Fresh, RangeOf, HasEntry, IdSet, DistinctIds, Ahead;
    var es := Fresh(v, s, prefix, f, now, IdSet(before));
    FreshIs(b, v, s, prefix, f, now, IdSet(before));
    if e in Matches(v, f, now) && HasEntry(s, RangeOf(s, prefix, f), e) {
      if e.id in IdSet(before) {
        SeenIsCollected(b, v, f, now, before, e);
      }
      FreshHas(b, v, s, prefix, f, now, IdSet(before), e);
      var j :| 0 <= j < |es| && es[j] == e;
      FreshPlace(b, v, s, prefix, f, now, before, j);
      InTake(es, j, limit);
    }
    TakeIn(es, limit, e);
  }

  lemma TakeIn(es: seq<Event>, limit: nat, e: Event)
    ensures e in Take(es, limit) ==> e in es
  {
  }

  lemma InTake(es: seq<Event>, j: nat, limit: nat)
    requires DistinctIds(es) && j < |es|
    ensures es[j] in Take(es, limit) <==> j < limit
  {
    if j < limit {
      assert Take(es, limit)[j] == es[j];
    }
  }

  /** What the scans collect is exactly the matches that are near. */
  lemma {:induction false} GatherIsNear(b: Base, v: View, s: IndexName, prefixes: seq<string>, f: Filter, now: int, limit: nat)
    requires Consistent(b, v) && !LooksUpIds(f)
    ensures Elements(Gather(v, s, prefixes, f, now, limit)) == NearSet(v, s, prefixes, f, now, limit)
  {
    hide Consistent, Matches, LooksUpIds, Fresh, IdSet, Take, NearUnder, Entered, DistinctIds, Gather;
    if prefixes == [] {
      GatherNothing(v, s, f, now, limit);
    } else {
      var init, last := prefixes[..|prefixes| - 1], prefixes[|prefixes| - 1];
      var before := Gather(v, s, init, f, now, limit);
      GatherIsNear(b, v, s, init, f, now, limit);
      GatherSound(b, v, s, init, f, now, limit);
      GatherSnoc(v, s, prefixes, f, now, limit);
      forall e | e !in before
        ensures e in Take(Fresh(v, s, last, f, now, IdSet(before)), limit) <==>
          e in Matches(v, f, now) && NearUnder(v, s, last, f, now, limit, e, Elements(before))
      {
        ScanTakesNear(b, v, s, last, f, now, limit, before, e);
      }
      assert Elements(before + Take(Fresh(v, s, last, f, now, IdSet(before)), limit)) == NearSet(v, s, prefixes, f, now, limit);
    }
  }

  lemma GatherNothing(v: View, s: IndexName, f: Filter, now: int, limit: nat)
    ensures Gather(v, s, [], f, now, limit) == []
  {
  }
}
