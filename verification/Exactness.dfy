/** Exactly when a query's answer is the newest `limit` of all its matches, and queries for which it is not. */
module Exactness {
  import opened Strings
  import opened NostrEvents
  import opened Keys
  import opened Consensus
  import opened ViewInvariant
  import opened Effects
  import opened Filters
  import opened Ranking
  import opened Scans
  import opened Planner
  import opened Sets

  /** Whatever the limit, the query answers with the newest of all its matches. */
  ghost predicate Exact(v: View, f: Filter, now: int) {
    forall limit: nat :: Answer(v, f, now, limit) == Top(Matches(v, f, now), limit)
  }

  // ─── Any filter, few matches ────────────────────────────────────

  /** Up to the limit order does not matter: all matches are found exactly when each has an entry that is scanned. */
  lemma WithinLimitExactIff(b: Base, v: View, f: Filter, now: int, limit: nat)
    requires Consistent(b, v) && !LooksUpIds(f) && |Matches(v, f, now)| <= limit
    ensures Top(Matches(v, f, now), limit) == Matches(v, f, now)
    ensures Answer(v, f, now, limit) == Matches(v, f, now) <==>
      forall e :: e in Matches(v, f, now) ==> Entered(IndexFor(f), PrefixesFor(f), f, e)
  {
    hide Consistent, Matches, Gather, LooksUpIds, IndexFor, PrefixesFor, Entered, Top;
    TopOfFew(Matches(v, f, now), limit);
    CollectedSound(b, v, f, now, limit);
    GatherSound(b, v, IndexFor(f), PrefixesFor(f), f, now, limit);
    var collected := Elements(Collected(v, f, now, limit));
    SmallerSubset(collected, Matches(v, f, now));
    TopOfFew(collected, limit);
    if forall e :: e in Matches(v, f, now) ==> Entered(IndexFor(f), PrefixesFor(f), f, e) {
      forall e | e in Matches(v, f, now) ensures e in collected {
        GatherFinds(b, v, IndexFor(f), PrefixesFor(f), f, now, limit, e);
      }
      assert collected == Matches(v, f, now);
    }
  }

  // ─── Any filter, any limit ──────────────────────────────────────

  /**
   * Exactly when a query answers right, for any filter and limit: each of the newest `limit` matches is near, which
   * counts the matches whose entries are ahead of its own, prefix by prefix.
   */
  lemma AnswerExactIff(b: Base, v: View, f: Filter, now: int, limit: nat)
    requires Consistent(b, v) && !LooksUpIds(f)
    ensures Answer(v, f, now, limit) == Top(Matches(v, f, now), limit) <==>
      Top(Matches(v, f, now), limit) <= NearSet(v, IndexFor(f), PrefixesFor(f), f, now, limit)
  {
    hide Consistent, Matches, Gather, LooksUpIds, IndexFor, PrefixesFor, Top, NearSet;
    CollectedSound(b, v, f, now, limit);
    GatherIsNear(b, v, IndexFor(f), PrefixesFor(f), f, now, limit);
    var all, collected := Matches(v, f, now), Elements(Collected(v, f, now, limit));
    TopWithin(collected, limit);
    if Top(all, limit) <= collected {
      MatchesDistinct(b, v, f, now);
      SandwichTop(all, collected, limit);
    }
  }

  lemma TopWithin(events: set<Event>, limit: nat)
    ensures Top(events, limit) <= events
  {
  }

  /** No match has an entry under two of the prefixes. */
  ghost predicate Separate(v: View, s: IndexName, prefixes: seq<string>, f: Filter, now: int) {
    forall e, i, j :: e in Matches(v, f, now) && 0 <= i < j < |prefixes| ==>
      !(HasEntry(s, RangeOf(s, prefixes[i], f), e) && HasEntry(s, RangeOf(s, prefixes[j], f), e))
  }

  /** Under a prefix the event has an entry, with fewer than `limit` matches ahead of it. */
  ghost predicate PlacedWithin(v: View, s: IndexName, prefix: string, f: Filter, now: int, limit: nat, e: Event) {
    HasEntry(s, RangeOf(s, prefix, f), e) && |Ahead(v, s, prefix, f, now, e)| < limit
  }

  lemma {:induction false} NearEntered(v: View, s: IndexName, prefixes: seq<string>, f: Filter, now: int, limit: nat, e: Event)
    requires e in NearSet(v, s, prefixes, f, now, limit)
    ensures e in Matches(v, f, now) && Entered(s, prefixes, f, e)
  {
    hide Matches, HasEntry, RangeOf, Ahead, Entered;
    var init := prefixes[..|prefixes| - 1];
    if e in NearSet(v, s, init, f, now, limit) {
      NearEntered(v, s, init, f, now, limit, e);
    }
    EnteredMore(s, prefixes, f, e);
  }

  /** When the prefixes are separate, the places under each count by themselves. */
  lemma {:induction false} SeparateNear(v: View, s: IndexName, prefixes: seq<string>, f: Filter, now: int, limit: nat, e: Event)
    requires Separate(v, s, prefixes, f, now) && e in Matches(v, f, now)
    ensures e in NearSet(v, s, prefixes, f, now, limit) <==>
      exists i :: 0 <= i < |prefixes| && PlacedWithin(v, s, prefixes[i], f, now, limit, e)
  {
    hide Matches, RangeOf, Ahead, PlacedWithin, Separate, NearSet;
    if prefixes == [] {
      NearNone(v, s, f, now, limit);
    } else {
      var init, last := prefixes[..|prefixes| - 1], prefixes[|prefixes| - 1];
      SeparateLess(v, s, prefixes, f, now);
      SeparateNear(v, s, init, f, now, limit, e);
      NearSnoc(v, s, prefixes, f, now, limit, e);
      LastByItself(v, s, prefixes, f, now, limit, e);
      assert forall i :: 0 <= i < |init| ==> init[i] == prefixes[i];
      assert prefixes[|prefixes| - 1] == last;
    }
  }

  lemma NearNone(v: View, s: IndexName, f: Filter, now: int, limit: nat)
    ensures NearSet(v, s, [], f, now, limit) == {}
  {
  }

  lemma NearSnoc(v: View, s: IndexName, prefixes: seq<string>, f: Filter, now: int, limit: nat, e: Event)
    requires prefixes != [] && e in Matches(v, f, now)
    ensures var before := NearSet(v, s, prefixes[..|prefixes| - 1], f, now, limit);
      e in NearSet(v, s, prefixes, f, now, limit) <==>
      e in before || NearUnder(v, s, prefixes[|prefixes| - 1], f, now, limit, e, before)
  {
    hide Matches, NearUnder;
  }

  lemma SeparateLess(v: View, s: IndexName, prefixes: seq<string>, f: Filter, now: int)
    requires prefixes != [] && Separate(v, s, prefixes, f, now)
    ensures Separate(v, s, prefixes[..|prefixes| - 1], f, now)
  {
    hide Matches, HasEntry, RangeOf;
    var init := prefixes[..|prefixes| - 1];
    assert forall i :: 0 <= i < |init| ==> init[i] == prefixes[i];
  }

  /** None of the matches ahead under the last prefix was near before. */
  lemma LastByItself(v: View, s: IndexName, prefixes: seq<string>, f: Filter, now: int, limit: nat, e: Event)
    requires prefixes != [] && Separate(v, s, prefixes, f, now)
    ensures var before, last := NearSet(v, s, prefixes[..|prefixes| - 1], f, now, limit), prefixes[|prefixes| - 1];
      PlacedWithin(v, s, last, f, now, limit, e) <==> NearUnder(v, s, last, f, now, limit, e, before)
  {
    hide Matches, HasEntry, RangeOf, Ahead, PlacedWithin, NearUnder, Separate, NearSet;
    var before, last := NearSet(v, s, prefixes[..|prefixes| - 1], f, now, limit), prefixes[|prefixes| - 1];
    forall x | x in Ahead(v, s, last, f, now, e) ensures x !in before {
      AheadIs(v, s, last, f, now, e, x);
      if x in before {
        NearElsewhere(v, s, prefixes, f, now, limit, x);
      }
    }
    assert Ahead(v, s, last, f, now, e) - before == Ahead(v, s, last, f, now, e);
    PlacedIs(v, s, last, f, now, limit, e, before);
  }

  lemma NearElsewhere(v: View, s: IndexName, prefixes: seq<string>, f: Filter, now: int, limit: nat, x: Event)
    requires Separate(v, s, prefixes, f, now) && prefixes != []
    requires x in NearSet(v, s, prefixes[..|prefixes| - 1], f, now, limit)
    ensures !HasEntry(s, RangeOf(s, prefixes[|prefixes| - 1], f), x)
  {
    hide Matches, HasEntry, RangeOf, NearSet;
    var init := prefixes[..|prefixes| - 1];
    NearEntered(v, s, init, f, now, limit, x);
    var i :| 0 <= i < |init| && HasEntry(s, RangeOf(s, init[i], f), x);
    assert HasEntry(s, RangeOf(s, prefixes[i], f), x);
  }

  lemma AheadIs(v: View, s: IndexName, prefix: string, f: Filter, now: int, e: Event, x: Event)
    requires x in Ahead(v, s, prefix, f, now, e)
    ensures x in Matches(v, f, now) && HasEntry(s, RangeOf(s, prefix, f), x)
  {
    hide Matches, RangeOf, Precedes, HasEntry;
    AheadHasEntry(s, RangeOf(s, prefix, f), x, e);
  }

  lemma PlacedIs(v: View, s: IndexName, prefix: string, f: Filter, now: int, limit: nat, e: Event, before: set<Event>)
    requires Ahead(v, s, prefix, f, now, e) - before == Ahead(v, s, prefix, f, now, e)
    ensures PlacedWithin(v, s, prefix, f, now, limit, e) <==> NearUnder(v, s, prefix, f, now, limit, e, before)
  {
    hide Ahead, HasEntry, RangeOf;
  }

  /** Under some prefix the event has no more matches ahead of it than there are newer ones. */
  ghost predicate InPlace(v: View, s: IndexName, prefixes: seq<string>, f: Filter, now: int, e: Event) {
    exists i :: 0 <= i < |prefixes| && PlacedWithin(v, s, prefixes[i], f, now, |NewerThan(Matches(v, f, now), e)| + 1, e)
  }

  /**
   * With separate prefixes a query is exact for every limit exactly when no match has more matches ahead of it under
   * its prefix than there are newer matches in all.
   */
  lemma SeparateExactIff(b: Base, v: View, f: Filter, now: int)
    requires Consistent(b, v) && !LooksUpIds(f) && Separate(v, IndexFor(f), PrefixesFor(f), f, now)
    ensures Exact(v, f, now) <==>
      forall e :: e in Matches(v, f, now) ==> InPlace(v, IndexFor(f), PrefixesFor(f), f, now, e)
  {
    hide Consistent, Matches, LooksUpIds, IndexFor, PrefixesFor, Answer, PlacedWithin, NearSet, Separate, NewerThan;
    var s, prefixes, all := IndexFor(f), PrefixesFor(f), Matches(v, f, now);
    forall limit: nat
      ensures Answer(v, f, now, limit) == Top(all, limit) <==> Top(all, limit) <= NearSet(v, s, prefixes, f, now, limit)
    {
      AnswerExactIff(b, v, f, now, limit);
    }
    if Exact(v, f, now) {
      forall e | e in all ensures InPlace(v, s, prefixes, f, now, e) {
        var limit := |NewerThan(all, e)| + 1;
        assert Answer(v, f, now, limit) == Top(all, limit) && e in Top(all, limit);
        SeparateNear(v, s, prefixes, f, now, limit, e);
      }
    }
    if forall e :: e in all ==> InPlace(v, s, prefixes, f, now, e) {
      forall limit: nat ensures Answer(v, f, now, limit) == Top(all, limit) {
        forall e | e in Top(all, limit) ensures e in NearSet(v, s, prefixes, f, now, limit) {
          SeparateNear(v, s, prefixes, f, now, limit, e);
          var i :| 0 <= i < |prefixes| && PlacedWithin(v, s, prefixes[i], f, now, |NewerThan(all, e)| + 1, e);
          PlacedMore(v, s, prefixes[i], f, now, |NewerThan(all, e)| + 1, limit, e);
        }
      }
    }
  }

  lemma PlacedMore(v: View, s: IndexName, prefix: string, f: Filter, now: int, m: nat, n: nat, e: Event)
    requires PlacedWithin(v, s, prefix, f, now, m, e) && m <= n
    ensures PlacedWithin(v, s, prefix, f, now, n, e)
  {
    hide HasEntry, Ahead, RangeOf;
  }

  // ─── One scan ───────────────────────────────────────────────────

  /** The hits of a filter that scans a single range, in the order of their first entries. */
  ghost function InEntryOrder(v: View, f: Filter, now: int): seq<Event>
    requires |PrefixesFor(f)| == 1
  {
    Fresh(v, IndexFor(f), PrefixesFor(f)[0], f, now, {})
  }

  lemma SingleAnswer(b: Base, v: View, f: Filter, now: int, limit: nat)
    requires Consistent(b, v) && !LooksUpIds(f) && |PrefixesFor(f)| == 1
    ensures Answer(v, f, now, limit) == Elements(Take(InEntryOrder(v, f, now), limit))
  {
    hide Consistent, Matches, Fresh, LooksUpIds, IndexFor, PrefixesFor, Top;
    var prefixes, s := PrefixesFor(f), IndexFor(f);
    assert prefixes[..0] == [] && IdSet([]) == {};
    GatherNothing(v, s, f, now, limit);
    assert prefixes[..|prefixes| - 1] == prefixes[..0];
    var taken := Take(InEntryOrder(v, f, now), limit);
    assert [] + taken == taken;
    assert Collected(v, f, now, limit) == taken;
    CollectedSound(b, v, f, now, limit);
    assert Distinct(taken);
    DistinctSize(taken);
    TopOfFew(Elements(taken), limit);
  }

  /** In terms of that list: all matches are in it, newest first. */
  lemma SingleScanList(b: Base, v: View, f: Filter, now: int)
    requires Consistent(b, v) && !LooksUpIds(f) && |PrefixesFor(f)| == 1
    ensures Exact(v, f, now) <==>
      Elements(InEntryOrder(v, f, now)) == Matches(v, f, now) && NewestFirst(InEntryOrder(v, f, now))
  {
    hide Consistent, Matches, Fresh, LooksUpIds, IndexFor, PrefixesFor, Top, Newer, NewestFirst, Answer, InEntryOrder;
    var es, all := InEntryOrder(v, f, now), Matches(v, f, now);
    if Exact(v, f, now) {
      SingleAnswer(b, v, f, now, |all| + |es|);
      TopOfFew(all, |all| + |es|);
      assert Take(es, |all| + |es|) == es;
      forall limit: nat ensures Elements(Take(es, limit)) == Top(all, limit) {
        SingleAnswer(b, v, f, now, limit);
      }
      EntriesDistinct(b, v, f, now);
      CutsAreTops(es, all);
    }
    if Elements(es) == all && NewestFirst(es) {
      forall limit: nat ensures Answer(v, f, now, limit) == Top(all, limit) {
        SingleAnswer(b, v, f, now, limit);
        CutIsTop(es, limit);
      }
    }
  }

  lemma EntriesDistinct(b: Base, v: View, f: Filter, now: int)
    requires Consistent(b, v) && !LooksUpIds(f) && |PrefixesFor(f)| == 1
    ensures DistinctIds(InEntryOrder(v, f, now))
  {
    hide Consistent, Matches, Fresh, LooksUpIds, IndexFor, PrefixesFor;
    FreshIs(b, v, IndexFor(f), PrefixesFor(f)[0], f, now, {});
  }

  /** A list whose every cut is the top of the whole comes newest first. */
  lemma CutsAreTops(es: seq<Event>, all: set<Event>)
    requires DistinctIds(es) && forall limit: nat :: Elements(Take(es, limit)) == Top(all, limit)
    ensures NewestFirst(es)
  {
    forall i, j | 0 <= i < j < |es| ensures Newer(es[i], es[j]) {
      hide Newer;
      assert Take(es, i + 1)[i] == es[i];
      assert es[i] in Elements(Take(es, i + 1));
      assert es[j] !in Take(es, i + 1);
      assert es[j] in Elements(Take(es, |es|)) && es[j] in Top(all, |es|);
      assert es[i] in Top(all, i + 1) && es[j] !in Top(all, i + 1);
      NewerIsStrictOrder(es[i], es[j], es[i]);
      if Newer(es[j], es[i]) {
        forall x | x in NewerThan(all, es[j]) ensures x in NewerThan(all, es[i]) {
          NewerIsStrictOrder(x, es[j], es[i]);
        }
        SmallerSubset(NewerThan(all, es[j]), NewerThan(all, es[i]));
      }
    }
  }

  /** A match with an entry comes, among the first entries, behind only what has an earlier entry. */
  lemma EntryOrder(b: Base, v: View, f: Filter, now: int, i: nat, j: nat, k: string)
    returns (k': string)
    requires Consistent(b, v) && !LooksUpIds(f) && |PrefixesFor(f)| == 1 && i < j < |InEntryOrder(v, f, now)|
    requires k in KeysFor(IndexFor(f), InEntryOrder(v, f, now)[j])
    requires InRange(k, RangeOf(IndexFor(f), PrefixesFor(f)[0], f))
    ensures k' in KeysFor(IndexFor(f), InEntryOrder(v, f, now)[i])
    ensures InRange(k', RangeOf(IndexFor(f), PrefixesFor(f)[0], f)) && Less(k', k)
  {
    hide Consistent, Matches, LooksUpIds, IndexFor, PrefixesFor, KeysFor, InRange, Less, RangeOf, Hits, FirstHits,
         Index, FiledById, HasEntry;
    var s, prefix, es := IndexFor(f), PrefixesFor(f)[0], InEntryOrder(v, f, now);
    var index, range, hits := Index(v.indexes, s), RangeOf(s, prefix, f), Hits(v.events, f, now);
    StoredHits(b, v, f, now);
    FreshIs(b, v, s, prefix, f, now, {});
    assert es[j] in es && es[i] in es;
    MatchEntry(b, v, s, f, now, es[j], k);
    var ks, ids := Streams.Stream(index, range), IdsIn(index, range);
    var q :| 0 <= q < |ks| && ks[q] == k;
    assert ids[q] == index[k];
    var p := FirstComesFirst(ids, hits, {}, i, j, q);
    k' := ks[p];
    assert Less(ks[p], ks[q]) && k' in ks;
    EntryIs(b, v, s, k');
    MatchIs(b, v, f, now, es[i]);
  }

  lemma EnteredListed(b: Base, v: View, f: Filter, now: int, e: Event) returns (j: nat)
    requires Consistent(b, v) && !LooksUpIds(f) && |PrefixesFor(f)| == 1 && e in Matches(v, f, now)
    requires HasEntry(IndexFor(f), RangeOf(IndexFor(f), PrefixesFor(f)[0], f), e)
    ensures j < |InEntryOrder(v, f, now)| && InEntryOrder(v, f, now)[j] == e
  {
    hide Consistent, Matches, LooksUpIds, IndexFor, PrefixesFor, HasEntry, Fresh;
    FreshHas(b, v, IndexFor(f), PrefixesFor(f)[0], f, now, {}, e);
    j :| 0 <= j < |InEntryOrder(v, f, now)| && InEntryOrder(v, f, now)[j] == e;
  }

  /** If all matches have an entry, all are in entry order. */
  lemma AllEntered(b: Base, v: View, f: Filter, now: int)
    requires Consistent(b, v) && !LooksUpIds(f) && |PrefixesFor(f)| == 1
    requires forall e :: e in Matches(v, f, now) ==> HasEntry(IndexFor(f), RangeOf(IndexFor(f), PrefixesFor(f)[0], f), e)
    ensures Elements(InEntryOrder(v, f, now)) == Matches(v, f, now)
  {
    hide Consistent, Matches, LooksUpIds, IndexFor, PrefixesFor, HasEntry, Fresh;
    FreshIs(b, v, IndexFor(f), PrefixesFor(f)[0], f, now, {});
    forall e | e in Matches(v, f, now) ensures e in Elements(InEntryOrder(v, f, now)) {
      FreshHas(b, v, IndexFor(f), PrefixesFor(f)[0], f, now, {}, e);
    }
  }

  /** Of two matches, the newer has an entry in the range ahead of all entries of the older. */
  ghost predicate NewerPrecede(v: View, f: Filter, now: int, s: IndexName, range: Range) {
    forall x, y :: x in Matches(v, f, now) && y in Matches(v, f, now) && Newer(x, y) ==> Precedes(s, range, x, y)
  }

  /**
   * A query that scans one range is exact for every limit exactly when every match has an entry in the range, and of
   * any two matches the newer has one ahead of all those of the older.
   */
  lemma SingleScanExactIff(b: Base, v: View, f: Filter, now: int)
    requires Consistent(b, v) && !LooksUpIds(f) && |PrefixesFor(f)| == 1
    ensures
      var s, range := IndexFor(f), RangeOf(IndexFor(f), PrefixesFor(f)[0], f);
      Exact(v, f, now) <==> (forall e :: e in Matches(v, f, now) ==> HasEntry(s, range, e)) && NewerPrecede(v, f, now, s, range)
  {
    hide Consistent, Matches, LooksUpIds, IndexFor, PrefixesFor, Exact, HasEntry, NewerPrecede, RangeOf, NewestFirst,
         Fresh, InEntryOrder;
    SingleScanList(b, v, f, now);
    if Exact(v, f, now) {
      ListPrecedes(b, v, f, now);
    }
    var s, range := IndexFor(f), RangeOf(IndexFor(f), PrefixesFor(f)[0], f);
    if (forall e :: e in Matches(v, f, now) ==> HasEntry(s, range, e)) && NewerPrecede(v, f, now, s, range) {
      AllEntered(b, v, f, now);
      PrecedesList(b, v, f, now);
    }
  }

  lemma ListPrecedes(b: Base, v: View, f: Filter, now: int)
    requires Consistent(b, v) && !LooksUpIds(f) && |PrefixesFor(f)| == 1
    requires Elements(InEntryOrder(v, f, now)) == Matches(v, f, now) && NewestFirst(InEntryOrder(v, f, now))
    ensures
      var s, range := IndexFor(f), RangeOf(IndexFor(f), PrefixesFor(f)[0], f);
      (forall e :: e in Matches(v, f, now) ==> HasEntry(s, range, e)) && NewerPrecede(v, f, now, s, range)
  {
    hide Consistent, Matches, LooksUpIds, IndexFor, PrefixesFor, HasEntry, RangeOf, Fresh, Newer, Precedes;
    var s, range, es := IndexFor(f), RangeOf(IndexFor(f), PrefixesFor(f)[0], f), InEntryOrder(v, f, now);
    FreshIs(b, v, s, PrefixesFor(f)[0], f, now, {});
    assert forall e :: e in Matches(v, f, now) <==> e in es;
    forall x, y | x in Matches(v, f, now) && y in Matches(v, f, now) && Newer(x, y) ensures Precedes(s, range, x, y) {
      var i :| 0 <= i < |es| && es[i] == x;
      var j :| 0 <= j < |es| && es[j] == y;
      NewerComesFirst(es, i, j);
      FreshPrecedes(b, v, s, PrefixesFor(f)[0], f, now, {}, i, j);
    }
  }

  lemma NewerComesFirst(es: seq<Event>, i: nat, j: nat)
    requires NewestFirst(es) && i < |es| && j < |es| && Newer(es[i], es[j])
    ensures i < j
  {
    hide Newer;
    NewerIsStrictOrder(es[i], es[j], es[i]);
  }

  lemma PrecedesList(b: Base, v: View, f: Filter, now: int)
    requires Consistent(b, v) && !LooksUpIds(f) && |PrefixesFor(f)| == 1
    requires Elements(InEntryOrder(v, f, now)) == Matches(v, f, now)
    requires NewerPrecede(v, f, now, IndexFor(f), RangeOf(IndexFor(f), PrefixesFor(f)[0], f))
    ensures NewestFirst(InEntryOrder(v, f, now))
  {
    hide Consistent, Matches, LooksUpIds, IndexFor, PrefixesFor, RangeOf, Fresh, Newer, Precedes;
    var s, range, es := IndexFor(f), RangeOf(IndexFor(f), PrefixesFor(f)[0], f), InEntryOrder(v, f, now);
    EntriesDistinct(b, v, f, now);
    forall i, j | 0 <= i < j < |es| ensures Newer(es[i], es[j]) {
      assert es[i] in Elements(es) && es[j] in Elements(es);
      FreshPrecedes(b, v, s, PrefixesFor(f)[0], f, now, {}, i, j);
      PrecedesAsymmetric(s, range, es[i], es[j]);
      NewerIsStrictOrder(es[i], es[j], es[i]);
    }
  }

  // ─── Tag values ─────────────────────────────────────────────────

  /** The tag is an indexed one of the event, and its key lies in the range. */
  predicate HasTagKey(range: Range, e: Event, t: Tag) {
    t in IndexableTags(e.tags) && InRange(TagKey(t.name, t.value, e.createdAt, e.id), range)
  }

  /** One event has a tag whose key in the range sorts before the keys of all tags of the other there. */
  ghost predicate TagPrecedes(range: Range, x: Event, y: Event) {
    exists t :: HasTagKey(range, x, t) && TagAheadOfAll(range, x, t, y)
  }

  predicate TagAheadOfAll(range: Range, x: Event, t: Tag, y: Event) {
    forall u :: u in IndexableTags(y.tags) && HasTagKey(range, y, u) ==>
      Less(TagKey(t.name, t.value, x.createdAt, x.id), TagKey(u.name, u.value, y.createdAt, y.id))
  }

  lemma TagEntryIs(range: Range, e: Event)
    ensures HasEntry(ByTag, range, e) <==> exists t :: HasTagKey(range, e, t)
  {
    hide TagKey, InRange, IndexableTags;
    if k :| k in KeysFor(ByTag, e) && InRange(k, range) {
      var t :| t in IndexableTags(e.tags) && k == TagKey(t.name, t.value, e.createdAt, e.id);
      assert HasTagKey(range, e, t);
    }
    if t :| HasTagKey(range, e, t) {
      assert TagKey(t.name, t.value, e.createdAt, e.id) in KeysFor(ByTag, e);
    }
  }

  lemma TagPrecedesIs(range: Range, x: Event, y: Event)
    ensures Precedes(ByTag, range, x, y) <==> TagPrecedes(range, x, y)
  {
    hide TagKey, InRange, IndexableTags, Less, AheadOfAll, TagAheadOfAll;
    if k :| k in KeysFor(ByTag, x) && InRange(k, range) && AheadOfAll(ByTag, range, k, y) {
      var t :| t in IndexableTags(x.tags) && k == TagKey(t.name, t.value, x.createdAt, x.id);
      TagAheadIs(range, x, t, y);
      assert HasTagKey(range, x, t);
    }
    if t :| HasTagKey(range, x, t) && TagAheadOfAll(range, x, t, y) {
      TagAheadIs(range, x, t, y);
      assert TagKey(t.name, t.value, x.createdAt, x.id) in KeysFor(ByTag, x);
    }
  }

  lemma TagAheadIs(range: Range, x: Event, t: Tag, y: Event)
    ensures AheadOfAll(ByTag, range, TagKey(t.name, t.value, x.createdAt, x.id), y) <==> TagAheadOfAll(range, x, t, y)
  {
    hide TagKey, InRange, IndexableTags, Less;
    var k := TagKey(t.name, t.value, x.createdAt, x.id);
    if TagAheadOfAll(range, x, t, y) {
      forall k' | k' in KeysFor(ByTag, y) && InRange(k', range) ensures Less(k, k') {
        var u :| u in IndexableTags(y.tags) && k' == TagKey(u.name, u.value, y.createdAt, y.id);
        assert HasTagKey(range, y, u);
      }
    }
    if AheadOfAll(ByTag, range, k, y) {
      forall u | u in IndexableTags(y.tags) && HasTagKey(range, y, u) ensures Less(k, TagKey(u.name, u.value, y.createdAt, y.id)) {
        assert TagKey(u.name, u.value, y.createdAt, y.id) in KeysFor(ByTag, y);
      }
    }
  }

  /**
   * For one tag value the answer is exact for every limit exactly when every match has an indexed tag with a key in the
   * value's range, and of any two matches the newer has one whose key there sorts before the keys of all tags of the
   * older. With u32 times and a non-empty value, every match does have one.
   */
  lemma TagExactIff(b: Base, v: View, f: Filter, now: int, name: char, value: string)
    requires Consistent(b, v) && !LooksUpIds(f)
    requires IndexFor(f) == ByTag && FirstTag(f.tags) == Some(TagFilter(name, [value]))
    ensures
      var range, all := TimeRangeForPrefix(TagPrefix([name], value), f.since, f.until), Matches(v, f, now);
      && (Exact(v, f, now) <==>
            && (forall e :: e in all ==> exists t :: HasTagKey(range, e, t))
            && (forall x, y :: x in all && y in all && Newer(x, y) ==> TagPrecedes(range, x, y)))
      && (Timely(v, f, now) && value != "" ==> forall e :: e in all ==> exists t :: HasTagKey(range, e, t))
  {
    OneTagPrefix(f, name, value);
    PrefixRange(f, TagPrefix([name], value));
    hide Consistent, Matches, LooksUpIds, Fresh, IndexFor, PrefixesFor, Timely, Exact, HasEntry, Precedes,
         TagPrecedes, HasTagKey, TimeRangeForPrefix, FirstTag, Newer, TagPrefix, RangeOf;
    var range, all := TimeRangeForPrefix(TagPrefix([name], value), f.since, f.until), Matches(v, f, now);
    TagScanExactIff(b, v, f, now, range);
    TagsAreEntries(range, all);
    if Timely(v, f, now) && value != "" {
      TagsEntered(b, v, f, now, name, value);
    }
  }

  lemma PrefixRange(f: Filter, prefix: string)
    ensures RangeOf(ByTag, prefix, f) == TimeRangeForPrefix(prefix, f.since, f.until)
  {
  }

  lemma TagScanExactIff(b: Base, v: View, f: Filter, now: int, range: Range)
    requires Consistent(b, v) && !LooksUpIds(f) && IndexFor(f) == ByTag && |PrefixesFor(f)| == 1
    requires range == RangeOf(ByTag, PrefixesFor(f)[0], f)
    ensures var all := Matches(v, f, now);
      Exact(v, f, now) <==>
        && (forall e :: e in all ==> HasEntry(ByTag, range, e))
        && (forall x, y :: x in all && y in all && Newer(x, y) ==> Precedes(ByTag, range, x, y))
  {
    hide Consistent, Matches, LooksUpIds, IndexFor, PrefixesFor, Exact, HasEntry, Precedes, RangeOf, Newer;
    SingleScanExactIff(b, v, f, now);
  }

  /** Entries of the tag index come from tags. */
  lemma TagsAreEntries(range: Range, all: set<Event>)
    ensures (forall e :: e in all ==> HasEntry(ByTag, range, e)) <==> (forall e :: e in all ==> exists t :: HasTagKey(range, e, t))
    ensures (forall x, y :: x in all && y in all && Newer(x, y) ==> Precedes(ByTag, range, x, y)) <==>
      (forall x, y :: x in all && y in all && Newer(x, y) ==> TagPrecedes(range, x, y))
  {
    hide HasEntry, Precedes, TagPrecedes, HasTagKey, Newer;
    forall e ensures HasEntry(ByTag, range, e) <==> exists t :: HasTagKey(range, e, t) {
      TagEntryIs(range, e);
    }
    forall x, y ensures Precedes(ByTag, range, x, y) <==> TagPrecedes(range, x, y) {
      TagPrecedesIs(range, x, y);
    }
  }

  /** With u32 times and a non-empty value every match has an entry in its range. */
  lemma TagsEntered(b: Base, v: View, f: Filter, now: int, name: char, value: string)
    requires Consistent(b, v) && Timely(v, f, now) && value != ""
    requires IndexFor(f) == ByTag && FirstTag(f.tags) == Some(TagFilter(name, [value]))
    ensures forall e :: e in Matches(v, f, now) ==>
      HasEntry(ByTag, TimeRangeForPrefix(TagPrefix([name], value), f.since, f.until), e)
  {
    hide Consistent, Matches, IndexFor, Timely, HasEntry, TimeRangeForPrefix, FirstTag, TagPrefix;
    forall e | e in Matches(v, f, now) ensures HasEntry(ByTag, TimeRangeForPrefix(TagPrefix([name], value), f.since, f.until), e) {
      CarriesValue(b, v, f, now, name, value, e);
      TagEntry(b, v, name, value, f, now, e);
      TagEntryHas(TimeRangeForPrefix(TagPrefix([name], value), f.since, f.until), e, TagKey([name], value, e.createdAt, e.id));
    }
  }

  lemma TagEntryHas(range: Range, e: Event, k: string)
    requires k in KeysFor(ByTag, e) && InRange(k, range)
    ensures HasEntry(ByTag, range, e)
  {
    hide KeysFor, InRange;
  }

  lemma OneTagPrefix(f: Filter, name: char, value: string)
    requires IndexFor(f) == ByTag && FirstTag(f.tags) == Some(TagFilter(name, [value]))
    ensures PrefixesFor(f) == [TagPrefix([name], value)]
  {
    hide FirstTag;
    assert TagPrefixes(name, [value])[0] == TagPrefix([name], value);
  }

  lemma CarriesValue(b: Base, v: View, f: Filter, now: int, name: char, value: string, e: Event)
    requires Consistent(b, v) && FirstTag(f.tags) == Some(TagFilter(name, [value])) && e in Matches(v, f, now)
    ensures HasTag(e, name, value)
  {
    hide Consistent, Matches, HasTag, FirstTag;
    FirstTagListed(f.tags);
    MatchInWindow(b, v, f, now, e);
    assert MatchTag(TagFilter(name, [value]), e);
  }

  /**
   * An entry of the tag value "value!" lies in the range scanned for "value" and sorts before every entry of "value"
   * itself, however much older its event is. It costs the scan something only if that event matches.
   */
  lemma StraddlingValueJumpsQueue(name: char, value: string, e: Event, older: Event)
    ensures
      var k := TagKey([name], value + SEPARATOR, older.createdAt, older.id);
      && InRange(k, TimeRangeForPrefix(TagPrefix([name], value), None, None))
      && Less(k, TagKey([name], value, e.createdAt, e.id))
  {
    var p := TagPrefix([name], value) + SEPARATOR;
    var rest, s := SEPARATOR + Stamp(older.createdAt, older.id), Stamp(e.createdAt, e.id);
    var k := TagKey([name], value + SEPARATOR, older.createdAt, older.id);
    assert k == p + rest && TagKey([name], value, e.createdAt, e.id) == p + s;
    LessCommonPrefix(p, rest, s);
    StampDigits(e.createdAt, e.id);
    LessCommonPrefix(p, rest, "");
    assert p + "" == p;
    assert p == TagPrefix([name], value) + SEPARATOR && k == TagPrefix([name], value) + (SEPARATOR + rest);
    LessCommonPrefix(TagPrefix([name], value), SEPARATOR + rest, TILDE);
  }

  /**
   * The other way round: a filter value "value!hhhhhhhh" also scans the entries of "value" whose inverted time is
   * those eight digits, and these compete with its own entries by their ids.
   */
  lemma ContinuedValueSharesRange(name: char, value: string, e: Event, other: Event)
    ensures
      var continued := value + SEPARATOR + InvertTimestamp(other.createdAt);
      var k := TagKey([name], value, other.createdAt, other.id);
      && InRange(k, TimeRangeForPrefix(TagPrefix([name], continued), None, None))
      && (Less(k, TagKey([name], continued, e.createdAt, e.id)) <==> Less(other.id, Stamp(e.createdAt, e.id)))
  {
    hide InvertTimestamp;
    var continued := value + SEPARATOR + InvertTimestamp(other.createdAt);
    var prefix, s := TagPrefix([name], continued), Stamp(e.createdAt, e.id);
    var k := TagKey([name], value, other.createdAt, other.id);
    var p := prefix + SEPARATOR;
    assert k == p + other.id && TagKey([name], continued, e.createdAt, e.id) == p + s;
    LessCommonPrefix(p, other.id, s);
    LessCommonPrefix(p, other.id, "");
    assert p + "" == p;
    assert k == prefix + (SEPARATOR + other.id);
    LessCommonPrefix(prefix, SEPARATOR + other.id, TILDE);
  }

  /** Why tag values must be non-empty: a tag with an empty value matches a filter but has no index entry. */
  lemma EmptyTagValueUnindexed(e: Event, name: char)
    requires HasTag(e, name, "")
    ensures MatchTag(TagFilter(name, [""]), e) && Tag([name], "") !in IndexableTags(e.tags)
  {
    IndexableTagsComplete(e.tags, [name], "");
    assert HasTag(e, name, TagFilter(name, [""]).values[0]);
  }

  /** The view one put leaves. */
  ghost function AfterOne(b: Base, e: Event, from: string): View {
    Run(b, INITIAL, [Node(Some(PutOp(e, None)), from, false)]).view
  }

  lemma OnePut(b: Base, e: Event, from: string)
    requires Storable(b, e) && Class(e) == Regular
    ensures Consistent(b, AfterOne(b, e, from)) && LiveEvents(AfterOne(b, e, from)) == map[e.id := e]
  {
    hide Storable, Put, ClassifyKind, SlotKey, Consistent, Holder, HostCalls, Presents;
    var n := Node(Some(PutOp(e, None)), from, false);
    EmptyConsistent(b);
    ApplyNodeConsistent(b, EMPTY_VIEW, n);
    PutEffect(b, EMPTY_VIEW, e);
    assert [n][..0] == [] && Run(b, INITIAL, []) == INITIAL;
    assert AfterOne(b, e, from).events == map[e.id := e];
  }

  /**
   * A wrong answer: an event whose only tag has an empty value is stored and matches a filter for that value, but the
   * query finds nothing, whatever the limit.
   */
  lemma EmptyTagQueryFindsNothing(b: Base, e: Event, name: char, from: string, now: int, limit: nat)
    requires Storable(b, e) && Class(e) == Regular && e.tags == [[[name], ""]]
    ensures var v, f := AfterOne(b, e, from), TagQuery(name, "");
      Matches(v, f, now) == {e} && Answer(v, f, now, limit) == {}
  {
    var v, f := AfterOne(b, e, from), TagQuery(name, "");
    OnePut(b, e, from);
    TagQueryMatch(v, e, name, "", now);
    hide Storable, Run, Matches, InRange, Consistent, AfterOne, Gather, Answer, IndexFor, PrefixesFor, FirstTag,
         LooksUpIds;
    CollectedSound(b, v, f, now, limit);
    GatherSound(b, v, IndexFor(f), PrefixesFor(f), f, now, limit);
    NoTagKeysOf(e, name);
    NoKeysNotEntered(ByTag, PrefixesFor(f), f, e);
    hide Entered, KeysFor;
    NothingCollected(v, f, now, limit);
  }

  lemma NoKeysNotEntered(s: IndexName, prefixes: seq<string>, f: Filter, e: Event)
    requires KeysFor(s, e) == {}
    ensures !Entered(s, prefixes, f, e)
  {
    hide KeysFor, InRange, RangeOf;
  }

  lemma NothingCollected(v: View, f: Filter, now: int, limit: nat)
    requires forall x :: x !in Collected(v, f, now, limit)
    ensures Answer(v, f, now, limit) == {}
  {
    hide Collected;
    assert Elements(Collected(v, f, now, limit)) == {};
  }

  lemma NoTagKeysOf(e: Event, name: char)
    requires e.tags == [[[name], ""]]
    ensures KeysFor(ByTag, e) == {}
  {
    hide TagKey;
    assert IndexableTags(e.tags) == [];
  }

  lemma TagQueryMatch(v: View, e: Event, name: char, value: string, now: int)
    requires LiveEvents(v) == map[e.id := e] && e.tags == [[[name], value]]
    ensures Matches(v, TagQuery(name, value), now) == {e}
    ensures !LooksUpIds(TagQuery(name, value)) && IndexFor(TagQuery(name, value)) == ByTag
  {
    hide LiveEvents;
    var f := TagQuery(name, value);
    assert e.tags[0] == [[name], value];
    assert HasTag(e, name, f.tags[0].values[0]);
    NeverExpires(e, now);
    assert Serves(f, now, e);
    var hits := Hits(LiveEvents(v), f, now);
    assert hits == map[e.id := e];
    assert hits[e.id] == e;
  }

  /** The view two puts leave, and a filter asked of it. */
  ghost function AfterTwo(b: Base, x: Event, y: Event, from: string): View {
    Run(b, INITIAL, [Node(Some(PutOp(x, None)), from, false), Node(Some(PutOp(y, None)), from, false)]).view
  }

  lemma TwoPuts(b: Base, x: Event, y: Event, from: string)
    requires Storable(b, x) && Storable(b, y) && Class(x) == Class(y) == Regular && x.id != y.id
    ensures Consistent(b, AfterTwo(b, x, y, from)) && LiveEvents(AfterTwo(b, x, y, from)) == map[x.id := x, y.id := y]
  {
    hide Storable, Put, ClassifyKind, Run, SlotKey, Consistent, Holder;
    var n, m := Node(Some(PutOp(x, None)), from, false), Node(Some(PutOp(y, None)), from, false);
    RunTwo(b, n, m);
    EmptyConsistent(b);
    ApplyNodeConsistent(b, EMPTY_VIEW, n);
    ApplyNodeConsistent(b, Put(b, EMPTY_VIEW, x), m);
    PutEffect(b, EMPTY_VIEW, x);
    PutEffect(b, Put(b, EMPTY_VIEW, x), y);
    assert AfterTwo(b, x, y, from).events == map[x.id := x, y.id := y];
  }

  /**
   * Of two matches, if some entry of one comes before all entries of the other, a limit of one answers with it, even
   * if it is the older.
   */
  lemma FirstEntryWins(b: Base, v: View, f: Filter, now: int, older: Event, newer: Event, k: string)
    requires Consistent(b, v) && !LooksUpIds(f) && |PrefixesFor(f)| == 1
    requires Matches(v, f, now) == {older, newer} && Newer(newer, older)
    requires var s, range := IndexFor(f), RangeOf(IndexFor(f), PrefixesFor(f)[0], f);
      k in KeysFor(s, older) && InRange(k, range) &&
      forall k' :: k' in KeysFor(s, newer) && InRange(k', range) ==> Less(k, k')
    ensures Answer(v, f, now, 1) == {older} && Top(Matches(v, f, now), 1) == {newer}
  {
    hide Consistent, Matches, LooksUpIds, Fresh, IndexFor, PrefixesFor, KeysFor, InRange, Less, RangeOf, Newer,
         InEntryOrder;
    var es := InEntryOrder(v, f, now);
    var j := EnteredListed(b, v, f, now, older);
    FirstIs(b, v, f, now);
    if es[0] != older {
      var k' := EntryOrder(b, v, f, now, 0, j, k);
      LessAsymmetric(k, k');
      assert false;
    }
    SingleAnswer(b, v, f, now, 1);
    assert Take(es, 1) == [older];
    NewestOfTwo(older, newer);
  }

  lemma FirstIs(b: Base, v: View, f: Filter, now: int)
    requires Consistent(b, v) && !LooksUpIds(f) && |PrefixesFor(f)| == 1
    ensures InEntryOrder(v, f, now) != [] ==> InEntryOrder(v, f, now)[0] in Matches(v, f, now)
  {
    hide Consistent, Matches, LooksUpIds, Fresh, IndexFor, PrefixesFor, HasEntry;
    FreshIs(b, v, IndexFor(f), PrefixesFor(f)[0], f, now, {});
  }

  lemma NewestOfTwo(older: Event, newer: Event)
    requires Newer(newer, older)
    ensures Top({older, newer}, 1) == {newer}
  {
    hide Newer;
    NewerIsStrictOrder(newer, older, newer);
    assert newer in NewerThan({older, newer}, older);
    assert NewerThan({older, newer}, newer) == {};
  }

  function TagQuery(name: char, value: string): Filter {
    Filter(None, None, None, None, None, Some(1), None, [TagFilter(name, [value])])
  }

  /**
   * A wrong answer: an older event tagged with both "value" and "value!" is put, then a newer one tagged with
   * "value". Asked for the one newest event tagged "value", the query answers with the older.
   */
  lemma StraddlingTagAnswersOlder(b: Base, older: Event, newer: Event, name: char, value: string, from: string, now: int)
    requires Storable(b, older) && Storable(b, newer) && Class(older) == Class(newer) == Regular
    requires older.id != newer.id && Newer(newer, older) && U32(older.createdAt) && U32(newer.createdAt)
    requires older.tags == [[[name], value], [[name], value + SEPARATOR]] && newer.tags == [[[name], value]] && value != ""
    ensures var v, f := AfterTwo(b, older, newer, from), TagQuery(name, value);
      Answer(v, f, now, 1) == {older} && Top(Matches(v, f, now), 1) == {newer}
  {
    var v, f := AfterTwo(b, older, newer, from), TagQuery(name, value);
    TwoPuts(b, older, newer, from);
    TagQueryMatches(v, older, newer, name, value, now);
    OneTagPrefix(f, name, value);
    hide Storable, Run, Matches, Newer, InRange, Less, TagKey, TagPrefix, Consistent, AfterTwo, KeysFor, LooksUpIds,
         IndexFor, PrefixesFor, LiveEvents, ClassifyKind, RangeOf, TimeRangeForPrefix;
    StraddlingKeyFirst(older, newer, name, value);
    PrefixRange(f, TagPrefix([name], value));
    FirstEntryWins(b, v, f, now, older, newer, TagKey([name], value + SEPARATOR, older.createdAt, older.id));
  }

  /** The older event's entry under "value!" is in the range of "value", ahead of every entry of the newer. */
  lemma StraddlingKeyFirst(older: Event, newer: Event, name: char, value: string)
    requires older.tags == [[[name], value], [[name], value + SEPARATOR]] && newer.tags == [[[name], value]] && value != ""
    ensures
      var k, range := TagKey([name], value + SEPARATOR, older.createdAt, older.id), TimeRangeForPrefix(TagPrefix([name], value), None, None);
      && k in KeysFor(ByTag, older) && InRange(k, range)
      && forall k' :: k' in KeysFor(ByTag, newer) && InRange(k', range) ==> Less(k, k')
  {
    TagsOf(older, newer, name, value);
    var k := TagKey([name], value + SEPARATOR, older.createdAt, older.id);
    hide InRange, Less, TagKey, TagPrefix, IndexableTags, TimeRangeForPrefix;
    StraddlingValueJumpsQueue(name, value, newer, older);
    forall k' | k' in KeysFor(ByTag, newer) ensures Less(k, k') {
      var t :| t in IndexableTags(newer.tags) && k' == TagKey(t.name, t.value, newer.createdAt, newer.id);
    }
  }

  lemma TagsOf(older: Event, newer: Event, name: char, value: string)
    requires older.tags == [[[name], value], [[name], value + SEPARATOR]] && newer.tags == [[[name], value]] && value != ""
    ensures forall t :: t in IndexableTags(newer.tags) ==> t == Tag([name], value)
    ensures TagKey([name], value + SEPARATOR, older.createdAt, older.id) in KeysFor(ByTag, older)
  {
    hide TagKey;
    var t := Tag([name], value + SEPARATOR);
    IndexableTagsComplete(older.tags, [name], value + SEPARATOR);
    assert older.tags[1][1] == value + SEPARATOR;
    assert t in IndexableTags(older.tags) && TagKey(t.name, t.value, older.createdAt, older.id) in KeysFor(ByTag, older);
    forall u | u in IndexableTags(newer.tags) ensures u == Tag([name], value) {
      IndexableTagsComplete(newer.tags, u.name, u.value);
    }
  }

  lemma TagQueryMatches(v: View, older: Event, newer: Event, name: char, value: string, now: int)
    requires LiveEvents(v) == map[older.id := older, newer.id := newer] && older.id != newer.id
    requires older.tags == [[[name], value], [[name], value + SEPARATOR]] && newer.tags == [[[name], value]]
    ensures Matches(v, TagQuery(name, value), now) == {older, newer}
    ensures !LooksUpIds(TagQuery(name, value)) && FirstTag(TagQuery(name, value).tags) == Some(TagFilter(name, [value]))
    ensures IndexFor(TagQuery(name, value)) == ByTag
  {
    hide LiveEvents;
    var f := TagQuery(name, value);
    forall e | e == older || e == newer ensures Serves(f, now, e) {
      assert e.tags[0] == [[name], value];
      assert HasTag(e, name, f.tags[0].values[0]);
      NeverExpires(e, now);
    }
    var hits := Hits(LiveEvents(v), f, now);
    assert hits == map[older.id := older, newer.id := newer];
    assert hits[older.id] == older && hits[newer.id] == newer;
  }

  lemma NeverExpires(e: Event, now: int)
    requires forall i :: 0 <= i < |e.tags| ==> |e.tags[i]| > 0 && |e.tags[i][0]| == 1
    ensures !IsExpired(e, now)
  {
    NoExpirationTag(e.tags);
  }

  lemma {:induction false} NoExpirationTag(tags: seq<seq<string>>)
    requires forall i :: 0 <= i < |tags| ==> |tags[i]| > 0 && |tags[i][0]| == 1
    ensures FindTag(tags, "expiration") == None
  {
    if tags != [] {
      assert |"expiration"| != |tags[0][0]|;
      NoExpirationTag(tags[1..]);
    }
  }

  // ─── Author prefixes ────────────────────────────────────────────

  /** Pubkeys of characters strictly between the separator and the tilde, as hexadecimal ones are. */
  ghost predicate PlainPubkeys(v: View, f: Filter, now: int) {
    forall e :: e in Matches(v, f, now) ==> forall i :: 0 <= i < |e.pubkey| ==> '!' < e.pubkey[i] < '~'
  }

  /** Listed authors no longer than a pubkey: full ones and prefixes. */
  predicate AuthorsFit(f: Filter) {
    Listed(f.authors) && forall i :: 0 <= i < |f.authors.value| ==> |f.authors.value[i]| <= 64
  }

  /** The matches whose author the filter lists in full. */
  ghost function ListedInFull(v: View, f: Filter, now: int): set<Event>
    requires f.authors.Some?
  {
    set e | e in Matches(v, f, now) && e.pubkey in f.authors.value
  }

  /** With kinds or a since bound, an entry is only ever found under the author's full pubkey. */
  lemma FoundInFull(b: Base, v: View, f: Filter, now: int, e: Event)
    requires Consistent(b, v) && !LooksUpIds(f) && AuthorsFit(f) && (Listed(f.kinds) || f.since.Some?)
    requires PlainPubkeys(v, f, now) && e in Matches(v, f, now) && Entered(IndexFor(f), PrefixesFor(f), f, e)
    ensures e.pubkey in f.authors.value
  {
    hide Consistent, Matches, LooksUpIds, InRange, AuthorKey, AuthorKindKey, AuthorKindPrefix, TimeRangeForPrefix,
         MatchFilter, FirstTag;
    MatchInWindow(b, v, f, now, e);
    var i :| 0 <= i < |PrefixesFor(f)| && HasEntry(IndexFor(f), RangeOf(IndexFor(f), PrefixesFor(f)[i], f), e);
    var p := PrefixesFor(f)[i];
    if Listed(f.kinds) {
      AuthorKindPrefixesAre(f.authors.value, f.kinds.value, p);
      var x, y :| 0 <= x < |f.authors.value| && 0 <= y < |f.kinds.value| && p == AuthorKindPrefix(f.authors.value[x], f.kinds.value[y]);
      FoundUnderKind(f.authors.value[x], f.kinds.value[y], f, e);
    } else {
      FoundUnderAuthor(p, f, e);
    }
  }

  lemma FoundUnderKind(a: string, kind: int, f: Filter, e: Event)
    requires |a| <= 64 && |e.pubkey| == 64 && forall i :: 0 <= i < 64 ==> e.pubkey[i] > '!'
    requires InRange(AuthorKindKey(e.pubkey, e.kind, e.createdAt, e.id), TimeRangeForPrefix(AuthorKindPrefix(a, kind), f.since, f.until))
    ensures a == e.pubkey
  {
    hide InRange, Stamp, EncodeKind, TimeRangeForPrefix;
    if |a| < 64 {
      KindDropsAuthorPrefix(a, kind, e.pubkey, e.kind, e.createdAt, e.id, f.since, f.until);
    } else {
      var p, q := AuthorKindPrefix(a, kind), AuthorKindPrefix(e.pubkey, e.kind);
      if p != q {
        FixedWidthWindow(p, q, e.createdAt, e.id, f.since, f.until);
      }
      AuthorKindPrefixInjective(a, kind, e.pubkey, e.kind);
    }
  }

  lemma FoundUnderAuthor(a: string, f: Filter, e: Event)
    requires |a| <= 64 && |e.pubkey| == 64 && (forall i :: 0 <= i < 64 ==> e.pubkey[i] > '!') && f.since.Some?
    requires InRange(AuthorKey(e.pubkey, e.createdAt, e.id), TimeRangeForPrefix(a, f.since, f.until))
    ensures a == e.pubkey
  {
    hide InRange, Stamp, TimeRangeForPrefix;
    if |a| < 64 {
      SinceDropsAuthorPrefix(a, e.pubkey, e.createdAt, e.id, f.since.value, f.until);
    } else if a != e.pubkey {
      FixedWidthWindow(a, e.pubkey, e.createdAt, e.id, f.since, f.until);
    }
  }

  /**
   * With kinds or a since bound, author prefixes are ignored: the answer is the newest `limit` of the matches whose
   * author is listed in full, so a filter of prefixes alone answers with nothing.
   */
  lemma AuthorPrefixesIgnored(b: Base, v: View, f: Filter, now: int, limit: nat)
    requires Consistent(b, v) && !LooksUpIds(f) && AuthorsFit(f) && (Listed(f.kinds) || f.since.Some?)
    requires PlainPubkeys(v, f, now) && Timely(v, f, now)
    ensures Answer(v, f, now, limit) == Top(ListedInFull(v, f, now), limit)
    ensures (forall i :: 0 <= i < |f.authors.value| ==> |f.authors.value[i]| < 64) ==> Answer(v, f, now, limit) == {}
  {
    hide Consistent, Matches, LooksUpIds, Gather, IndexFor, PrefixesFor, Top, Entered, Timely, PlainPubkeys, Served,
         Covered;
    var collected, full := Elements(Collected(v, f, now, limit)), ListedInFull(v, f, now);
    GatherSound(b, v, IndexFor(f), PrefixesFor(f), f, now, limit);
    forall e | e in collected ensures e in full {
      FoundInFull(b, v, f, now, e);
    }
    forall e | e in full ensures Covered(collected, e, limit) {
      InFullServed(b, v, f, now, e);
      GatherCovers(b, v, IndexFor(f), PrefixesFor(f), f, now, limit, e);
    }
    CoveredTop(full, collected, limit);
    if forall i :: 0 <= i < |f.authors.value| ==> |f.authors.value[i]| < 64 {
      forall e | e in full ensures false {
        MatchIs(b, v, f, now, e);
      }
      assert full == {};
      TopOfNone(limit);
    }
  }

  lemma TopOfNone(limit: nat)
    ensures Top({}, limit) == {}
  {
  }

  lemma InFullServed(b: Base, v: View, f: Filter, now: int, e: Event)
    requires Consistent(b, v) && Timely(v, f, now) && Listed(f.authors)
    requires e in Matches(v, f, now) && e.pubkey in f.authors.value
    ensures Served(v, IndexFor(f), PrefixesFor(f), f, now, e)
  {
    hide Consistent, Matches, Timely, PrefixesFor, Served;
    if Listed(f.kinds) {
      AuthorKindServed(b, v, f, now, e);
    } else {
      AuthorServed(b, v, f, now, e);
    }
  }

  /** With kinds or a since bound, the answer is exact for every limit exactly when no match is listed by prefix only. */
  lemma AuthorsExactIff(b: Base, v: View, f: Filter, now: int)
    requires Consistent(b, v) && !LooksUpIds(f) && AuthorsFit(f) && (Listed(f.kinds) || f.since.Some?)
    requires PlainPubkeys(v, f, now) && Timely(v, f, now)
    ensures Exact(v, f, now) <==> AuthorsInFull(v, f, now)
  {
    hide Consistent, Matches, LooksUpIds, Timely, PlainPubkeys, Top, Answer;
    var all, full := Matches(v, f, now), ListedInFull(v, f, now);
    forall limit: nat ensures Answer(v, f, now, limit) == Top(full, limit) {
      AuthorPrefixesIgnored(b, v, f, now, limit);
    }
    if Exact(v, f, now) {
      SmallerSubset(full, all);
      TopOfFew(full, |all|);
      TopOfFew(all, |all|);
      assert full == all;
    }
    if AuthorsInFull(v, f, now) {
      assert full == all;
    }
  }

  /** Entries on the author index sort by pubkey, then newest first. */
  lemma AuthorKeyOrder(x: Event, y: Event)
    requires |x.pubkey| == |y.pubkey| && U32(x.createdAt) && U32(y.createdAt)
    ensures Less(AuthorKey(x.pubkey, x.createdAt, x.id), AuthorKey(y.pubkey, y.createdAt, y.id)) <==>
      Less(x.pubkey, y.pubkey) || (x.pubkey == y.pubkey && Newer(x, y))
  {
    hide Stamp, Newer;
    var sx, sy := Stamp(x.createdAt, x.id), Stamp(y.createdAt, y.id);
    assert AuthorKey(x.pubkey, x.createdAt, x.id) == x.pubkey + (SEPARATOR + sx);
    assert AuthorKey(y.pubkey, y.createdAt, y.id) == y.pubkey + (SEPARATOR + sy);
    LessBlocks(x.pubkey, y.pubkey, SEPARATOR + sx, SEPARATOR + sy);
    KeyOrderIsNewestFirst(SEPARATOR, x, y);
  }

  /** Without kinds and without since, every match has an entry under any author it is listed by. */
  lemma AuthorEntry(b: Base, v: View, f: Filter, now: int, a: string, e: Event)
    requires Consistent(b, v) && Timely(v, f, now) && PlainPubkeys(v, f, now) && f.since.None?
    requires |a| <= 64 && e in Matches(v, f, now) && StartsWith(e.pubkey, a)
    ensures InRange(AuthorKey(e.pubkey, e.createdAt, e.id), TimeRangeForPrefix(a, f.since, f.until))
  {
    hide Consistent, Matches, InRange, TimeRangeForPrefix, Stamp, MatchFilter;
    MatchInWindow(b, v, f, now, e);
    if |a| < 64 {
      PrefixHoldsAuthor(a, e.pubkey, e.createdAt, e.id, f.until);
    } else {
      assert e.pubkey[..64] == e.pubkey;
      PrefixWindow(a, e.createdAt, e.id, f.since, f.until);
    }
  }

  /** What is in the range of an author string comes from pubkeys that start with it. */
  lemma UnderAuthor(a: string, e: Event, until: Option<int>)
    requires |a| <= 64 && |e.pubkey| == 64
    requires InRange(AuthorKey(e.pubkey, e.createdAt, e.id), TimeRangeForPrefix(a, None, until))
    ensures StartsWith(e.pubkey, a)
  {
    hide Stamp, InvertTimestamp;
    var k, r := AuthorKey(e.pubkey, e.createdAt, e.id), TimeRangeForPrefix(a, None, until);
    var lower := if until.Some? then SEPARATOR + InvertTimestamp(until.value) else SEPARATOR;
    assert r.gte == a + lower;
    LessCommonPrefix(a, lower, "");
    assert a + "" == a;
    LessEqTransitive(a, r.gte, k);
    Sandwich(a, k, TILDE);
    assert k[..|a|] == e.pubkey[..|a|];
  }

  /** Under one author string, the matches with the smaller pubkeys are the newer ones. */
  ghost predicate PubkeysByAge(v: View, f: Filter, now: int, a: string) {
    forall x, y :: x in Matches(v, f, now) && y in Matches(v, f, now) && StartsWith(x.pubkey, a) && StartsWith(y.pubkey, a) ==>
      (Less(x.pubkey, y.pubkey) ==> Newer(x, y))
  }

  lemma PrefixServes(b: Base, v: View, f: Filter, now: int, a: string, e: Event)
    requires Consistent(b, v) && Timely(v, f, now) && PlainPubkeys(v, f, now) && f.since.None?
    requires |a| <= 64 && e in Matches(v, f, now) && StartsWith(e.pubkey, a) && PubkeysByAge(v, f, now, a)
    ensures Leads(v, ByAuthor, RangeOf(ByAuthor, a, f), f, now, e, AuthorKey(e.pubkey, e.createdAt, e.id))
  {
    hide Consistent, Matches, InRange, TimeRangeForPrefix, AuthorKey, MatchFilter, Newer, Less, StartsWith,
         PlainPubkeys;
    var k := AuthorKey(e.pubkey, e.createdAt, e.id);
    AuthorEntry(b, v, f, now, a, e);
    MatchInWindow(b, v, f, now, e);
    forall e', k' | e' in Matches(v, f, now) && k' in KeysFor(ByAuthor, e') && InRange(k', RangeOf(ByAuthor, a, f)) && Less(k', k)
      ensures Newer(e', e)
    {
      MatchInWindow(b, v, f, now, e');
      UnderAuthor(a, e', f.until);
      AuthorKeyOrder(e', e);
    }
  }

  /** Without kinds and without since, prefixes whose pubkeys are ordered by age are answered exactly. */
  lemma PrefixesByAgeExact(b: Base, v: View, f: Filter, now: int, limit: nat)
    requires Consistent(b, v) && !LooksUpIds(f) && AuthorsFit(f) && !Listed(f.kinds) && f.since.None?
    requires PlainPubkeys(v, f, now) && Timely(v, f, now)
    requires forall i :: 0 <= i < |f.authors.value| ==> PubkeysByAge(v, f, now, f.authors.value[i])
    ensures Answer(v, f, now, limit) == Top(Matches(v, f, now), limit)
  {
    hide Consistent, Matches, LooksUpIds, Timely, PlainPubkeys, PubkeysByAge, Leads, RangeOf;
    forall e | e in Matches(v, f, now) ensures Served(v, IndexFor(f), PrefixesFor(f), f, now, e) {
      MatchInWindow(b, v, f, now, e);
      var i :| 0 <= i < |f.authors.value| && StartsWith(e.pubkey, f.authors.value[i]);
      PrefixServes(b, v, f, now, PrefixesFor(f)[i], e);
    }
    ServedIsExact(b, v, f, now, limit);
  }

  /** Without kinds and without since, any author prefixes are answered exactly as long as the matches fit the limit. */
  lemma PrefixesWithinLimit(b: Base, v: View, f: Filter, now: int, limit: nat)
    requires Consistent(b, v) && !LooksUpIds(f) && AuthorsFit(f) && !Listed(f.kinds) && f.since.None?
    requires PlainPubkeys(v, f, now) && Timely(v, f, now) && |Matches(v, f, now)| <= limit
    ensures Answer(v, f, now, limit) == Matches(v, f, now)
  {
    hide Consistent, Matches, LooksUpIds, Timely, PlainPubkeys, InRange, TimeRangeForPrefix, AuthorKey, Answer;
    forall e | e in Matches(v, f, now) ensures Entered(IndexFor(f), PrefixesFor(f), f, e) {
      MatchInWindow(b, v, f, now, e);
      var i :| 0 <= i < |f.authors.value| && StartsWith(e.pubkey, f.authors.value[i]);
      AuthorEntry(b, v, f, now, PrefixesFor(f)[i], e);
      assert AuthorKey(e.pubkey, e.createdAt, e.id) in KeysFor(ByAuthor, e);
      assert HasEntry(IndexFor(f), RangeOf(IndexFor(f), PrefixesFor(f)[i], f), e);
    }
    WithinLimitExactIff(b, v, f, now, limit);
  }

  /**
   * Without kinds and without since, a single author or prefix is answered exactly for every limit exactly when the
   * matches with the smaller pubkeys are the newer ones.
   */
  lemma AuthorPrefixExactIff(b: Base, v: View, f: Filter, now: int)
    requires Consistent(b, v) && !LooksUpIds(f) && AuthorsFit(f) && |f.authors.value| == 1 && !Listed(f.kinds) && f.since.None?
    requires PlainPubkeys(v, f, now) && Timely(v, f, now)
    ensures Exact(v, f, now) <==> PubkeysByAge(v, f, now, f.authors.value[0])
  {
    hide Consistent, Matches, LooksUpIds, Timely, PlainPubkeys, PubkeysByAge, Answer, Top;
    if PubkeysByAge(v, f, now, f.authors.value[0]) {
      forall limit: nat ensures Answer(v, f, now, limit) == Top(Matches(v, f, now), limit) {
        PrefixesByAgeExact(b, v, f, now, limit);
      }
    }
    if Exact(v, f, now) {
      ExactByAge(b, v, f, now);
    }
  }

  lemma ExactByAge(b: Base, v: View, f: Filter, now: int)
    requires Consistent(b, v) && !LooksUpIds(f) && AuthorsFit(f) && |f.authors.value| == 1 && !Listed(f.kinds) && f.since.None?
    requires PlainPubkeys(v, f, now) && Timely(v, f, now) && Exact(v, f, now)
    ensures PubkeysByAge(v, f, now, f.authors.value[0])
  {
    hide Consistent, Matches, LooksUpIds, PlainPubkeys, Exact, Less, Newer, InEntryOrder, MatchFilter, AuthorKey,
         StartsWith, InRange, TimeRangeForPrefix;
    var a, es := f.authors.value[0], InEntryOrder(v, f, now);
    SingleScanList(b, v, f, now);
    forall x, y | x in Matches(v, f, now) && y in Matches(v, f, now) && StartsWith(x.pubkey, a) && StartsWith(y.pubkey, a) && Less(x.pubkey, y.pubkey)
      ensures Newer(x, y)
    {
      LessIrreflexive(x.pubkey);
      var i :| 0 <= i < |es| && es[i] == x;
      var j :| 0 <= j < |es| && es[j] == y;
      if j < i {
        MatchInWindow(b, v, f, now, x);
        MatchInWindow(b, v, f, now, y);
        AuthorEntry(b, v, f, now, a, x);
        var k := EntryOrder(b, v, f, now, j, i, AuthorKey(x.pubkey, x.createdAt, x.id));
        AuthorKeyOrder(x, y);
        LessAsymmetric(AuthorKey(x.pubkey, x.createdAt, x.id), k);
      }
    }
  }

  /** The matches under an author string listed before an event: of smaller pubkeys, and its own author's newer ones. */
  ghost function ListedBefore(v: View, f: Filter, now: int, a: string, e: Event): set<Event> {
    set x | x in Matches(v, f, now) && StartsWith(x.pubkey, a) &&
      (Less(x.pubkey, e.pubkey) || (x.pubkey == e.pubkey && Newer(x, e)))
  }

  /** The matches near enough for a limit, author by author: see `NearSet`, with places counted by pubkey and age. */
  ghost function AuthorsNear(v: View, f: Filter, now: int, authors: seq<string>, limit: nat): set<Event> {
    if authors == [] then {}
    else
      var before := AuthorsNear(v, f, now, authors[..|authors| - 1], limit);
      before + set e | e in Matches(v, f, now) && ListedWithin(v, f, now, authors[|authors| - 1], limit, e, before)
  }

  ghost predicate ListedWithin(v: View, f: Filter, now: int, a: string, limit: nat, e: Event, gone: set<Event>) {
    StartsWith(e.pubkey, a) && |ListedBefore(v, f, now, a, e) - gone| < limit
  }

  lemma OneAuthorKey(e: Event)
    ensures KeysFor(ByAuthor, e) == {AuthorKey(e.pubkey, e.createdAt, e.id)}
  {
    hide AuthorKey;
  }

  lemma AuthorHasEntry(b: Base, v: View, f: Filter, now: int, a: string, e: Event)
    requires Consistent(b, v) && Timely(v, f, now) && PlainPubkeys(v, f, now) && f.since.None?
    requires |a| <= 64 && e in Matches(v, f, now)
    ensures HasEntry(ByAuthor, RangeOf(ByAuthor, a, f), e) <==> StartsWith(e.pubkey, a)
  {
    hide Consistent, Matches, InRange, TimeRangeForPrefix, AuthorKey, MatchFilter, StartsWith, PlainPubkeys, KeysFor,
         Timely;
    OneAuthorKey(e);
    MatchInWindow(b, v, f, now, e);
    var k := AuthorKey(e.pubkey, e.createdAt, e.id);
    if InRange(k, RangeOf(ByAuthor, a, f)) {
      UnderAuthor(a, e, f.until);
    }
    if StartsWith(e.pubkey, a) {
      AuthorEntry(b, v, f, now, a, e);
      assert k in KeysFor(ByAuthor, e);
    }
  }

  lemma PrecedesByAuthor(range: Range, x: Event, e: Event)
    requires InRange(AuthorKey(e.pubkey, e.createdAt, e.id), range)
    ensures Precedes(ByAuthor, range, x, e) <==>
      InRange(AuthorKey(x.pubkey, x.createdAt, x.id), range) &&
      Less(AuthorKey(x.pubkey, x.createdAt, x.id), AuthorKey(e.pubkey, e.createdAt, e.id))
  {
    hide AuthorKey, InRange, Less, KeysFor;
    OneAuthorKey(x);
    OneAuthorKey(e);
    var k := AuthorKey(x.pubkey, x.createdAt, x.id);
    assert AuthorKey(e.pubkey, e.createdAt, e.id) in KeysFor(ByAuthor, e) && k in KeysFor(ByAuthor, x);
    assert AheadOfAll(ByAuthor, range, k, e) <==> Less(k, AuthorKey(e.pubkey, e.createdAt, e.id));
  }

  /** The matches ahead of an event under an author string are those the pubkeys and ages put before it. */
  lemma AheadByAuthor(b: Base, v: View, f: Filter, now: int, a: string, e: Event)
    requires Consistent(b, v) && Timely(v, f, now) && PlainPubkeys(v, f, now) && f.since.None?
    requires |a| <= 64 && e in Matches(v, f, now) && StartsWith(e.pubkey, a)
    ensures Ahead(v, ByAuthor, a, f, now, e) == ListedBefore(v, f, now, a, e)
  {
    hide Consistent, Matches, InRange, TimeRangeForPrefix, AuthorKey, MatchFilter, StartsWith, PlainPubkeys, Newer,
         Less, Precedes;
    var range := RangeOf(ByAuthor, a, f);
    AuthorEntry(b, v, f, now, a, e);
    MatchInWindow(b, v, f, now, e);
    forall x | x in Matches(v, f, now)
      ensures Precedes(ByAuthor, range, x, e) <==>
        StartsWith(x.pubkey, a) && (Less(x.pubkey, e.pubkey) || (x.pubkey == e.pubkey && Newer(x, e)))
    {
      MatchInWindow(b, v, f, now, x);
      PrecedesByAuthor(range, x, e);
      AuthorKeyOrder(x, e);
      if InRange(AuthorKey(x.pubkey, x.createdAt, x.id), range) {
        UnderAuthor(a, x, f.until);
      }
      if StartsWith(x.pubkey, a) {
        AuthorEntry(b, v, f, now, a, x);
      }
    }
  }

  lemma {:induction false} AuthorsNearIs(b: Base, v: View, f: Filter, now: int, authors: seq<string>, limit: nat)
    requires Consistent(b, v) && Timely(v, f, now) && PlainPubkeys(v, f, now) && f.since.None?
    requires forall i :: 0 <= i < |authors| ==> |authors[i]| <= 64
    ensures NearSet(v, ByAuthor, authors, f, now, limit) == AuthorsNear(v, f, now, authors, limit)
  {
    hide Consistent, Matches, Timely, PlainPubkeys, NearUnder, ListedWithin;
    if authors != [] {
      var init, last := authors[..|authors| - 1], authors[|authors| - 1];
      var before := AuthorsNear(v, f, now, init, limit);
      AuthorsNearIs(b, v, f, now, init, limit);
      forall e | e in Matches(v, f, now)
        ensures NearUnder(v, ByAuthor, last, f, now, limit, e, before) <==> ListedWithin(v, f, now, last, limit, e, before)
      {
        NearUnderAuthor(b, v, f, now, last, limit, e, before);
      }
    }
  }

  lemma NearUnderAuthor(b: Base, v: View, f: Filter, now: int, a: string, limit: nat, e: Event, gone: set<Event>)
    requires Consistent(b, v) && Timely(v, f, now) && PlainPubkeys(v, f, now) && f.since.None?
    requires |a| <= 64 && e in Matches(v, f, now)
    ensures NearUnder(v, ByAuthor, a, f, now, limit, e, gone) <==> ListedWithin(v, f, now, a, limit, e, gone)
  {
    hide Consistent, Matches, Timely, PlainPubkeys, Ahead, ListedBefore, HasEntry, StartsWith, RangeOf;
    AuthorHasEntry(b, v, f, now, a, e);
    if StartsWith(e.pubkey, a) {
      AheadByAuthor(b, v, f, now, a, e);
    }
  }

  /**
   * Without kinds and without since, for any list of authors and prefixes, overlapping or not: a query answers right
   * exactly when each of the newest `limit` matches is near, counting by pubkey and age alone.
   */
  lemma AuthorPrefixesExactIff(b: Base, v: View, f: Filter, now: int, limit: nat)
    requires Consistent(b, v) && !LooksUpIds(f) && AuthorsFit(f) && !Listed(f.kinds) && f.since.None?
    requires PlainPubkeys(v, f, now) && Timely(v, f, now)
    ensures Answer(v, f, now, limit) == Top(Matches(v, f, now), limit) <==>
      Top(Matches(v, f, now), limit) <= AuthorsNear(v, f, now, f.authors.value, limit)
  {
    hide Consistent, Matches, LooksUpIds, Timely, PlainPubkeys, Answer, Top, NearSet, AuthorsNear;
    AnswerExactIff(b, v, f, now, limit);
    AuthorsNearIs(b, v, f, now, f.authors.value, limit);
  }

  /** No match's pubkey starts with two of the listed authors. */
  ghost predicate AuthorsApart(v: View, f: Filter, now: int, authors: seq<string>) {
    forall e, i, j :: e in Matches(v, f, now) && 0 <= i < j < |authors| ==>
      !(StartsWith(e.pubkey, authors[i]) && StartsWith(e.pubkey, authors[j]))
  }

  /** Under its author string the event has no more matches listed before it than there are newer matches. */
  ghost predicate ListedInPlace(v: View, f: Filter, now: int, a: string, e: Event) {
    |ListedBefore(v, f, now, a, e)| <= |NewerThan(Matches(v, f, now), e)|
  }

  /**
   * Without kinds and without since, authors and prefixes that do not overlap are answered exactly for every limit
   * exactly when no match has more matches listed before it under its own author string than there are newer ones.
   */
  lemma ApartAuthorsExactIff(b: Base, v: View, f: Filter, now: int)
    requires Consistent(b, v) && !LooksUpIds(f) && AuthorsFit(f) && !Listed(f.kinds) && f.since.None?
    requires PlainPubkeys(v, f, now) && Timely(v, f, now) && AuthorsApart(v, f, now, f.authors.value)
    ensures Exact(v, f, now) <==>
      forall e, i :: e in Matches(v, f, now) && 0 <= i < |f.authors.value| && StartsWith(e.pubkey, f.authors.value[i]) ==>
        ListedInPlace(v, f, now, f.authors.value[i], e)
  {
    hide Consistent, Matches, LooksUpIds, Timely, PlainPubkeys, Exact, StartsWith, HasEntry, RangeOf, Separate,
         ListedInPlace, PlacedWithin, InPlace, MatchFilter, NewerThan;
    var authors, all := f.authors.value, Matches(v, f, now);
    ApartSeparate(b, v, f, now, authors);
    SeparateExactIff(b, v, f, now);
    forall e, i | e in all && 0 <= i < |authors|
      ensures StartsWith(e.pubkey, authors[i]) ==>
        (InPlace(v, ByAuthor, authors, f, now, e) <==> ListedInPlace(v, f, now, authors[i], e))
    {
      if StartsWith(e.pubkey, authors[i]) {
        InPlaceByAuthor(b, v, f, now, authors, i, e);
      }
    }
    forall e | e in all ensures exists i :: 0 <= i < |authors| && StartsWith(e.pubkey, authors[i]) {
      ListedBySome(b, v, f, now, e);
    }
  }

  lemma ListedBySome(b: Base, v: View, f: Filter, now: int, e: Event)
    requires Consistent(b, v) && e in Matches(v, f, now) && f.authors.Some?
    ensures exists i :: 0 <= i < |f.authors.value| && StartsWith(e.pubkey, f.authors.value[i])
  {
    hide Consistent, Matches, StartsWith;
    MatchInWindow(b, v, f, now, e);
  }

  lemma ApartSeparate(b: Base, v: View, f: Filter, now: int, authors: seq<string>)
    requires Consistent(b, v) && Timely(v, f, now) && PlainPubkeys(v, f, now) && f.since.None?
    requires AuthorsApart(v, f, now, authors) && forall i :: 0 <= i < |authors| ==> |authors[i]| <= 64
    ensures Separate(v, ByAuthor, authors, f, now)
  {
    hide Consistent, Matches, Timely, PlainPubkeys, HasEntry, RangeOf, StartsWith;
    forall e, i | e in Matches(v, f, now) && 0 <= i < |authors|
      ensures HasEntry(ByAuthor, RangeOf(ByAuthor, authors[i], f), e) <==> StartsWith(e.pubkey, authors[i])
    {
      AuthorHasEntry(b, v, f, now, authors[i], e);
    }
  }

  lemma InPlaceByAuthor(b: Base, v: View, f: Filter, now: int, authors: seq<string>, i: nat, e: Event)
    requires Consistent(b, v) && Timely(v, f, now) && PlainPubkeys(v, f, now) && f.since.None?
    requires AuthorsApart(v, f, now, authors) && forall j :: 0 <= j < |authors| ==> |authors[j]| <= 64
    requires e in Matches(v, f, now) && i < |authors| && StartsWith(e.pubkey, authors[i])
    ensures InPlace(v, ByAuthor, authors, f, now, e) <==> ListedInPlace(v, f, now, authors[i], e)
  {
    hide Consistent, Matches, Timely, PlainPubkeys, HasEntry, RangeOf, StartsWith, Ahead, ListedBefore, NewerThan;
    var rank := |NewerThan(Matches(v, f, now), e)|;
    forall j | 0 <= j < |authors| && j != i ensures !HasEntry(ByAuthor, RangeOf(ByAuthor, authors[j], f), e) {
      AuthorHasEntry(b, v, f, now, authors[j], e);
    }
    AuthorHasEntry(b, v, f, now, authors[i], e);
    AheadByAuthor(b, v, f, now, authors[i], e);
    if InPlace(v, ByAuthor, authors, f, now, e) {
      var j :| 0 <= j < |authors| && PlacedWithin(v, ByAuthor, authors[j], f, now, rank + 1, e);
      assert j == i;
    }
    if ListedInPlace(v, f, now, authors[i], e) {
      assert PlacedWithin(v, ByAuthor, authors[i], f, now, rank + 1, e);
    }
  }

  function AuthorQuery(prefix: string): Filter {
    Filter(None, Some([prefix]), None, None, None, Some(1), None, [])
  }

  /**
   * A wrong answer: of two events whose pubkeys share a prefix, the one with the smaller pubkey is the older. Asked
   * for the one newest event under the prefix, the query answers with the older.
   */
  lemma AuthorPrefixAnswersOlder(b: Base, older: Event, newer: Event, n: nat, from: string, now: int)
    requires Storable(b, older) && Storable(b, newer) && Class(older) == Class(newer) == Regular
    requires older.id != newer.id && Newer(newer, older) && U32(older.createdAt) && U32(newer.createdAt)
    requires !IsExpired(older, now) && !IsExpired(newer, now)
    requires n < 64 && older.pubkey[..n] == newer.pubkey[..n] && Less(older.pubkey, newer.pubkey)
    requires forall i :: 0 <= i < 64 ==> '!' < older.pubkey[i] < '~' && '!' < newer.pubkey[i] < '~'
    ensures var v, f := AfterTwo(b, older, newer, from), AuthorQuery(older.pubkey[..n]);
      Answer(v, f, now, 1) == {older} && Top(Matches(v, f, now), 1) == {newer}
  {
    hide Storable, Run, Matches, Newer, InRange, Less, AuthorKey, Consistent, AfterTwo, IsExpired, TimeRangeForPrefix,
         LiveEvents, ClassifyKind, LooksUpIds;
    PubkeysFull(b, older, newer);
    var v, f := AfterTwo(b, older, newer, from), AuthorQuery(older.pubkey[..n]);
    TwoPuts(b, older, newer, from);
    AuthorQueryMatches(v, older, newer, older.pubkey[..n], now);
    var k := AuthorKey(older.pubkey, older.createdAt, older.id);
    PrefixHoldsAuthor(older.pubkey[..n], older.pubkey, older.createdAt, older.id, None);
    AuthorKeyOrder(older, newer);
    FirstEntryWins(b, v, f, now, older, newer, k);
  }

  lemma PubkeysFull(b: Base, x: Event, y: Event)
    requires Storable(b, x) && Storable(b, y)
    ensures |x.pubkey| == |y.pubkey| == 64
  {
  }

  lemma AuthorQueryMatches(v: View, older: Event, newer: Event, prefix: string, now: int)
    requires LiveEvents(v) == map[older.id := older, newer.id := newer] && older.id != newer.id
    requires StartsWith(older.pubkey, prefix) && StartsWith(newer.pubkey, prefix)
    requires !IsExpired(older, now) && !IsExpired(newer, now)
    ensures Matches(v, AuthorQuery(prefix), now) == {older, newer} && !LooksUpIds(AuthorQuery(prefix))
  {
    hide LiveEvents, IsExpired;
    var f := AuthorQuery(prefix);
    forall e | e == older || e == newer ensures Serves(f, now, e) {
      assert StartsWith(e.pubkey, f.authors.value[0]);
    }
    var hits := Hits(LiveEvents(v), f, now);
    assert hits == map[older.id := older, newer.id := newer];
    assert hits[older.id] == older && hits[newer.id] == newer;
  }
}
