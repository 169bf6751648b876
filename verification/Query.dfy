/** The query engine of src/storage/query.ts: the scans and merges performed in place, with the answer they compute. */
module Query {
  import opened Strings
  import opened NostrEvents
  import opened Keys
  import opened Consensus
  import opened ViewInvariant
  import opened Filters
  import opened Ranking
  import opened Streams
  import opened Scans
  import opened Planner
  import opened Sets

  const DEFAULT_LIMIT := 500
  const COUNT_LIMIT := 100_000

  function LimitOf(f: Filter, override: Option<nat>): nat {
    if override.Some? then override.value else if f.limit.Some? then f.limit.value else DEFAULT_LIMIT
  }

  // ─── What a query asks for ──────────────────────────────────────

  /** The event satisfies every clause of the filter. */
  ghost predicate Satisfies(f: Filter, e: Event) {
    && (f.ids.Some? ==> exists p :: p in f.ids.value && p <= e.id)
    && (f.authors.Some? ==> exists p :: p in f.authors.value && p <= e.pubkey)
    && (f.kinds.Some? ==> e.kind in f.kinds.value)
    && (f.since.Some? ==> f.since.value <= e.createdAt) && (f.until.Some? ==> e.createdAt <= f.until.value)
    && (forall t :: t in f.tags && t.values != [] ==> Tagged(e, [t.name], t.values))
    && (f.search.Some? && f.search.value != "" ==>
          exists before, after :: ToLower(e.content) == before + ToLower(f.search.value) + after)
  }

  /** Some tag of the name carries one of the values. */
  predicate Tagged(e: Event, name: string, values: seq<string>) {
    exists tag :: tag in e.tags && |tag| > 1 && tag[0] == name && tag[1] in values
  }

  /** Asked for by full ids alone the store is looked up; otherwise only live events are asked for. */
  ghost predicate Asked(v: View, f: Filter, now: int, e: Event) {
    && Satisfies(f, e) && !IsExpired(e, now)
    && if f.ids.Some? && f.ids.value != [] && (forall p :: p in f.ids.value ==> |p| == 64)
       then e.id in v.events && v.events[e.id] == e
       else e.id in LiveEvents(v) && LiveEvents(v)[e.id] == e
  }

  lemma PrefixesAre(prefixes: seq<string>, s: string)
    ensures PrefixedBy(prefixes, s) <==> exists p :: p in prefixes && p <= s
  {
    if i :| 0 <= i < |prefixes| && StartsWith(s, prefixes[i]) {
      assert prefixes[i] in prefixes && prefixes[i] <= s;
    }
    if p :| p in prefixes && p <= s {
      var i :| 0 <= i < |prefixes| && prefixes[i] == p;
      assert StartsWith(s, prefixes[i]);
    }
  }

  lemma TaggedIs(t: TagFilter, e: Event)
    ensures MatchTag(t, e) <==> t.values == [] || Tagged(e, [t.name], t.values)
  {
    if i :| 0 <= i < |t.values| && HasTag(e, t.name, t.values[i]) {
      var j :| 0 <= j < |e.tags| && |e.tags[j]| > 1 && e.tags[j][0] == [t.name] && e.tags[j][1] == t.values[i];
      assert e.tags[j] in e.tags;
    }
    if tag :| tag in e.tags && |tag| > 1 && tag[0] == [t.name] && tag[1] in t.values {
      var j :| 0 <= j < |e.tags| && e.tags[j] == tag;
      var i :| 0 <= i < |t.values| && t.values[i] == tag[1];
      assert HasTag(e, t.name, t.values[i]);
    }
  }

  lemma IncludesIs(s: string, sub: string)
    ensures Includes(s, sub) <==> exists before, after :: s == before + sub + after
  {
    if i :| 0 <= i <= |s| - |sub| && StartsWith(s[i..], sub) {
      assert s == s[..i] + sub + s[i..][|sub|..];
    }
    if before, after :| s == before + sub + after {
      assert s[|before|..][..|sub|] == sub;
    }
  }

  lemma SatisfiesIs(f: Filter, e: Event)
    ensures MatchFilter(f, e) <==> Satisfies(f, e)
  {
    hide PrefixedBy, MatchTag, Includes, Tagged, ToLower;
    if f.ids.Some? {
      PrefixesAre(f.ids.value, e.id);
    }
    if f.authors.Some? {
      PrefixesAre(f.authors.value, e.pubkey);
    }
    TagClauses(f.tags, e);
    if f.search.Some? {
      IncludesIs(ToLower(e.content), ToLower(f.search.value));
    }
  }

  lemma TagClauses(tags: seq<TagFilter>, e: Event)
    ensures (forall i :: 0 <= i < |tags| ==> MatchTag(tags[i], e)) <==>
      forall t :: t in tags && t.values != [] ==> Tagged(e, [t.name], t.values)
  {
    hide MatchTag, Tagged;
    forall t ensures MatchTag(t, e) <==> t.values == [] || Tagged(e, [t.name], t.values) {
      TaggedIs(t, e);
    }
    assert forall i :: 0 <= i < |tags| ==> tags[i] in tags;
  }

  /** What a query is to select from is what is asked for. */
  lemma AskedIs(b: Base, v: View, f: Filter, now: int, e: Event)
    requires Consistent(b, v)
    ensures e in Matches(v, f, now) <==> Asked(v, f, now, e)
  {
    hide Consistent, Matches, MatchFilter, Satisfies, IsExpired, LiveEvents;
    MatchIs(b, v, f, now, e);
    SatisfiesIs(f, e);
    LooksUpIs(f);
    hide LooksUpIds;
  }

  lemma LooksUpIs(f: Filter)
    ensures LooksUpIds(f) <==> f.ids.Some? && f.ids.value != [] && forall p :: p in f.ids.value ==> |p| == 64
  {
    if f.ids.Some? {
      assert forall i :: 0 <= i < |f.ids.value| ==> f.ids.value[i] in f.ids.value;
    }
  }

  /** Later, or at the same second with the smaller id. */
  predicate Ahead(x: Event, e: Event) {
    x.createdAt > e.createdAt || (x.createdAt == e.createdAt && Less(x.id, e.id))
  }

  /** The list is newest first and holds at most `n` of the events asked for. */
  ghost predicate ListsNewest(v: View, f: Filter, now: int, n: nat, r: seq<Event>) {
    && |r| <= n && (forall e :: e in r ==> Asked(v, f, now, e))
    && (forall i, j :: 0 <= i < j < |r| ==> Ahead(r[i], r[j]))
  }

  /** And it misses none, unless it is full and everything in it is ahead of what it misses. */
  ghost predicate MissesNone(v: View, f: Filter, now: int, n: nat, r: seq<Event>) {
    forall e :: Asked(v, f, now, e) ==> e in r || (|r| == n && forall x :: x in r ==> Ahead(x, e))
  }

  /** Full authors, times and bounds that fit 32 bits, and no tag value with a separator in it: the ordinary query. */
  ghost predicate Ordinary(v: View, f: Filter) {
    && (forall id :: id in LiveEvents(v) ==> 0 <= LiveEvents(v)[id].createdAt < 0x1_0000_0000)
    && (f.since.Some? ==> 0 <= f.since.value < 0x1_0000_0000) && (f.until.Some? ==> 0 <= f.until.value < 0x1_0000_0000)
    && (f.authors.Some? ==> forall a :: a in f.authors.value ==> |a| == 64)
    && (forall t, value :: t in f.tags && value in t.values ==> value != "" && '!' !in value)
    && (forall id, tag :: id in LiveEvents(v) && tag in LiveEvents(v)[id].tags && |tag| > 1 ==> '!' !in tag[1])
  }

  lemma OrdinaryAnswerable(b: Base, v: View, f: Filter, now: int)
    requires Consistent(b, v) && Ordinary(v, f)
    ensures Answerable(v, f, now)
  {
    hide Consistent, Matches, LiveEvents, LooksUpIds, IndexFor, FirstTag, TagsServed, AuthorsInFull;
    if !LooksUpIds(f) {
      forall e | e in Matches(v, f, now) ensures e.id in LiveEvents(v) && LiveEvents(v)[e.id] == e {
        LiveMatch(b, v, f, now, e);
      }
      AuthorsAreFull(b, v, f, now);
      if FirstTag(f.tags).Some? {
        TagsAreApart(b, v, f, now);
      }
      TagBranch(f);
    }
  }

  lemma LiveMatch(b: Base, v: View, f: Filter, now: int, e: Event)
    requires Consistent(b, v) && !LooksUpIds(f) && e in Matches(v, f, now)
    ensures e.id in LiveEvents(v) && LiveEvents(v)[e.id] == e
  {
    hide Consistent, Matches, LooksUpIds, LiveEvents, Serves;
    MatchIs(b, v, f, now, e);
  }

  lemma TagBranch(f: Filter)
    ensures IndexFor(f) == ByTag ==> FirstTag(f.tags).Some?
  {
  }

  lemma AuthorsAreFull(b: Base, v: View, f: Filter, now: int)
    requires Consistent(b, v) && (f.authors.Some? ==> forall a :: a in f.authors.value ==> |a| == 64)
    ensures AuthorsInFull(v, f, now)
  {
    hide Consistent, Matches;
    if f.authors.Some? {
      assert forall i :: 0 <= i < |f.authors.value| ==> f.authors.value[i] in f.authors.value;
    }
    FullAuthorsInFull(b, v, f, now);
  }

  lemma TagsAreApart(b: Base, v: View, f: Filter, now: int)
    requires Consistent(b, v) && Ordinary(v, f) && !LooksUpIds(f) && FirstTag(f.tags).Some?
    ensures TagsServed(v, f, now, FirstTag(f.tags).value)
  {
    hide Consistent, Matches, LooksUpIds, LiveEvents, Apart, IndexableTags, TagsServed;
    FirstTagListed(f.tags);
    var t := FirstTag(f.tags).value;
    assert t in f.tags;
    forall i | 0 <= i < |t.values| ensures t.values[i] != "" && NoStraddle(v, f, now, t.name, t.values[i]) {
      assert t.values[i] in t.values;
      NothingStraddles(b, v, f, now, t.name, t.values[i]);
    }
    PlainTagsServed(b, v, f, now, t);
  }

  lemma NothingStraddles(b: Base, v: View, f: Filter, now: int, name: char, value: string)
    requires Consistent(b, v) && Ordinary(v, f) && !LooksUpIds(f) && '!' !in value
    ensures NoStraddle(v, f, now, name, value)
  {
    hide Consistent, Matches, LooksUpIds, LiveEvents, Apart, IndexableTags;
    forall e, t | e in Matches(v, f, now) && t in IndexableTags(e.tags) ensures Apart(value, t.value) {
      LiveMatch(b, v, f, now, e);
      IndexableTagsComplete(e.tags, t.name, t.value);
      var j :| 0 <= j < |e.tags| && |e.tags[j]| > 1 && e.tags[j][0] == t.name && e.tags[j][1] == t.value;
      assert e.tags[j] in e.tags;
      ApartWithoutSeparator(value, t.value);
    }
  }

  lemma ApartWithoutSeparator(value: string, other: string)
    requires '!' !in value && '!' !in other
    ensures Apart(value, other)
  {
    if StartsWith(other, value + SEPARATOR) {
      HoldsSeparator(other, value);
    }
    if StartsWith(value, other + SEPARATOR) {
      HoldsSeparator(value, other);
    }
  }

  lemma HoldsSeparator(s: string, prefix: string)
    requires StartsWith(s, prefix + SEPARATOR)
    ensures '!' in s
  {
    assert s[..|prefix| + 1][|prefix|] == '!';
  }

  /** The result list and seen set every scan of one query pushes to. */
  class Collector {
    var results: seq<Event>
    var seen: set<string>

    constructor ()
      ensures results == [] && Valid()
    {
      results, seen := [], {};
    }

    ghost predicate Valid()
      reads this
    {
      seen == IdSet(results) && DistinctIds(results)
    }

    method Push(e: Event)
      requires Valid() && e.id !in seen
      modifies this
      ensures Valid() && results == old(results) + [e] && seen == old(seen) + {e.id}
    {
      assert forall i :: 0 <= i < |results| ==> results[i].id in IdSet(results);
      results := results + [e];
      seen := seen + {e.id};
    }
  }

  // ─── Scanning ───────────────────────────────────────────────────

  lemma FirstHitsStep(ids: seq<string>, i: nat, hits: map<string, Event>, seen: set<string>)
    requires i < |ids|
    ensures FirstHits(ids[i..], hits, seen) ==
      if ids[i] in seen || ids[i] !in hits then FirstHits(ids[i + 1..], hits, seen)
      else [hits[ids[i]]] + FirstHits(ids[i + 1..], hits, seen + {ids[i]})
  {
    assert ids[i..][1..] == ids[i + 1..];
  }

  lemma FirstHitsEnd(ids: seq<string>, hits: map<string, Event>, seen: set<string>)
    ensures FirstHits(ids[|ids|..], hits, seen) == []
  {
  }

  lemma HitIs(events: map<string, Event>, f: Filter, now: int, id: string)
    ensures id in Hits(events, f, now) <==> id in events && !IsExpired(events[id], now) && MatchFilter(f, events[id])
    ensures id in Hits(events, f, now) ==> Hits(events, f, now)[id] == events[id]
  {
    hide IsExpired, MatchFilter;
  }

  lemma IdsInAt(index: map<string, string>, range: Range)
    ensures var ks, ids := Stream(index, range), IdsIn(index, range);
      |ids| == |ks| && forall i :: 0 <= i < |ks| ==> ks[i] in index && ids[i] == index[ks[i]]
  {
    hide InRange, Ascending;
    var ks := Stream(index, range);
    assert forall i :: 0 <= i < |ks| ==> ks[i] in ks;
  }

  lemma TakeAll(added: seq<Event>, rest: seq<Event>, cap: nat)
    requires |added| == cap || (rest == [] && |added| <= cap)
    ensures Take(added + rest, cap) == added
  {
  }

  lemma AppendOne(added: seq<Event>, e: Event, rest: seq<Event>)
    ensures added + ([e] + rest) == (added + [e]) + rest
  {
  }

  /** One scan pushes the first `cap` hits of the range that were not seen before, in key order. */
  method ScanIndex(index: map<string, string>, range: Range, events: map<string, Event>, f: Filter, now: int,
                   acc: Collector, cap: nat)
    requires acc.Valid() && FiledById(events)
    modifies acc
    ensures acc.Valid()
    ensures acc.results == old(acc.results) + Taken(index, range, Hits(events, f, now), old(acc.seen), cap)
  {
    hide InRange, MatchFilter, IsExpired, Ascending, Stream, Hits, FirstHits, IdsIn, IdSet, Take, DistinctIds;
    var ks := ReadStream(index, range);
    IdsInAt(index, range);
    ghost var hits, ids := Hits(events, f, now), IdsIn(index, range);
    ghost var all := FirstHits(ids, hits, acc.seen);
    ghost var added: seq<Event> := [];
    assert ids[0..] == ids;
    var matched := 0;
    var i := 0;
    while i < |ks|
      invariant 0 <= i <= |ks| && acc.Valid() && matched == |added| <= cap
      invariant acc.results == old(acc.results) + added
      invariant all == added + FirstHits(ids[i..], hits, acc.seen)
    {
      if matched >= cap {
        break;
      }
      var id := index[ks[i]];
      HitIs(events, f, now, id);
      FirstHitsStep(ids, i, hits, acc.seen);
      i := i + 1;
      if id in acc.seen || id !in events || IsExpired(events[id], now) {
        continue;
      }
      if MatchFilter(f, events[id]) {
        AppendOne(added, events[id], FirstHits(ids[i..], hits, acc.seen + {id}));
        acc.Push(events[id]);
        added := added + [events[id]];
        matched := matched + 1;
      }
    }
    FirstHitsEnd(ids, hits, acc.seen);
    TakeAll(added, FirstHits(ids[i..], hits, acc.seen), cap);
  }

  /** Scan one prefix of an index of the view. */
  method ScanPrefix(subs: View, s: IndexName, prefix: string, f: Filter, now: int, acc: Collector, limit: nat,
                    ghost prefixes: seq<string>)
    requires acc.Valid() && FiledById(subs.events) && acc.results == Gather(subs, s, prefixes, f, now, limit)
    modifies acc
    ensures acc.Valid() && acc.results == Gather(subs, s, prefixes + [prefix], f, now, limit)
  {
    hide InRange, Hits, FirstHits, IdsIn, Take, FiledById, RangeOf, Index;
    assert (prefixes + [prefix])[..|prefixes|] == prefixes;
    FreshTaken(subs, s, prefix, f, now, acc.seen, limit);
    ScanIndex(Index(subs.indexes, s), RangeOf(s, prefix, f), subs.events, f, now, acc, limit);
  }

  // ─── The branches ───────────────────────────────────────────────

  /** The direct lookup: every full id once, whatever the limit. */
  method QueryIds(subs: View, f: Filter, now: int, acc: Collector)
    requires FiledById(subs.events) && f.ids.Some? && acc.Valid() && acc.results == []
    modifies acc
    ensures acc.Valid() && acc.results == FirstHits(f.ids.value, Hits(subs.events, f, now), {})
  {
    hide MatchFilter, IsExpired, Hits, FirstHits;
    var ids := f.ids.value;
    ghost var hits := Hits(subs.events, f, now);
    ghost var all := FirstHits(ids, hits, {});
    assert ids[0..] == ids && acc.seen == {};
    var i := 0;
    while i < |ids|
      invariant 0 <= i <= |ids| && acc.Valid()
      invariant all == acc.results + FirstHits(ids[i..], hits, acc.seen)
    {
      var id := ids[i];
      HitIs(subs.events, f, now, id);
      FirstHitsStep(ids, i, hits, acc.seen);
      i := i + 1;
      if id in acc.seen || id !in subs.events || IsExpired(subs.events[id], now) {
        continue;
      }
      if MatchFilter(f, subs.events[id]) {
        AppendOne(acc.results, subs.events[id], FirstHits(ids[i..], hits, acc.seen + {id}));
        acc.Push(subs.events[id]);
      }
    }
    FirstHitsEnd(ids, hits, acc.seen);
  }

  /** The author+kind index, for every listed author and kind. */
  method QueryAuthorKinds(subs: View, f: Filter, now: int, acc: Collector, limit: nat)
    requires FiledById(subs.events) && f.authors.Some? && f.kinds.Some? && acc.Valid() && acc.results == []
    modifies acc
    ensures acc.Valid()
    ensures acc.results == Gather(subs, ByAuthorKind, AuthorKindPrefixes(f.authors.value, f.kinds.value), f, now, limit)
  {
    hide FiledById, AuthorKindPrefix, Gather, AuthorKindPrefixes, OneAuthorPrefixes;
    var authors, kinds := f.authors.value, f.kinds.value;
    GatherNothing(subs, ByAuthorKind, f, now, limit);
    NoAuthors(authors, kinds);
    var i := 0;
    while i < |authors|
      invariant 0 <= i <= |authors| && acc.Valid()
      invariant acc.results == Gather(subs, ByAuthorKind, AuthorKindPrefixes(authors[..i], kinds), f, now, limit)
    {
      ghost var before := AuthorKindPrefixes(authors[..i], kinds);
      AuthorSteps(before, authors, i, kinds);
      var j := 0;
      while j < |kinds|
        invariant 0 <= j <= |kinds| && acc.Valid()
        invariant acc.results == Gather(subs, ByAuthorKind, before + OneAuthorPrefixes(authors[i], kinds[..j]), f, now, limit)
      {
        ghost var prefixes := before + OneAuthorPrefixes(authors[i], kinds[..j]);
        var prefix := AuthorKindPrefix(authors[i], kinds[j]);
        KindStep(before, authors[i], kinds, j);
        ScanPrefix(subs, ByAuthorKind, prefix, f, now, acc, limit, prefixes);
        j := j + 1;
      }
      assert kinds[..j] == kinds;
      i := i + 1;
    }
    assert authors[..i] == authors;
  }

  lemma NoAuthors(authors: seq<string>, kinds: seq<int>)
    ensures AuthorKindPrefixes(authors[..0], kinds) == []
  {
  }

  /** An author's prefixes follow those of the authors before it. */
  lemma AuthorSteps(before: seq<string>, authors: seq<string>, i: nat, kinds: seq<int>)
    requires i < |authors| && before == AuthorKindPrefixes(authors[..i], kinds)
    ensures before + OneAuthorPrefixes(authors[i], kinds[..0]) == before
    ensures AuthorKindPrefixes(authors[..i + 1], kinds) == before + OneAuthorPrefixes(authors[i], kinds)
  {
    hide AuthorKindPrefix;
    assert authors[..i + 1][..i] == authors[..i];
  }

  lemma KindStep(before: seq<string>, author: string, kinds: seq<int>, j: nat)
    requires j < |kinds|
    ensures before + OneAuthorPrefixes(author, kinds[..j + 1]) ==
            before + OneAuthorPrefixes(author, kinds[..j]) + [AuthorKindPrefix(author, kinds[j])]
  {
    hide AuthorKindPrefix;
    assert kinds[..j + 1][..j] == kinds[..j];
  }

  /** The author index, for every listed author. */
  method QueryAuthors(subs: View, f: Filter, now: int, acc: Collector, limit: nat)
    requires FiledById(subs.events) && f.authors.Some? && acc.Valid() && acc.results == []
    modifies acc
    ensures acc.Valid() && acc.results == Gather(subs, ByAuthor, f.authors.value, f, now, limit)
  {
    hide FiledById, Gather;
    var authors := f.authors.value;
    GatherNothing(subs, ByAuthor, f, now, limit);
    var i := 0;
    while i < |authors|
      invariant 0 <= i <= |authors| && acc.Valid()
      invariant acc.results == Gather(subs, ByAuthor, authors[..i], f, now, limit)
    {
      assert authors[..i + 1] == authors[..i] + [authors[i]];
      ScanPrefix(subs, ByAuthor, authors[i], f, now, acc, limit, authors[..i]);
      i := i + 1;
    }
    assert authors[..i] == authors;
  }

  /** The kind index, for every listed kind. */
  method QueryKinds(subs: View, f: Filter, now: int, acc: Collector, limit: nat)
    requires FiledById(subs.events) && f.kinds.Some? && acc.Valid() && acc.results == []
    modifies acc
    ensures acc.Valid() && acc.results == Gather(subs, ByKind, KindPrefixes(f.kinds.value), f, now, limit)
  {
    hide FiledById, Gather, EncodeKind;
    var kinds := f.kinds.value;
    GatherNothing(subs, ByKind, f, now, limit);
    var i := 0;
    while i < |kinds|
      invariant 0 <= i <= |kinds| && acc.Valid()
      invariant acc.results == Gather(subs, ByKind, KindPrefixes(kinds[..i]), f, now, limit)
    {
      assert kinds[..i + 1][..i] == kinds[..i];
      ScanPrefix(subs, ByKind, EncodeKind(kinds[i]), f, now, acc, limit, KindPrefixes(kinds[..i]));
      i := i + 1;
    }
    assert kinds[..i] == kinds;
  }

  /** The tag index, for every value of one tag filter. */
  method QueryTags(subs: View, t: TagFilter, f: Filter, now: int, acc: Collector, limit: nat)
    requires FiledById(subs.events) && acc.Valid() && acc.results == []
    modifies acc
    ensures acc.Valid() && acc.results == Gather(subs, ByTag, TagPrefixes(t.name, t.values), f, now, limit)
  {
    hide FiledById, Gather, TagPrefix;
    GatherNothing(subs, ByTag, f, now, limit);
    var i := 0;
    while i < |t.values|
      invariant 0 <= i <= |t.values| && acc.Valid()
      invariant acc.results == Gather(subs, ByTag, TagPrefixes(t.name, t.values[..i]), f, now, limit)
    {
      assert t.values[..i + 1][..i] == t.values[..i];
      ScanPrefix(subs, ByTag, TagPrefix([t.name], t.values[i]), f, now, acc, limit, TagPrefixes(t.name, t.values[..i]));
      i := i + 1;
    }
    assert t.values[..i] == t.values;
  }

  /** The global index. */
  method QueryAll(subs: View, f: Filter, now: int, acc: Collector, limit: nat)
    requires FiledById(subs.events) && acc.Valid() && acc.results == []
    modifies acc
    ensures acc.Valid() && acc.results == Gather(subs, ByCreatedAt, [""], f, now, limit)
  {
    hide FiledById, Gather;
    GatherNothing(subs, ByCreatedAt, f, now, limit);
    assert [] + [""] == [""];
    ScanPrefix(subs, ByCreatedAt, "", f, now, acc, limit, []);
  }

  // ─── The query ──────────────────────────────────────────────────

  /** Sort newest first and cut to the limit. */
  method Finalize(events: seq<Event>, limit: nat) returns (r: seq<Event>)
    requires DistinctIds(events)
    ensures NewestFirst(r) && Elements(r) == Top(Elements(events), limit)
  {
    var sorted := SortNewestFirst(events);
    CutIsTop(sorted, limit);
    r := if |sorted| > limit then sorted[..limit] else sorted;
  }

  /**
   * A query returns its answer newest first: at most `limit` stored, unexpired, matching events, and exactly the
   * `limit` newest of all of them when it is answerable.
   */
  method QueryFilter(ghost b: Base, subs: View, f: Filter, override: Option<nat>, now: int) returns (r: seq<Event>)
    requires Consistent(b, subs)
    ensures NewestFirst(r) && |r| <= LimitOf(f, override) && Elements(r) <= Matches(subs, f, now)
    ensures Elements(r) == Answer(subs, f, now, LimitOf(f, override))
    ensures Answerable(subs, f, now) ==> Elements(r) == Top(Matches(subs, f, now), LimitOf(f, override))
    ensures override.Some? ==> Returns(subs, f, now, override.value, r)
    ensures override.None? && f.limit.Some? ==> Returns(subs, f, now, f.limit.value, r)
    ensures override.None? && f.limit.None? ==> Returns(subs, f, now, 500, r)
  {
    hide Consistent, Matches, Answerable, Gather, FirstHits, FirstTag, Top, FiledById, NewestFirst, Answer, Collected, Returns;
    StoredFiled(b, subs);
    CollectedIs(subs, f, now, LimitOf(f, override));
    LooksUpListed(f);
    hide LooksUpIds;
    var limit := LimitOf(f, override);
    var acc := new Collector();
    if LooksUpIds(f) {
      QueryIds(subs, f, now, acc);
    } else if Listed(f.authors) && Listed(f.kinds) {
      QueryAuthorKinds(subs, f, now, acc, limit);
    } else if Listed(f.authors) {
      QueryAuthors(subs, f, now, acc, limit);
    } else if Listed(f.kinds) {
      QueryKinds(subs, f, now, acc, limit);
    } else if FirstTag(f.tags).Some? {
      QueryTags(subs, FirstTag(f.tags).value, f, now, acc, limit);
    } else {
      QueryAll(subs, f, now, acc, limit);
    }
    r := Finalize(acc.results, limit);
    AnswerIs(subs, f, now, limit);
    CollectedSound(b, subs, f, now, limit);
    TopIsSmall(r, Elements(acc.results), limit);
    if Answerable(subs, f, now) {
      AnswerExact(b, subs, f, now, limit);
    }
    ReturnsIt(b, subs, f, now, limit, r);
  }

  /**
   * At most `n` of the events asked for, newest first; and when the query is an ordinary or otherwise answerable one, none
   * is missed that is not behind `n` others.
   */
  ghost predicate Returns(v: View, f: Filter, now: int, n: nat, r: seq<Event>) {
    && ListsNewest(v, f, now, n, r)
    && (Ordinary(v, f) || Answerable(v, f, now) ==>
          MissesNone(v, f, now, n, r) && Elements(r) == Top(Matches(v, f, now), n))
  }

  lemma ReturnsIt(b: Base, v: View, f: Filter, now: int, n: nat, r: seq<Event>)
    requires Consistent(b, v) && NewestFirst(r) && |r| <= n && Elements(r) <= Matches(v, f, now)
    requires Answerable(v, f, now) ==> Elements(r) == Top(Matches(v, f, now), n)
    ensures Returns(v, f, now, n, r)
  {
    hide Consistent, Matches, Answerable, Asked, Top, Ordinary, Less;
    forall e ensures e in Matches(v, f, now) <==> Asked(v, f, now, e) {
      AskedIs(b, v, f, now, e);
    }
    assert forall e :: e in r ==> e in Elements(r);
    if Ordinary(v, f) {
      OrdinaryAnswerable(b, v, f, now);
    }
    if Answerable(v, f, now) {
      forall e | e in Matches(v, f, now) && e !in r ensures |r| == n && forall x :: x in r ==> Ahead(x, e) {
        MatchesDistinct(b, v, f, now);
        BehindTop(Matches(v, f, now), n, r, e);
      }
    }
  }

  /** What the top of a set leaves out is behind all of a full top. */
  lemma BehindTop(all: set<Event>, n: nat, r: seq<Event>, e: Event)
    requires NewestFirst(r) && Elements(r) == Top(all, n) && e in all && e !in r && |r| <= n
    requires forall x, y :: x in all && y in all && x.id == y.id ==> x == y
    ensures |r| == n && forall x :: x in r ==> Ahead(x, e)
  {
    hide Newer, Top;
    var es := Arranged(all);
    CutIsTop(es, n);
    NewestFirstUnique(r, if |es| > n then es[..n] else es);
    var i :| 0 <= i < |es| && es[i] == e;
    forall x | x in r ensures Ahead(x, e) {
      var j :| 0 <= j < |r| && r[j] == x;
      assert r[j] == es[j] && (|es| > n ==> i >= n);
      NewerIsAhead(es[j], e);
    }
  }

  lemma NewerIsAhead(x: Event, e: Event)
    ensures Newer(x, e) <==> Ahead(x, e)
  {
    hide Less;
  }

  lemma AnswerIs(v: View, f: Filter, now: int, limit: nat)
    ensures Answer(v, f, now, limit) == Top(Elements(Collected(v, f, now, limit)), limit)
  {
    hide Collected, Top;
  }

  /** What each branch is to collect. */
  lemma CollectedIs(v: View, f: Filter, now: int, limit: nat)
    ensures Collected(v, f, now, limit) ==
      if LooksUpIds(f) then FirstHits(f.ids.value, Hits(v.events, f, now), {})
      else if Listed(f.authors) && Listed(f.kinds) then
        Gather(v, ByAuthorKind, AuthorKindPrefixes(f.authors.value, f.kinds.value), f, now, limit)
      else if Listed(f.authors) then Gather(v, ByAuthor, f.authors.value, f, now, limit)
      else if Listed(f.kinds) then Gather(v, ByKind, KindPrefixes(f.kinds.value), f, now, limit)
      else if FirstTag(f.tags).Some? then
        Gather(v, ByTag, TagPrefixes(FirstTag(f.tags).value.name, FirstTag(f.tags).value.values), f, now, limit)
      else Gather(v, ByCreatedAt, [""], f, now, limit)
  {
    hide Gather, FirstHits, FirstTag, AuthorKindPrefixes, KindPrefixes, TagPrefixes;
  }

  lemma LooksUpListed(f: Filter)
    ensures LooksUpIds(f) ==> f.ids.Some?
  {
  }

  lemma TopIsSmall(r: seq<Event>, es: set<Event>, limit: nat)
    requires NewestFirst(r) && Elements(r) == Top(es, limit)
    ensures |r| <= limit && Elements(r) <= es
  {
    if |r| > limit {
      RankIsIndex(r, limit);
      var last := r[limit];
      assert last in Elements(r);
      SmallerSubset(NewerThan(Elements(r), last), NewerThan(es, last));
    }
  }

  // ─── Several filters ────────────────────────────────────────────

  /** Every event is the one stored under its id. */
  ghost predicate Stored(events: map<string, Event>, es: set<Event>) {
    forall e :: e in es ==> e.id in events && events[e.id] == e
  }

  lemma MatchesStored(b: Base, v: View, f: Filter, now: int)
    requires Consistent(b, v)
    ensures Stored(v.events, Matches(v, f, now))
  {
    hide Matches, Consistent, Candidates, Serves;
    forall e | e in Matches(v, f, now) ensures e.id in v.events && v.events[e.id] == e {
      MatchIs(b, v, f, now, e);
    }
  }

  /** Push the events not yet seen; returns how many there were. */
  method AddUnseen(events: map<string, Event>, acc: Collector, es: seq<Event>) returns (added: nat)
    requires acc.Valid() && Stored(events, Elements(acc.results)) && Stored(events, Elements(es))
    modifies acc
    ensures acc.Valid() && Elements(acc.results) == old(Elements(acc.results)) + Elements(es)
    ensures |acc.results| == |old(acc.results)| + added
  {
    added := 0;
    var i := 0;
    while i < |es|
      invariant 0 <= i <= |es| && acc.Valid()
      invariant Elements(acc.results) == old(Elements(acc.results)) + Elements(es[..i])
      invariant |acc.results| == |old(acc.results)| + added
    {
      assert es[..i + 1] == es[..i] + [es[i]];
      assert Elements(es[..i + 1]) == Elements(es[..i]) + {es[i]};
      assert es[i] in Elements(es);
      if es[i].id !in acc.seen {
        ghost var before := acc.results;
        acc.Push(es[i]);
        assert Elements(before + [es[i]]) == Elements(before) + {es[i]};
        added := added + 1;
      } else {
        var r :| r in acc.results && r.id == es[i].id;
        assert r in Elements(acc.results);
        assert r in old(Elements(acc.results)) || r in Elements(es[..i]);
        assert Elements(es[..i]) <= Elements(es);
        assert r == es[i];
      }
      i := i + 1;
    }
    assert es[..i] == es;
  }

  /** The union of the filters' own answers. */
  ghost function UnionOfAnswers(v: View, filters: seq<Filter>, now: int): set<Event> {
    if filters == [] then {}
    else
      var last := filters[|filters| - 1];
      UnionOfAnswers(v, filters[..|filters| - 1], now) + Answer(v, last, now, LimitOf(last, None))
  }

  /** What those answers should be: the newest of each filter's matches. */
  ghost function UnionOfTops(v: View, filters: seq<Filter>, now: int): set<Event> {
    if filters == [] then {}
    else
      var last := filters[|filters| - 1];
      UnionOfTops(v, filters[..|filters| - 1], now) + Top(Matches(v, last, now), LimitOf(last, None))
  }

  /** The events matching at least one filter. */
  ghost function UnionOfMatches(v: View, filters: seq<Filter>, now: int): set<Event> {
    if filters == [] then {}
    else UnionOfMatches(v, filters[..|filters| - 1], now) + Matches(v, filters[|filters| - 1], now)
  }

  lemma {:induction false} UnionStored(b: Base, v: View, filters: seq<Filter>, now: int)
    requires Consistent(b, v)
    ensures Stored(v.events, UnionOfMatches(v, filters, now))
  {
    hide Matches, Consistent;
    if filters != [] {
      UnionStored(b, v, filters[..|filters| - 1], now);
      MatchesStored(b, v, filters[|filters| - 1], now);
    }
  }

  lemma {:induction false} UnionExact(b: Base, v: View, filters: seq<Filter>, now: int)
    requires Consistent(b, v) && forall i :: 0 <= i < |filters| ==> Answerable(v, filters[i], now)
    ensures UnionOfAnswers(v, filters, now) == UnionOfTops(v, filters, now)
  {
    hide Matches, Consistent, Answerable, Answer;
    if filters != [] {
      UnionExact(b, v, filters[..|filters| - 1], now);
      var last := filters[|filters| - 1];
      AnswerExact(b, v, last, now, LimitOf(last, None));
    }
  }

  /** A filter's own limit. */
  function OwnLimit(f: Filter): nat {
    match f.limit
    case Some(n) => n
    case None => 500
  }

  lemma {:induction false} UnionOfAnswersIs(v: View, filters: seq<Filter>, now: int, e: Event)
    ensures e in UnionOfAnswers(v, filters, now) <==>
      exists i :: 0 <= i < |filters| && e in Answer(v, filters[i], now, OwnLimit(filters[i]))
  {
    hide Answer;
    if filters != [] {
      var init, last := filters[..|filters| - 1], filters[|filters| - 1];
      UnionOfAnswersIs(v, init, now, e);
      assert LimitOf(last, None) == OwnLimit(last);
      assert forall i :: 0 <= i < |init| ==> init[i] == filters[i];
    }
  }

  lemma {:induction false} UnionOfTopsIs(v: View, filters: seq<Filter>, now: int, e: Event)
    ensures e in UnionOfTops(v, filters, now) <==>
      exists i :: 0 <= i < |filters| && e in Top(Matches(v, filters[i], now), OwnLimit(filters[i]))
  {
    hide Top, Matches;
    if filters != [] {
      var init, last := filters[..|filters| - 1], filters[|filters| - 1];
      UnionOfTopsIs(v, init, now, e);
      assert LimitOf(last, None) == OwnLimit(last);
      assert forall i :: 0 <= i < |init| ==> init[i] == filters[i];
    }
  }

  lemma {:induction false} UnionOfMatchesIs(b: Base, v: View, filters: seq<Filter>, now: int, e: Event)
    requires Consistent(b, v)
    ensures e in UnionOfMatches(v, filters, now) <==> exists i :: 0 <= i < |filters| && Asked(v, filters[i], now, e)
  {
    hide Asked, Matches, Consistent;
    if filters != [] {
      var init, last := filters[..|filters| - 1], filters[|filters| - 1];
      UnionOfMatchesIs(b, v, init, now, e);
      AskedIs(b, v, last, now, e);
      assert forall i :: 0 <= i < |init| ==> init[i] == filters[i];
      assert last == filters[|filters| - 1];
    }
  }

  /** A REQ: the newest-first, duplicate-free union of what each filter alone returns. */
  method QueryFilters(ghost b: Base, subs: View, filters: seq<Filter>, now: int) returns (r: seq<Event>)
    requires Consistent(b, subs)
    ensures NewestFirst(r) && Elements(r) <= UnionOfMatches(subs, filters, now)
    ensures Elements(r) == UnionOfAnswers(subs, filters, now)
    ensures (forall i :: 0 <= i < |filters| ==> Answerable(subs, filters[i], now)) ==> Elements(r) == UnionOfTops(subs, filters, now)
    ensures forall i, j :: 0 <= i < j < |r| ==> Ahead(r[i], r[j])
    ensures forall e :: e in r <==>
      exists i :: 0 <= i < |filters| && e in Answer(subs, filters[i], now, OwnLimit(filters[i]))
    ensures (forall i :: 0 <= i < |filters| ==> Ordinary(subs, filters[i]) || Answerable(subs, filters[i], now)) ==>
      forall e :: e in r <==> exists i :: 0 <= i < |filters| && e in Top(Matches(subs, filters[i], now), OwnLimit(filters[i]))
  {
    hide Consistent, Matches, Answerable, Answer, Ordinary, NewestFirst, Top, OwnLimit, Ahead;
    var acc := new Collector();
    var i := 0;
    while i < |filters|
      invariant 0 <= i <= |filters| && acc.Valid() && fresh(acc)
      invariant Elements(acc.results) <= UnionOfMatches(subs, filters[..i], now)
      invariant Elements(acc.results) == UnionOfAnswers(subs, filters[..i], now)
    {
      assert filters[..i + 1][..i] == filters[..i];
      var result := QueryFilter(b, subs, filters[i], None, now);
      UnionStored(b, subs, filters[..i], now);
      MatchesStored(b, subs, filters[i], now);
      var added := AddUnseen(subs.events, acc, result);
      i := i + 1;
    }
    assert filters[..i] == filters;
    if forall i :: 0 <= i < |filters| ==> Answerable(subs, filters[i], now) {
      UnionExact(b, subs, filters, now);
    }
    r := SortNewestFirst(acc.results);
    AllAhead(r);
    UnionsAre(subs, filters, now, r);
    if forall i :: 0 <= i < |filters| ==> Ordinary(subs, filters[i]) || Answerable(subs, filters[i], now) {
      forall i | 0 <= i < |filters| ensures Answerable(subs, filters[i], now) {
        if Ordinary(subs, filters[i]) {
          OrdinaryAnswerable(b, subs, filters[i], now);
        }
      }
      UnionExact(b, subs, filters, now);
    }
  }

  lemma UnionsAre(v: View, filters: seq<Filter>, now: int, r: seq<Event>)
    ensures Elements(r) == UnionOfAnswers(v, filters, now) ==> forall e :: e in r <==>
      exists i :: 0 <= i < |filters| && e in Answer(v, filters[i], now, OwnLimit(filters[i]))
    ensures Elements(r) == UnionOfTops(v, filters, now) ==> forall e :: e in r <==>
      exists i :: 0 <= i < |filters| && e in Top(Matches(v, filters[i], now), OwnLimit(filters[i]))
  {
    hide Answer, Top, Matches, OwnLimit, UnionOfAnswers, UnionOfTops;
    forall e ensures e in UnionOfAnswers(v, filters, now) <==>
      exists i :: 0 <= i < |filters| && e in Answer(v, filters[i], now, OwnLimit(filters[i]))
    {
      UnionOfAnswersIs(v, filters, now, e);
    }
    forall e ensures e in UnionOfTops(v, filters, now) <==>
      exists i :: 0 <= i < |filters| && e in Top(Matches(v, filters[i], now), OwnLimit(filters[i]))
    {
      UnionOfTopsIs(v, filters, now, e);
    }
    assert forall e :: e in r <==> e in Elements(r);
  }

  lemma AllAhead(r: seq<Event>)
    requires NewestFirst(r)
    ensures forall i, j :: 0 <= i < j < |r| ==> Ahead(r[i], r[j])
  {
    hide Less;
  }

  /** No more matches than the count's own limit, each with an entry the scans can find; their order does not matter. */
  ghost predicate Countable(v: View, f: Filter, now: int) {
    && |Matches(v, f, now)| <= COUNT_LIMIT
    && (!LooksUpIds(f) ==> forall e :: e in Matches(v, f, now) ==> Entered(IndexFor(f), PrefixesFor(f), f, e))
  }

  lemma CountableFound(b: Base, v: View, f: Filter, now: int)
    requires Consistent(b, v) && Countable(v, f, now)
    ensures Answer(v, f, now, COUNT_LIMIT) == Matches(v, f, now)
  {
    hide Consistent, Matches, Gather, LooksUpIds, IndexFor, PrefixesFor, Entered, FirstHits, Top;
    CollectedSound(b, v, f, now, COUNT_LIMIT);
    if LooksUpIds(f) {
      LookupComplete(b, v, f, now, COUNT_LIMIT);
    } else {
      forall e | e in Matches(v, f, now) ensures e in Elements(Collected(v, f, now, COUNT_LIMIT)) {
        GatherFinds(b, v, IndexFor(f), PrefixesFor(f), f, now, COUNT_LIMIT, e);
      }
    }
    assert Elements(Collected(v, f, now, COUNT_LIMIT)) == Matches(v, f, now);
    TopOfFew(Matches(v, f, now), COUNT_LIMIT);
  }

  /** In particular, an answerable filter with no more matches than the limit is counted exactly. */
  lemma AnswerableCountable(b: Base, v: View, f: Filter, now: int)
    requires Consistent(b, v) && Answerable(v, f, now) && |Matches(v, f, now)| <= COUNT_LIMIT
    ensures Countable(v, f, now)
  {
    hide Consistent, Matches, LooksUpIds, IndexFor, PrefixesFor, Answerable, Newer, RangeOf, KeysFor;
    if !LooksUpIds(f) {
      forall e | e in Matches(v, f, now) ensures Entered(IndexFor(f), PrefixesFor(f), f, e) {
        AnswerableServed(b, v, f, now, e);
        var i, k :| 0 <= i < |PrefixesFor(f)| && Leads(v, IndexFor(f), RangeOf(IndexFor(f), PrefixesFor(f)[i], f), f, now, e, k);
        assert HasEntry(IndexFor(f), RangeOf(IndexFor(f), PrefixesFor(f)[i], f), e);
      }
    }
  }

  /** Exactly the events some filter asks for. */
  ghost predicate AskedForBy(v: View, filters: seq<Filter>, now: int, all: set<Event>) {
    forall e :: e in all <==> exists i :: 0 <= i < |filters| && Asked(v, filters[i], now, e)
  }

  /** A COUNT: the number of distinct events matching some filter, when no filter alone has over 100000 matches. */
  method CountFilters(ghost b: Base, subs: View, filters: seq<Filter>, now: int) returns (count: nat)
    requires Consistent(b, subs)
    ensures count <= |UnionOfMatches(subs, filters, now)|
    ensures (forall i :: 0 <= i < |filters| ==> Countable(subs, filters[i], now)) ==>
      count == |UnionOfMatches(subs, filters, now)|
    ensures (forall i :: 0 <= i < |filters| ==> Ordinary(subs, filters[i]) && |Matches(subs, filters[i], now)| <= 100_000) ==>
      forall all: set<Event> :: AskedForBy(subs, filters, now, all) ==> count == |all|
  {
    hide Consistent, Matches, Answerable, Answer, Countable, AskedForBy, Ordinary, Returns, Top, NewestFirst, Ahead;
    var acc := new Collector();
    ghost var ready := forall i :: 0 <= i < |filters| ==> Countable(subs, filters[i], now);
    count := 0;
    var i := 0;
    while i < |filters|
      invariant 0 <= i <= |filters| && acc.Valid() && fresh(acc) && count == |acc.results|
      invariant Elements(acc.results) <= UnionOfMatches(subs, filters[..i], now)
      invariant ready ==> Elements(acc.results) == UnionOfMatches(subs, filters[..i], now)
    {
      assert filters[..i + 1][..i] == filters[..i];
      var result := QueryFilter(b, subs, filters[i], Some(COUNT_LIMIT), now);
      UnionStored(b, subs, filters[..i], now);
      MatchesStored(b, subs, filters[i], now);
      if ready {
        CountableFound(b, subs, filters[i], now);
      }
      var added := AddUnseen(subs.events, acc, result);
      count := count + added;
      i := i + 1;
    }
    assert filters[..i] == filters;
    assert Distinct(acc.results);
    DistinctSize(acc.results);
    SmallerSubset(Elements(acc.results), UnionOfMatches(subs, filters, now));
    AllAsked(b, subs, filters, now);
  }

  /** Ordinary filters of few matches are counted exactly, and what is counted is what is asked for. */
  lemma AllAsked(b: Base, v: View, filters: seq<Filter>, now: int)
    requires Consistent(b, v)
    ensures forall all: set<Event> :: AskedForBy(v, filters, now, all) ==> all == UnionOfMatches(v, filters, now)
    ensures (forall i :: 0 <= i < |filters| ==> Ordinary(v, filters[i]) && |Matches(v, filters[i], now)| <= 100_000) ==>
      forall i :: 0 <= i < |filters| ==> Countable(v, filters[i], now)
  {
    hide Consistent, Matches, Asked, Ordinary, Countable, Answerable, UnionOfMatches;
    forall e ensures e in UnionOfMatches(v, filters, now) <==> exists i :: 0 <= i < |filters| && Asked(v, filters[i], now, e) {
      UnionOfMatchesIs(b, v, filters, now, e);
    }
    forall i | 0 <= i < |filters| && Ordinary(v, filters[i]) && |Matches(v, filters[i], now)| <= 100_000
      ensures Countable(v, filters[i], now)
    {
      OrdinaryAnswerable(b, v, filters[i], now);
      AnswerableCountable(b, v, filters[i], now);
    }
  }
}
