/** Which index a query scans and under which prefixes (src/storage/query.ts), and which matches that serves. */
module Planner {
  import opened Strings
  import opened NostrEvents
  import opened Keys
  import opened Consensus
  import opened ViewInvariant
  import opened Filters
  import opened Ranking
  import opened Scans
  import opened Sets

  // ─── The plan ───────────────────────────────────────────────────

  predicate Listed<T>(s: Option<seq<T>>) {
    s.Some? && s.value != []
  }

  /** The first tag filter with values, as `getTagFilters` orders them. */
  function FirstTag(tags: seq<TagFilter>): Option<TagFilter> {
    if tags == [] then None else if tags[0].values != [] then Some(tags[0]) else FirstTag(tags[1..])
  }

  lemma {:induction false} FirstTagListed(tags: seq<TagFilter>)
    ensures FirstTag(tags).Some? ==>
      FirstTag(tags).value.values != [] && exists i :: 0 <= i < |tags| && tags[i] == FirstTag(tags).value
  {
    if tags != [] && tags[0].values == [] {
      FirstTagListed(tags[1..]);
      if FirstTag(tags[1..]).Some? {
        var i :| 0 <= i < |tags[1..]| && tags[1..][i] == FirstTag(tags[1..]).value;
        assert tags[i + 1] == FirstTag(tags).value;
      }
    }
  }

  function IndexFor(f: Filter): IndexName {
    if Listed(f.authors) && Listed(f.kinds) then ByAuthorKind
    else if Listed(f.authors) then ByAuthor
    else if Listed(f.kinds) then ByKind
    else if FirstTag(f.tags).Some? then ByTag
    else ByCreatedAt
  }

  function KindPrefixes(kinds: seq<int>): (ps: seq<string>)
    ensures |ps| == |kinds| && forall i :: 0 <= i < |kinds| ==> ps[i] == EncodeKind(kinds[i])
  {
    if kinds == [] then [] else KindPrefixes(kinds[..|kinds| - 1]) + [EncodeKind(kinds[|kinds| - 1])]
  }

  function OneAuthorPrefixes(author: string, kinds: seq<int>): (ps: seq<string>)
    ensures |ps| == |kinds| && forall j :: 0 <= j < |kinds| ==> ps[j] == AuthorKindPrefix(author, kinds[j])
  {
    if kinds == [] then []
    else OneAuthorPrefixes(author, kinds[..|kinds| - 1]) + [AuthorKindPrefix(author, kinds[|kinds| - 1])]
  }

  function AuthorKindPrefixes(authors: seq<string>, kinds: seq<int>): seq<string> {
    if authors == [] then []
    else AuthorKindPrefixes(authors[..|authors| - 1], kinds) + OneAuthorPrefixes(authors[|authors| - 1], kinds)
  }

  function TagPrefixes(name: char, values: seq<string>): (ps: seq<string>)
    ensures |ps| == |values| && forall i :: 0 <= i < |values| ==> ps[i] == TagPrefix([name], values[i])
  {
    if values == [] then []
    else TagPrefixes(name, values[..|values| - 1]) + [TagPrefix([name], values[|values| - 1])]
  }

  /** The prefixes scanned one after the other; the global index is scanned once, without a prefix. */
  function PrefixesFor(f: Filter): seq<string> {
    match IndexFor(f)
    case ByAuthorKind => AuthorKindPrefixes(f.authors.value, f.kinds.value)
    case ByAuthor => f.authors.value
    case ByKind => KindPrefixes(f.kinds.value)
    case ByTag => TagPrefixes(FirstTag(f.tags).value.name, FirstTag(f.tags).value.values)
    case _ => [""]
  }

  /** Every listed author and kind has its prefix, and there are no others. */
  lemma {:induction false} AuthorKindPrefixesAre(authors: seq<string>, kinds: seq<int>, p: string)
    ensures p in AuthorKindPrefixes(authors, kinds) <==>
      exists i, j :: 0 <= i < |authors| && 0 <= j < |kinds| && p == AuthorKindPrefix(authors[i], kinds[j])
  {
    hide AuthorKindPrefix;
    if authors != [] {
      var init, last := authors[..|authors| - 1], authors[|authors| - 1];
      AuthorKindPrefixesAre(init, kinds, p);
      var ps := OneAuthorPrefixes(last, kinds);
      if p in ps {
        var j :| 0 <= j < |ps| && ps[j] == p;
        assert p == AuthorKindPrefix(authors[|authors| - 1], kinds[j]);
      }
      if i, j :| 0 <= i < |authors| && 0 <= j < |kinds| && p == AuthorKindPrefix(authors[i], kinds[j]) {
        if i < |init| {
          assert p == AuthorKindPrefix(init[i], kinds[j]);
        } else {
          assert ps[j] == p;
        }
      }
    }
  }

  // ─── The answer ─────────────────────────────────────────────────

  /** Everything a query collects before it sorts and cuts. */
  ghost function Collected(v: View, f: Filter, now: int, limit: nat): seq<Event> {
    if LooksUpIds(f) then FirstHits(f.ids.value, Hits(v.events, f, now), {})
    else Gather(v, IndexFor(f), PrefixesFor(f), f, now, limit)
  }

  /** The events a query returns. */
  ghost function Answer(v: View, f: Filter, now: int, limit: nat): set<Event> {
    Top(Elements(Collected(v, f, now, limit)), limit)
  }

  lemma CollectedSound(b: Base, v: View, f: Filter, now: int, limit: nat)
    requires Consistent(b, v)
    ensures DistinctIds(Collected(v, f, now, limit)) && Elements(Collected(v, f, now, limit)) <= Matches(v, f, now)
  {
    hide Consistent, Matches, Gather, FirstHits, LooksUpIds, IndexFor, PrefixesFor, Entered;
    if LooksUpIds(f) {
      LookupSound(b, v, f, now);
    } else {
      GatherSound(b, v, IndexFor(f), PrefixesFor(f), f, now, limit);
    }
  }

  lemma LookupSound(b: Base, v: View, f: Filter, now: int)
    requires Consistent(b, v) && LooksUpIds(f)
    ensures var es := FirstHits(f.ids.value, Hits(v.events, f, now), {});
      DistinctIds(es) && Elements(es) <= Matches(v, f, now)
  {
    hide Consistent, Matches, Hits, FirstHits, Serves, FiledById;
    var hits := Hits(v.events, f, now);
    var es := FirstHits(f.ids.value, hits, {});
    StoredHits(b, v, f, now);
    forall i, j | 0 <= i < j < |es| ensures es[i].id != es[j].id {
      FirstHitsDistinct(f.ids.value, hits, {}, i, j);
    }
    forall e | e in Elements(es) ensures e in Matches(v, f, now) {
      var j :| 0 <= j < |es| && es[j] == e;
      FirstHitIs(f.ids.value, hits, {}, j);
      MatchIs(b, v, f, now, e);
    }
  }

  /** The direct lookup finds every stored match. */
  lemma LookupComplete(b: Base, v: View, f: Filter, now: int, limit: nat)
    requires Consistent(b, v) && LooksUpIds(f)
    ensures Elements(Collected(v, f, now, limit)) == Matches(v, f, now)
  {
    hide Consistent, Matches, FirstHits, Hits, MatchFilter, IsExpired;
    LookupSound(b, v, f, now);
    StoredHits(b, v, f, now);
    forall e | e in Matches(v, f, now) ensures e in Elements(Collected(v, f, now, limit)) {
      MatchIs(b, v, f, now, e);
      IdListed(f, e);
      FirstHitsAll(f.ids.value, Hits(v.events, f, now), {}, e.id);
    }
  }

  lemma IdListed(f: Filter, e: Event)
    requires LooksUpIds(f) && MatchFilter(f, e) && |e.id| == 64
    ensures e.id in f.ids.value
  {
    var j :| 0 <= j < |f.ids.value| && StartsWith(e.id, f.ids.value[j]);
    assert e.id[..64] == e.id;
  }

  /** When every match is served by some prefix, the answer is exact. */
  lemma ServedIsExact(b: Base, v: View, f: Filter, now: int, limit: nat)
    requires Consistent(b, v) && !LooksUpIds(f)
    requires forall e :: e in Matches(v, f, now) ==> Served(v, IndexFor(f), PrefixesFor(f), f, now, e)
    ensures Answer(v, f, now, limit) == Top(Matches(v, f, now), limit)
  {
    hide Consistent, Matches, Gather, LooksUpIds, IndexFor, PrefixesFor, Served, Covered, Top;
    CollectedSound(b, v, f, now, limit);
    var collected := Elements(Collected(v, f, now, limit));
    forall e | e in Matches(v, f, now) ensures Covered(collected, e, limit) {
      GatherCovers(b, v, IndexFor(f), PrefixesFor(f), f, now, limit, e);
    }
    CoveredTop(Matches(v, f, now), collected, limit);
  }

  // ─── Which matches each index serves ────────────────────────────

  /** The times of the matches and the bounds of the filter fit the u32 the keys encode. */
  ghost predicate Timely(v: View, f: Filter, now: int) {
    (forall e :: e in Matches(v, f, now) ==> U32(e.createdAt)) && U32Bound(f.since) && U32Bound(f.until)
  }

  lemma MatchInWindow(b: Base, v: View, f: Filter, now: int, e: Event)
    requires Consistent(b, v) && e in Matches(v, f, now)
    ensures MatchFilter(f, e) && InWindow(e.createdAt, f.since, f.until) && |e.pubkey| == 64
  {
    MatchIs(b, v, f, now, e);
    hide Consistent, Matches, Candidates;
  }

  /** The prefix of an event's one key in the indexes whose prefixes have a fixed width. */
  function PrefixOf(s: IndexName, e: Event): string {
    match s
    case ByKind => EncodeKind(e.kind)
    case ByAuthor => e.pubkey
    case ByAuthorKind => AuthorKindPrefix(e.pubkey, e.kind)
    case _ => ""
  }

  predicate FixedWidth(s: IndexName, width: nat) {
    (s == ByKind && width == 8) || (s == ByAuthor && width == 64) || (s == ByAuthorKind && width == 73)
  }

  lemma OneKey(s: IndexName, e: Event, width: nat)
    requires FixedWidth(s, width) && |e.pubkey| == 64
    ensures KeysFor(s, e) == {PrefixOf(s, e) + SEPARATOR + Stamp(e.createdAt, e.id)} && |PrefixOf(s, e)| == width
  {
    hide Stamp, EncodeKind;
  }

  lemma UnderFixedPrefix(prefix: string, e: Event, other: string)
    requires |prefix| == |other| && StartsWith(other + SEPARATOR + Stamp(e.createdAt, e.id), prefix + SEPARATOR)
    ensures prefix == other
  {
    hide Stamp;
    var s := Stamp(e.createdAt, e.id);
    assert (other + SEPARATOR + s)[..|prefix| + 1] == other + SEPARATOR;
    SplitAt(prefix, SEPARATOR, other, SEPARATOR);
  }

  /** A prefix of a fixed-width index serves every match that has it. */
  lemma FixedServes(b: Base, v: View, s: IndexName, prefix: string, f: Filter, now: int, e: Event)
    requires Consistent(b, v) && Timely(v, f, now) && FixedWidth(s, |prefix|)
    requires e in Matches(v, f, now) && PrefixOf(s, e) == prefix
    ensures Leads(v, s, RangeOf(s, prefix, f), f, now, e, prefix + SEPARATOR + Stamp(e.createdAt, e.id))
  {
    hide Consistent, Matches, Stamp, KeysFor, InRange, TimeRangeForPrefix, InWindow, Newer, PrefixOf, Less, MatchFilter;
    var range, k := RangeOf(s, prefix, f), prefix + SEPARATOR + Stamp(e.createdAt, e.id);
    MatchInWindow(b, v, f, now, e);
    OneKey(s, e, |prefix|);
    PrefixWindow(prefix, e.createdAt, e.id, f.since, f.until);
    forall e', k' | e' in Matches(v, f, now) && k' in KeysFor(s, e') && InRange(k', range) && Less(k', k)
      ensures Newer(e', e)
    {
      MatchInWindow(b, v, f, now, e');
      OneKey(s, e', |prefix|);
      WindowSandwich(prefix, k', e.createdAt, e.id, f.since, f.until);
      UnderFixedPrefix(prefix, e', PrefixOf(s, e'));
      KeyOrderIsNewestFirst(prefix + SEPARATOR, e', e);
    }
  }

  /** The global index serves every match. */
  lemma GlobalServes(b: Base, v: View, f: Filter, now: int, e: Event)
    requires Consistent(b, v) && Timely(v, f, now) && e in Matches(v, f, now)
    ensures Leads(v, ByCreatedAt, RangeOf(ByCreatedAt, "", f), f, now, e, CreatedAtKey(e.createdAt, e.id))
  {
    hide Consistent, Matches, Stamp, InRange, TimeRangeForCreatedAt, InWindow, Newer, Less, MatchFilter;
    MatchInWindow(b, v, f, now, e);
    GlobalWindow(e.createdAt, e.id, f.since, f.until);
    forall e' | e' in Matches(v, f, now) ensures Less(CreatedAtKey(e'.createdAt, e'.id), CreatedAtKey(e.createdAt, e.id)) ==> Newer(e', e) {
      assert "" + Stamp(e.createdAt, e.id) == Stamp(e.createdAt, e.id) && "" + Stamp(e'.createdAt, e'.id) == Stamp(e'.createdAt, e'.id);
      KeyOrderIsNewestFirst("", e', e);
    }
  }

  /** Past a separator the value goes on with eight hexadecimal digits, as a key of the other value does. */
  predicate RunsOn(value: string, other: string) {
    && StartsWith(value, other + SEPARATOR) && |value| >= |other| + |SEPARATOR| + 8
    && forall i :: |other| + |SEPARATOR| <= i < |other| + |SEPARATOR| + 8 ==> IsHexLower(value[i])
  }

  /** Entries of the other tag value stay out of the way of this one's range. */
  predicate Apart(value: string, other: string) {
    !StartsWith(other, value + SEPARATOR) && !RunsOn(value, other)
  }

  /** If one value's key starts under another value's prefix, the values are equal or not apart. */
  lemma UnderPrefix(value: string, other: string, rest: string)
    requires |rest| >= 8 && forall i :: 0 <= i < 8 ==> IsHexLower(rest[i])
    requires StartsWith(other + SEPARATOR + rest, value + SEPARATOR)
    ensures other == value || !Apart(value, other)
  {
    var k := other + SEPARATOR + rest;
    assert k[..|value| + 1] == value + SEPARATOR;
    if |other| > |value| {
      assert k[..|value| + 1] == other[..|value| + 1];
    } else if |other| < |value| {
      assert k[..|value| + 1][..|other| + 1] == other + SEPARATOR;
      assert (value + SEPARATOR)[..|other| + 1] == value[..|other| + 1];
      assert k[..|value| + 1][|value|] == '!';
      assert k[|value|] == rest[|value| - |other| - 1];
      assert |value| >= |other| + 1 + 8;
      forall i | |other| + 1 <= i < |other| + 1 + 8 ensures IsHexLower(value[i]) {
        assert k[..|value| + 1][i] == rest[i - |other| - 1];
      }
    } else {
      assert k[..|value| + 1] == other + SEPARATOR;
      SplitAt(other, SEPARATOR, value, SEPARATOR);
    }
  }

  lemma PrefixOfRest(k: string, p: string, n: nat)
    requires StartsWith(k, p) && n <= |p|
    ensures StartsWith(k[n..], p[n..])
  {
    assert k[n..][..|p| - n] == k[..|p|][n..];
  }

  /** A tag key under `name!value!` is a key of exactly that tag, when the values are apart. */
  lemma TagKeyUnder(name: char, value: string, t: Tag, createdAt: int, id: string)
    requires |t.name| == 1 && (t.name == [name] && t.value != value ==> Apart(value, t.value))
    requires StartsWith(TagKey(t.name, t.value, createdAt, id), TagPrefix([name], value) + SEPARATOR)
    ensures t == Tag([name], value)
  {
    hide Stamp, Apart;
    var s := Stamp(createdAt, id);
    var k, p := TagKey(t.name, t.value, createdAt, id), TagPrefix([name], value) + SEPARATOR;
    assert k[0] == t.name[0] && p[0] == name;
    assert t.name == [name];
    assert k == (t.name + SEPARATOR) + (t.value + SEPARATOR + s);
    assert k[2..] == t.value + SEPARATOR + s && p[2..] == value + SEPARATOR;
    PrefixOfRest(k, p, 2);
    StampDigits(createdAt, id);
    UnderPrefix(value, t.value, s);
  }

  lemma TagKeysAre(e: Event, k: string) returns (t: Tag)
    requires k in KeysFor(ByTag, e)
    ensures t in IndexableTags(e.tags) && k == TagKey(t.name, t.value, e.createdAt, e.id) && |t.name| == 1
  {
    hide Stamp, IndexableTags;
    t :| t in IndexableTags(e.tags) && k == TagKey(t.name, t.value, e.createdAt, e.id);
    IndexableTagsComplete(e.tags, t.name, t.value);
  }

  /** No other tag value of the same name, on any match, gets in the way of the value. */
  ghost predicate NoStraddle(v: View, f: Filter, now: int, name: char, value: string) {
    forall e, t :: e in Matches(v, f, now) && t in IndexableTags(e.tags) && t.name == [name] && t.value != value ==>
      Apart(value, t.value)
  }

  /** A match carrying a non-empty value has an entry under it. */
  lemma TagEntry(b: Base, v: View, name: char, value: string, f: Filter, now: int, e: Event)
    requires Consistent(b, v) && Timely(v, f, now) && e in Matches(v, f, now) && HasTag(e, name, value) && value != ""
    ensures var k := TagKey([name], value, e.createdAt, e.id);
      k in KeysFor(ByTag, e) && InRange(k, RangeOf(ByTag, TagPrefix([name], value), f))
  {
    hide Consistent, Matches, Stamp, InRange, TimeRangeForPrefix, InWindow, MatchFilter, IndexableTags;
    MatchInWindow(b, v, f, now, e);
    IndexableTagsComplete(e.tags, [name], value);
    var t := Tag([name], value);
    assert t in IndexableTags(e.tags) && TagKey(t.name, t.value, e.createdAt, e.id) in KeysFor(ByTag, e);
    PrefixWindow(TagPrefix([name], value), e.createdAt, e.id, f.since, f.until);
  }

  /** A value nothing gets in the way of serves every match that carries it. */
  lemma TagServes(b: Base, v: View, name: char, value: string, f: Filter, now: int, e: Event)
    requires Consistent(b, v) && Timely(v, f, now) && e in Matches(v, f, now)
    requires HasTag(e, name, value) && value != "" && NoStraddle(v, f, now, name, value)
    ensures Leads(v, ByTag, RangeOf(ByTag, TagPrefix([name], value), f), f, now, e, TagKey([name], value, e.createdAt, e.id))
  {
    hide Consistent, Matches, Stamp, KeysFor, InRange, TimeRangeForPrefix, Newer, Less, IndexableTags, Apart, HasTag;
    var prefix := TagPrefix([name], value);
    var range, k := RangeOf(ByTag, prefix, f), TagKey([name], value, e.createdAt, e.id);
    TagEntry(b, v, name, value, f, now, e);
    forall e', k' | e' in Matches(v, f, now) && k' in KeysFor(ByTag, e') && InRange(k', range) && Less(k', k)
      ensures Newer(e', e)
    {
      WindowSandwich(prefix, k', e.createdAt, e.id, f.since, f.until);
      var t := TagKeysAre(e', k');
      TagKeyUnder(name, value, t, e'.createdAt, e'.id);
      KeyOrderIsNewestFirst(prefix + SEPARATOR, e', e);
    }
  }

  // ─── When the answer is exact ───────────────────────────────────

  /** Every match's author is listed in full, not only by a prefix. */
  ghost predicate AuthorsInFull(v: View, f: Filter, now: int) {
    f.authors.Some? ==> forall e :: e in Matches(v, f, now) ==> e.pubkey in f.authors.value
  }

  /** Full-length authors are listed in full. */
  lemma FullAuthorsInFull(b: Base, v: View, f: Filter, now: int)
    requires Consistent(b, v)
    ensures f.authors.Some? && (forall i :: 0 <= i < |f.authors.value| ==> |f.authors.value[i]| == 64) ==>
      AuthorsInFull(v, f, now)
  {
    hide Consistent, Matches;
    if f.authors.Some? && forall i :: 0 <= i < |f.authors.value| ==> |f.authors.value[i]| == 64 {
      forall e | e in Matches(v, f, now) ensures e.pubkey in f.authors.value {
        MatchInWindow(b, v, f, now, e);
        var i :| 0 <= i < |f.authors.value| && StartsWith(e.pubkey, f.authors.value[i]);
        assert e.pubkey[..64] == e.pubkey;
      }
    }
  }

  /** Every match carries one of the scanned values, a non-empty one that nothing gets in the way of. */
  ghost predicate TagsServed(v: View, f: Filter, now: int, t: TagFilter) {
    forall e :: e in Matches(v, f, now) ==> exists i :: 0 <= i < |t.values| && ServesTag(v, f, now, t.name, t.values[i], e)
  }

  ghost predicate ServesTag(v: View, f: Filter, now: int, name: char, value: string, e: Event) {
    value != "" && HasTag(e, name, value) && NoStraddle(v, f, now, name, value)
  }

  /** What the chosen scans need to be exact; the ids branch needs nothing. */
  ghost predicate Answerable(v: View, f: Filter, now: int) {
    LooksUpIds(f) ||
    (Timely(v, f, now) && AuthorsInFull(v, f, now) && (IndexFor(f) == ByTag ==> TagsServed(v, f, now, FirstTag(f.tags).value)))
  }

  /** Values that are all non-empty and in no one's way serve every match. */
  lemma PlainTagsServed(b: Base, v: View, f: Filter, now: int, t: TagFilter)
    requires Consistent(b, v) && FirstTag(f.tags) == Some(t)
    requires forall i :: 0 <= i < |t.values| ==> t.values[i] != "" && NoStraddle(v, f, now, t.name, t.values[i])
    ensures TagsServed(v, f, now, t)
  {
    hide Consistent, Matches, NoStraddle, HasTag;
    FirstTagListed(f.tags);
    forall e | e in Matches(v, f, now)
      ensures exists i :: 0 <= i < |t.values| && ServesTag(v, f, now, t.name, t.values[i], e)
    {
      MatchInWindow(b, v, f, now, e);
      assert MatchTag(t, e);
      var i :| 0 <= i < |t.values| && HasTag(e, t.name, t.values[i]);
      assert ServesTag(v, f, now, t.name, t.values[i], e);
    }
  }

  lemma AnswerableServed(b: Base, v: View, f: Filter, now: int, e: Event)
    requires Consistent(b, v) && !LooksUpIds(f) && Answerable(v, f, now) && e in Matches(v, f, now)
    ensures Served(v, IndexFor(f), PrefixesFor(f), f, now, e)
  {
    hide Consistent, Matches, LooksUpIds, FirstTag, Leads, Timely, NoStraddle, MatchFilter, HasTag;
    if IndexFor(f) == ByAuthorKind {
      AuthorKindServed(b, v, f, now, e);
    } else if IndexFor(f) == ByAuthor {
      AuthorServed(b, v, f, now, e);
    } else if IndexFor(f) == ByKind {
      KindServed(b, v, f, now, e);
    } else if IndexFor(f) == ByTag {
      var t := FirstTag(f.tags).value;
      var i :| 0 <= i < |t.values| && ServesTag(v, f, now, t.name, t.values[i], e);
      TagServes(b, v, t.name, t.values[i], f, now, e);
      assert PrefixesFor(f)[i] == TagPrefix([t.name], t.values[i]);
    } else {
      GlobalServes(b, v, f, now, e);
      assert PrefixesFor(f)[0] == "";
    }
  }

  lemma AuthorKindServed(b: Base, v: View, f: Filter, now: int, e: Event)
    requires Consistent(b, v) && Timely(v, f, now) && IndexFor(f) == ByAuthorKind
    requires e in Matches(v, f, now) && e.pubkey in f.authors.value
    ensures Served(v, ByAuthorKind, PrefixesFor(f), f, now, e)
  {
    hide Consistent, Matches, Leads, Timely, EncodeKind, FirstTag, Stamp;
    MatchInWindow(b, v, f, now, e);
    var i :| 0 <= i < |f.authors.value| && f.authors.value[i] == e.pubkey;
    var j :| 0 <= j < |f.kinds.value| && f.kinds.value[j] == e.kind;
    var prefix := AuthorKindPrefix(e.pubkey, e.kind);
    AuthorKindPrefixesAre(f.authors.value, f.kinds.value, prefix);
    assert prefix == AuthorKindPrefix(f.authors.value[i], f.kinds.value[j]);
    var n :| 0 <= n < |PrefixesFor(f)| && PrefixesFor(f)[n] == prefix;
    FixedServes(b, v, ByAuthorKind, PrefixesFor(f)[n], f, now, e);
  }

  lemma AuthorServed(b: Base, v: View, f: Filter, now: int, e: Event)
    requires Consistent(b, v) && Timely(v, f, now) && IndexFor(f) == ByAuthor
    requires e in Matches(v, f, now) && e.pubkey in f.authors.value
    ensures Served(v, ByAuthor, PrefixesFor(f), f, now, e)
  {
    hide Consistent, Matches, Leads, Timely, FirstTag, MatchFilter, Stamp;
    MatchInWindow(b, v, f, now, e);
    var n :| 0 <= n < |f.authors.value| && f.authors.value[n] == e.pubkey;
    FixedServes(b, v, ByAuthor, PrefixesFor(f)[n], f, now, e);
  }

  lemma KindServed(b: Base, v: View, f: Filter, now: int, e: Event)
    requires Consistent(b, v) && Timely(v, f, now) && IndexFor(f) == ByKind && e in Matches(v, f, now)
    ensures Served(v, ByKind, PrefixesFor(f), f, now, e)
  {
    hide Consistent, Matches, Leads, Timely, EncodeKind, FirstTag, Stamp;
    MatchInWindow(b, v, f, now, e);
    var n :| 0 <= n < |f.kinds.value| && f.kinds.value[n] == e.kind;
    assert PrefixesFor(f)[n] == EncodeKind(e.kind);
    FixedServes(b, v, ByKind, PrefixesFor(f)[n], f, now, e);
  }

  /** An answerable query returns exactly the newest `limit` of all its matches. */
  lemma AnswerExact(b: Base, v: View, f: Filter, now: int, limit: nat)
    requires Consistent(b, v) && Answerable(v, f, now)
    ensures Answer(v, f, now, limit) == Top(Matches(v, f, now), limit)
  {
    hide Consistent, Matches, Answerable, Collected, IndexFor, PrefixesFor, Served;
    if LooksUpIds(f) {
      LookupComplete(b, v, f, now, limit);
    } else {
      forall e | e in Matches(v, f, now) ensures Served(v, IndexFor(f), PrefixesFor(f), f, now, e) {
        AnswerableServed(b, v, f, now, e);
      }
      ServedIsExact(b, v, f, now, limit);
    }
  }
}
