/** NIP-01 filters and their meaning on a single event (src/nostr/filters.ts). */
module Filters {
  import opened Strings
  import opened NostrEvents

  /** A "#x" entry of a filter. */
  datatype TagFilter = TagFilter(name: char, values: seq<string>)

  datatype Filter = Filter(
    ids: Option<seq<string>>,
    authors: Option<seq<string>>,
    kinds: Option<seq<int>>,
    since: Option<int>,
    until: Option<int>,
    limit: Option<nat>,
    search: Option<string>,
    tags: seq<TagFilter>
  )

  predicate PrefixedBy(prefixes: seq<string>, s: string) {
    exists i :: 0 <= i < |prefixes| && StartsWith(s, prefixes[i])
  }

  predicate HasTag(e: Event, name: char, value: string) {
    exists i :: 0 <= i < |e.tags| && |e.tags[i]| > 1 && e.tags[i][0] == [name] && e.tags[i][1] == value
  }

  predicate MatchTag(t: TagFilter, e: Event) {
    t.values == [] || exists i :: 0 <= i < |t.values| && HasTag(e, t.name, t.values[i])
  }

  predicate MatchFilter(f: Filter, e: Event) {
    && (f.ids.Some? ==> PrefixedBy(f.ids.value, e.id))
    && (f.authors.Some? ==> PrefixedBy(f.authors.value, e.pubkey))
    && (f.kinds.Some? ==> e.kind in f.kinds.value)
    && (f.since.Some? ==> e.createdAt >= f.since.value)
    && (f.until.Some? ==> e.createdAt <= f.until.value)
    && (forall i :: 0 <= i < |f.tags| ==> MatchTag(f.tags[i], e))
    && (f.search.Some? && f.search.value != "" ==> Includes(ToLower(e.content), ToLower(f.search.value)))
  }
}
