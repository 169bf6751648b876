# nostr-swarm: a verified model of the replicated event store

nostr-swarm keeps Nostr events in an append-only log that several writers share. Every peer runs the same
`apply` over the linearized log and must end with the same view: a primary map of events, six secondary indexes
over composite string keys, two pointer maps for replaceable and addressable events, tombstones, writers and
config flags. A query engine reads that view through range scans over the keys, and several smaller algorithms feed
or bound it. This project models those parts and proves what they promise, over every input, every log and every
interleaving.

| file | part of the system |
|---|---|
| `Strings`, `Sets`, `NostrEvents`, `Keys` | string order and fixed-width hex, the event rules, the index keys and their ranges |
| `Consensus` | the consensus rules as functions on the view, and a run as a fold over the log |
| `EventStore` | the same rules performed in place on the twelve maps of a store object, plus what it reads and appends |
| `ViewInvariant`, `Effects` | the invariant of the view, and what each op does to it |
| `RunSafety`, `Governance`, `PutOrder`, `Convergence` | safety and order independence over whole runs |
| `Rules` | the consensus rules once more, in terms of kinds, tags, versions and live events only, proved to be what the view functions do |
| `Filters`, `Ranking`, `Streams` | filters, newest-first lists and read streams |
| `Scans`, `Planner`, `Query`, `Exactness` | what the scans of a query collect, which index it scans, the query performed in place, and exactly when its answer is right |
| `Expiry`, `Prune`, `Recency`, `LruCache` | reclaim cycles, the storage budget, and the two recency structures |
| `Wot`, `Paging`, `RateLimit`, `Admission` | trust degrees, feed pages, the token bucket and in-band admission |

A method whose original works in place is written in place and proved equal to a function of the old state; the
main results are proved about those functions. For the store this means that `EventStores.EventStore.Apply` computes
exactly `Consensus.Run`, and everything proved about `Run` holds of the store. What `Run` means is stated in `Rules`
without the view's pointers and keys, and what a query, a page, a trust score, a token and a cache entry mean is stated
in their modules over the fields of the inputs, with the constants written out.

## What the code does that its comments do not say

- A tombstone belongs to the last deletion that named the id. A later deletion by anyone else overwrites the author's
  own, and the deleted event, of any stored kind, can then be put again (`RunSafety.ForeignDeletionResurrects`). When a
  put takes effect after a run is `RunSafety.PutTakesEffectIff`. So the order of puts and deletions matters: a regular
  event is there exactly if it was carried while the last deletion naming it was not its author's, and not deleted by
  its author since (`Convergence.PresentIffStanding`). Its presence is the same in every order of the ops exactly when
  they do not hold deletions of it by both its author and someone else (`Convergence.PresenceOrderFreeIff`,
  `Convergence.RegularsOrderFreeIff`).
- A `delete` op is not checked to be of kind 5: any valid signed event with `e` tags deletes.
- Superseding a replaceable event unindexes it but keeps it stored, so a lookup by full ids still serves it. The primary
  map of a put-only log is independent of the order of the puts exactly when no two of the fit events compete for a
  slot (`PutOrder.PrimaryMapOrderFreeIff`).
- Times are taken modulo 2^32 in every key and bound (`Keys.WindowWraps`). An expiration of 2^32 or more can be listed
  for reclaim while the event has not expired (`Expiry.DueWhileUnexpired`), and a negative one can leave an expired
  event unlisted (`Expiry.ExpiredButNotDue`).
- An event tagged with both a value and that value followed by "!" is found by its second tag first. A query for the
  newest event of the value can then answer with an older one (`Exactness.StraddlingTagAnswersOlder`). For one value,
  answers are right for every limit exactly when each match has a tag key in the range and the newer of two matches has
  one ahead of all tag keys of the older (`Exactness.TagExactIff`); for any filter and limit, `Exactness.AnswerExactIff`
  counts the matches ahead of each. Events that do not match cost a scan nothing.
- An empty tag value matches a filter but is not indexed (`Exactness.EmptyTagValueUnindexed`), so a query for it finds
  nothing (`Exactness.EmptyTagQueryFindsNothing`).
- Author prefixes are ignored whenever kinds or a `since` bound are given (`Exactness.AuthorPrefixesIgnored`,
  `Exactness.AuthorsExactIff`). Without either, a prefix finds all its matches, but in the order of their pubkeys: the
  answer is right as long as the limit takes all of them (`Exactness.PrefixesWithinLimit`), and for a single prefix and
  every limit exactly when the smaller pubkeys are the newer ones (`Exactness.AuthorPrefixExactIff`,
  `Exactness.AuthorPrefixAnswersOlder`). For several, it is enough and necessary that no match has more matches listed
  before it under its own prefix than there are newer ones (`Exactness.ApartAuthorsExactIff`; for prefixes that overlap,
  `Exactness.AuthorPrefixesExactIff`).
- Page offsets are clamped at 500, so the next page repeats events exactly when more than 500 shown ones share the
  boundary second (`Paging.ClampedPagingIff`), the whole walk is right exactly when that happens at no page end
  (`Paging.ClampedWalkExactIff`), and the pager then asks for one and the same page for ever exactly when that page
  still ends on that second (`Paging.ClampedWalkSticksIff`).
- Pruning over budget can end above the 80% target with events left that may be evicted: when a full batch of 1000
  brings the total within the budget but not down to the target, the next cycle finds nothing to do
  (`Prune.StopsAboveTargetIff`, `Prune.StopsAboveTarget`).
- A writer that is not the founder passes the writable check of pruning, but its eviction op has no effect
  (`Prune.PruneTakesEffectIff`).
- An admission whose granter stops being writable between the two checks fails without giving its token back; the
  admission model counts that token as held for good.
- A lookup that drops an expired cache entry makes room, so a key can stay although as many others as the cache holds
  were touched since (`Lru.DropsLeaveRoom`); without such drops the count decides exactly (`Lru.HeldIffRecent`).
- Muting looks at the owner and the owner's direct follows only, not at everyone in the trust graph.

## Model

| member | source | states |
|---|---|---|
| Strings.LowerAt | src/nostr/filters.ts:48-48 | lower-casing replaces exactly the letters A to Z, by the ones 32 code units up |
| Keys.RecoverInvert | src/util/keys.ts:14-23 | recovering an inverted timestamp gives it back modulo 2^32, so it is inverted exactly on u32 |
| Keys.IndexKeysInjective | src/util/keys.ts:51-76 | no two different entries share a key of any time-ordered index, even when a tag value contains the separator |
| Keys.PointerKeysInjective | src/util/keys.ts:79-88 | pointer and expiration keys determine pubkey, kind, d tag and expiry, whatever characters the d tag holds |
| Keys.StampOrder | src/util/keys.ts:14-17 | string order of `inv_time!id` is newest first, then smaller id |
| Keys.KeyOrderIsNewestFirst | src/storage/query.ts:138-141 | under one index prefix, key order is exactly the order the query engine sorts by |
| Keys.PrefixWindow | src/storage/query.ts:189-211 | a prefix range selects an entry of that prefix if and only if its time lies in since..until |
| Keys.GlobalWindow | src/storage/query.ts:214-230 | the same for the global index, whose keys carry no prefix |
| Keys.FixedWidthWindow | src/storage/query.ts:189-211 | with prefixes of one width the range holds no entry of another prefix |
| Keys.WindowSandwich | src/storage/query.ts:189-211 | for any prefix, what the range yields ahead of one of its entries is itself under the prefix |
| Keys.WindowWraps | src/util/keys.ts:14-17 | for all integers, timestamps and bounds act modulo 2^32 in both kinds of range |
| Keys.SinceDropsAuthorPrefix | src/storage/query.ts:57-64 | with a since bound the author range of a string shorter than a pubkey holds none of that pubkey's entries; without one, the range of a prefix holds all of them |
| Keys.KindDropsAuthorPrefix | src/storage/query.ts:45-55 | on the author+kind index a string shorter than a pubkey finds none of its entries, with or without bounds |
| NostrEvents.GetIndexableTags | src/nostr/events.ts:44-55 | the loop collects the single-letter tags with a value, in order |
| NostrEvents.IndexableTagsComplete | src/nostr/events.ts:44-55 | a tag is indexed if and only if some event tag has that one-character name and that non-empty value |
| NostrEvents.NewerIsStrictOrder | src/nostr/events.ts:84-88 | the replacement and sort order is a strict total order on events of distinct ids |
| Consensus.RunBatches | src/storage/store.ts:298-348 | applying a log in two batches is applying it in one |
| Consensus.BatchingIrrelevant | src/storage/store.ts:298-348 | any way of cutting a log into batches ends in the same view, host calls, presentations and halting point |
| EventStores.EventStore.Apply | src/storage/store.ts:298-348 | running apply in place ends in exactly the state the fold over the nodes ends in, stopping for good at a newer-version op |
| EventStores.EventStore.ApplyWriterOp | src/storage/store.ts:330-346 | each writer op changes the twelve maps, the host and the emissions as its rule says |
| EventStores.EventStore.ApplyOptimistic | src/storage/store.ts:457-472 | an optimistic block is at most one re-validated put under the founder's opt-in, followed by an ack |
| EventStores.EventStore.ApplyPut | src/storage/store.ts:474-552 | a put stores, indexes, repoints and emits if and only if it is accepted, and otherwise changes nothing |
| EventStores.EventStore.ClaimSlot | src/storage/store.ts:502-525 | an event takes its slot if and only if the holder should be replaced, and the holder is then unindexed |
| EventStores.EventStore.StoreEvent | src/storage/store.ts:530-551 | an accepted event is written with all its entries and then presented |
| EventStores.EventStore.WriteEntries | src/storage/store.ts:534-548 | the writes add exactly the event's keys to the six indexes |
| EventStores.EventStore.ApplyDelete | src/storage/store.ts:554-589 | a valid deletion removes, entombs and is stored itself, as the fold over its targets says |
| EventStores.EventStore.ApplyTarget | src/storage/store.ts:563-585 | one target: removed if it is the deleter's own, entombed in any case |
| EventStores.EventStore.RemoveIndexes | src/storage/store.ts:607-641 | removes the event's keys and clears its pointer only while that names it |
| EventStores.EventStore.DeleteEntries | src/storage/store.ts:607-621 | the deletes take exactly the event's keys out of the six indexes |
| EventStores.EventStore.ClearPointer | src/storage/store.ts:626-640 | the slot pointer is cleared if it names the event and untouched otherwise |
| EventStores.EventStore.ApplyExpiryDelete | src/storage/store.ts:380-397 | a founder's reclaim evicts the listed events that declared an expiration; anyone else's does nothing |
| EventStores.EventStore.ApplyPruneDelete | src/storage/store.ts:405-420 | a founder's eviction takes the listed events; anyone else's does nothing |
| EventStores.EventStore.ApplySetConfig | src/storage/store.ts:427-437 | only the founder sets a flag |
| EventStores.EventStore.ApplyAddWriter | src/storage/store.ts:356-370 | a key is admitted, told to the host as a non-indexer and recorded if and only if it is well formed, new, not the founder's and under the cap |
| EventStores.EventStore.EmitStored | src/storage/store.ts:592-605 | the in-place id set is the recency window of everything presented, and the emissions follow from it |
| EventStores.EmittedIffNotRecent | src/storage/store.ts:592-605 | an event is emitted if and only if its id is not among the 4096 most recently presented distinct ids |
| Recency.KeptIsLatest | src/storage/store.ts:592-605 | the bounded insertion-ordered set always holds the most recent distinct keys of the whole history, in order |
| Recency.KeptIffRecent | src/storage/store.ts:592-605 | a key is held if and only if fewer than the bound other distinct keys were presented since its last time |
| ViewInvariant.PutConsistent | src/storage/store.ts:474-552 | a put keeps indexes, pointers and events consistent |
| ViewInvariant.DropConsistent | src/storage/store.ts:607-641 | removing any stored event takes its own entries and no one else's, and leaves every other event as live as it was |
| ViewInvariant.ApplyNodeConsistent | src/storage/store.ts:298-348 | every node keeps the invariant |
| ViewInvariant.RunConsistent | src/storage/store.ts:298-348 | every run from a consistent state keeps it |
| ViewInvariant.EntriesExact | src/storage/store.ts:534-548 | an index holds a key if and only if it is a key of a live stored event, and the entry names that event |
| ViewInvariant.ReachableViewExact | src/storage/store.ts:474-641 | in every view reached from the empty one, a stored event has all its entries if it is regular or its pointer names it, and none otherwise; every stored event is valid, unprotected and not ephemeral |
| Effects.PutEffect | src/storage/store.ts:474-552 | a put adds at most its own event to the primary map and touches no tombstone, writer or flag |
| Effects.DeleteTargetsEffect | src/storage/store.ts:561-585 | a deletion removes exactly the named events of its own author and leaves its tombstone on every name |
| Effects.EvictEffect | src/storage/store.ts:380-420 | an eviction removes exactly the listed events it may take |
| RunSafety.ApplyNodeRemoves | src/storage/store.ts:380-420 | a node takes a stored event out if and only if it is its author's valid deletion naming it, a founder eviction listing it, or a founder reclaim listing it and it declared an expiration |
| RunSafety.ApplyNodeAdds | src/storage/store.ts:474-552 | an event enters the store only as the valid, unprotected, non-ephemeral event its node carries |
| RunSafety.RemovalJustified | src/storage/store.ts:380-420 | over any run a stored event is still there unaltered unless some node the run applied was entitled to remove it |
| RunSafety.RunTombstones | src/storage/store.ts:581-584 | the tombstone on an id is that of the last valid deletion naming it |
| RunSafety.StoredWasCarried | src/storage/store.ts:474-552 | whatever a run stores was carried by one of its nodes |
| RunSafety.PutTakesEffectIff | src/storage/store.ts:474-531 | after any run, a put of an absent event takes effect if and only if it is fit and not ephemeral, the last valid deletion naming it is not its author's, and the holder of its slot, if any, gives way |
| RunSafety.DeletionPersists | src/storage/store.ts:488-497 | once deleted by its author, an event never returns as long as no other pubkey's deletion that the run applies names it |
| RunSafety.ForeignDeletionResurrects | src/storage/store.ts:581-584 | the condition is needed, for every stored class: another pubkey's deletion of the same id lets the deleted event back in |
| Governance.ApplyNodeRules | src/storage/store.ts:356-437 | only a writer's admissible add_writer changes the writers and only the founder's set_config the flags |
| Governance.RunWriters | src/storage/store.ts:356-370 | in every run the writers are at most 64, only grow, exclude the founder and are exactly the keys told to the host, each once and never as an indexer |
| Governance.AdmissionsFormTree | src/storage/store.ts:356-370 | if only the founder and admitted writers append, the addedBy links lead from every writer to the founder |
| Governance.OptimisticConfined | src/storage/store.ts:457-472 | an optimistic node never halts the run, never changes writers, flags or tombstones, and at most acks |
| Governance.OptimisticErasure | src/storage/store.ts:307-320 | unless the founder opts in, deleting every optimistic node from a log changes nothing the run produces |
| Rules.PutRule | src/storage/store.ts:474-552 | in any reachable view a put takes effect if and only if the id is new, the event is well formed, verified, without a "-" tag, not of kind 20000 to 29999, not deleted by its author, and later (or as late with the smaller id) than every live event of the same author and kind that is of kind 0, 3 or 10000 to 19999, or of kind 30000 to 39999 with the same first "d" value; those are then no longer live but stay stored, and it is live |
| Rules.OneLiveVersion | src/storage/store.ts:502-525 | in every view any run reaches, no two such versions of one thing are live |
| Rules.LiveIffNewest | src/storage/store.ts:502-531 | after puts in any order: an event is live if and only if it is the newest fit version put; one of kind 20000 to 29999 is not stored; one without versions is always live |
| Rules.LivePerValue | src/nostr/events.ts:18-21 | an addressable event is live if and only if it is the newest put with its author, its kind and its first "d" value, a missing tag or value counting as empty; other values do not matter |
| Rules.DeletionRule | src/storage/store.ts:554-589 | a well-formed verified deletion of any kind takes out, of the stored and of the live events, exactly those of its author that one of its "e" tags names, leaves its author's tombstone on every named id, and is then put itself; any other one does nothing |
| Rules.OptimisticRule | src/storage/store.ts:457-472 | an optimistic block is put and acked if and only if it is a put of version at most 2 (or none) of a fit event while the flag "accept_optimistic" is on; in all other cases nothing happens |
| Rules.RunFlags | src/storage/store.ts:427-437 | in every run that does not halt, a flag is what the founder last set it to |
| Rules.HaltsIff | src/storage/store.ts:324-328 | a run halts, and interrupts the host, if and only if it holds a writer's op of a version above 2 |
| Rules.WriterRule | src/storage/store.ts:356-370 | an add_writer op adds its key, and tells the host so as a non-indexer, if and only if the key is 64 characters of 0-9 and a-f, not the founder's, new, and there are fewer than 64 writers |
| Rules.WritersAreKeys | src/storage/store.ts:356-370 | in every run all writers are such keys, and at most 64 |
| Rules.PresentedIffStored | src/storage/store.ts:592-605 | a step presents exactly the event it newly stores, if there is one, and never stores two |
| Rules.ParsesDigits | src/nostr/events.ts:24-29 | the decimal digits of a number, after white space and a sign and before anything but a digit, are read back as that number |
| Rules.ExpiresAt | src/nostr/events.ts:24-37 | an event whose first "expiration" tag holds the digits of n is expired from second n on, and one without a value there never |
| PutOrder.PutOrderIrrelevant | src/storage/store.ts:474-552 | put-only runs over one set of events, in any order and with any repetition, end with the same pointers and the same six indexes |
| PutOrder.PointerNamesMaximum | src/storage/store.ts:502-525 | each pointer then names the newest event (smallest id on a tie) of all fit ones put for its slot |
| PutOrder.PrimaryMapOrderFreeIff | src/storage/store.ts:502-531 | all put-only logs of a set of events leave the same stored events if and only if no two of its fit events of different ids share a class and slot |
| PutOrder.PrimaryMapDependsOnOrder | src/storage/store.ts:505-511 | of two competitors, the older is kept if it came first and refused if it came second |
| Convergence.TombstoneDecided | src/storage/store.ts:581-584 | after a run of puts and deletions, the tombstone on an id that at most one pubkey's valid deletions name is that pubkey's, and there is none if nobody's do |
| Convergence.PresentIffStanding | src/storage/store.ts:488-589 | after any run of puts and deletions a fit regular event is present if and only if some op carried it (up to its signature) while the last deletion naming it was not its author's, and from that op on no op is its author's deletion of it |
| Convergence.PresentIffNeverDeleted | src/storage/store.ts:488-589 | a fit regular event that is not named by deletions of both its author and someone else is present if and only if some op carried it and its author never deleted it, whatever else is in the log and in whatever order |
| Convergence.RunConverged | src/storage/store.ts:488-589 | the run does not halt and ends in a consistent view where both hold: the presence of every fit regular event not so disputed, and the tombstone on every id of at most one deleter, are those determined by the set of ops |
| Convergence.PresenceOrderFreeIff | src/storage/store.ts:488-589 | all logs of one set of puts and deletions agree on whether a fit regular event is stored, unless its author's and someone else's deletions both name it and an op other than such a deletion of its author carries it; then two of them disagree |
| Convergence.RegularsOrderFreeIff | src/storage/store.ts:488-589 | all logs of one set of puts and deletions end with the same regular events, up to signatures, if and only if no fit regular event is disputed in that way |
| Convergence.PutDeleteOrderIrrelevant | src/storage/store.ts:488-589 | two logs of one such set of ops, of events of any kinds, then also end with the same index entries naming regular events; and with the same events and the same six indexes if no fit event competes for a slot |
| EventStores.EventStore.ListExpired | src/storage/store.ts:237-246 | the range read returns the first due ids |
| Expiry.CollectIds | src/storage/store.ts:240-245 | the loop collects up to the limit, and one even for a limit of zero |
| Expiry.DueRangeExact | src/storage/store.ts:237-246 | a key is in the range if and only if its expiry is at or before now, both modulo 2^32 |
| Expiry.ListDueExact | src/storage/store.ts:237-246 | for a limit of at least one: exactly the limit earliest-expiring due events, each once, all omitted ones later |
| Expiry.DueMeansExpired | src/storage/store.ts:232-246 | with u32 clock and expiries, due is expired |
| Expiry.DueWhileUnexpired | src/storage/store.ts:237-246 | in general an unexpired event is due if and only if its expiry is 2^32 or more and wraps to at most now |
| Expiry.ExpiredButNotDue | src/storage/store.ts:237-246 | and an expired event is not due if and only if its expiry is negative and wraps past now |
| Expiry.CycleTakesBatch | src/relay.ts:188-199 | one reclaim cycle removes exactly the earliest batch of due events and nothing else |
| Expiry.CyclesTake | src/relay.ts:188-199 | after n cycles exactly n batches are gone |
| Expiry.ReclaimTerminates | src/relay.ts:188-199 | ceil(n/256) cycles, and no fewer, leave no due event, and every other event untouched |
| Expiry.ReclaimClearsExpired | src/relay.ts:188-199 | with u32 clock and expiries, ceil(n/256) cycles for n expired live events, and no fewer, leave no expired live event and take exactly those |
| EventStores.EventStore.ExpireEvents | src/storage/store.ts:253-256 | a non-empty batch is appended as one op, an empty one is not |
| EventStores.EventStore.PruneEvents | src/storage/store.ts:263-266 | likewise for evictions |
| EventStores.CleanupExpired | src/relay.ts:188-199 | only the founder appends a reclaim, of the first 256 due events, and only if there are any |
| EventStores.EventStore.AdmitWriter | src/storage/store.ts:194-209 | the pre-check refuses a node that is no writer, a malformed key, a known writer and a full list of 64, in that order, and appends exactly in the remaining case, when apply would admit the key to the current view |
| Ranking.CoveredTop | src/storage/query.ts:23-25 | a partial collection that has every event or `limit` newer ones has the same newest `limit` as the whole set |
| Ranking.SortNewestFirst | src/storage/query.ts:143-148 | sorting returns the same events, newest first |
| Ranking.NewestFirstUnique | src/storage/query.ts:137-141 | there is only one such list |
| Ranking.CutIsTop | src/storage/query.ts:143-148 | cutting it leaves exactly the newest `limit` |
| Scans.TakenUnlessSpent | src/storage/query.ts:156-186 | a hit with an entry in a scanned range is seen already or taken, unless the whole budget went to other hits, each with an entry ahead of it |
| Scans.FirstComesFirst | src/storage/query.ts:168-185 | of two hits a scan lists, the first has an entry before any entry of the second |
| Scans.GatherSound | src/storage/query.ts:156-186 | a series of scans collects only live, unexpired matches with an entry under a scanned prefix, each once |
| Scans.GatherIsNear | src/storage/query.ts:156-186 | what a series of scans collects is exactly the matches that are near: fewer than `limit` of the matches not collected before have an entry under the prefix ahead of all of theirs |
| Scans.GatherCovers | src/storage/query.ts:23-25 | a match with an entry that only newer matches precede is collected, or `limit` newer ones are |
| Scans.GatherFinds | src/storage/query.ts:23-25 | with no more matches than the limit, having an entry is enough to be collected |
| Planner.AuthorKindPrefixesAre | src/storage/query.ts:47-53 | the prefixes scanned are exactly those of every listed author with every listed kind |
| Planner.FixedServes | src/storage/query.ts:45-74 | author, kind and author+kind prefixes give every in-window match an entry that only newer matches precede |
| Planner.TagServes | src/storage/query.ts:77-87 | so does a tag value that no other tag value of a match gets in the way of |
| Planner.GlobalServes | src/storage/query.ts:89-92 | and so does the global index |
| Planner.LookupComplete | src/storage/query.ts:27-43 | the id branch finds every stored unexpired match, superseded versions included, whatever the limit |
| Planner.FullAuthorsInFull | src/storage/query.ts:45-64 | full-length authors list every match's author in full |
| Planner.PlainTagsServed | src/storage/query.ts:77-87 | non-empty values that are in no one's way serve every match |
| Planner.AnswerExact | src/storage/query.ts:14-93 | an answerable query's answer is exactly the newest `limit` of all its matches; only matches enter into what makes it answerable |
| Query.ScanIndex | src/storage/query.ts:156-186 | the scan pushes exactly the first `cap` hits of the range that were not seen, in key order |
| Query.QueryIds | src/storage/query.ts:27-43 | the id branch collects the stored hits among the ids, each once |
| Query.QueryAuthorKinds | src/storage/query.ts:45-55 | the author+kind branch collects what the scans of every author with every kind collect one after the other |
| Query.QueryAuthors | src/storage/query.ts:57-64 | the author branch, one scan an author |
| Query.QueryKinds | src/storage/query.ts:66-74 | the kind branch, one scan a kind |
| Query.QueryTags | src/storage/query.ts:76-87 | the tag branch, one scan a value of the first tag filter |
| Query.QueryAll | src/storage/query.ts:89-92 | the global scan |
| Query.Finalize | src/storage/query.ts:143-148 | sort and cut returns the newest `limit` of what was collected |
| Query.QueryFilter | src/storage/query.ts:14-93 | with n the override if given, else the filter's limit if given, else 500: the result is newest first, has at most n events and only ones asked for; for an ordinary or otherwise answerable query it is exactly the newest n of them |
| Query.AskedIs | src/nostr/filters.ts:28-53 | what a query selects from are the live (for full ids: the stored) unexpired events that satisfy every clause of the filter, written out over prefixes, kinds, bounds, tags and the lower-cased content |
| Query.OrdinaryAnswerable | src/storage/query.ts:14-93 | a query with full authors, 32-bit times and bounds, and no empty or "!"-holding tag value is answerable |
| Query.QueryFilters | src/storage/query.ts:96-114 | several filters return, newest first and each once, exactly the events in one of their own answers, each with its own limit or 500; for ordinary or answerable filters that is the newest ones of each |
| Query.CountFilters | src/storage/query.ts:117-133 | for ordinary filters of at most 100000 matches each, a count is the number of distinct events some filter asks for; so it is when each match has an entry that is scanned, and it is never more |
| Query.AnswerableCountable | src/storage/query.ts:117-133 | in particular when every filter is answerable |
| Exactness.WithinLimitExactIff | src/storage/query.ts:14-93 | with no more matches than the limit, a query answers with all of them if and only if each has an entry under a scanned prefix |
| Exactness.AnswerExactIff | src/storage/query.ts:14-93 | for any filter without full ids and any limit, the answer is right if and only if each of the newest `limit` matches is near: under some scanned prefix fewer than `limit` matches, besides those near under an earlier prefix, have an entry ahead of all of its own |
| Exactness.SeparateExactIff | src/storage/query.ts:14-93 | when no match has entries under two scanned prefixes: exact for every limit if and only if every match has an entry under a prefix and no more matches ahead of it there than there are newer matches |
| Exactness.SingleScanExactIff | src/storage/query.ts:156-186 | a query that scans one range is exact for every limit if and only if every match has an entry there, and of any two matches the newer has one ahead of all entries of the older |
| Exactness.TagExactIff | src/storage/query.ts:77-87 | for one tag value: exact for every limit if and only if every match has a tag whose key is in the value's range, and of any two matches the newer has one ahead of all tag keys the older has there; with u32 times and a non-empty value every match has one |
| Exactness.StraddlingValueJumpsQueue | src/storage/query.ts:77-87 | an entry of the tag value "value!" is in the range of "value" and ahead of all its entries, which matters if that event matches |
| Exactness.ContinuedValueSharesRange | src/storage/query.ts:77-87 | an entry of a shorter value can be in the range of a value that continues it, ordered by its id |
| Exactness.StraddlingTagAnswersOlder | src/storage/query.ts:77-87 | a wrong answer: asked for the one newest event of a value, the query returns the older of two because it also carries "value!" |
| Exactness.EmptyTagValueUnindexed | src/nostr/events.ts:49-52 | an event tag with an empty value matches the filter and has no entry |
| Exactness.EmptyTagQueryFindsNothing | src/nostr/events.ts:49-52 | a wrong answer: asked for an empty tag value, the query finds nothing, whatever the limit, though a stored event matches |
| Exactness.AuthorPrefixesIgnored | src/storage/query.ts:45-64 | with kinds or a since bound, the answer is the newest `limit` of the matches whose author is listed in full; prefixes alone answer with nothing |
| Exactness.AuthorsExactIff | src/storage/query.ts:45-64 | with kinds or a since bound, exact for every limit if and only if no match is listed by prefix only |
| Exactness.PrefixesWithinLimit | src/storage/query.ts:57-64 | without either, author prefixes are answered exactly as long as the matches fit the limit |
| Exactness.PrefixesByAgeExact | src/storage/query.ts:57-64 | and for any limit when under each prefix the smaller pubkeys are the newer ones |
| Exactness.AuthorPrefixExactIff | src/storage/query.ts:57-64 | for a single author or prefix: exact for every limit if and only if the matches with the smaller pubkeys are the newer ones |
| Exactness.AuthorPrefixesExactIff | src/storage/query.ts:57-64 | for any list of authors and prefixes, overlapping or not, and any limit: right if and only if each of the newest `limit` matches is near, counting matches by pubkey and age only |
| Exactness.ApartAuthorsExactIff | src/storage/query.ts:57-64 | for authors and prefixes that do not overlap: exact for every limit if and only if no match has more matches listed before it under its own string (smaller pubkey, or the same and newer) than there are newer matches |
| Exactness.AuthorPrefixAnswersOlder | src/storage/query.ts:57-64 | a wrong answer: of two events under a prefix, the one with the smaller pubkey is returned though it is the older |
| Wot.ScanLists | src/wot/graph.ts:163-227 | the scan yields exactly each author's current non-empty follow (or mute) list |
| Wot.CurrentIsLive | src/wot/graph.ts:163-195 | an author's current list is their one live event of the kind |
| Wot.EdgesAre | src/wot/graph.ts:163-227 | the edges read are exactly those from a live list event's author to the non-empty values of its "p" tags |
| Wot.Expand | src/wot/graph.ts:251-255 | visiting a node's follows keeps degrees walkable, the queue ordered by depth and within one level |
| Wot.BreadthFirst | src/wot/graph.ts:230-259 | degree d if and only if the shortest follow path has length d, up to the maximal depth; everyone else absent; the loop ends on every graph |
| Wot.ClosedIsExact | src/wot/graph.ts:230-259 | sound degrees closed under one hop are the shortest distances |
| Wot.ReachIsWalk | src/wot/graph.ts:230-259 | the distances used are lengths of walks along follow edges |
| Wot.ExactUnique | src/wot/graph.ts:230-259 | the order of visiting does not matter: exact degrees are unique |
| Wot.CountMutes | src/wot/graph.ts:118-131 | the early-exit count answers whether the muting follows reach half of the follows, at least one |
| Wot.WotGraph.IsExplicitlyMuted | src/wot/graph.ts:113-132 | muted by the owner or by enough of the owner's follows |
| Wot.WotGraph.ComputeDegrees | src/wot/graph.ts:230-259 | the degrees field becomes exact, or empty without an owner |
| Wot.WotGraph.ComputeScores | src/wot/graph.ts:262-276 | exactly those with a degree are scored: nothing if muted, else by degree |
| Wot.WotGraph.Rebuild | src/wot/graph.ts:38-65 | on any consistent view: the edges are those of the live kind 3 and kind 10000 lists; for an owner, exactly those within maxDepth follows are scored, with their shortest distance; muted are those the owner mutes or at least half (rounded down, at least one) of the owner's follows mute; a muted one scores 0, any other the configured trust of its distance, or 0 |
| Prune.PlanExact | src/light/store.ts:138-187 | within budget nothing is planned; over it, the plan is the shortest oldest-first prefix of all non-exempt events that reaches 80%, unless cut at 1000 or exhausted, and it is never empty while a candidate exists |
| Prune.ChooseEvictions | src/light/store.ts:150-177 | measuring, gathering, sorting in place and cutting compute that plan |
| Prune.MeasureAll | src/light/store.ts:153-163 | the scan totals all bytes and gathers the non-exempt events |
| Prune.CutToTarget | src/light/store.ts:169-177 | the loop drops until the projection meets the target or the batch is full |
| Prune.LightStore.PruneStore | src/light/store.ts:138-187 | a writable node appends the plan as one eviction if it is not empty; a read-only one does nothing |
| Prune.EvictsOldest | src/light/store.ts:138-187 | over budget a cycle evicts at most 1000 events, none of kind 0, 3 or 10000, none newer than one of another kind it leaves, stops below 1000 only at 80% of the budget or when only those kinds are left, and would be over 80% with the last one it takes |
| Prune.CycleEffect | src/light/store.ts:138-187 | on a founder base a cycle removes exactly the plan, lowers the total by exactly its bytes and keeps every exempt event |
| Prune.RestIffNoPlan | src/light/store.ts:165-187 | nothing is planned if and only if the total is within budget or only exempt events are left |
| Prune.CyclesShrink | src/light/store.ts:138-187 | each of n cycles removes an event or the store is at rest |
| Prune.PruningTerminates | src/light/store.ts:138-187 | ceil(n/1000) cycles for n non-exempt events come to rest, within budget or with only exempt events left; a store over budget is then at 80%, or has no candidate left, or has exactly 1000 k candidates fewer for some k below that number of cycles; no exempt event is ever lost |
| Prune.StopsAboveTargetIff | src/light/store.ts:167-177 | one cycle over budget ends at rest above 80% with candidates left if and only if there are over 1000 candidates and the oldest 1000 bring the total within the budget but not to 80% |
| Prune.StopsAboveTarget | src/light/store.ts:167-177 | it happens: 1001 candidates of which the newest has 9000 bytes and the others one each, under a budget of 9999 |
| Prune.PruneTakesEffectIff | src/light/store.ts:138-187 | a prune by any writer, once applied, changes the view if and only if the writer is the founder and the plan is not empty |
| Paging.ApplyPage | src/primal-shim/verbs/feeds.ts:163-184 | filtering, sorting and the page loop compute the page of the request |
| Paging.SkipAndTake | src/primal-shim/verbs/feeds.ts:173-183 | the loop skips up to `offset` boundary ties and then takes up to the limit |
| Paging.PageExact | src/primal-shim/verbs/feeds.ts:163-184 | for any bounds a page is the newest `limit` (at least one) of the events in the bounds, but for the first `offset` events on the second of `until`, or of `since` if there is no `until` |
| Paging.NextPageContinues | src/primal-shim/verbs/feeds.ts:163-184 | asking from the oldest shown second, past the ties already shown, continues the sorted feed exactly |
| Paging.PagingExact | src/primal-shim/verbs/feeds.ts:163-184 | the pages fetched until an empty one concatenate to the whole sorted feed, and an empty one does come |
| Paging.ClampedPagingIff | src/primal-shim/verbs/feeds.ts:70-73 | with clamped offsets the next page continues the feed if and only if at most 500 shown events tie on the boundary second; what it repeats otherwise |
| Paging.ClampedWalkExactIff | src/primal-shim/verbs/feeds.ts:70-73 | with clamped offsets, fetching pages until one is empty shows the whole sorted feed if and only if at no page end (a multiple of the limit, or the end) more than 500 of the events up to there tie on the second of the last |
| Paging.ClampedWalkSticksIff | src/primal-shim/verbs/feeds.ts:70-73 | past 500 shown ties the pager gets one and the same page for ever if and only if the event `limit` past the 500th tie (or the last one) is still on that second |
| RateLimit.TokensBounded | src/util/rate-limit.ts:15-39 | under a clock that does not go back the tokens stay in 0..capacity |
| RateLimit.Conservation | src/util/rate-limit.ts:15-39 | tokens left plus tokens spent never exceed what was there plus what time earned |
| RateLimit.WindowBound | src/util/rate-limit.ts:15-39 | over any window, consumes minus refunds are at most capacity plus rate times length |
| RateLimit.TokensExact | src/util/rate-limit.ts:15-39 | after any uses the bucket holds the least of its capacity and of what is left counted from the start or from each use with a full bucket |
| RateLimit.AllowsIff | src/util/rate-limit.ts:15-39 | a token is refused if and only if less than one is left of what there was and the refill rate earned since, net of the tokens spent, counted from the start or from some earlier use with a full bucket |
| RateLimit.RefundUndoes | src/util/rate-limit.ts:29-32 | a token taken and given back at one moment leaves what there would have been |
| RateLimit.TokenBucket.Refill | src/util/rate-limit.ts:34-39 | earns the elapsed time's tokens, capped |
| RateLimit.TokenBucket.Consume | src/util/rate-limit.ts:16-23 | takes one token if there is one and says so |
| RateLimit.TokenBucket.Refund | src/util/rate-limit.ts:29-32 | gives one back, capped |
| Admission.RunAccounted | src/swarm/admission.ts:112-133 | under every interleaving, reorganisation and stale read, tokens spent and not refunded are exactly the appended ops plus those still held, and "admitted" is only answered for a key that was a writer in some view or has an op appended |
| Admission.AppendsProven | src/swarm/admission.ts:75-110 | under every interleaving, every appended key, and every key not rejected, arrived in a request of version 1 for "writer", as 64 hexadecimal digits, with a proof equal to the expected one |
| Admission.EvaluatedIff | src/swarm/admission.ts:75-110 | an arriving request is evaluated if and only if it is of that form, the granter is writable and the connection ready; in all other cases it is rejected |
| Admission.RateLimitedIff | src/swarm/admission.ts:117-120 | under every interleaving, an evaluation of a key that is no writer is rejected for want of a token if and only if the budget of 16 and 16 an hour is spent on ops appended and evaluations under way, counted from the bucket's creation or an earlier use |
| Admission.AdmissionRateBound | src/swarm/admission.ts:147-147 | t seconds after the bucket's creation at most 16 + 16 t / 3600 add_writer ops have been appended, under every interleaving |
| Admission.EvaluateAdmissionRequest | src/swarm/admission.ts:69-134 | run through without interruption: reply, append and token for every case; without the expected proof it is rejected and nothing changes; with it, a new key under the cap of 64 is appended and admitted as long as a token is earned |
| Admission.RunsThrough | src/swarm/admission.ts:69-134 | the interleaved evaluation, run on without interruption, gives the same replies, appends and uses of the bucket |
| Admission.LostRaceRefunds | src/swarm/admission.ts:125-132 | an evaluation that spent a token and then finds its key admitted says so and gives the token back |
| Lru.LruCache.Get | src/primal-shim/lru.ts:13-23 | returns the unexpired value and makes its key the most recent, drops an expired entry |
| Lru.LruCache.Set | src/primal-shim/lru.ts:25-32 | makes the key the most recent with a fresh expiry and evicts the oldest on overflow |
| Lru.SizeBounded | src/primal-shim/lru.ts:25-32 | the cache never holds more than its maximum |
| Lru.HeldIffRecent | src/primal-shim/lru.ts:13-32 | as long as no lookup drops an expired entry, a key is held if and only if it was set and fewer than the maximum of other keys were touched since |
| Lru.DropsLeaveRoom | src/primal-shim/lru.ts:13-23 | after such a drop a key can be held although as many others were touched since |
| Lru.ReplayFaithful | src/primal-shim/lru.ts:13-32 | after any history every entry holds the last value set for its key, and the keys behind it were touched since |
| Lru.LookupIsLatest | src/primal-shim/lru.ts:13-23 | a lookup only ever returns the value of the latest set of that key, and only before its expiry |
| Lru.LookupFindsRecent | src/primal-shim/lru.ts:13-32 | it does return it if it has not expired and fewer than the maximum of other keys were touched since |

## Left out

Assumptions and simplifications:

- Signature checking is a parameter, any predicate on events. Where order independence needs it, valid events of one
  id are assumed to agree on everything except the signature, which the id does not cover.
- Autobase and Hyperbee: the log is taken as linearized, a Hyperbee is a map read in key order, and the host is the
  list of calls made to it. Undoing and re-running nodes on a reorder is not modelled beyond running another log; for
  admission, the views such a reorder leaves are arbitrary, and an awaited read may see any of them.
- Errors thrown inside `apply` and swallowed there, tombstones stored as plain strings by old versions, and op fields of
  the wrong type (which the code skips).
- JavaScript strings are strings of ASCII characters: no UTF-16 or UTF-8 order, and lower-casing and trimming are ASCII.
  Numbers are unbounded integers with the 32-bit wrap-around of the keys written out, and reals for tokens and for the
  80% target; infinities, NaN, fractional limits and integers beyond 2^53 are not modelled.
- The clock, the byte length of an event and the expected admission proof are parameters. A query runs at one clock
  reading.
- Query.QueryFilter: the exact answer is stated for answerable queries: u32 times of the matches and bounds, every
  match's author listed in full, and, on the tag branch, a non-empty value of every match that no match's other values
  get in the way of. For all other queries `Exactness.AnswerExactIff` is the exact condition, limit by limit.
- Query.QueryFilters: exact when every filter is answerable, sound otherwise.
- Query.CountFilters: exact under the condition named, otherwise at most the true count.
- Exactness.AuthorPrefixesExactIff: like all statements on author prefixes, takes pubkeys of characters between "!" and
  "~", as hexadecimal ones are, and authors of at most 64 characters.
- Convergence.PresenceOrderFreeIff: for regular events and logs of puts and deletions. Slots are order-free in put-only
  runs (`PutOrder`); a slot's events under deletions are only covered by `RunSafety`.
- Wot.ScanLists: exactness needs authors that sort below "~", which every hexadecimal pubkey does.
- Wot.WotGraph.Rebuild: the lists are exact under the same condition; degrees and scores are exact for whatever lists
  were read. Iteration over a JavaScript set is in arbitrary order, and the depth is a natural number.
- Prune.LightStore.PruneStore: the budget is a natural number; a negative one turns pruning off as zero does.
- Paging.PagingExact: the client's walk is by `until`; the poll page that uses `since` as its boundary is computed by
  the same functions (`Paging.PageExact`) but has no walk of its own. The overfetch and the sources behind a feed are not modelled.
- Admission.AdmissionRateBound: counts appends by one node since its bucket was created; the per-connection and global
  request caps in front of the evaluation are not modelled.

Not modelled: WebSocket and HTTP servers, subscriptions, upstream relays, the swarm transport and the joiner's side of
admission, invites, configuration, persistence, timers, the light client's ingest policy and discovery caps, the Primal
verbs, their hydration and statistics, and score lookups for keys outside the trust graph.
