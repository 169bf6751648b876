/** The store of src/storage/store.ts: the consensus ops performed in place on the view's maps. */
module EventStores {
  import opened Strings
  import opened NostrEvents
  import opened Keys
  import opened Consensus
  import opened Streams
  import Expiry
  import Recency

  const STORED_EMIT_LRU_MAX := 4096

  /** The 'event:stored' emissions for the events presented so far: each unless its id is still in the window. */
  function Emissions(presented: seq<Event>): seq<Event> {
    if presented == [] then []
    else
      var init, e := presented[..|presented| - 1], presented[|presented| - 1];
      Emissions(init) + (if e.id in Recency.Kept(EventIds(init), STORED_EMIT_LRU_MAX) then [] else [e])
  }

  /** An event is emitted exactly when its id is not among the 4096 most recently presented distinct ids. */
  lemma EmittedIffNotRecent(presented: seq<Event>, e: Event)
    ensures Emissions(presented + [e]) ==
      Emissions(presented) +
      (if e.id in EventIds(presented) && |Recency.Since(EventIds(presented), e.id)| < 4096 then [] else [e])
  {
    assert (presented + [e])[..|presented|] == presented;
    Recency.KeptIffRecent(EventIds(presented), e.id, STORED_EMIT_LRU_MAX);
  }

  /** The calls apply() makes on its Autobase host. */
  class Host {
    var calls: seq<HostCall>

    constructor ()
      ensures calls == []
    {
      calls := [];
    }
  }

  datatype AdmitResult = NotWritable | InvalidKey | AlreadyAdmitted | CapReached | Appended

  class EventStore {
    /** The signature check, and the base key, which is the founder's writer key. */
    const base: Base
    /** This node's own writer key. */
    const localKey: string

    var events: map<string, Event>
    var kind: map<string, string>
    var author: map<string, string>
    var authorKind: map<string, string>
    var tag: map<string, string>
    var createdAt: map<string, string>
    var expiration: map<string, string>
    var replaceableAt: map<string, string>
    var addressableAt: map<string, string>
    var deletion: map<string, Tombstone>
    var writers: map<string, string>
    var config: map<string, bool>

    /** Insertion-ordered id set behind emission dedup. */
    var emittedStoredIds: seq<string>
    /** The 'event:stored' events emitted. */
    var emitted: seq<Event>
    /** Ops appended by this node, not yet linearized. */
    var appended: seq<Op>
    ghost var presented: seq<Event>

    constructor (base: Base, localKey: string)
      ensures this.base == base && this.localKey == localKey
      ensures Valid() && Snapshot() == EMPTY_VIEW && presented == [] && appended == []
    {
      this.base := base;
      this.localKey := localKey;
      events, kind, author, authorKind, tag, createdAt, expiration := map[], map[], map[], map[], map[], map[], map[];
      replaceableAt, addressableAt, deletion, writers, config := map[], map[], map[], map[], map[];
      emittedStoredIds, emitted, appended, presented := [], [], [], [];
    }

    function Snapshot(): View
      reads this
    {
      View(events, Indexes(kind, author, authorKind, tag, createdAt, expiration),
           replaceableAt, addressableAt, deletion, writers, config)
    }

    ghost predicate Valid()
      reads this
    {
      emittedStoredIds == Recency.Kept(EventIds(presented), STORED_EMIT_LRU_MAX) && emitted == Emissions(presented)
    }

    /** The run state this store is in, together with a host. */
    ghost function State(host: Host, halted: bool): State
      reads this, host
    {
      Consensus.State(Snapshot(), host.calls, presented, halted)
    }

    method RemoveIndexes(e: Event)
      modifies this`kind, this`author, this`authorKind, this`createdAt, this`tag, this`expiration
      modifies this`replaceableAt, this`addressableAt
      ensures Snapshot() == Consensus.RemoveIndexes(old(Snapshot()), e)
    {
      hide DelEntries, ClearSlot;
      ClearSlotIgnoresIndexes(Snapshot(), e, DelEntries(Snapshot().indexes, e));
      DeleteEntries(e);
      ClearPointer(e);
    }

    /** Delete the event's key from each of the six indexes. */
    method DeleteEntries(e: Event)
      modifies this`kind, this`author, this`authorKind, this`createdAt, this`tag, this`expiration
      ensures Snapshot().indexes == DelEntries(old(Snapshot()).indexes, e)
    {
      hide KindKey, AuthorKey, AuthorKindKey, TagKey, CreatedAtKey, ExpirationKey, Expiration, IndexableTags;
      hide KeysFor, TagKeys;
      SingleKeys(e);
      kind := kind - {KindKey(e.kind, e.createdAt, e.id)};
      author := author - {AuthorKey(e.pubkey, e.createdAt, e.id)};
      authorKind := authorKind - {AuthorKindKey(e.pubkey, e.kind, e.createdAt, e.id)};
      createdAt := createdAt - {CreatedAtKey(e.createdAt, e.id)};
      var tags := GetIndexableTags(e);
      NoTagKeys(tags, e.createdAt, e.id);
      var i := 0;
      while i < |tags|
        invariant 0 <= i <= |tags|
        invariant tag == old(tag) - TagKeys(tags[..i], e.createdAt, e.id)
        modifies this`tag
      {
        tag := tag - {TagKey(tags[i].name, tags[i].value, e.createdAt, e.id)};
        TagKeysSnoc(tags, i, e.createdAt, e.id);
        i := i + 1;
      }
      assert tags[..i] == tags;
      var expiry := Expiration(e);
      if expiry.Some? {
        expiration := expiration - {ExpirationKey(expiry.value, e.id)};
      }
    }

    /** Clear the event's slot pointer while it still references the event. */
    method ClearPointer(e: Event)
      modifies this`replaceableAt, this`addressableAt
      ensures Snapshot() == ClearSlot(old(Snapshot()), e)
    {
      hide ReplaceableKey, AddressableKey, ClassifyKind, DTag;
      var c := ClassifyKind(e.kind);
      if c == Replaceable {
        var rKey := ReplaceableKey(e.pubkey, e.kind);
        if rKey in replaceableAt && replaceableAt[rKey] == e.id {
          replaceableAt := replaceableAt - {rKey};
        }
      }
      if c == Addressable {
        var aKey := AddressableKey(e.pubkey, e.kind, DTag(e));
        if aKey in addressableAt && addressableAt[aKey] == e.id {
          addressableAt := addressableAt - {aKey};
        }
      }
    }

    /** Write the event's key into each of the six indexes. */
    method WriteEntries(e: Event)
      modifies this`kind, this`author, this`authorKind, this`createdAt, this`tag, this`expiration
      ensures Snapshot().indexes == AddEntries(old(Snapshot()).indexes, e)
    {
      hide KindKey, AuthorKey, AuthorKindKey, TagKey, CreatedAtKey, ExpirationKey, Expiration, IndexableTags;
      hide KeysFor, TagKeys, AddKeys;
      SingleKeys(e);
      var id := e.id;
      AddOneKey(kind, KindKey(e.kind, e.createdAt, id), id);
      kind := kind[KindKey(e.kind, e.createdAt, id) := id];
      AddOneKey(author, AuthorKey(e.pubkey, e.createdAt, id), id);
      author := author[AuthorKey(e.pubkey, e.createdAt, id) := id];
      AddOneKey(authorKind, AuthorKindKey(e.pubkey, e.kind, e.createdAt, id), id);
      authorKind := authorKind[AuthorKindKey(e.pubkey, e.kind, e.createdAt, id) := id];
      AddOneKey(createdAt, CreatedAtKey(e.createdAt, id), id);
      createdAt := createdAt[CreatedAtKey(e.createdAt, id) := id];
      var tags := GetIndexableTags(e);
      NoTagKeys(tags, e.createdAt, id);
      AddNoKeys(tag, id);
      var i := 0;
      while i < |tags|
        invariant 0 <= i <= |tags|
        invariant tag == AddKeys(old(tag), TagKeys(tags[..i], e.createdAt, id), id)
        modifies this`tag
      {
        var key := TagKey(tags[i].name, tags[i].value, e.createdAt, id);
        tag := tag[key := id];
        TagKeysSnoc(tags, i, e.createdAt, id);
        AddKeyMore(old(tag), TagKeys(tags[..i], e.createdAt, id), key, id);
        i := i + 1;
      }
      assert tags[..i] == tags;
      var expiry := Expiration(e);
      if expiry.Some? {
        AddOneKey(expiration, ExpirationKey(expiry.value, id), id);
        expiration := expiration[ExpirationKey(expiry.value, id) := id];
      } else {
        AddNoKeys(expiration, id);
      }
    }

    method EmitStored(e: Event)
      requires Valid()
      modifies this`emittedStoredIds, this`emitted, this`presented
      ensures Valid() && presented == old(presented) + [e]
    {
      presented := presented + [e];
      assert presented[..|presented| - 1] == old(presented);
      if e.id in emittedStoredIds {
        emittedStoredIds := Recency.Without(emittedStoredIds, e.id) + [e.id];
        return;
      }
      emittedStoredIds := emittedStoredIds + [e.id];
      if |emittedStoredIds| > STORED_EMIT_LRU_MAX {
        emittedStoredIds := emittedStoredIds[1..];
      }
      emitted := emitted + [e];
    }

    /** Contend for the event's slot: give up if its holder stays, else unindex the holder and repoint the slot. */
    method ClaimSlot(e: Event) returns (won: bool)
      requires HasSlot(e)
      modifies this`kind, this`author, this`authorKind, this`createdAt, this`tag, this`expiration
      modifies this`replaceableAt, this`addressableAt
      ensures won == (Holder(old(Snapshot()), e).Some? ==> ShouldReplace(Holder(old(Snapshot()), e).value, e))
      ensures Snapshot() == if won then Point(FreeSlot(old(Snapshot()), e), e) else old(Snapshot())
    {
      hide ReplaceableKey, AddressableKey, ClassifyKind, DTag, ShouldReplace, Consensus.RemoveIndexes;
      if ClassifyKind(e.kind) == Replaceable {
        var rKey := ReplaceableKey(e.pubkey, e.kind);
        if rKey in replaceableAt {
          var prev := replaceableAt[rKey];
          if prev in events && !ShouldReplace(events[prev], e) {
            return false;
          }
          if prev in events {
            RemoveIndexes(events[prev]);
          }
        }
        replaceableAt := replaceableAt[rKey := e.id];
      } else {
        var aKey := AddressableKey(e.pubkey, e.kind, DTag(e));
        if aKey in addressableAt {
          var prev := addressableAt[aKey];
          if prev in events && !ShouldReplace(events[prev], e) {
            return false;
          }
          if prev in events {
            RemoveIndexes(events[prev]);
          }
        }
        addressableAt := addressableAt[aKey := e.id];
      }
      won := true;
    }

    /** Write the event and its entries. */
    method WriteEvent(e: Event)
      modifies this`events, this`kind, this`author, this`authorKind, this`createdAt, this`tag, this`expiration
      ensures Snapshot() == Insert(old(Snapshot()), e)
    {
      hide AddEntries;
      events := events[e.id := e];
      WriteEntries(e);
    }

    /** Store the event and present it to live subscriptions. */
    method StoreEvent(e: Event)
      requires Valid()
      modifies this
      ensures Valid() && presented == old(presented) + [e] && appended == old(appended)
      ensures Snapshot() == Insert(old(Snapshot()), e)
    {
      hide Insert, Emissions, EventIds, Recency.Kept;
      WriteEvent(e);
      EmitStored(e);
    }

    method ApplyPut(e: Event)
      requires Valid()
      modifies this
      ensures Valid() && appended == old(appended)
      ensures Snapshot() == Put(base, old(Snapshot()), e)
      ensures presented == old(presented) + (if Accepts(base, old(Snapshot()), e) then [e] else [])
    {
      hide Insert, FreeSlot, Point, Holder, ShouldReplace, IsProtected, ValidateStructure, Emissions, EventIds;
      hide Put, ClassifyKind;
      PutCases(base, Snapshot(), e);
      if !ValidateStructure(e) || !base.verify(e) {
        return;
      }
      if IsProtected(e) {
        return;
      }
      if e.id in events {
        return;
      }
      if e.id in deletion && deletion[e.id].pubkey == e.pubkey {
        return;
      }
      var c := ClassifyKind(e.kind);
      if c == Replaceable || c == Addressable {
        var won := ClaimSlot(e);
        if !won {
          return;
        }
      }
      if c == Ephemeral {
        return;
      }
      StoreEvent(e);
    }

    method ApplyDelete(d: Event)
      requires Valid()
      modifies this
      ensures Valid() && appended == old(appended)
      ensures Snapshot() == Delete(base, old(Snapshot()), d)
      ensures presented == old(presented) +
        (if Consensus.Valid(base, d) && Accepts(base, DeleteTargets(old(Snapshot()), d, Targets(d.tags)), d) then [d] else [])
    {
      hide Put, Accepts, ValidateStructure, DeleteTarget, DeleteTargets, Targets, Emissions, EventIds, Recency.Kept;
      NoTargets(Snapshot(), d);
      if !ValidateStructure(d) || !base.verify(d) {
        return;
      }
      var i := 0;
      while i < |d.tags|
        invariant 0 <= i <= |d.tags|
        invariant Snapshot() == DeleteTargets(old(Snapshot()), d, Targets(d.tags[..i]))
        modifies this`events, this`kind, this`author, this`authorKind, this`createdAt, this`tag, this`expiration
        modifies this`replaceableAt, this`addressableAt, this`deletion
      {
        TargetsSnoc(d.tags, i);
        if |d.tags[i]| > 1 && d.tags[i][0] == "e" && d.tags[i][1] != "" {
          DeleteTargetsSnoc(old(Snapshot()), d, Targets(d.tags[..i]), d.tags[i][1]);
          ApplyTarget(d, d.tags[i][1]);
        } else {
          assert Targets(d.tags[..i]) + [] == Targets(d.tags[..i]);
        }
        i := i + 1;
      }
      assert d.tags[..i] == d.tags;
      ApplyPut(d);
    }

    /** One "e" tag of a deletion: remove the target if it is the deleter's own, and record the tombstone. */
    method ApplyTarget(d: Event, target: string)
      modifies this`events, this`kind, this`author, this`authorKind, this`createdAt, this`tag, this`expiration
      modifies this`replaceableAt, this`addressableAt, this`deletion
      ensures Snapshot() == DeleteTarget(old(Snapshot()), d, target)
    {
      hide Consensus.RemoveIndexes;
      if target in events && events[target].pubkey == d.pubkey {
        RemoveIndexes(events[target]);
        events := events - {target};
      }
      deletion := deletion[target := Tombstone(d.id, d.pubkey)];
    }

    method EvictEvents(ids: seq<string>, expiringOnly: bool)
      modifies this`events, this`kind, this`author, this`authorKind, this`createdAt, this`tag, this`expiration
      modifies this`replaceableAt, this`addressableAt
      ensures Snapshot() == Evict(old(Snapshot()), ids, expiringOnly)
    {
      hide Consensus.RemoveIndexes, Expiration;
      var i := 0;
      while i < |ids|
        invariant 0 <= i <= |ids|
        invariant Snapshot() == Evict(old(Snapshot()), ids[..i], expiringOnly)
      {
        var id := ids[i];
        assert ids[..i + 1][..i] == ids[..i];
        if id in events && !(expiringOnly && Expiration(events[id]).None?) {
          RemoveIndexes(events[id]);
          events := events - {id};
        }
        i := i + 1;
      }
      assert ids[..i] == ids;
    }

    method ApplyExpiryDelete(ids: seq<string>, from: string)
      modifies this`events, this`kind, this`author, this`authorKind, this`createdAt, this`tag, this`expiration
      modifies this`replaceableAt, this`addressableAt
      ensures Snapshot() == if from == base.founder then Evict(old(Snapshot()), ids, true) else old(Snapshot())
    {
      if from != base.founder {
        return;
      }
      EvictEvents(ids, true);
    }

    method ApplyPruneDelete(ids: seq<string>, from: string)
      modifies this`events, this`kind, this`author, this`authorKind, this`createdAt, this`tag, this`expiration
      modifies this`replaceableAt, this`addressableAt
      ensures Snapshot() == if from == base.founder then Evict(old(Snapshot()), ids, false) else old(Snapshot())
    {
      if from != base.founder {
        return;
      }
      EvictEvents(ids, false);
    }

    method ApplySetConfig(key: string, value: bool, from: string)
      modifies this`config
      ensures config == if from == base.founder then old(config)[key := value] else old(config)
    {
      if from != base.founder {
        return;
      }
      config := config[key := value];
    }

    method ApplyAddWriter(key: string, from: string, host: Host)
      modifies this`writers, host
      ensures var admits := AdmitsWriter(base, old(Snapshot()), key);
        && writers == (if admits then old(writers)[key := from] else old(writers))
        && host.calls == old(host.calls) + (if admits then [AddWriter(key, false)] else [])
    {
      if !IsWriterKey(key) {
        return;
      }
      if key == base.founder {
        return;
      }
      if key in writers {
        return;
      }
      if |writers| >= MAX_WRITERS {
        return;
      }
      host.calls := host.calls + [AddWriter(key, false)];
      writers := writers[key := from];
    }

    /** The narrow path for blocks of non-admitted peers: at most a self-verifying put, acked but never admitting. */
    method ApplyOptimistic(op: Op, from: string, host: Host)
      requires Valid()
      modifies this, host
      ensures Valid() && appended == old(appended)
      ensures var n := Node(Some(op), from, true);
        && Snapshot() == ApplyNode(base, old(Snapshot()), n)
        && host.calls == old(host.calls) + HostCalls(base, old(Snapshot()), n)
        && presented == old(presented) + Presents(base, old(Snapshot()), n)
    {
      hide Put, Accepts, ValidateStructure, IsProtected, Emissions, EventIds;
      if !op.PutOp? {
        return;
      }
      if op.v.Some? && op.v.value > CONSENSUS_VERSION {
        return;
      }
      if ACCEPT_OPTIMISTIC !in config || !config[ACCEPT_OPTIMISTIC] {
        return;
      }
      if !ValidateStructure(op.event) || !base.verify(op.event) {
        return;
      }
      if IsProtected(op.event) {
        return;
      }
      ApplyPut(op.event);
      host.calls := host.calls + [AckWriter(from)];
    }

    /** One writer op of a version this node understands. */
    method ApplyWriterOp(op: Op, from: string, host: Host)
      requires Valid() && !FutureVersion(op)
      modifies this, host
      ensures Valid() && appended == old(appended)
      ensures var n := Node(Some(op), from, false);
        && Snapshot() == ApplyNode(base, old(Snapshot()), n)
        && host.calls == old(host.calls) + HostCalls(base, old(Snapshot()), n)
        && presented == old(presented) + Presents(base, old(Snapshot()), n)
    {
      hide Put, Accepts, Delete, DeleteTargets, Consensus.Valid, AdmitsWriter, Evict, Emissions, EventIds, Recency.Kept;
      hide ApplyNode, HostCalls, Presents;
      WriterOpIs(base, Snapshot(), op, from);
      match op
      case PutOp(e, _) => ApplyPut(e);
      case DeleteOp(d, _) => ApplyDelete(d);
      case AddWriterOp(key, _) => ApplyAddWriter(key, from, host);
      case ExpiryDeleteOp(ids, _) => ApplyExpiryDelete(ids, from);
      case PruneDeleteOp(ids, _) => ApplyPruneDelete(ids, from);
      case SetConfigOp(key, value, _) => ApplySetConfig(key, value, from);
      case OtherOp(_) =>
    }

    /** apply(): run a batch of linearized nodes; an op from a newer version interrupts the host and stops the run. */
    method Apply(nodes: seq<Node>, host: Host) returns (halted: bool)
      requires Valid()
      modifies this, host
      ensures Valid() && appended == old(appended)
      ensures State(host, halted) == Run(base, old(State(host, false)), nodes)
    {
      hide ApplyNode, HostCalls, Presents, Emissions, EventIds, Recency.Kept;
      halted := false;
      var i := 0;
      while i < |nodes|
        invariant 0 <= i <= |nodes| && Valid() && !halted && appended == old(appended)
        invariant State(host, false) == Run(base, old(State(host, false)), nodes[..i])
      {
        var node := nodes[i];
        assert nodes[..i + 1][..i] == nodes[..i];
        i := i + 1;
        if node.value.None? {
          AckChangesNothing(base, State(host, false), node);
          continue;
        }
        if node.optimistic {
          ApplyOptimistic(node.value.value, node.from, host);
          continue;
        }
        if FutureVersion(node.value.value) {
          host.calls := host.calls + [Interrupt];
          halted := true;
          HaltedStays(base, old(State(host, false)), nodes[..i], nodes[i..]);
          assert nodes == nodes[..i] + nodes[i..];
          return;
        }
        ApplyWriterOp(node.value.value, node.from, host);
      }
      assert nodes[..i] == nodes;
    }

    // ─── Reading and appending ──────────────────────────────────────

    predicate IsFounder() {
      localKey == base.founder
    }

    /** The founder, or admitted. */
    predicate Writable()
      reads this
    {
      IsFounder() || localKey in writers
    }

    /** Ids whose expiration is filed at or before `now`, earliest first, up to `limit`. */
    method ListExpired(now: int, limit: nat) returns (ids: seq<string>)
      ensures ids == Expiry.ListDue(Snapshot(), now, limit)
    {
      var ks := ReadStream(expiration, Expiry.DueRange(now));
      assert ks == Expiry.DueKeys(Snapshot(), now);
      ids := Expiry.CollectIds(expiration, ks, limit);
    }

    method ExpireEvents(ids: seq<string>)
      modifies this`appended
      ensures appended == old(appended) + (if ids == [] then [] else [ExpiryDeleteOp(ids, Some(CONSENSUS_VERSION))])
    {
      if ids == [] {
        return;
      }
      appended := appended + [ExpiryDeleteOp(ids, Some(CONSENSUS_VERSION))];
    }

    method PruneEvents(ids: seq<string>)
      modifies this`appended
      ensures appended == old(appended) + (if ids == [] then [] else [PruneDeleteOp(ids, Some(CONSENSUS_VERSION))])
    {
      if ids == [] {
        return;
      }
      appended := appended + [PruneDeleteOp(ids, Some(CONSENSUS_VERSION))];
    }

    /** The admission pre-check: it appends exactly when apply() would admit the key to the current view. */
    method AdmitWriter(keyHex: string) returns (r: AdmitResult)
      modifies this`appended
      ensures r == Appended <==> Writable() && AdmitsWriter(base, Snapshot(), ToLower(keyHex))
      ensures appended == old(appended) + (if r == Appended then [AddWriterOp(ToLower(keyHex), None)] else [])
      ensures r == AlreadyAdmitted ==> ToLower(keyHex) == base.founder || ToLower(keyHex) in writers
      ensures r == CapReached ==> |writers| >= MAX_WRITERS
      ensures
        var key := ToLower(keyHex);
        r == if localKey != base.founder && localKey !in writers then NotWritable
             else if |key| != 64 || exists i :: 0 <= i < |key| && !('0' <= key[i] <= '9' || 'a' <= key[i] <= 'f') then InvalidKey
             else if key == base.founder || key in writers then AlreadyAdmitted
             else if |writers| >= 64 then CapReached else Appended
    {
      if !Writable() {
        return NotWritable;
      }
      var key := ToLower(keyHex);
      if !IsWriterKey(key) {
        return InvalidKey;
      }
      if key == base.founder {
        return AlreadyAdmitted;
      }
      if key in writers {
        return AlreadyAdmitted;
      }
      if |writers| >= MAX_WRITERS {
        return CapReached;
      }
      appended := appended + [AddWriterOp(key, None)];
      return Appended;
    }
  }

  /** The relay's periodic reclaim (src/relay.ts): only a writable founder appends, and only a non-empty batch. */
  method CleanupExpired(store: EventStore, now: int)
    modifies store`appended
    ensures
      var ids := Expiry.ListDue(old(store.Snapshot()), now, 256);
      store.appended == old(store.appended) +
        (if store.localKey == store.base.founder && ids != [] then [ExpiryDeleteOp(ids, Some(CONSENSUS_VERSION))] else [])
  {
    if !store.IsFounder() || !store.Writable() {
      return;
    }
    var ids := store.ListExpired(now, Expiry.EXPIRY_DELETE_BATCH);
    if |ids| == 0 {
      return;
    }
    store.ExpireEvents(ids);
  }

  /** What a writer op of a known version does, op by op. */
  lemma WriterOpIs(b: Base, v: View, op: Op, from: string)
    requires !FutureVersion(op)
    ensures var n := Node(Some(op), from, false);
      && ApplyNode(b, v, n) == ApplyOp(b, v, op, from)
      && HostCalls(b, v, n) == (if op.AddWriterOp? && AdmitsWriter(b, v, op.key) then [AddWriter(op.key, false)] else [])
      && Presents(b, v, n) == (if OpPresents(b, v, op) then [op.event] else [])
  {
    hide Accepts, AdmitsWriter, DeleteTargets, Targets, Consensus.Valid, ApplyOp;
  }

  predicate OpPresents(b: Base, v: View, op: Op)
    ensures OpPresents(b, v, op) ==> op.PutOp? || op.DeleteOp?
  {
    (op.PutOp? && Accepts(b, v, op.event)) ||
    (op.DeleteOp? && Consensus.Valid(b, op.event) && Accepts(b, DeleteTargets(v, op.event, Targets(op.event.tags)), op.event))
  }

  lemma TargetsSnoc(tags: seq<seq<string>>, i: nat)
    requires i < |tags|
    ensures Targets(tags[..i + 1]) ==
      Targets(tags[..i]) + (if |tags[i]| > 1 && tags[i][0] == "e" && tags[i][1] != "" then [tags[i][1]] else [])
  {
    assert tags[..i + 1][..i] == tags[..i];
  }

  lemma NoTargets(v: View, d: Event)
    ensures DeleteTargets(v, d, Targets(d.tags[..0])) == v
  {
  }

  lemma DeleteTargetsSnoc(v: View, d: Event, targets: seq<string>, t: string)
    ensures DeleteTargets(v, d, targets + [t]) == DeleteTarget(DeleteTargets(v, d, targets), d, t)
  {
    hide DeleteTarget;
    assert (targets + [t])[..|targets|] == targets;
  }

  lemma AckChangesNothing(b: Base, s: State, n: Node)
    requires n.value.None? && !s.halted
    ensures Step(b, s, n) == s
  {
  }

  /** Nothing is applied after a halt. */
  lemma {:induction false} HaltedStays(b: Base, s: State, done: seq<Node>, rest: seq<Node>)
    requires Run(b, s, done).halted
    ensures Run(b, s, done + rest) == Run(b, s, done)
  {
    hide ApplyNode, HostCalls, Presents;
    if rest == [] {
      assert done + rest == done;
    } else {
      HaltedStays(b, s, done, rest[..|rest| - 1]);
      assert (done + rest)[..|done + rest| - 1] == done + rest[..|rest| - 1];
    }
  }

  lemma PutCases(b: Base, v: View, e: Event)
    ensures Put(b, v, e) ==
      if !Accepts(b, v, e) then v else if HasSlot(e) then Insert(Point(FreeSlot(v, e), e), e) else Insert(v, e)
  {
    hide Accepts, FreeSlot, Insert, SlotKey;
  }

  lemma ClearSlotIgnoresIndexes(v: View, e: Event, ix: Indexes)
    ensures ClearSlot(v.(indexes := ix), e) == ClearSlot(v, e).(indexes := ix)
  {
    hide SlotKey, ClassifyKind, Names, WithPointers, Pointers;
    PointersIgnoreIndexes(v, e, ix, Pointers(v, Class(e)) - {SlotKey(e)});
  }

  lemma PointersIgnoreIndexes(v: View, e: Event, ix: Indexes, m: map<string, string>)
    ensures var w := v.(indexes := ix);
      && Names(w, e) == Names(v, e)
      && Pointers(w, Class(e)) == Pointers(v, Class(e))
      && WithPointers(w, Class(e), m) == WithPointers(v, Class(e), m).(indexes := ix)
  {
    hide SlotKey, ClassifyKind, Pointers, WithPointers;
    ClassPointersIgnoreIndexes(v, Class(e), ix, m);
  }

  lemma ClassPointersIgnoreIndexes(v: View, c: EventClass, ix: Indexes, m: map<string, string>)
    ensures Pointers(v.(indexes := ix), c) == Pointers(v, c)
    ensures WithPointers(v.(indexes := ix), c, m) == WithPointers(v, c, m).(indexes := ix)
  {
  }

  /** The keys of an event, index by index, as the methods build them. */
  lemma SingleKeys(e: Event)
    ensures KeysFor(ByKind, e) == {KindKey(e.kind, e.createdAt, e.id)}
    ensures KeysFor(ByAuthor, e) == {AuthorKey(e.pubkey, e.createdAt, e.id)}
    ensures KeysFor(ByAuthorKind, e) == {AuthorKindKey(e.pubkey, e.kind, e.createdAt, e.id)}
    ensures KeysFor(ByCreatedAt, e) == {CreatedAtKey(e.createdAt, e.id)}
    ensures KeysFor(ByTag, e) == TagKeys(IndexableTags(e.tags), e.createdAt, e.id)
    ensures KeysFor(ByExpiration, e) == if Expiration(e).Some? then {ExpirationKey(Expiration(e).value, e.id)} else {}
  {
  }

  lemma NoTagKeys(tags: seq<Tag>, createdAt: int, id: string)
    ensures TagKeys(tags[..0], createdAt, id) == {}
  {
  }

  lemma AddNoKeys(m: map<string, string>, id: string)
    ensures AddKeys(m, {}, id) == m
  {
  }

  lemma AddOneKey(m: map<string, string>, k: string, id: string)
    ensures AddKeys(m, {k}, id) == m[k := id]
  {
  }

  lemma AddKeyMore(m: map<string, string>, keys: set<string>, k: string, id: string)
    ensures AddKeys(m, keys + {k}, id) == AddKeys(m, keys, id)[k := id]
  {
  }

  lemma TagKeysSnoc(tags: seq<Tag>, i: nat, createdAt: int, id: string)
    requires i < |tags|
    ensures TagKeys(tags[..i + 1], createdAt, id) ==
            TagKeys(tags[..i], createdAt, id) + {TagKey(tags[i].name, tags[i].value, createdAt, id)}
  {
    hide TagKey;
    assert tags[..i + 1] == tags[..i] + [tags[i]];
  }
}
