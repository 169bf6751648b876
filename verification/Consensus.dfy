/**
 * The consensus rules of src/storage/store.ts as functions on the materialized view: what each op
 * does to the view, and the run of a linearized log. EventStore.dfy performs the same ops in place.
 */
module Consensus {
  import opened Strings
  import opened NostrEvents
  import opened Keys

  const CONSENSUS_VERSION := 2
  const MAX_WRITERS := 64
  const ACCEPT_OPTIMISTIC := "accept_optimistic"

  /** The signature check is foreign code; the founder's key is the base key. */
  datatype Base = Base(verify: Event -> bool, founder: string)

  datatype Tombstone = Tombstone(id: string, pubkey: string)

  /** The six secondary indexes: composite key to event id. */
  datatype Indexes = Indexes(
    kind: map<string, string>,
    author: map<string, string>,
    authorKind: map<string, string>,
    tag: map<string, string>,
    createdAt: map<string, string>,
    expiration: map<string, string>
  )

  datatype View = View(
    events: map<string, Event>,
    indexes: Indexes,
    replaceableAt: map<string, string>,
    addressableAt: map<string, string>,
    deletion: map<string, Tombstone>,
    writers: map<string, string>,
    config: map<string, bool>
  )

  const EMPTY_INDEXES := Indexes(map[], map[], map[], map[], map[], map[])
  const EMPTY_VIEW := View(map[], EMPTY_INDEXES, map[], map[], map[], map[], map[])

  // ─── Secondary indexes ──────────────────────────────────────────

  datatype IndexName = ByKind | ByAuthor | ByAuthorKind | ByTag | ByCreatedAt | ByExpiration

  function Index(ix: Indexes, s: IndexName): map<string, string> {
    match s
    case ByKind => ix.kind
    case ByAuthor => ix.author
    case ByAuthorKind => ix.authorKind
    case ByTag => ix.tag
    case ByCreatedAt => ix.createdAt
    case ByExpiration => ix.expiration
  }

  function TagKeys(tags: seq<Tag>, createdAt: int, id: string): set<string> {
    set t | t in tags :: TagKey(t.name, t.value, createdAt, id)
  }

  /** The keys under which an event is indexed. */
  function KeysFor(s: IndexName, e: Event): set<string> {
    match s
    case ByKind => {KindKey(e.kind, e.createdAt, e.id)}
    case ByAuthor => {AuthorKey(e.pubkey, e.createdAt, e.id)}
    case ByAuthorKind => {AuthorKindKey(e.pubkey, e.kind, e.createdAt, e.id)}
    case ByTag => TagKeys(IndexableTags(e.tags), e.createdAt, e.id)
    case ByCreatedAt => {CreatedAtKey(e.createdAt, e.id)}
    case ByExpiration => if Expiration(e).Some? then {ExpirationKey(Expiration(e).value, e.id)} else {}
  }

  function AddKeys(m: map<string, string>, keys: set<string>, id: string): map<string, string> {
    m + map k | k in keys :: id
  }

  /** Add an event's entry to every index. */
  function AddEntries(ix: Indexes, e: Event): Indexes {
    Indexes(
      AddKeys(ix.kind, KeysFor(ByKind, e), e.id),
      AddKeys(ix.author, KeysFor(ByAuthor, e), e.id),
      AddKeys(ix.authorKind, KeysFor(ByAuthorKind, e), e.id),
      AddKeys(ix.tag, KeysFor(ByTag, e), e.id),
      AddKeys(ix.createdAt, KeysFor(ByCreatedAt, e), e.id),
      AddKeys(ix.expiration, KeysFor(ByExpiration, e), e.id))
  }

  /** Delete an event's keys from every index. */
  function DelEntries(ix: Indexes, e: Event): Indexes {
    Indexes(
      ix.kind - KeysFor(ByKind, e),
      ix.author - KeysFor(ByAuthor, e),
      ix.authorKind - KeysFor(ByAuthorKind, e),
      ix.tag - KeysFor(ByTag, e),
      ix.createdAt - KeysFor(ByCreatedAt, e),
      ix.expiration - KeysFor(ByExpiration, e))
  }

  // ─── Pointers ───────────────────────────────────────────────────

  /** Replaceable and addressable events compete for a slot; the slot's pointer names the current one. */
  predicate HasSlot(e: Event) {
    Class(e) == Replaceable || Class(e) == Addressable
  }

  function SlotKey(e: Event): string {
    if Class(e) == Addressable then AddressableKey(e.pubkey, e.kind, DTag(e)) else ReplaceableKey(e.pubkey, e.kind)
  }

  function Pointers(v: View, c: EventClass): map<string, string> {
    if c == Addressable then v.addressableAt else v.replaceableAt
  }

  function WithPointers(v: View, c: EventClass, m: map<string, string>): View {
    if c == Addressable then v.(addressableAt := m) else v.(replaceableAt := m)
  }

  predicate Names(v: View, e: Event) {
    SlotKey(e) in Pointers(v, Class(e)) && Pointers(v, Class(e))[SlotKey(e)] == e.id
  }

  // ─── Put ────────────────────────────────────────────────────────

  predicate Valid(b: Base, e: Event) {
    ValidateStructure(e) && b.verify(e)
  }

  /** Fit to be stored at all: valid and not NIP-70 protected. */
  predicate Storable(b: Base, e: Event) {
    Valid(b, e) && !IsProtected(e)
  }

  /** Clear an event's slot, but only while the pointer still names it. */
  function ClearSlot(v: View, e: Event): View {
    if HasSlot(e) && Names(v, e) then WithPointers(v, Class(e), Pointers(v, Class(e)) - {SlotKey(e)}) else v
  }

  function RemoveIndexes(v: View, e: Event): View {
    ClearSlot(v, e).(indexes := DelEntries(v.indexes, e))
  }

  function Insert(v: View, e: Event): View {
    v.(events := v.events[e.id := e], indexes := AddEntries(v.indexes, e))
  }

  /** The stored event a slot currently points at. */
  function Holder(v: View, e: Event): Option<Event> {
    var m := Pointers(v, Class(e));
    if SlotKey(e) in m && m[SlotKey(e)] in v.events then Some(v.events[m[SlotKey(e)]]) else None
  }

  predicate Tombstoned(v: View, e: Event) {
    e.id in v.deletion && v.deletion[e.id].pubkey == e.pubkey
  }

  /** Whether a put stores its event (and presents it to live subscriptions). */
  predicate Accepts(b: Base, v: View, e: Event) {
    && Storable(b, e)
    && e.id !in v.events
    && !Tombstoned(v, e)
    && Class(e) != Ephemeral
    && (HasSlot(e) && Holder(v, e).Some? ==> ShouldReplace(Holder(v, e).value, e))
  }

  /** Unindex the holder of an event's slot, if there is one. */
  function FreeSlot(v: View, e: Event): View {
    if Holder(v, e).Some? then RemoveIndexes(v, Holder(v, e).value) else v
  }

  /** Point an event's slot at it. */
  function Point(v: View, e: Event): View {
    if HasSlot(e) then WithPointers(v, Class(e), Pointers(v, Class(e))[SlotKey(e) := e.id]) else v
  }

  function Put(b: Base, v: View, e: Event): View {
    if !Accepts(b, v, e) then v
    else Insert(Point(if HasSlot(e) then FreeSlot(v, e) else v, e), e)
  }

  // ─── Removal ────────────────────────────────────────────────────

  function Drop(v: View, id: string): View
    requires id in v.events
  {
    var w := RemoveIndexes(v, v.events[id]);
    w.(events := w.events - {id})
  }

  /** The non-empty values of the "e" tags, in order. */
  function Targets(tags: seq<seq<string>>): seq<string> {
    if tags == [] then []
    else
      var last := tags[|tags| - 1];
      Targets(tags[..|tags| - 1]) + (if |last| > 1 && last[0] == "e" && last[1] != "" then [last[1]] else [])
  }

  function DeleteTarget(v: View, d: Event, target: string): View {
    var w := if target in v.events && v.events[target].pubkey == d.pubkey then Drop(v, target) else v;
    w.(deletion := w.deletion[target := Tombstone(d.id, d.pubkey)])
  }

  function DeleteTargets(v: View, d: Event, targets: seq<string>): View {
    if targets == [] then v
    else DeleteTarget(DeleteTargets(v, d, targets[..|targets| - 1]), d, targets[|targets| - 1])
  }

  function Delete(b: Base, v: View, d: Event): View {
    if !Valid(b, d) then v else Put(b, DeleteTargets(v, d, Targets(d.tags)), d)
  }

  predicate Evictable(e: Event, expiringOnly: bool) {
    expiringOnly ==> Expiration(e).Some?
  }

  /** Evict listed events; an expiry reclaim only takes events that declared an expiration. */
  function Evict(v: View, ids: seq<string>, expiringOnly: bool): View {
    if ids == [] then v
    else
      var w := Evict(v, ids[..|ids| - 1], expiringOnly);
      var id := ids[|ids| - 1];
      if id in w.events && Evictable(w.events[id], expiringOnly) then Drop(w, id) else w
  }

  // ─── Ops and nodes ──────────────────────────────────────────────

  datatype Op =
    | PutOp(event: Event, v: Option<int>)
    | DeleteOp(event: Event, v: Option<int>)
    | AddWriterOp(key: string, v: Option<int>)
    | ExpiryDeleteOp(ids: seq<string>, v: Option<int>)
    | PruneDeleteOp(ids: seq<string>, v: Option<int>)
    | SetConfigOp(key: string, value: bool, v: Option<int>)
    | OtherOp(v: Option<int>)

  /** A linearized node: an ack carries no op. */
  datatype Node = Node(value: Option<Op>, from: string, optimistic: bool)

  datatype HostCall = AddWriter(key: string, indexer: bool) | AckWriter(key: string) | Interrupt

  /** `/^[0-9a-f]{64}$/` */
  predicate IsWriterKey(key: string) {
    |key| == 64 && forall i :: 0 <= i < |key| ==> IsHexLower(key[i])
  }

  predicate AdmitsWriter(b: Base, v: View, key: string) {
    IsWriterKey(key) && key != b.founder && key !in v.writers && |v.writers| < MAX_WRITERS
  }

  predicate FutureVersion(op: Op) {
    op.v.Some? && op.v.value > CONSENSUS_VERSION
  }

  predicate AcceptsOptimistic(v: View) {
    ACCEPT_OPTIMISTIC in v.config && v.config[ACCEPT_OPTIMISTIC]
  }

  /** Whether an optimistic block is honored (and acked). */
  predicate HonorsOptimistic(b: Base, v: View, op: Op) {
    op.PutOp? && !FutureVersion(op) && AcceptsOptimistic(v) && Storable(b, op.event)
  }

  /** A node that halts the run: a writer's op from a newer consensus version. */
  predicate Halts(n: Node) {
    n.value.Some? && !n.optimistic && FutureVersion(n.value.value)
  }

  function ApplyOp(b: Base, v: View, op: Op, from: string): View {
    match op
    case PutOp(e, _) => Put(b, v, e)
    case DeleteOp(d, _) => Delete(b, v, d)
    case AddWriterOp(key, _) => if AdmitsWriter(b, v, key) then v.(writers := v.writers[key := from]) else v
    case ExpiryDeleteOp(ids, _) => if from == b.founder then Evict(v, ids, true) else v
    case PruneDeleteOp(ids, _) => if from == b.founder then Evict(v, ids, false) else v
    case SetConfigOp(key, value, _) => if from == b.founder then v.(config := v.config[key := value]) else v
    case OtherOp(_) => v
  }

  /** The view after a node that does not halt. */
  function ApplyNode(b: Base, v: View, n: Node): View {
    if n.value.None? then v
    else if n.optimistic then
      if HonorsOptimistic(b, v, n.value.value) then Put(b, v, n.value.value.event) else v
    else ApplyOp(b, v, n.value.value, n.from)
  }

  /** What an op does to the stored events, by kind of op; the others touch at most the writers and the flags. */
  lemma OpIs(b: Base, v: View, op: Op, from: string)
    ensures var w := ApplyOp(b, v, op, from);
      && (op.PutOp? ==> w == Put(b, v, op.event))
      && (op.DeleteOp? ==> w == Delete(b, v, op.event))
      && (op.ExpiryDeleteOp? ==> w == if from == b.founder then Evict(v, op.ids, true) else v)
      && (op.PruneDeleteOp? ==> w == if from == b.founder then Evict(v, op.ids, false) else v)
      && (op.AddWriterOp? || op.SetConfigOp? || op.OtherOp? ==>
            && w.events == v.events && w.indexes == v.indexes && w.deletion == v.deletion
            && w.replaceableAt == v.replaceableAt && w.addressableAt == v.addressableAt)
  {
    hide Put, Delete, Evict, AdmitsWriter, ApplyOp;
    match op
    case AddWriterOp(_, _) => RuleOpIs(b, v, op, from);
    case SetConfigOp(_, _, _) => RuleOpIs(b, v, op, from);
    case _ => EventOpIs(b, v, op, from);
  }

  lemma EventOpIs(b: Base, v: View, op: Op, from: string)
    requires !op.AddWriterOp? && !op.SetConfigOp?
    ensures ApplyOp(b, v, op, from) ==
      if op.PutOp? then Put(b, v, op.event)
      else if op.DeleteOp? then Delete(b, v, op.event)
      else if op.OtherOp? || from != b.founder then v
      else Evict(v, op.ids, op.ExpiryDeleteOp?)
  {
    hide Put, Delete, Evict;
  }

  lemma RuleOpIs(b: Base, v: View, op: Op, from: string)
    requires op.AddWriterOp? || op.SetConfigOp?
    ensures var w := ApplyOp(b, v, op, from);
      && w.events == v.events && w.indexes == v.indexes && w.deletion == v.deletion
      && w.replaceableAt == v.replaceableAt && w.addressableAt == v.addressableAt
  {
    hide AdmitsWriter;
  }

  /** A node applies its op, or nothing; an optimistic one at most a put. */
  lemma NodeIs(b: Base, v: View, n: Node)
    ensures var w := ApplyNode(b, v, n);
      if n.value.None? then w == v
      else if !n.optimistic then w == ApplyOp(b, v, n.value.value, n.from)
      else if HonorsOptimistic(b, v, n.value.value) then n.value.value.PutOp? && w == Put(b, v, n.value.value.event)
      else w == v
  {
    hide Put, ApplyOp, Storable;
  }

  function HostCalls(b: Base, v: View, n: Node): seq<HostCall> {
    if n.value.None? then []
    else if n.optimistic then
      if HonorsOptimistic(b, v, n.value.value) then [AckWriter(n.from)] else []
    else if Halts(n) then [Interrupt]
    else if n.value.value.AddWriterOp? && AdmitsWriter(b, v, n.value.value.key) then [AddWriter(n.value.value.key, false)]
    else []
  }

  /** The event the node stores and hands to `emitStored`, if any. */
  function Presents(b: Base, v: View, n: Node): seq<Event> {
    if n.value.None? || Halts(n) || (n.optimistic && !HonorsOptimistic(b, v, n.value.value)) then []
    else match n.value.value
      case PutOp(e, _) => if Accepts(b, v, e) then [e] else []
      case DeleteOp(d, _) => if Valid(b, d) && Accepts(b, DeleteTargets(v, d, Targets(d.tags)), d) then [d] else []
      case _ => []
  }

  // ─── Runs ───────────────────────────────────────────────────────

  /** What a run has produced: the view, the calls made to the host, the events presented as stored. */
  datatype State = State(view: View, calls: seq<HostCall>, presented: seq<Event>, halted: bool)

  const INITIAL := State(EMPTY_VIEW, [], [], false)

  function Step(b: Base, s: State, n: Node): State {
    if s.halted then s
    else if Halts(n) then s.(calls := s.calls + [Interrupt], halted := true)
    else State(
      ApplyNode(b, s.view, n),
      s.calls + HostCalls(b, s.view, n),
      s.presented + Presents(b, s.view, n),
      false)
  }

  function Run(b: Base, s: State, log: seq<Node>): State {
    if log == [] then s else Step(b, Run(b, s, log[..|log| - 1]), log[|log| - 1])
  }

  /** A log applied in any two batches gives what it gives in one. */
  lemma {:induction false} RunBatches(b: Base, s: State, first: seq<Node>, second: seq<Node>)
    ensures Run(b, s, first + second) == Run(b, Run(b, s, first), second)
  {
    if second == [] {
      assert first + second == first;
    } else {
      var init := second[..|second| - 1];
      RunBatches(b, s, first, init);
      assert (first + second)[..|first + second| - 1] == first + init;
    }
  }

  /** Concatenation of a list of batches. */
  function Concat(batches: seq<seq<Node>>): seq<Node> {
    if batches == [] then [] else Concat(batches[..|batches| - 1]) + batches[|batches| - 1]
  }

  function RunAll(b: Base, s: State, batches: seq<seq<Node>>): State {
    if batches == [] then s else Run(b, RunAll(b, s, batches[..|batches| - 1]), batches[|batches| - 1])
  }

  /** However a log is cut into batches, applying them one after the other ends in the same state. */
  lemma {:induction false} BatchingIrrelevant(b: Base, s: State, batches: seq<seq<Node>>)
    ensures RunAll(b, s, batches) == Run(b, s, Concat(batches))
  {
    if batches != [] {
      var init := batches[..|batches| - 1];
      BatchingIrrelevant(b, s, init);
      RunBatches(b, s, Concat(init), batches[|batches| - 1]);
    }
  }

  lemma RunTwo(b: Base, x: Node, y: Node)
    requires !Halts(x) && !Halts(y)
    ensures Run(b, INITIAL, [x, y]).view == ApplyNode(b, ApplyNode(b, EMPTY_VIEW, x), y)
  {
    hide ApplyNode, HostCalls, Presents;
    assert [x, y][..1] == [x] && [x][..0] == [];
    assert Run(b, INITIAL, [x]) == Step(b, Run(b, INITIAL, []), x);
  }
}
