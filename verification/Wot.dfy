/** The web-of-trust graph of src/wot/graph.ts: follow lists read from the view, BFS degrees, scores. */
module Wot {
  import opened Strings
  import opened NostrEvents
  import opened Keys
  import opened Consensus
  import opened ViewInvariant
  import opened Streams
  import opened Sets

  type Graph = map<string, set<string>>

  // ─── Distances ──────────────────────────────────────────────────

  /** A walk along follow edges. */
  ghost predicate Walk(g: Graph, path: seq<string>) {
    path != [] && forall i :: 0 <= i < |path| - 1 ==> path[i] in g && path[i + 1] in g[path[i]]
  }

  /** There is a walk of exactly `n` hops from the owner to `x`. */
  ghost predicate Reach(g: Graph, owner: string, x: string, n: nat)
    decreases n
  {
    if n == 0 then x == owner
    else exists y :: y in g && x in g[y] && Reach(g, owner, y, n - 1)
  }

  lemma {:induction false} ReachIsWalk(g: Graph, owner: string, x: string, n: nat)
    ensures Reach(g, owner, x, n) <==> exists path :: |path| == n + 1 && path[0] == owner && path[n] == x && Walk(g, path)
    decreases n
  {
    if n == 0 {
      assert Walk(g, [owner]);
    } else {
      if Reach(g, owner, x, n) {
        var y :| y in g && x in g[y] && Reach(g, owner, y, n - 1);
        ReachIsWalk(g, owner, y, n - 1);
        var path :| |path| == n && path[0] == owner && path[n - 1] == y && Walk(g, path);
        assert Walk(g, path + [x]);
        assert (path + [x])[0] == owner && (path + [x])[n] == x;
      }
      if path: seq<string> :| |path| == n + 1 && path[0] == owner && path[n] == x && Walk(g, path) {
        var init := path[..n];
        assert Walk(g, init) && init[0] == owner && init[n - 1] == path[n - 1];
        ReachIsWalk(g, owner, path[n - 1], n - 1);
        assert path[n - 1 + 1] in g[path[n - 1]];
      }
    }
  }

  /** `d` is the length of a shortest walk from the owner to `x`. */
  ghost predicate Shortest(g: Graph, owner: string, x: string, d: nat) {
    Reach(g, owner, x, d) && forall m: nat :: m < d ==> !Reach(g, owner, x, m)
  }

  /** Degrees are exactly the shortest follow distances up to `depth`; everyone farther is absent. */
  ghost predicate DegreesExact(g: Graph, owner: string, depth: nat, degrees: map<string, nat>) {
    forall x, d: nat :: (x in degrees && degrees[x] == d) <==> (d <= depth && Shortest(g, owner, x, d))
  }

  lemma DegreeOf(g: Graph, owner: string, depth: nat, degrees: map<string, nat>, p: string)
    requires DegreesExact(g, owner, depth, degrees)
    ensures p in degrees <==> exists d: nat :: d <= depth && Shortest(g, owner, p, d)
    ensures p in degrees ==> Shortest(g, owner, p, degrees[p])
  {
    hide Shortest;
    if p in degrees {
      assert Shortest(g, owner, p, degrees[p]);
    }
  }

  /** One hop from a node of degree below `depth` leads to a node at most one degree farther. */
  ghost predicate Closed(g: Graph, depth: nat, degrees: map<string, nat>, pending: set<string>) {
    forall y :: y in degrees && y !in pending && degrees[y] < depth && y in g ==>
      forall x :: x in g[y] ==> x in degrees && degrees[x] <= degrees[y] + 1
  }

  ghost predicate Sound(g: Graph, owner: string, depth: nat, degrees: map<string, nat>) {
    && owner in degrees && degrees[owner] == 0
    && (forall x :: x in degrees ==> Reach(g, owner, x, degrees[x]) && degrees[x] <= depth)
  }

  lemma {:induction false} ClosedCatches(g: Graph, owner: string, depth: nat, degrees: map<string, nat>, x: string,
                                         n: nat)
    requires Sound(g, owner, depth, degrees) && Closed(g, depth, degrees, {}) && n <= depth && Reach(g, owner, x, n)
    ensures x in degrees && degrees[x] <= n
    decreases n
  {
    if n > 0 {
      var y :| y in g && x in g[y] && Reach(g, owner, y, n - 1);
      ClosedCatches(g, owner, depth, degrees, y, n - 1);
    }
  }

  /** Sound and closed degrees are exact. */
  lemma ClosedIsExact(g: Graph, owner: string, depth: nat, degrees: map<string, nat>)
    requires Sound(g, owner, depth, degrees) && Closed(g, depth, degrees, {})
    ensures DegreesExact(g, owner, depth, degrees)
  {
    forall x, d: nat ensures (x in degrees && degrees[x] == d) <==> (d <= depth && Shortest(g, owner, x, d)) {
      if x in degrees && degrees[x] == d {
        forall m: nat | m < d ensures !Reach(g, owner, x, m) {
          if Reach(g, owner, x, m) {
            ClosedCatches(g, owner, depth, degrees, x, m);
          }
        }
      } else if d <= depth && Shortest(g, owner, x, d) {
        ClosedCatches(g, owner, depth, degrees, x, d);
      }
    }
  }

  /** Exact degrees are unique, so any BFS order computes the same map. */
  lemma ExactUnique(g: Graph, owner: string, depth: nat, a: map<string, nat>, b: map<string, nat>)
    requires DegreesExact(g, owner, depth, a) && DegreesExact(g, owner, depth, b)
    ensures a == b
  {
    forall x ensures (x in a <==> x in b) && (x in a && x in b ==> a[x] == b[x]) {
      if x in a {
        assert Shortest(g, owner, x, a[x]);
      }
      if x in b {
        assert Shortest(g, owner, x, b[x]);
      }
    }
  }

  // ─── Follow and mute lists in the view ──────────────────────────

  /** The non-empty "p" tag values of a list event. */
  function People(tags: seq<seq<string>>): set<string> {
    set i | 0 <= i < |tags| && |tags[i]| > 1 && tags[i][0] == "p" && tags[i][1] != "" :: tags[i][1]
  }

  /** An author's current list of a replaceable kind. */
  function CurrentList(v: View, pubkey: string, kind: int): Option<Event> {
    var r := ReplaceableKey(pubkey, kind);
    if r in v.replaceableAt && v.replaceableAt[r] in v.events then Some(v.events[v.replaceableAt[r]]) else None
  }

  /** The graph of all authors' current, non-empty lists of a kind. */
  ghost predicate ListsOf(v: View, kind: int, g: Graph) {
    forall pk :: (pk in g <==> CurrentList(v, pk, kind).Some? && People(CurrentList(v, pk, kind).value.tags) != {})
              && (pk in g ==> g[pk] == People(CurrentList(v, pk, kind).value.tags))
  }

  /** Author keys are hexadecimal; all the scan needs is that they sort below its upper bound. */
  ghost predicate AuthorsBelowTilde(v: View) {
    forall id :: id in LiveEvents(v) ==> LiveEvents(v)[id].pubkey != "" && LiveEvents(v)[id].pubkey[0] < '~'
  }

  /** The current list of an author is their one live event of the kind. */
  lemma CurrentIsLive(b: Base, v: View, e: Event, kind: int, pubkey: string)
    requires Consistent(b, v) && (kind == 3 || kind == 10000)
    ensures CurrentList(v, pubkey, kind) == Some(e) <==>
      e.id in LiveEvents(v) && LiveEvents(v)[e.id] == e && e.kind == kind && e.pubkey == pubkey
  {
    hide EncodeKind, DTag, Storable, IndexedBy;
    assert Pointers(v, Replaceable) == v.replaceableAt;
    var r := ReplaceableKey(pubkey, kind);
    if CurrentList(v, pubkey, kind) == Some(e) {
      assert Class(e) == Replaceable && SlotKey(e) == r;
      AuthorKindPrefixInjective(e.pubkey, e.kind, pubkey, kind);
    }
    if e.id in LiveEvents(v) && LiveEvents(v)[e.id] == e && e.kind == kind && e.pubkey == pubkey {
      assert Names(v, e);
    }
  }

  /** Which authors a scan has read so far, and what it recorded for them. */
  ghost predicate ReadSoFar(v: View, kind: int, g: Graph, seen: set<string>) {
    && (forall pk :: pk in g ==> pk in seen)
    && (forall pk :: pk in seen ==>
          && CurrentList(v, pk, kind).Some?
          && (pk in g <==> People(CurrentList(v, pk, kind).value.tags) != {})
          && (pk in g ==> g[pk] == People(CurrentList(v, pk, kind).value.tags)))
  }

  lemma ReadNone(v: View, kind: int)
    ensures ReadSoFar(v, kind, map[], {})
  {
  }

  lemma ReadMore(v: View, kind: int, g: Graph, seen: set<string>, e: Event)
    requires ReadSoFar(v, kind, g, seen) && e.pubkey !in seen && CurrentList(v, e.pubkey, kind) == Some(e)
    ensures ReadSoFar(v, kind, if People(e.tags) != {} then g[e.pubkey := People(e.tags)] else g, seen + {e.pubkey})
  {
    hide CurrentList, People;
  }

  lemma AllRead(v: View, kind: int, g: Graph, seen: set<string>)
    requires ReadSoFar(v, kind, g, seen) && forall pk :: CurrentList(v, pk, kind).Some? ==> pk in seen
    ensures ListsOf(v, kind, g)
  {
    hide CurrentList, People;
  }

  /** Scan the author+kind index for the newest list of a kind per author. */
  method ScanLists(ghost b: Base, indexes: View, kind: int) returns (g: Graph)
    requires Consistent(b, indexes) && (kind == 3 || kind == 10000)
    ensures AuthorsBelowTilde(indexes) ==> ListsOf(indexes, kind, g)
  {
    hide Consistent, CurrentList, InRange, People, KeysIn, LiveEvents, Live, Enumerates, AuthorKindKey, Class;
    hide ReadSoFar, ListsOf;
    ReadNone(indexes, kind);
    var ks := ReadStream(indexes.indexes.authorKind, Range("", Lt(TILDE)));
    StreamOwners(b, indexes);
    g := map[];
    var seen: set<string> := {};
    var i := 0;
    while i < |ks|
      invariant 0 <= i <= |ks| && ReadSoFar(indexes, kind, g, seen)
      invariant forall j :: 0 <= j < i && OwnerOf(indexes, ks[j]).kind == kind ==> OwnerOf(indexes, ks[j]).pubkey in seen
    {
      assert ks[i] in ks;
      var id := indexes.indexes.authorKind[ks[i]];
      i := i + 1;
      if id !in indexes.events || indexes.events[id].kind != kind {
        continue;
      }
      var e := indexes.events[id];
      if e.pubkey in seen {
        continue;
      }
      var people := People(e.tags);
      CurrentIsLive(b, indexes, e, kind, e.pubkey);
      ReadMore(indexes, kind, g, seen, e);
      seen := seen + {e.pubkey};
      if people != {} {
        g := g[e.pubkey := people];
      }
    }
    if AuthorsBelowTilde(indexes) {
      forall pk | CurrentList(indexes, pk, kind).Some? ensures pk in seen {
        var e := CurrentList(indexes, pk, kind).value;
        CurrentIsLive(b, indexes, e, kind, pk);
        LiveInStream(b, indexes, e);
        var j :| 0 <= j < |ks| && ks[j] == AuthorKindKey(e.pubkey, e.kind, e.createdAt, e.id);
      }
      AllRead(indexes, kind, g, seen);
    }
  }

  /** The event an author+kind entry names. */
  ghost function OwnerOf(v: View, k: string): Event {
    if k in v.indexes.authorKind && v.indexes.authorKind[k] in v.events then v.events[v.indexes.authorKind[k]]
    else Event("", "", 0, -1, [], "", "")
  }

  lemma StreamOwners(b: Base, v: View)
    requires Consistent(b, v)
    ensures forall k :: k in Stream(v.indexes.authorKind, Range("", Lt(TILDE))) ==>
      k in v.indexes.authorKind && v.indexes.authorKind[k] in LiveEvents(v) && v.indexes.authorKind[k] in v.events
      && OwnerOf(v, k).id == v.indexes.authorKind[k] && LiveEvents(v)[v.indexes.authorKind[k]] == OwnerOf(v, k)
  {
    hide InRange, KeysFor, Live;
    assert Index(v.indexes, ByAuthorKind) == v.indexes.authorKind;
  }

  lemma LiveInStream(b: Base, v: View, e: Event)
    requires Consistent(b, v) && AuthorsBelowTilde(v) && e.id in LiveEvents(v) && LiveEvents(v)[e.id] == e
    ensures
      var k := AuthorKindKey(e.pubkey, e.kind, e.createdAt, e.id);
      k in Stream(v.indexes.authorKind, Range("", Lt(TILDE))) && OwnerOf(v, k) == e
  {
    hide Live, InRange, AuthorKindKey, KeysFor, EventsSound, PointersResolve;
    var k := AuthorKindKey(e.pubkey, e.kind, e.createdAt, e.id);
    LiveAreStored(v);
    assert Index(v.indexes, ByAuthorKind) == v.indexes.authorKind;
    AuthorKindEntry(e);
    KeyStartsWithAuthor(e);
    BelowTilde(k);
  }

  lemma AuthorKindEntry(e: Event)
    ensures AuthorKindKey(e.pubkey, e.kind, e.createdAt, e.id) in KeysFor(ByAuthorKind, e)
  {
    hide AuthorKindKey;
  }

  lemma KeyStartsWithAuthor(e: Event)
    requires e.pubkey != ""
    ensures var k := AuthorKindKey(e.pubkey, e.kind, e.createdAt, e.id); k != "" && k[0] == e.pubkey[0]
  {
    hide Stamp, EncodeKind;
  }

  lemma BelowTilde(k: string)
    requires k != "" && k[0] < '~'
    ensures InRange(k, Range("", Lt(TILDE)))
  {
  }

  // ─── The graph ──────────────────────────────────────────────────

  datatype TrustScore = TrustScore(pubkey: string, degree: nat, score: real, muted: bool)

  predicate Edge(g: Graph, a: string, x: string) {
    a in g && x in g[a]
  }

  /** The event is a list of the kind by `a`, and a "p" tag of it names `x`. */
  predicate Lists(e: Event, a: string, kind: int, x: string) {
    && e.pubkey == a && e.kind == kind && x != ""
    && exists i :: 0 <= i < |e.tags| && |e.tags[i]| > 1 && e.tags[i][0] == "p" && e.tags[i][1] == x
  }

  /** The edges read are those of the live list events. */
  lemma EdgesAre(b: Base, v: View, kind: int, g: Graph, a: string, x: string)
    requires Consistent(b, v) && (kind == 3 || kind == 10000) && ListsOf(v, kind, g)
    ensures Edge(g, a, x) <==> exists id :: id in LiveEvents(v) && Lists(LiveEvents(v)[id], a, kind, x)
  {
    hide Consistent, LiveEvents, CurrentList;
    if Edge(g, a, x) {
      var e := CurrentList(v, a, kind).value;
      CurrentIsLive(b, v, e, kind, a);
      assert Lists(e, a, kind, x);
    }
    if id :| id in LiveEvents(v) && Lists(LiveEvents(v)[id], a, kind, x) {
      var e := LiveEvents(v)[id];
      LiveIdOf(b, v, id);
      CurrentIsLive(b, v, e, kind, a);
      assert x in People(e.tags);
    }
  }

  lemma LiveIdOf(b: Base, v: View, id: string)
    requires Consistent(b, v) && id in LiveEvents(v)
    ensures LiveEvents(v)[id].id == id
  {
    hide Live, IndexedBy, PointersResolve, Storable;
  }

  /** Muted by the owner, or by at least half of the owner's direct follows (never by none). */
  predicate Muted(follows: Graph, mutes: Graph, owner: string, pubkey: string) {
    || (owner in mutes && pubkey in mutes[owner])
    || (owner in follows && |Muters(follows, mutes, owner, pubkey)| >= MuteThreshold(|follows[owner]|))
  }

  function Muters(follows: Graph, mutes: Graph, owner: string, pubkey: string): set<string>
    requires owner in follows
  {
    set f | f in follows[owner] && f in mutes && pubkey in mutes[f]
  }

  /** `Math.max(1, Math.floor(n * 0.5))` */
  function MuteThreshold(n: nat): nat {
    if n / 2 > 1 then n / 2 else 1
  }

  function Universe(g: Graph, owner: string): set<string> {
    (set k, x | k in g && x in g[k] :: x) + {owner}
  }

  datatype Queued = Queued(pubkey: string, depth: nat)

  function QueuedKeys(queue: seq<Queued>): set<string> {
    set q | q in queue :: q.pubkey
  }

  /** The queue holds assigned nodes by nondecreasing depth, all within one level of its head and of every degree. */
  ghost predicate QueueLevel(queue: seq<Queued>, degrees: map<string, nat>) {
    && (forall i :: 0 <= i < |queue| ==> queue[i].pubkey in degrees && degrees[queue[i].pubkey] == queue[i].depth)
    && (forall i, j :: 0 <= i < j < |queue| ==> queue[i].depth <= queue[j].depth <= queue[i].depth + 1)
    && (queue != [] ==> forall x :: x in degrees ==> degrees[x] <= queue[0].depth + 1)
  }

  class WotGraph {
    const ownerPubkey: string
    const maxDepth: nat
    const trustByDegree: map<nat, real>
    var follows: Graph
    var mutes: Graph
    var degrees: map<string, nat>
    var scores: map<string, TrustScore>

    constructor (ownerPubkey: string, maxDepth: nat, trustByDegree: map<nat, real>)
      ensures this.ownerPubkey == ownerPubkey && this.maxDepth == maxDepth && this.trustByDegree == trustByDegree
    {
      this.ownerPubkey, this.maxDepth, this.trustByDegree := ownerPubkey, maxDepth, trustByDegree;
      follows, mutes, degrees, scores := map[], map[], map[], map[];
    }

    /** Rebuild the graph from the view: degrees are the shortest follow distances through authors' current lists. */
    method Rebuild(ghost b: Base, indexes: View)
      requires Consistent(b, indexes)
      modifies this
      ensures AuthorsBelowTilde(indexes) ==> ListsOf(indexes, 3, follows) && ListsOf(indexes, 10000, mutes)
      ensures if ownerPubkey == "" then degrees == map[] else DegreesExact(follows, ownerPubkey, maxDepth, degrees)
      ensures ScoresExact()
      ensures AuthorsBelowTilde(indexes) ==> forall a, x ::
        && (Edge(follows, a, x) <==> exists id :: id in LiveEvents(indexes) && Lists(LiveEvents(indexes)[id], a, 3, x))
        && (Edge(mutes, a, x) <==> exists id :: id in LiveEvents(indexes) && Lists(LiveEvents(indexes)[id], a, 10000, x))
      ensures ownerPubkey == "" ==> scores == map[]
      ensures ownerPubkey != "" ==> forall p ::
        && (p in scores <==> exists d: nat :: d <= maxDepth && Shortest(follows, ownerPubkey, p, d))
        && (p in scores ==>
              var s := scores[p];
              && s.pubkey == p && Shortest(follows, ownerPubkey, p, s.degree)
              && (s.muted <==> Edge(mutes, ownerPubkey, p) || MutedByFollows(p))
              && s.score == if s.muted || s.degree !in trustByDegree then 0.0 else trustByDegree[s.degree])
    {
      hide Consistent, ListsOf, AuthorsBelowTilde, DegreesExact, Shortest, Lists, LiveEvents, Edge, MutedByFollows;
      follows := ScanLists(b, indexes, 3);
      mutes := ScanLists(b, indexes, 10000);
      if AuthorsBelowTilde(indexes) {
        forall a, x ensures Edge(follows, a, x) <==> exists id :: id in LiveEvents(indexes) && Lists(LiveEvents(indexes)[id], a, 3, x) {
          EdgesAre(b, indexes, 3, follows, a, x);
        }
        forall a, x ensures Edge(mutes, a, x) <==> exists id :: id in LiveEvents(indexes) && Lists(LiveEvents(indexes)[id], a, 10000, x) {
          EdgesAre(b, indexes, 10000, mutes, a, x);
        }
      }
      ComputeDegrees();
      ComputeScores();
      ScoresAre();
    }

    /** At least half of the owner's follows, rounded down and at least one, mute the key. */
    ghost predicate MutedByFollows(p: string)
      reads this
    {
      && ownerPubkey in follows
      && var n := |follows[ownerPubkey]|;
         |set f | f in follows[ownerPubkey] && Edge(mutes, f, p)| >= if n / 2 >= 1 then n / 2 else 1
    }

    /** The scores in terms of distances, edges and the configured trust. */
    lemma ScoresAre()
      requires ScoresExact()
      requires if ownerPubkey == "" then degrees == map[] else DegreesExact(follows, ownerPubkey, maxDepth, degrees)
      ensures ownerPubkey == "" ==> scores == map[]
      ensures ownerPubkey != "" ==> forall p ::
        && (p in scores <==> exists d: nat :: d <= maxDepth && Shortest(follows, ownerPubkey, p, d))
        && (p in scores ==>
              var s := scores[p];
              && s.pubkey == p && Shortest(follows, ownerPubkey, p, s.degree)
              && (s.muted <==> Edge(mutes, ownerPubkey, p) || MutedByFollows(p))
              && s.score == if s.muted || s.degree !in trustByDegree then 0.0 else trustByDegree[s.degree])
    {
      hide Shortest, Muted, MutedByFollows, Edge;
      if ownerPubkey != "" {
        forall p | p in scores ensures Muted(follows, mutes, ownerPubkey, p) <==> Edge(mutes, ownerPubkey, p) || MutedByFollows(p) {
          MutedIs(p);
        }
        forall p ensures p in scores <==> exists d: nat :: d <= maxDepth && Shortest(follows, ownerPubkey, p, d) {
          DegreeOf(follows, ownerPubkey, maxDepth, degrees, p);
        }
        forall p | p in scores ensures scores[p].pubkey == p && Shortest(follows, ownerPubkey, p, scores[p].degree) {
          DegreeOf(follows, ownerPubkey, maxDepth, degrees, p);
          assert scores[p] == ScoreOf(p);
        }
      } else {
        assert scores.Keys == {};
      }
    }

    lemma MutedIs(p: string)
      ensures Muted(follows, mutes, ownerPubkey, p) <==> Edge(mutes, ownerPubkey, p) || MutedByFollows(p)
    {
      if ownerPubkey in follows {
        assert Muters(follows, mutes, ownerPubkey, p) == set f | f in follows[ownerPubkey] && Edge(mutes, f, p);
      }
    }

    /** BFS over the follow edges; it ends on every graph, cycles included. */
    method ComputeDegrees()
      modifies this`degrees
      ensures if ownerPubkey == "" then degrees == map[] else DegreesExact(follows, ownerPubkey, maxDepth, degrees)
    {
      degrees := map[];
      var owner := ownerPubkey;
      if owner == "" {
        return;
      }
      degrees := BreadthFirst(follows, owner, maxDepth);
    }

    /** Score everyone with a degree: nothing for the muted, else what their degree is worth. */
    method ComputeScores()
      modifies this`scores
      ensures ScoresExact()
    {
      scores := map[];
      var rest := degrees.Keys;
      while rest != {}
        invariant rest <= degrees.Keys && scores.Keys == degrees.Keys - rest
        invariant forall p :: p in scores ==> scores[p] == ScoreOf(p)
        decreases |rest|
        modifies this`scores
      {
        var p :| p in rest;
        var muted := IsExplicitlyMuted(p);
        var score := if muted then 0.0 else if degrees[p] in trustByDegree then trustByDegree[degrees[p]] else 0.0;
        scores := scores[p := TrustScore(p, degrees[p], score, muted)];
        rest := rest - {p};
      }
    }

    function ScoreOf(p: string): TrustScore
      requires p in degrees
      reads this
    {
      var muted := Muted(follows, mutes, ownerPubkey, p);
      TrustScore(p, degrees[p], if muted || degrees[p] !in trustByDegree then 0.0 else trustByDegree[degrees[p]], muted)
    }

    /** Exactly those with a degree have a score, and it is theirs. */
    ghost predicate ScoresExact()
      reads this
    {
      scores.Keys == degrees.Keys && forall p :: p in scores ==> scores[p] == ScoreOf(p)
    }

    method IsExplicitlyMuted(pubkey: string) returns (muted: bool)
      ensures muted == Muted(follows, mutes, ownerPubkey, pubkey)
    {
      if ownerPubkey in mutes && pubkey in mutes[ownerPubkey] {
        return true;
      }
      if ownerPubkey !in follows {
        return false;
      }
      muted := CountMutes(follows, mutes, ownerPubkey, pubkey);
    }
  }

  /** Count muting follows until the threshold is met. */
  method CountMutes(follows: Graph, mutes: Graph, owner: string, pubkey: string) returns (reached: bool)
    requires owner in follows
    ensures reached <==> |Muters(follows, mutes, owner, pubkey)| >= MuteThreshold(|follows[owner]|)
  {
    hide MuteThreshold, Muters;
    var threshold := MuteThreshold(|follows[owner]|);
    ThresholdPositive(|follows[owner]|);
    var muteCount := 0;
    var rest := follows[owner];
    ghost var muters := Muters(follows, mutes, owner, pubkey);
    ghost var asked: set<string> := {};
    while rest != {}
      invariant asked + rest == follows[owner] && asked !! rest
      invariant muteCount == |muters * asked| < threshold
      decreases |rest|
    {
      var f :| f in rest;
      CountOne(follows, mutes, owner, pubkey, asked, f);
      rest, asked := rest - {f}, asked + {f};
      if f in mutes && pubkey in mutes[f] {
        muteCount := muteCount + 1;
        if muteCount >= threshold {
          SmallerSubset(muters * asked, muters);
          return true;
        }
      }
    }
    AllAsked(follows, mutes, owner, pubkey);
    reached := false;
  }

  lemma CountOne(follows: Graph, mutes: Graph, owner: string, pubkey: string, asked: set<string>, f: string)
    requires owner in follows && f in follows[owner] && f !in asked
    ensures var muters := Muters(follows, mutes, owner, pubkey);
      |muters * (asked + {f})| == |muters * asked| + (if f in mutes && pubkey in mutes[f] then 1 else 0)
  {
    var muters := Muters(follows, mutes, owner, pubkey);
    if f in muters {
      assert muters * (asked + {f}) == muters * asked + {f};
    } else {
      assert muters * (asked + {f}) == muters * asked;
    }
  }

  lemma AllAsked(follows: Graph, mutes: Graph, owner: string, pubkey: string)
    requires owner in follows
    ensures Muters(follows, mutes, owner, pubkey) * follows[owner] == Muters(follows, mutes, owner, pubkey)
  {
  }

  lemma ThresholdPositive(n: nat)
    ensures MuteThreshold(n) >= 1
  {
  }

  /** The queue loop of computeDegrees. */
  method BreadthFirst(g: Graph, owner: string, maxDepth: nat) returns (degrees: map<string, nat>)
    ensures DegreesExact(g, owner, maxDepth, degrees)
  {
    hide DegreesExact, Reach, Universe;
    var queue := [Queued(owner, 0)];
    degrees := map[owner := 0];
    OwnerOnly(g, owner, maxDepth);
    UniverseHas(g, owner);
    while queue != []
      invariant Sound(g, owner, maxDepth, degrees)
      invariant QueueLevel(queue, degrees)
      invariant Closed(g, maxDepth, degrees, QueuedKeys(queue))
      invariant degrees.Keys <= Universe(g, owner)
      decreases |Universe(g, owner) - degrees.Keys| + |queue|
    {
      var current := queue[0];
      PopQueue(g, maxDepth, degrees, queue);
      HeadLevel(degrees, queue);
      queue := queue[1..];
      if current.depth >= maxDepth || current.pubkey !in g {
        continue;
      }
      degrees, queue := Expand(g, owner, maxDepth, degrees, queue, current);
    }
    assert QueuedKeys(queue) == {};
    ClosedIsExact(g, owner, maxDepth, degrees);
  }

  /** Within one level of depth `d`: assigned nodes, by nondecreasing depth, no degree beyond d + 1. */
  ghost predicate OneLevel(queue: seq<Queued>, degrees: map<string, nat>, d: nat) {
    && (forall i :: 0 <= i < |queue| ==>
          queue[i].pubkey in degrees && degrees[queue[i].pubkey] == queue[i].depth && d <= queue[i].depth <= d + 1)
    && (forall i, j :: 0 <= i < j < |queue| ==> queue[i].depth <= queue[j].depth)
    && (forall x :: x in degrees ==> degrees[x] <= d + 1)
  }

  /** What visiting follows has added: new nodes one level down, all of them queued. */
  ghost predicate Extends(before: map<string, nat>, queue0: seq<Queued>, degrees: map<string, nat>,
                          queue: seq<Queued>) {
    && (forall x :: x in before ==> x in degrees && degrees[x] == before[x])
    && (forall x :: x in degrees && x !in before ==> x in QueuedKeys(queue))
    && QueuedKeys(queue0) <= QueuedKeys(queue)
  }

  /** Visit every follow of the current node: assign and queue those not yet reached. */
  method Expand(g: Graph, owner: string, maxDepth: nat, before: map<string, nat>, queue0: seq<Queued>, current: Queued)
    returns (degrees: map<string, nat>, queue: seq<Queued>)
    requires Sound(g, owner, maxDepth, before) && before.Keys <= Universe(g, owner)
    requires current.pubkey in before && before[current.pubkey] == current.depth < maxDepth && current.pubkey in g
    requires OneLevel(queue0, before, current.depth)
    requires Closed(g, maxDepth, before, QueuedKeys(queue0) + {current.pubkey})
    ensures Sound(g, owner, maxDepth, degrees) && degrees.Keys <= Universe(g, owner)
    ensures QueueLevel(queue, degrees) && Closed(g, maxDepth, degrees, QueuedKeys(queue))
    ensures |Universe(g, owner) - degrees.Keys| + |queue| == |Universe(g, owner) - before.Keys| + |queue0|
  {
    hide Universe, Sound, Closed, OneLevel, Extends;
    degrees, queue := before, queue0;
    var rest := g[current.pubkey];
    NoneVisited(before, queue0);
    UniverseHas(g, owner);
    while rest != {}
      invariant rest <= g[current.pubkey] && Sound(g, owner, maxDepth, degrees) && degrees.Keys <= Universe(g, owner)
      invariant OneLevel(queue, degrees, current.depth) && Extends(before, queue0, degrees, queue)
      invariant forall x :: x in g[current.pubkey] - rest ==> x in degrees
      invariant |Universe(g, owner) - degrees.Keys| + |queue| == |Universe(g, owner) - before.Keys| + |queue0|
      decreases |rest|
    {
      var followed :| followed in rest;
      rest := rest - {followed};
      if followed in degrees {
        continue;
      }
      VisitOne(g, owner, maxDepth, before, queue0, degrees, queue, current, followed);
      degrees := degrees[followed := current.depth + 1];
      queue := queue + [Queued(followed, current.depth + 1)];
    }
    Visited(g, maxDepth, before, queue0, degrees, queue, current);
  }

  lemma NoneVisited(before: map<string, nat>, queue0: seq<Queued>)
    ensures Extends(before, queue0, before, queue0)
  {
  }

  /** Assigning one unreached follow keeps everything the loop maintains. */
  lemma VisitOne(g: Graph, owner: string, maxDepth: nat, before: map<string, nat>, queue0: seq<Queued>,
                 degrees: map<string, nat>, queue: seq<Queued>, current: Queued, f: string)
    requires Sound(g, owner, maxDepth, degrees) && degrees.Keys <= Universe(g, owner)
    requires current.pubkey in before && before[current.pubkey] == current.depth < maxDepth
    requires current.pubkey in g && f in g[current.pubkey] && f !in degrees
    requires OneLevel(queue, degrees, current.depth) && Extends(before, queue0, degrees, queue)
    ensures
      var degrees', queue' := degrees[f := current.depth + 1], queue + [Queued(f, current.depth + 1)];
      && Sound(g, owner, maxDepth, degrees') && degrees'.Keys <= Universe(g, owner)
      && OneLevel(queue', degrees', current.depth) && Extends(before, queue0, degrees', queue')
      && |Universe(g, owner) - degrees'.Keys| == |Universe(g, owner) - degrees.Keys| - 1
  {
    hide Universe, Sound, OneLevel, Extends;
    UniverseHas(g, owner);
    var degrees' := degrees[f := current.depth + 1];
    KeepsDegrees(before, queue0, degrees, queue, current);
    ReachesOne(g, owner, maxDepth, degrees, current, f);
    QueuesOne(degrees, queue, current.depth, f);
    ExtendsOne(before, queue0, degrees, queue, f, current.depth + 1);
    assert Universe(g, owner) - degrees.Keys == (Universe(g, owner) - degrees'.Keys) + {f};
  }

  lemma KeepsDegrees(before: map<string, nat>, queue0: seq<Queued>, degrees: map<string, nat>, queue: seq<Queued>, current: Queued)
    requires Extends(before, queue0, degrees, queue) && current.pubkey in before && before[current.pubkey] == current.depth
    ensures current.pubkey in degrees && degrees[current.pubkey] == current.depth
  {
    hide QueuedKeys;
  }

  lemma ReachesOne(g: Graph, owner: string, maxDepth: nat, degrees: map<string, nat>, current: Queued, f: string)
    requires Sound(g, owner, maxDepth, degrees) && current.pubkey in g && f in g[current.pubkey] && f !in degrees
    requires current.pubkey in degrees && degrees[current.pubkey] == current.depth < maxDepth
    ensures Sound(g, owner, maxDepth, degrees[f := current.depth + 1])
  {
    assert Reach(g, owner, f, current.depth + 1);
  }

  lemma QueuesOne(degrees: map<string, nat>, queue: seq<Queued>, depth: nat, f: string)
    requires OneLevel(queue, degrees, depth) && f !in degrees
    ensures OneLevel(queue + [Queued(f, depth + 1)], degrees[f := depth + 1], depth)
  {
  }

  lemma ExtendsOne(before: map<string, nat>, queue0: seq<Queued>, degrees: map<string, nat>, queue: seq<Queued>, f: string, depth: nat)
    requires Extends(before, queue0, degrees, queue) && f !in degrees
    ensures Extends(before, queue0, degrees[f := depth], queue + [Queued(f, depth)])
  {
    hide QueuedKeys;
    QueuedMore(queue, Queued(f, depth));
  }

  lemma QueuedMore(queue: seq<Queued>, q: Queued)
    ensures QueuedKeys(queue + [q]) == QueuedKeys(queue) + {q.pubkey}
  {
    assert q in queue + [q];
    assert forall x :: x in queue ==> x in queue + [q];
  }

  /** With all its follows assigned, the current node is done. */
  lemma Visited(g: Graph, maxDepth: nat, before: map<string, nat>, queue0: seq<Queued>, degrees: map<string, nat>,
                queue: seq<Queued>, current: Queued)
    requires Closed(g, maxDepth, before, QueuedKeys(queue0) + {current.pubkey})
    requires current.pubkey in before && before[current.pubkey] == current.depth && current.pubkey in g
    requires OneLevel(queue, degrees, current.depth) && Extends(before, queue0, degrees, queue)
    requires forall x :: x in g[current.pubkey] ==> x in degrees
    ensures QueueLevel(queue, degrees) && Closed(g, maxDepth, degrees, QueuedKeys(queue))
  {
    hide QueuedKeys;
  }

  /** The current node is done once its follows are all assigned within one hop. */
  lemma PopQueue(g: Graph, depth: nat, degrees: map<string, nat>, queue: seq<Queued>)
    requires queue != [] && QueueLevel(queue, degrees) && Closed(g, depth, degrees, QueuedKeys(queue))
    ensures QueuedKeys(queue) == QueuedKeys(queue[1..]) + {queue[0].pubkey}
    ensures QueueLevel(queue[1..], degrees)
    ensures queue[0].depth >= depth || queue[0].pubkey !in g ==> Closed(g, depth, degrees, QueuedKeys(queue[1..]))
  {
    hide QueuedKeys, QueueLevel, Closed;
    KeysPop(queue);
    LevelPop(degrees, queue);
    if queue[0].depth >= depth || queue[0].pubkey !in g {
      NothingToExpand(g, depth, degrees, queue);
    }
  }

  lemma KeysPop(queue: seq<Queued>)
    requires queue != []
    ensures QueuedKeys(queue) == QueuedKeys(queue[1..]) + {queue[0].pubkey}
  {
    assert queue == [queue[0]] + queue[1..];
  }

  lemma LevelPop(degrees: map<string, nat>, queue: seq<Queued>)
    requires queue != [] && QueueLevel(queue, degrees)
    ensures QueueLevel(queue[1..], degrees) && queue[0].pubkey in degrees && degrees[queue[0].pubkey] == queue[0].depth
  {
    assert forall i :: 0 <= i < |queue| - 1 ==> queue[1..][i] == queue[i + 1];
    if queue[1..] != [] {
      assert queue[0].depth <= queue[1].depth;
    }
  }

  lemma NothingToExpand(g: Graph, depth: nat, degrees: map<string, nat>, queue: seq<Queued>)
    requires queue != [] && QueueLevel(queue, degrees) && Closed(g, depth, degrees, QueuedKeys(queue))
    requires queue[0].depth >= depth || queue[0].pubkey !in g
    ensures Closed(g, depth, degrees, QueuedKeys(queue[1..]))
  {
    hide QueuedKeys, QueueLevel;
    KeysPop(queue);
    LevelPop(degrees, queue);
  }

  lemma HeadLevel(degrees: map<string, nat>, queue: seq<Queued>)
    requires queue != [] && QueueLevel(queue, degrees)
    ensures OneLevel(queue[1..], degrees, queue[0].depth)
  {
    assert forall i :: 0 <= i < |queue| - 1 ==> queue[1..][i] == queue[i + 1];
  }

  lemma OwnerOnly(g: Graph, owner: string, depth: nat)
    ensures Sound(g, owner, depth, map[owner := 0]) && Closed(g, depth, map[owner := 0], QueuedKeys([Queued(owner, 0)]))
  {
    assert Queued(owner, 0) in [Queued(owner, 0)];
  }

  lemma UniverseHas(g: Graph, owner: string)
    ensures owner in Universe(g, owner) && forall k, x :: k in g && x in g[k] ==> x in Universe(g, owner)
  {
  }
}
