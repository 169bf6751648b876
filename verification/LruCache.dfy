/** The TTL cache of src/primal-shim/lru.ts: insertion order is recency order, eviction takes the oldest. */
module Lru {
  import opened NostrEvents
  import opened Sets

  datatype Entry<K, V> = Entry(key: K, value: V, expires: int)

  datatype Policy = Policy(maxEntries: nat, ttlMs: int)

  function IndexOf<K(==), V>(entries: seq<Entry<K, V>>, k: K): (i: nat)
    ensures i <= |entries| && (i < |entries| ==> entries[i].key == k)
    ensures forall j :: 0 <= j < i ==> entries[j].key != k
  {
    if entries == [] then 0 else if entries[0].key == k then 0 else 1 + IndexOf(entries[1..], k)
  }

  function Remove<K(==), V>(entries: seq<Entry<K, V>>, k: K): seq<Entry<K, V>> {
    var i := IndexOf(entries, k);
    if i == |entries| then entries else entries[..i] + entries[i + 1..]
  }

  predicate Has<K(==), V>(entries: seq<Entry<K, V>>, k: K) {
    IndexOf(entries, k) < |entries|
  }

  /** What a lookup returns: the entry's value unless it has expired. */
  function Lookup<K(==), V>(entries: seq<Entry<K, V>>, k: K, now: int): Option<V> {
    var i := IndexOf(entries, k);
    if i < |entries| && entries[i].expires > now then Some(entries[i].value) else None
  }

  function AfterGet<K(==), V>(entries: seq<Entry<K, V>>, k: K, now: int): seq<Entry<K, V>> {
    var i := IndexOf(entries, k);
    if i == |entries| then entries
    else if entries[i].expires <= now then Remove(entries, k)
    else Remove(entries, k) + [entries[i]]
  }

  function AfterSet<K(==), V>(p: Policy, entries: seq<Entry<K, V>>, k: K, value: V, now: int): seq<Entry<K, V>> {
    var r := Remove(entries, k) + [Entry(k, value, now + p.ttlMs)];
    if |r| > p.maxEntries then r[1..] else r
  }

  class LruCache<K(==), V> {
    const policy: Policy
    var entries: seq<Entry<K, V>>

    constructor (maxEntries: nat, ttlMs: int)
      ensures policy == Policy(maxEntries, ttlMs) && entries == []
    {
      policy := Policy(maxEntries, ttlMs);
      entries := [];
    }

    method Get(key: K, now: int) returns (r: Option<V>)
      modifies this
      ensures r == Lookup(old(entries), key, now) && entries == AfterGet(old(entries), key, now)
    {
      var i := IndexOf(entries, key);
      if i == |entries| {
        return None;
      }
      var entry := entries[i];
      if entry.expires <= now {
        entries := Remove(entries, key);
        return None;
      }
      entries := Remove(entries, key);
      entries := entries + [entry];
      return Some(entry.value);
    }

    method Set(key: K, value: V, now: int)
      modifies this
      ensures entries == AfterSet(policy, old(entries), key, value, now)
    {
      entries := Remove(entries, key);
      entries := entries + [Entry(key, value, now + policy.ttlMs)];
      if |entries| > policy.maxEntries {
        entries := entries[1..];
      }
    }
  }

  // ─── Histories ──────────────────────────────────────────────────

  datatype Access<K, V> = Get(key: K, now: int) | Set(key: K, value: V, now: int)

  /** The cache after a history of calls. */
  function Replay<K(==), V>(p: Policy, h: seq<Access<K, V>>): seq<Entry<K, V>> {
    if h == [] then []
    else
      var before := Replay(p, h[..|h| - 1]);
      match h[|h| - 1]
      case Get(k, now) => AfterGet(before, k, now)
      case Set(k, v, now) => AfterSet(p, before, k, v, now)
  }

  datatype Stamped<V> = Stamped(value: V, at: int)

  /** The last value set for a key, and when. */
  function LatestSet<K(==), V>(h: seq<Access<K, V>>, k: K): Option<Stamped<V>> {
    if h == [] then None
    else
      var a := h[|h| - 1];
      if a.Set? && a.key == k then Some(Stamped(a.value, a.now)) else LatestSet(h[..|h| - 1], k)
  }

  /** A call touches its key when it sets it or finds it. */
  predicate Touches<K(==), V>(p: Policy, h: seq<Access<K, V>>)
    requires h != []
  {
    var a := h[|h| - 1];
    a.Set? || Lookup(Replay(p, h[..|h| - 1]), a.key, a.now).Some?
  }

  /** The other keys touched since `k` was last touched. */
  function OthersSince<K(==), V>(p: Policy, h: seq<Access<K, V>>, k: K): set<K> {
    if h == [] then {}
    else
      var a := h[|h| - 1];
      var before := OthersSince(p, h[..|h| - 1], k);
      if !Touches(p, h) then before else if a.key == k then {} else before + {a.key}
  }

  ghost predicate Forward<K, V>(h: seq<Access<K, V>>, now: int) {
    && (forall i :: 0 <= i < |h| ==> h[i].now <= now)
    && (forall i, j :: 0 <= i < j < |h| ==> h[i].now <= h[j].now)
  }

  /** Every entry holds the last value set for its key; keys are distinct; later entries were touched since. */
  ghost predicate Faithful<K, V>(p: Policy, h: seq<Access<K, V>>, entries: seq<Entry<K, V>>) {
    && (forall i :: 0 <= i < |entries| ==>
          LatestSet(h, entries[i].key) == Some(Stamped(entries[i].value, entries[i].expires - p.ttlMs)))
    && (forall i, j :: 0 <= i < j < |entries| ==>
          entries[i].key != entries[j].key && entries[j].key in OthersSince(p, h, entries[i].key))
  }

  /** Where the entry at a place of the list without `k` stands in the list with it. */
  function Before<K(==), V>(entries: seq<Entry<K, V>>, k: K, i: nat): nat {
    if i < IndexOf(entries, k) then i else i + 1
  }

  lemma RemoveAt<K, V>(entries: seq<Entry<K, V>>, k: K, i: nat)
    requires i < |Remove(entries, k)| && Has(entries, k)
    ensures Before(entries, k, i) < |entries| && Remove(entries, k)[i] == entries[Before(entries, k, i)]
    ensures Before(entries, k, i) != IndexOf(entries, k)
  {
  }

  lemma RemoveFacts<K, V>(entries: seq<Entry<K, V>>, k: K)
    requires forall i, j :: 0 <= i < j < |entries| ==> entries[i].key != entries[j].key
    ensures var r := Remove(entries, k);
      && (forall i :: 0 <= i < |r| ==> r[i].key != k && r[i] in entries)
      && (forall e :: e in entries && e.key != k ==> e in r)
  {
    var n, r := IndexOf(entries, k), Remove(entries, k);
    if Has(entries, k) {
      forall i | 0 <= i < |r| ensures r[i].key != k && r[i] in entries {
        RemoveAt(entries, k, i);
      }
      forall e | e in entries && e.key != k ensures e in r {
        var i :| 0 <= i < |entries| && entries[i] == e;
        assert r[if i < n then i else i - 1] == e;
      }
    }
  }

  /** Removing an entry keeps the others in order: what held of every ordered pair still does. */
  lemma RemoveOrdered<K, V>(p: Policy, h: seq<Access<K, V>>, entries: seq<Entry<K, V>>, k: K, i: nat, j: nat)
    requires Faithful(p, h, entries) && i < j < |Remove(entries, k)|
    ensures var r := Remove(entries, k); r[i].key != r[j].key && r[j].key in OthersSince(p, h, r[i].key)
  {
    hide Remove, LatestSet, OthersSince;
    if Has(entries, k) {
      RemoveAt(entries, k, i);
      RemoveAt(entries, k, j);
    } else {
      RemoveAbsent(entries, k);
    }
  }

  lemma RemoveAbsent<K, V>(entries: seq<Entry<K, V>>, k: K)
    requires !Has(entries, k)
    ensures Remove(entries, k) == entries
  {
  }

  /** Moving a key to the recent end, with whatever entry, is faithful to the history that touched it. */
  lemma MoveFaithful<K, V>(p: Policy, h: seq<Access<K, V>>, before: seq<Entry<K, V>>, e: Entry<K, V>)
    requires h != [] && Touches(p, h) && h[|h| - 1].key == e.key
    requires Faithful(p, h[..|h| - 1], before)
    requires LatestSet(h, e.key) == Some(Stamped(e.value, e.expires - p.ttlMs))
    ensures Faithful(p, h, Remove(before, e.key) + [e])
  {
    hide Touches, Remove, LatestSet, OthersSince;
    DistinctKeys(p, h[..|h| - 1], before);
    RemoveFacts(before, e.key);
    var r := Remove(before, e.key);
    var moved := r + [e];
    forall i | 0 <= i < |moved|
      ensures LatestSet(h, moved[i].key) == Some(Stamped(moved[i].value, moved[i].expires - p.ttlMs))
    {
      if i < |r| {
        assert r[i] in before;
        OtherLatest(p, h, r[i].key);
      }
    }
    forall i, j | 0 <= i < j < |moved|
      ensures moved[i].key != moved[j].key && moved[j].key in OthersSince(p, h, moved[i].key)
    {
      assert moved[i] == r[i];
      OtherTouched(p, h, r[i].key);
      if j < |r| {
        assert moved[j] == r[j];
        RemoveOrdered(p, h[..|h| - 1], before, e.key, i, j);
      }
    }
  }

  /** A call on another key leaves what was last set for this one. */
  lemma OtherLatest<K, V>(p: Policy, h: seq<Access<K, V>>, k: K)
    requires h != [] && h[|h| - 1].key != k
    ensures LatestSet(h, k) == LatestSet(h[..|h| - 1], k)
  {
  }

  /** A touch of another key adds it to those touched since. */
  lemma OtherTouched<K, V>(p: Policy, h: seq<Access<K, V>>, k: K)
    requires h != [] && Touches(p, h) && h[|h| - 1].key != k
    ensures OthersSince(p, h, k) == OthersSince(p, h[..|h| - 1], k) + {h[|h| - 1].key}
  {
    hide Touches;
  }

  lemma DropFaithful<K, V>(p: Policy, h: seq<Access<K, V>>, before: seq<Entry<K, V>>, k: K)
    requires Faithful(p, h, before)
    ensures Faithful(p, h, Remove(before, k))
  {
    hide Remove, LatestSet, OthersSince;
    DistinctKeys(p, h, before);
    RemoveFacts(before, k);
    forall i, j | 0 <= i < j < |Remove(before, k)|
      ensures var r := Remove(before, k); r[i].key != r[j].key && r[j].key in OthersSince(p, h, r[i].key)
    {
      RemoveOrdered(p, h, before, k, i, j);
    }
  }

  /** A call that touches nothing leaves what is known about every key. */
  lemma UntouchedFaithful<K, V>(p: Policy, h: seq<Access<K, V>>, entries: seq<Entry<K, V>>)
    requires h != [] && !Touches(p, h) && Faithful(p, h[..|h| - 1], entries)
    ensures Faithful(p, h, entries)
  {
  }

  lemma TouchedWhen<K, V>(p: Policy, h: seq<Access<K, V>>)
    requires h != []
    ensures var a := h[|h| - 1];
      Touches(p, h) <==> a.Set? || Lookup(Replay(p, h[..|h| - 1]), a.key, a.now).Some?
  {
  }

  lemma {:induction false} ReplayFaithful<K, V>(p: Policy, h: seq<Access<K, V>>)
    ensures Faithful(p, h, Replay(p, h))
  {
    if h != [] {
      var init, a := h[..|h| - 1], h[|h| - 1];
      ReplayFaithful(p, init);
      hide Faithful, Replay;
      if a.Get? {
        GetFaithful(p, h);
      } else {
        SetFaithful(p, h);
      }
    }
  }

  lemma GetFaithful<K, V>(p: Policy, h: seq<Access<K, V>>)
    requires h != [] && h[|h| - 1].Get? && Faithful(p, h[..|h| - 1], Replay(p, h[..|h| - 1]))
    ensures Faithful(p, h, Replay(p, h))
  {
    hide Faithful, Remove, OthersSince, LatestSet, Touches, Replay;
    var init, a := h[..|h| - 1], h[|h| - 1];
    var before := Replay(p, init);
    ReplayGet(p, h);
    TouchedWhen(p, h);
    LatestUnchanged(p, h, a.key);
    var i := IndexOf(before, a.key);
    if i < |before| && before[i].expires > a.now {
      LatestOf(p, init, before, i);
      MoveFaithful(p, h, before, before[i]);
    } else {
      UntouchedFaithful(p, h, before);
      DropFaithful(p, h, before, a.key);
    }
  }

  lemma SetFaithful<K, V>(p: Policy, h: seq<Access<K, V>>)
    requires h != [] && h[|h| - 1].Set? && Faithful(p, h[..|h| - 1], Replay(p, h[..|h| - 1]))
    ensures Faithful(p, h, Replay(p, h))
  {
    hide Faithful, Remove, OthersSince, LatestSet, Touches, Replay;
    var a := h[|h| - 1];
    var before := Replay(p, h[..|h| - 1]);
    var e := Entry(a.key, a.value, a.now + p.ttlMs);
    ReplaySet(p, h);
    LatestIsSet(p, h);
    MoveFaithful(p, h, before, e);
    TailFaithful(p, h, Remove(before, a.key) + [e]);
  }

  lemma LatestOf<K, V>(p: Policy, h: seq<Access<K, V>>, entries: seq<Entry<K, V>>, i: nat)
    requires Faithful(p, h, entries) && i < |entries|
    ensures LatestSet(h, entries[i].key) == Some(Stamped(entries[i].value, entries[i].expires - p.ttlMs))
  {
  }

  lemma TailFaithful<K, V>(p: Policy, h: seq<Access<K, V>>, entries: seq<Entry<K, V>>)
    requires Faithful(p, h, entries) && entries != []
    ensures Faithful(p, h, entries[1..])
  {
    hide LatestSet, OthersSince;
  }

  /** A lookup only ever returns the value of the latest `set` of that key, and only while it has not expired. */
  lemma LookupIsLatest<K, V>(p: Policy, h: seq<Access<K, V>>, k: K, now: int)
    ensures var r := Lookup(Replay(p, h), k, now);
      r.Some? ==>
        && LatestSet(h, k).Some? && LatestSet(h, k).value.value == r.value
        && now < LatestSet(h, k).value.at + p.ttlMs
  {
    hide Replay;
    ReplayFaithful(p, h);
  }

  /** The keys that must still be held: set, not expired by `now`, and fewer than `maxEntries` others touched since. */
  ghost predicate Due<K, V>(p: Policy, h: seq<Access<K, V>>, k: K, now: int) {
    && LatestSet(h, k).Some? && now < LatestSet(h, k).value.at + p.ttlMs
    && |OthersSince(p, h, k)| < p.maxEntries
  }

  ghost function KeySet<K, V>(entries: seq<Entry<K, V>>): set<K> {
    set e | e in entries :: e.key
  }

  lemma {:induction false} KeySetSize<K, V>(entries: seq<Entry<K, V>>)
    requires forall i, j :: 0 <= i < j < |entries| ==> entries[i].key != entries[j].key
    ensures |KeySet(entries)| == |entries|
  {
    if entries != [] {
      var init, last := entries[..|entries| - 1], entries[|entries| - 1];
      KeySetSize(init);
      assert entries == init + [last];
      assert KeySet(entries) == KeySet(init) + {last.key};
    }
  }

  lemma HasKey<K, V>(entries: seq<Entry<K, V>>, k: K)
    ensures Has(entries, k) <==> k in KeySet(entries)
  {
    var i := IndexOf(entries, k);
    if i < |entries| {
      assert entries[i] in entries;
    }
    if k in KeySet(entries) {
      var e :| e in entries && e.key == k;
      var j :| 0 <= j < |entries| && entries[j] == e;
    }
  }

  /** A key evicted by an overflow was due for it: `maxEntries` others have been touched since. */
  lemma EvictedNotDue<K, V>(p: Policy, h: seq<Access<K, V>>, entries: seq<Entry<K, V>>, now: int)
    requires Faithful(p, h, entries) && |entries| > p.maxEntries && entries != []
    ensures !Due(p, h, entries[0].key, now)
  {
    hide LatestSet, OthersSince;
    var k := entries[0].key;
    KeySetSize(entries[1..]);
    assert KeySet(entries[1..]) <= OthersSince(p, h, k);
    SmallerSubset(KeySet(entries[1..]), OthersSince(p, h, k));
  }

  /** Touching another key never makes a key due that was not. */
  lemma DueBefore<K, V>(p: Policy, h: seq<Access<K, V>>, k: K, now: int)
    requires h != [] && Due(p, h, k, now) && !(Touches(p, h) && h[|h| - 1].key == k)
    ensures Due(p, h[..|h| - 1], k, now)
  {
    SmallerSubset(OthersSince(p, h[..|h| - 1], k), OthersSince(p, h, k));
  }

  lemma SetHolds<K, V>(p: Policy, h: seq<Access<K, V>>, k: K, now: int)
    requires h != [] && h[|h| - 1].Set? && Due(p, h, k, now)
    requires h[|h| - 1].key != k ==> Has(Replay(p, h[..|h| - 1]), k)
    ensures Has(Replay(p, h), k)
  {
    hide Faithful, OthersSince, Replay, Remove, LatestSet, Has, KeySet, Due, Touches;
    var init, a := h[..|h| - 1], h[|h| - 1];
    var before := Replay(p, init);
    var e := Entry(a.key, a.value, a.now + p.ttlMs);
    ReplayFaithful(p, init);
    DistinctKeys(p, init, before);
    LatestIsSet(p, h);
    MoveFaithful(p, h, before, e);
    HeldAfterMove(before, a.key, k, e);
    ReplaySet(p, h);
    HeldAfterSet(p, h, Remove(before, a.key) + [e], k, now);
    HasKey(Replay(p, h), k);
  }

  /** Trimming an overflowing cache never takes a key that is due. */
  lemma HeldAfterSet<K, V>(p: Policy, h: seq<Access<K, V>>, r: seq<Entry<K, V>>, k: K, now: int)
    requires Faithful(p, h, r) && r != [] && k in KeySet(r) && Due(p, h, k, now)
    ensures k in KeySet(if |r| > p.maxEntries then r[1..] else r)
  {
    hide Faithful, Due, KeySet;
    if |r| > p.maxEntries {
      EvictedNotDue(p, h, r, now);
      HeldAfterEvict(r, k);
    }
  }

  lemma LatestIsSet<K, V>(p: Policy, h: seq<Access<K, V>>)
    requires h != [] && h[|h| - 1].Set?
    ensures var a := h[|h| - 1]; LatestSet(h, a.key) == Some(Stamped(a.value, a.now)) && Touches(p, h)
  {
  }

  lemma ReplaySet<K, V>(p: Policy, h: seq<Access<K, V>>)
    requires h != [] && h[|h| - 1].Set?
    ensures var a := h[|h| - 1]; Replay(p, h) == AfterSet(p, Replay(p, h[..|h| - 1]), a.key, a.value, a.now)
  {
  }

  lemma GetHolds<K, V>(p: Policy, h: seq<Access<K, V>>, k: K, now: int)
    requires h != [] && h[|h| - 1].Get? && h[|h| - 1].now <= now && Due(p, h, k, now)
    requires !(Touches(p, h) && h[|h| - 1].key == k) ==> Has(Replay(p, h[..|h| - 1]), k)
    ensures Has(Replay(p, h), k)
  {
    var init, a := h[..|h| - 1], h[|h| - 1];
    var before := Replay(p, init);
    ReplayFaithful(p, init);
    LatestUnchanged(p, h, k);
    ReplayGet(p, h);
    hide Faithful, OthersSince, Replay, Remove, LatestSet, KeySet;
    DistinctKeys(p, init, before);
    var i := IndexOf(before, a.key);
    if i < |before| {
      LatestOf(p, init, before, i);
      HeldAfterMove(before, a.key, k, before[i]);
      HasKey(Replay(p, h), k);
    }
  }

  lemma LatestUnchanged<K, V>(p: Policy, h: seq<Access<K, V>>, k: K)
    requires h != [] && h[|h| - 1].Get?
    ensures LatestSet(h, k) == LatestSet(h[..|h| - 1], k)
  {
  }

  lemma ReplayGet<K, V>(p: Policy, h: seq<Access<K, V>>)
    requires h != [] && h[|h| - 1].Get?
    ensures var a := h[|h| - 1]; Replay(p, h) == AfterGet(Replay(p, h[..|h| - 1]), a.key, a.now)
  {
  }

  /** The due keys are held. */
  lemma {:induction false} DueHeld<K, V>(p: Policy, h: seq<Access<K, V>>, k: K, now: int)
    requires Forward(h, now) && Due(p, h, k, now)
    ensures Has(Replay(p, h), k)
  {
    assert h != [];
    hide OthersSince, Replay;
    if !(Touches(p, h) && h[|h| - 1].key == k) {
      DueBefore(p, h, k, now);
      DueHeld(p, h[..|h| - 1], k, now);
    }
    if h[|h| - 1].Set? {
      SetHolds(p, h, k, now);
    } else {
      GetHolds(p, h, k, now);
    }
  }

  lemma DistinctKeys<K, V>(p: Policy, h: seq<Access<K, V>>, entries: seq<Entry<K, V>>)
    requires Faithful(p, h, entries)
    ensures forall i, j :: 0 <= i < j < |entries| ==> entries[i].key != entries[j].key
  {
  }

  lemma HeldAfterMove<K, V>(before: seq<Entry<K, V>>, moved: K, k: K, e: Entry<K, V>)
    requires forall i, j :: 0 <= i < j < |before| ==> before[i].key != before[j].key
    requires e.key == moved && (k != moved ==> Has(before, k))
    ensures k in KeySet(Remove(before, moved) + [e])
    ensures k != moved ==> k in KeySet(Remove(before, moved)) && Has(Remove(before, moved), k)
  {
    RemoveFacts(before, moved);
    var r := Remove(before, moved) + [e];
    assert r[|r| - 1] == e && e in r;
    if k != moved {
      var x := before[IndexOf(before, k)];
      assert x in before && x in Remove(before, moved);
      assert x in r;
      HasKey(Remove(before, moved), k);
    }
  }

  lemma HeldAfterEvict<K, V>(r: seq<Entry<K, V>>, k: K)
    requires r != [] && k in KeySet(r) && r[0].key != k
    ensures k in KeySet(r[1..])
  {
    var e :| e in r && e.key == k;
    var i :| 0 <= i < |r| && r[i] == e;
    assert r[1..][i - 1] == e;
  }

  /**
   * A lookup does return the latest value set, as long as it has not expired and fewer than `maxEntries` other
   * keys were touched since the key last was.
   */
  lemma LookupFindsRecent<K, V>(p: Policy, h: seq<Access<K, V>>, k: K, now: int)
    requires Forward(h, now) && Due(p, h, k, now)
    ensures Lookup(Replay(p, h), k, now) == Some(LatestSet(h, k).value.value)
  {
    DueHeld(p, h, k, now);
    ReplayFaithful(p, h);
  }

  // ─── Size and eviction ──────────────────────────────────────────

  /** The cache never holds more than `maxEntries`. */
  lemma {:induction false} SizeBounded<K, V>(p: Policy, h: seq<Access<K, V>>)
    ensures |Replay(p, h)| <= p.maxEntries
  {
    if h != [] {
      SizeBounded(p, h[..|h| - 1]);
    }
  }

  /** The last call finds its entry expired and drops it. */
  predicate Drops<K(==), V>(p: Policy, h: seq<Access<K, V>>)
    requires h != []
  {
    var before, a := Replay(p, h[..|h| - 1]), h[|h| - 1];
    a.Get? && Has(before, a.key) && Lookup(before, a.key, a.now).None?
  }

  ghost predicate DropFree<K, V>(p: Policy, h: seq<Access<K, V>>) {
    forall n :: 0 < n <= |h| ==> !DropsAt(p, h, n)
  }

  ghost predicate DropsAt<K, V>(p: Policy, h: seq<Access<K, V>>, n: nat)
    requires 0 < n <= |h|
  {
    Drops(p, h[..n])
  }

  lemma DropFreeBefore<K, V>(p: Policy, h: seq<Access<K, V>>)
    requires h != [] && DropFree(p, h)
    ensures DropFree(p, h[..|h| - 1]) && !Drops(p, h)
  {
    hide Drops;
    assert h[..|h|] == h;
    assert !DropsAt(p, h, |h|);
    var init := h[..|h| - 1];
    forall n | 0 < n <= |init| ensures !DropsAt(p, init, n) {
      assert init[..n] == h[..n] && !DropsAt(p, h, n);
    }
  }

  /** Every key touched since an entry was is held behind it. */
  ghost predicate Trailed<K, V>(p: Policy, h: seq<Access<K, V>>, entries: seq<Entry<K, V>>) {
    forall i, y :: 0 <= i < |entries| && y in OthersSince(p, h, entries[i].key) ==> Follows(entries, i, y)
  }

  ghost predicate Follows<K, V>(entries: seq<Entry<K, V>>, i: nat, y: K) {
    exists j :: i < j < |entries| && entries[j].key == y
  }

  /** A key that was set and is not held made room for `maxEntries` others. */
  ghost predicate Displaced<K(!new), V>(p: Policy, h: seq<Access<K, V>>, entries: seq<Entry<K, V>>) {
    forall k :: LatestSet(h, k).Some? && !Has(entries, k) ==> |OthersSince(p, h, k)| >= p.maxEntries
  }

  /** Where an entry other than `k`'s stands once `k`'s is removed. */
  lemma RemovedPlace<K, V>(entries: seq<Entry<K, V>>, k: K, i: nat)
    requires i < |Remove(entries, k)|
    ensures
      var j := if Has(entries, k) then Before(entries, k, i) else i;
      && j < |entries| && entries[j] == Remove(entries, k)[i]
  {
    if Has(entries, k) {
      RemoveAt(entries, k, i);
    }
  }

  lemma KeptBehind<K, V>(entries: seq<Entry<K, V>>, k: K, i: nat, y: K)
    requires forall a, b :: 0 <= a < b < |entries| ==> entries[a].key != entries[b].key
    requires i < |Remove(entries, k)| && y != k
    requires Follows(entries, if Has(entries, k) then Before(entries, k, i) else i, y)
    ensures Follows(Remove(entries, k), i, y)
  {
    var r, n := Remove(entries, k), IndexOf(entries, k);
    var from := if Has(entries, k) then Before(entries, k, i) else i;
    var j :| from < j < |entries| && entries[j].key == y;
    if Has(entries, k) {
      assert j != n;
      var j' := if j < n then j else j - 1;
      assert r[j'] == entries[j];
    } else {
      assert r[j].key == y;
    }
  }

  /** Moving a touched key to the end keeps what was touched since each entry behind it. */
  lemma MoveTrailed<K, V>(p: Policy, h: seq<Access<K, V>>, before: seq<Entry<K, V>>, e: Entry<K, V>)
    requires h != [] && Touches(p, h) && h[|h| - 1].key == e.key
    requires Faithful(p, h[..|h| - 1], before) && Trailed(p, h[..|h| - 1], before)
    ensures Trailed(p, h, Remove(before, e.key) + [e])
  {
    hide Remove, OthersSince, Touches, LatestSet, Follows;
    var r := Remove(before, e.key);
    var moved := r + [e];
    DistinctKeys(p, h[..|h| - 1], before);
    RemoveFacts(before, e.key);
    TouchedLast(p, h);
    assert moved[|r|] == e;
    forall i, y | 0 <= i < |r| && y in OthersSince(p, h, r[i].key) ensures Follows(moved, i, y) {
      RemovedPlace(before, e.key, i);
      OtherTouched(p, h, r[i].key);
      if y != e.key {
        KeptBehind(before, e.key, i, y);
        FollowsLonger(r, e, i, y);
      } else {
        FollowedByLast(r, e, i);
      }
    }
    assert forall i :: 0 <= i < |r| ==> moved[i] == r[i];
  }

  lemma FollowsLonger<K, V>(r: seq<Entry<K, V>>, e: Entry<K, V>, i: nat, y: K)
    requires Follows(r, i, y)
    ensures Follows(r + [e], i, y)
  {
    var j :| i < j < |r| && r[j].key == y;
    assert (r + [e])[j].key == y;
  }

  lemma FollowedByLast<K, V>(r: seq<Entry<K, V>>, e: Entry<K, V>, i: nat)
    requires i < |r|
    ensures Follows(r + [e], i, e.key)
  {
    assert (r + [e])[|r|].key == e.key;
  }

  lemma TouchedLast<K, V>(p: Policy, h: seq<Access<K, V>>)
    requires h != [] && Touches(p, h)
    ensures OthersSince(p, h, h[|h| - 1].key) == {}
  {
    hide Touches;
  }

  lemma TailTrailed<K, V>(p: Policy, h: seq<Access<K, V>>, entries: seq<Entry<K, V>>)
    requires Trailed(p, h, entries) && entries != []
    ensures Trailed(p, h, entries[1..])
  {
    hide OthersSince;
    var tail := entries[1..];
    forall i, y | 0 <= i < |tail| && y in OthersSince(p, h, tail[i].key) ensures Follows(tail, i, y) {
      assert Follows(entries, i + 1, y);
      var j :| i + 1 < j < |entries| && entries[j].key == y;
      assert tail[j - 1].key == y;
    }
  }

  /** As long as no call drops an expired entry, both hold of the cache. */
  lemma {:induction false} ReplayTrailed<K(!new), V>(p: Policy, h: seq<Access<K, V>>)
    requires DropFree(p, h)
    ensures Trailed(p, h, Replay(p, h)) && Displaced(p, h, Replay(p, h))
  {
    if h != [] {
      DropFreeBefore(p, h);
      ReplayTrailed(p, h[..|h| - 1]);
      ReplayFaithful(p, h[..|h| - 1]);
      hide Replay, Trailed, Displaced, Faithful, Drops, DropFree;
      if h[|h| - 1].Get? {
        GetTrailed(p, h);
      } else {
        SetTrailed(p, h);
      }
    }
  }

  lemma GetTrailed<K(!new), V>(p: Policy, h: seq<Access<K, V>>)
    requires h != [] && h[|h| - 1].Get? && !Drops(p, h)
    requires var before := Replay(p, h[..|h| - 1]);
      Faithful(p, h[..|h| - 1], before) && Trailed(p, h[..|h| - 1], before) && Displaced(p, h[..|h| - 1], before)
    ensures Trailed(p, h, Replay(p, h)) && Displaced(p, h, Replay(p, h))
  {
    hide Faithful, Remove, OthersSince, LatestSet, Replay, Trailed, Displaced;
    var init, a := h[..|h| - 1], h[|h| - 1];
    var before := Replay(p, init);
    ReplayGet(p, h);
    TouchedWhen(p, h);
    var i := IndexOf(before, a.key);
    if i < |before| {
      MoveTrailed(p, h, before, before[i]);
      MoveDisplaced(p, h, before, before[i]);
    } else {
      UntouchedTrailed(p, h, before);
    }
  }

  lemma UntouchedTrailed<K(!new), V>(p: Policy, h: seq<Access<K, V>>, entries: seq<Entry<K, V>>)
    requires h != [] && h[|h| - 1].Get? && !Touches(p, h)
    requires Trailed(p, h[..|h| - 1], entries) && Displaced(p, h[..|h| - 1], entries)
    ensures Trailed(p, h, entries) && Displaced(p, h, entries)
  {
    hide Follows;
    forall k ensures LatestSet(h, k) == LatestSet(h[..|h| - 1], k) && OthersSince(p, h, k) == OthersSince(p, h[..|h| - 1], k) {
    }
    hide LatestSet, OthersSince, Touches;
  }

  /** Touching a key displaces no other key less. */
  lemma MoveDisplaced<K(!new), V>(p: Policy, h: seq<Access<K, V>>, before: seq<Entry<K, V>>, e: Entry<K, V>)
    requires h != [] && Touches(p, h) && h[|h| - 1].key == e.key
    requires Faithful(p, h[..|h| - 1], before) && Displaced(p, h[..|h| - 1], before)
    ensures Displaced(p, h, Remove(before, e.key) + [e])
  {
    hide Faithful, OthersSince, Touches, LatestSet, Remove, Has;
    DistinctKeys(p, h[..|h| - 1], before);
    var moved := Remove(before, e.key) + [e];
    forall k | LatestSet(h, k).Some? && !Has(moved, k) ensures |OthersSince(p, h, k)| >= p.maxEntries {
      if k == e.key || Has(before, k) {
        HeldAfterMove(before, e.key, k, e);
        HasKey(moved, k);
      } else {
        OtherLatest(p, h, k);
        OtherTouched(p, h, k);
        SmallerSubset(OthersSince(p, h[..|h| - 1], k), OthersSince(p, h, k));
      }
    }
  }

  lemma SetTrailed<K(!new), V>(p: Policy, h: seq<Access<K, V>>)
    requires h != [] && h[|h| - 1].Set?
    requires var before := Replay(p, h[..|h| - 1]);
      Faithful(p, h[..|h| - 1], before) && Trailed(p, h[..|h| - 1], before) && Displaced(p, h[..|h| - 1], before)
    ensures Trailed(p, h, Replay(p, h)) && Displaced(p, h, Replay(p, h))
  {
    hide Faithful, Remove, OthersSince, LatestSet, Replay, Trailed, Displaced, Touches;
    var a := h[|h| - 1];
    var before := Replay(p, h[..|h| - 1]);
    var e := Entry(a.key, a.value, a.now + p.ttlMs);
    var r := Remove(before, a.key) + [e];
    ReplaySet(p, h);
    LatestIsSet(p, h);
    MoveFaithful(p, h, before, e);
    MoveTrailed(p, h, before, e);
    MoveDisplaced(p, h, before, e);
    if |r| > p.maxEntries {
      TailTrailed(p, h, r);
      TailDisplaced(p, h, r);
    }
  }

  /** The entry an overflow evicts has `maxEntries` others touched since. */
  lemma TailDisplaced<K(!new), V>(p: Policy, h: seq<Access<K, V>>, r: seq<Entry<K, V>>)
    requires Faithful(p, h, r) && Displaced(p, h, r) && r != [] && |r| > p.maxEntries
    ensures Displaced(p, h, r[1..])
  {
    hide OthersSince, LatestSet, Has;
    forall k | LatestSet(h, k).Some? && !Has(r[1..], k) ensures |OthersSince(p, h, k)| >= p.maxEntries {
      if k == r[0].key {
        KeySetSize(r[1..]);
        assert KeySet(r[1..]) <= OthersSince(p, h, k);
        SmallerSubset(KeySet(r[1..]), OthersSince(p, h, k));
      } else if Has(r, k) {
        HasKey(r, k);
        HeldAfterEvict(r, k);
        HasKey(r[1..], k);
      }
    }
  }

  /**
   * In a history in which no lookup drops an expired entry, a key is held exactly when it was set and fewer than
   * `maxEntries` other keys were touched since it last was.
   */
  lemma HeldIffRecent<K(!new), V>(p: Policy, h: seq<Access<K, V>>, k: K)
    requires DropFree(p, h)
    ensures Has(Replay(p, h), k) <==> LatestSet(h, k).Some? && |OthersSince(p, h, k)| < p.maxEntries
  {
    hide Replay, OthersSince, LatestSet, Faithful, DropFree, Trailed, Displaced;
    ReplayTrailed(p, h);
    ReplayFaithful(p, h);
    SizeBounded(p, h);
    DisplacedAt(p, h, Replay(p, h), k);
    if Has(Replay(p, h), k) {
      HeldHasFew(p, h, Replay(p, h), k);
    }
  }

  lemma DisplacedAt<K(!new), V>(p: Policy, h: seq<Access<K, V>>, entries: seq<Entry<K, V>>, k: K)
    requires Displaced(p, h, entries)
    ensures LatestSet(h, k).Some? && !Has(entries, k) ==> |OthersSince(p, h, k)| >= p.maxEntries
  {
    hide OthersSince, LatestSet;
  }

  lemma HeldHasFew<K, V>(p: Policy, h: seq<Access<K, V>>, entries: seq<Entry<K, V>>, k: K)
    requires Faithful(p, h, entries) && Trailed(p, h, entries) && |entries| <= p.maxEntries && Has(entries, k)
    ensures LatestSet(h, k).Some? && |OthersSince(p, h, k)| < p.maxEntries
  {
    hide OthersSince, LatestSet;
    var i := IndexOf(entries, k);
    LatestOf(p, h, entries, i);
    var behind := entries[i + 1..];
    DistinctKeys(p, h, entries);
    KeySetSize(behind);
    forall y | y in OthersSince(p, h, k) ensures y in KeySet(behind) {
      assert Follows(entries, i, y);
      var j :| i < j < |entries| && entries[j].key == y;
      assert behind[j - i - 1] == entries[j];
    }
    SmallerSubset(OthersSince(p, h, k), KeySet(behind));
  }

  /** Five calls of a cache of two, with a lifetime of ten: a lookup of `a` finds it expired and makes room. */
  function Roomy<K, V>(a: K, k: K, c: K, x: V): seq<Access<K, V>> {
    [] + [Set(a, x, 0)] + [Set(k, x, 5)] + [Get(a, 6)] + [Get(a, 10)] + [Set(c, x, 11)]
  }

  /** With drops the count is not enough: two other keys were touched since `k`, and the cache of two still holds it. */
  lemma DropsLeaveRoom<K, V>(a: K, k: K, c: K, x: V)
    requires a != k && a != c && k != c
    ensures var p, h := Policy(2, 10), Roomy(a, k, c, x);
      Has(Replay(p, h), k) && Lookup(Replay(p, h), k, 11) == Some(x) && OthersSince(p, h, k) == {a, c}
  {
    var p := Policy(2, 10);
    hide At;
    var ea, ek, ec := Entry(a, x, 10), Entry(k, x, 15), Entry(c, x, 21);
    var h0: seq<Access<K, V>> := [];
    NothingYet(p, h0, k);
    SetFirst(p, a, x, 0);
    var h1 := SetAt(p, h0, k, [], {}, Set(a, x, 0), [ea]);
    SetSecond(p, ea, k, x, 5);
    var h2 := SetAt(p, h1, k, [ea], {a}, Set(k, x, 5), [ea, ek]);
    GetFirst(ea, ek, 6);
    var h3 := GetAt(p, h2, k, [ea, ek], {}, Get(a, 6), [ek, ea]);
    GetSecond(ek, ea, 10);
    var h4 := GetAt(p, h3, k, [ek, ea], {a}, Get(a, 10), [ek]);
    SetSecond(p, ek, c, x, 11);
    var h5 := SetAt(p, h4, k, [ek], {a}, Set(c, x, 11), [ek, ec]);
    Finds(ek, ec, 11);
    AtIs(p, h5, k, [ek, ec], {a, c});
  }

  /** What the cache holds after a history, and who was touched since `k`. */
  ghost predicate At<K, V>(p: Policy, h: seq<Access<K, V>>, k: K, entries: seq<Entry<K, V>>, others: set<K>) {
    Replay(p, h) == entries && OthersSince(p, h, k) == others
  }

  lemma AtIs<K, V>(p: Policy, h: seq<Access<K, V>>, k: K, entries: seq<Entry<K, V>>, others: set<K>)
    requires At(p, h, k, entries, others)
    ensures Replay(p, h) == entries && OthersSince(p, h, k) == others
  {
  }

  lemma SetAt<K, V>(p: Policy, h: seq<Access<K, V>>, k: K, entries: seq<Entry<K, V>>, others: set<K>, a: Access<K, V>,
                    after: seq<Entry<K, V>>) returns (h': seq<Access<K, V>>)
    requires At(p, h, k, entries, others) && a.Set? && after == AfterSet(p, entries, a.key, a.value, a.now)
    ensures h' == h + [a] && At(p, h', k, after, if a.key == k then {} else others + {a.key})
  {
    hide AfterSet;
    h' := h + [a];
    ReplaySnoc(p, h, a, k);
  }

  lemma GetAt<K, V>(p: Policy, h: seq<Access<K, V>>, k: K, entries: seq<Entry<K, V>>, others: set<K>, a: Access<K, V>,
                    after: seq<Entry<K, V>>) returns (h': seq<Access<K, V>>)
    requires At(p, h, k, entries, others) && a.Get? && after == AfterGet(entries, a.key, a.now)
    ensures h' == h + [a]
    ensures At(p, h', k, after, if Lookup(entries, a.key, a.now).None? then others else if a.key == k then {} else others + {a.key})
  {
    hide AfterGet, Lookup;
    h' := h + [a];
    ReplaySnoc(p, h, a, k);
  }

  lemma NothingYet<K, V>(p: Policy, h: seq<Access<K, V>>, k: K)
    requires h == []
    ensures At(p, h, k, [], {})
  {
  }

  /** One more call: what it leaves, and whom it touches. */
  lemma ReplaySnoc<K, V>(p: Policy, h: seq<Access<K, V>>, a: Access<K, V>, k: K)
    ensures
      var before := Replay(p, h);
      && Replay(p, h + [a]) == (if a.Get? then AfterGet(before, a.key, a.now) else AfterSet(p, before, a.key, a.value, a.now))
      && OthersSince(p, h + [a], k) ==
           if a.Get? && Lookup(before, a.key, a.now).None? then OthersSince(p, h, k)
           else if a.key == k then {} else OthersSince(p, h, k) + {a.key}
  {
    hide AfterGet, AfterSet, Lookup;
    assert (h + [a])[..|h|] == h;
  }

  lemma SetFirst<K, V>(p: Policy, a: K, x: V, now: int)
    requires p.maxEntries >= 1
    ensures AfterSet(p, [], a, x, now) == [Entry(a, x, now + p.ttlMs)]
  {
  }

  lemma SetSecond<K, V>(p: Policy, e: Entry<K, V>, k: K, x: V, now: int)
    requires p.maxEntries >= 2 && e.key != k
    ensures AfterSet(p, [e], k, x, now) == [e, Entry(k, x, now + p.ttlMs)]
  {
  }

  lemma GetFirst<K, V>(e: Entry<K, V>, f: Entry<K, V>, now: int)
    requires e.expires > now
    ensures AfterGet([e, f], e.key, now) == [f, e] && Lookup([e, f], e.key, now).Some?
  {
  }

  lemma GetSecond<K, V>(e: Entry<K, V>, f: Entry<K, V>, now: int)
    requires f.expires <= now && e.key != f.key
    ensures AfterGet([e, f], f.key, now) == [e] && Lookup([e, f], f.key, now).None?
  {
    var es := [e, f];
    assert es[1..] == [f] && es[1..][1..] == [];
    assert IndexOf(es[1..], f.key) == 0 && IndexOf(es, f.key) == 1;
    assert Remove(es, f.key) == es[..1] + es[2..] == [e];
  }

  lemma Finds<K, V>(e: Entry<K, V>, f: Entry<K, V>, now: int)
    requires e.expires > now
    ensures Has([e, f], e.key) && Lookup([e, f], e.key, now) == Some(e.value)
  {
  }
}
