/** What each op does to the primary events and the tombstones, over whole id lists at once. */
module Effects {
  import opened NostrEvents
  import opened Consensus

  lemma RemoveIndexesEffect(v: View, e: Event)
    ensures var w := RemoveIndexes(v, e);
      w.events == v.events && w.deletion == v.deletion && w.writers == v.writers && w.config == v.config
  {
    hide DelEntries, ClearSlot;
    ClearSlotEffect(v, e);
  }

  lemma ClearSlotEffect(v: View, e: Event)
    ensures var w := ClearSlot(v, e);
      w.events == v.events && w.deletion == v.deletion && w.writers == v.writers && w.config == v.config
  {
    hide SlotKey, ClassifyKind, Names, HasSlot, Pointers;
  }

  lemma DropEffect(v: View, id: string)
    requires id in v.events
    ensures var w := Drop(v, id);
      w.events == v.events - {id} && w.deletion == v.deletion && w.writers == v.writers && w.config == v.config
  {
    hide RemoveIndexes;
    RemoveIndexesEffect(v, v.events[id]);
  }

  /** A put changes the primary map only by its own event, and nothing that rules are read from. */
  lemma PutEffect(b: Base, v: View, e: Event)
    ensures var w := Put(b, v, e);
      && w.events == (if Accepts(b, v, e) then v.events[e.id := e] else v.events)
      && w.deletion == v.deletion && w.writers == v.writers && w.config == v.config
  {
    hide Accepts, FreeSlot, Point, AddEntries, HasSlot;
    FreeSlotEffect(v, e);
    PointEffect(v, e);
    PointEffect(FreeSlot(v, e), e);
  }

  lemma FreeSlotEffect(v: View, e: Event)
    ensures var w := FreeSlot(v, e);
      w.events == v.events && w.deletion == v.deletion && w.writers == v.writers && w.config == v.config
  {
    hide RemoveIndexes, Holder;
    if Holder(v, e).Some? {
      RemoveIndexesEffect(v, Holder(v, e).value);
    }
  }

  lemma PointEffect(v: View, e: Event)
    ensures var w := Point(v, e);
      w.events == v.events && w.deletion == v.deletion && w.writers == v.writers && w.config == v.config
  {
    hide SlotKey, ClassifyKind, Pointers, HasSlot;
  }

  /** The events a deletion leaves: all but the named ones of its own author. */
  function Undeleted(events: map<string, Event>, pubkey: string, targets: seq<string>): map<string, Event> {
    map id | id in events && !(id in targets && events[id].pubkey == pubkey) :: events[id]
  }

  lemma UndeletedNone(events: map<string, Event>, pubkey: string)
    ensures Undeleted(events, pubkey, []) == events
  {
  }

  lemma UndeletedSnoc(events: map<string, Event>, pubkey: string, init: seq<string>, t: string)
    ensures var u := Undeleted(events, pubkey, init);
      Undeleted(events, pubkey, init + [t]) == if t in u && u[t].pubkey == pubkey then u - {t} else u
  {
    assert forall id :: id in init + [t] <==> id in init || id == t;
  }

  function Entombed(deletion: map<string, Tombstone>, d: Event, targets: seq<string>): map<string, Tombstone> {
    deletion + map id | id in targets :: Tombstone(d.id, d.pubkey)
  }

  lemma EntombedSnoc(deletion: map<string, Tombstone>, d: Event, init: seq<string>, t: string)
    ensures Entombed(deletion, d, init + [t]) == Entombed(deletion, d, init)[t := Tombstone(d.id, d.pubkey)]
    ensures Entombed(deletion, d, []) == deletion
  {
    assert forall id :: id in init + [t] <==> id in init || id == t;
  }

  lemma DeleteTargetEffect(v: View, d: Event, t: string)
    ensures var w := DeleteTarget(v, d, t);
      && w.events == (if t in v.events && v.events[t].pubkey == d.pubkey then v.events - {t} else v.events)
      && w.deletion == v.deletion[t := Tombstone(d.id, d.pubkey)]
      && w.writers == v.writers && w.config == v.config
  {
    hide Drop;
    if t in v.events {
      DropEffect(v, t);
    }
  }

  /** A deletion removes exactly the named events of its own author, and leaves its tombstone on every name. */
  lemma {:induction false} DeleteTargetsEffect(v: View, d: Event, targets: seq<string>)
    ensures var w := DeleteTargets(v, d, targets);
      && w.events == Undeleted(v.events, d.pubkey, targets)
      && w.deletion == Entombed(v.deletion, d, targets)
      && w.writers == v.writers && w.config == v.config
  {
    hide DeleteTarget, Undeleted, Entombed;
    EntombedSnoc(v.deletion, d, [], "");
    if targets == [] {
      UndeletedNone(v.events, d.pubkey);
    } else {
      var init, t := targets[..|targets| - 1], targets[|targets| - 1];
      DeleteTargetsEffect(v, d, init);
      DeleteTargetEffect(DeleteTargets(v, d, init), d, t);
      UndeletedSnoc(v.events, d.pubkey, init, t);
      EntombedSnoc(v.deletion, d, init, t);
      assert targets == init + [t];
    }
  }

  /** The events an eviction leaves: all but the listed ones it may take. */
  function Unevicted(events: map<string, Event>, ids: seq<string>, expiringOnly: bool): map<string, Event> {
    map id | id in events && !(id in ids && Evictable(events[id], expiringOnly)) :: events[id]
  }

  lemma UnevictedNone(events: map<string, Event>, expiringOnly: bool)
    ensures Unevicted(events, [], expiringOnly) == events
  {
  }

  lemma UnevictedSnoc(events: map<string, Event>, init: seq<string>, id: string, expiringOnly: bool)
    ensures var u := Unevicted(events, init, expiringOnly);
      Unevicted(events, init + [id], expiringOnly) == if id in u && Evictable(u[id], expiringOnly) then u - {id} else u
  {
    hide Evictable;
    assert forall i :: i in init + [id] <==> i in init || i == id;
  }

  /** An eviction removes exactly the listed events it may take. */
  lemma {:induction false} EvictEffect(v: View, ids: seq<string>, expiringOnly: bool)
    ensures var w := Evict(v, ids, expiringOnly);
      && w.events == Unevicted(v.events, ids, expiringOnly)
      && w.deletion == v.deletion && w.writers == v.writers && w.config == v.config
  {
    hide Drop, Evictable, Unevicted;
    if ids == [] {
      UnevictedNone(v.events, expiringOnly);
    } else {
      var init, id := ids[..|ids| - 1], ids[|ids| - 1];
      EvictEffect(v, init, expiringOnly);
      var u := Evict(v, init, expiringOnly);
      UnevictedSnoc(v.events, init, id, expiringOnly);
      assert ids == init + [id];
      if id in u.events {
        DropEffect(u, id);
      }
    }
  }
}
