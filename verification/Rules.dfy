/**
 * The consensus rules read off the fields of events and ops: kinds, tags and versions as literals, and no pointers,
 * slot keys or index keys. Each is proved to be what the functions of the view do.
 */
module Rules {
  import opened Strings
  import opened NostrEvents
  import opened Keys
  import opened Consensus
  import opened ViewInvariant
  import opened Effects
  import opened RunSafety
  import opened PutOrder
  import Governance

  // ─── Events ─────────────────────────────────────────────────────

  /** Well formed and verified. */
  predicate WellFormed(b: Base, e: Event) {
    |e.id| == 64 && |e.pubkey| == 64 && |e.sig| == 128 && e.kind >= 0 && b.verify(e)
  }

  /** Well formed, verified, and without a "-" tag. */
  predicate Fit(b: Base, e: Event) {
    WellFormed(b, e) && forall i :: 0 <= i < |e.tags| ==> |e.tags[i]| == 0 || e.tags[i][0] != "-"
  }

  lemma FitIs(b: Base, e: Event)
    ensures WellFormed(b, e) <==> Valid(b, e)
    ensures Fit(b, e) <==> Storable(b, e)
  {
  }

  predicate Named(tag: seq<string>, name: string) {
    |tag| > 0 && tag[0] == name
  }

  /** The value of the first tag of a name is `d`; a missing tag and a missing value count as empty. */
  predicate FirstValue(tags: seq<seq<string>>, name: string, d: string) {
    || (d == "" && forall i :: 0 <= i < |tags| ==> !Named(tags[i], name))
    || exists i :: 0 <= i < |tags| && Named(tags[i], name) && (forall j :: 0 <= j < i ==> !Named(tags[j], name))
         && d == if |tags[i]| > 1 then tags[i][1] else ""
  }

  /** What `find` returns is the first tag of the name. */
  lemma {:induction false} FindsFirst(tags: seq<seq<string>>, name: string)
    ensures var t := FindTag(tags, name);
      if t.None? then forall i :: 0 <= i < |tags| ==> !Named(tags[i], name)
      else exists i :: 0 <= i < |tags| && tags[i] == t.value && Named(tags[i], name) && forall j :: 0 <= j < i ==> !Named(tags[j], name)
  {
    if tags != [] && !Named(tags[0], name) {
      FindsFirst(tags[1..], name);
      var t := FindTag(tags[1..], name);
      if t.Some? {
        var i :| 0 <= i < |tags| - 1 && tags[1..][i] == t.value && Named(tags[1..][i], name)
          && forall j :: 0 <= j < i ==> !Named(tags[1..][j], name);
        assert tags[i + 1] == t.value;
        forall j | 0 <= j < i + 1 ensures !Named(tags[j], name) {
          assert j > 0 ==> tags[j] == tags[1..][j - 1];
        }
      } else {
        forall i | 0 <= i < |tags| ensures !Named(tags[i], name) {
          assert i > 0 ==> tags[i] == tags[1..][i - 1];
        }
      }
    }
  }

  lemma FirstValueIs(tags: seq<seq<string>>, name: string, d: string)
    ensures FirstValue(tags, name, d) <==> TagValue(FindTag(tags, name)) == d
  {
    FindsFirst(tags, name);
    var t := FindTag(tags, name);
    if t.Some? {
      var i :| 0 <= i < |tags| && tags[i] == t.value && Named(tags[i], name) && forall j :: 0 <= j < i ==> !Named(tags[j], name);
      if k :| 0 <= k < |tags| && Named(tags[k], name) && forall j :: 0 <= j < k ==> !Named(tags[j], name) {
        assert k == i;
      }
    }
  }

  /** Versions of one thing: same author and replaceable kind, or same author, addressable kind and first "d" value. */
  ghost predicate Rivals(x: Event, e: Event) {
    && x.pubkey == e.pubkey && x.kind == e.kind
    && (e.kind == 0 || e.kind == 3 || 10000 <= e.kind <= 19999
        || (30000 <= e.kind <= 39999 && exists d :: FirstValue(x.tags, "d", d) && FirstValue(e.tags, "d", d)))
  }

  /** Created later, or at the same second with the smaller id. */
  predicate Beats(x: Event, e: Event) {
    x.createdAt > e.createdAt || (x.createdAt == e.createdAt && Less(x.id, e.id))
  }

  lemma SameDTag(x: Event, e: Event)
    ensures (exists d :: FirstValue(x.tags, "d", d) && FirstValue(e.tags, "d", d)) <==> DTag(x) == DTag(e)
  {
    hide FirstValue, FindTag;
    forall d ensures FirstValue(x.tags, "d", d) <==> DTag(x) == d {
      FirstValueIs(x.tags, "d", d);
    }
    forall d ensures FirstValue(e.tags, "d", d) <==> DTag(e) == d {
      FirstValueIs(e.tags, "d", d);
    }
    assert FirstValue(x.tags, "d", DTag(x));
  }

  /** Rivals are the events that share a slot. */
  lemma RivalsShare(x: Event, e: Event)
    requires |x.pubkey| == |e.pubkey|
    ensures Rivals(x, e) <==> SharesSlot(x, e)
    ensures Rivals(x, e) ==> HasSlot(e)
  {
    SameDTag(x, e);
    hide FirstValue, DTag, ReplaceableKey, AddressableKey;
    if SharesSlot(x, e) {
      var id := seq(64, i => 'a');
      PointerKeysInjective(x.pubkey, x.kind, DTag(x), e.pubkey, e.kind, DTag(e), id, id);
    }
  }

  lemma EphemeralIs(e: Event)
    ensures Class(e) == Ephemeral <==> 20000 <= e.kind <= 29999
    ensures !HasSlot(e) && Class(e) != Ephemeral ==> Class(e) == Regular
  {
  }

  lemma BeatsIs(e: Event, h: Event)
    ensures ShouldReplace(h, e) <==> Beats(e, h)
    ensures Newer(e, h) <==> Beats(e, h)
  {
    hide Less;
  }

  // ─── Expirations ────────────────────────────────────────────────

  function Digit(n: nat): char
    requires n < 10
  {
    '0' + n as char
  }

  /** The decimal digits of a number. */
  function Digits(n: nat): string {
    if n < 10 then [Digit(n)] else Digits(n / 10) + [Digit(n % 10)]
  }

  lemma {:induction false} DigitsAre(n: nat)
    ensures Digits(n) != [] && forall i :: 0 <= i < |Digits(n)| ==> IsDigit(Digits(n)[i])
    ensures Decimal(Digits(n)) == n
  {
    if n < 10 {
      assert Digits(n)[..0] == [];
      assert Decimal(Digits(n)) == 10 * Decimal([]) + n;
    } else {
      DigitsAre(n / 10);
      assert Digits(n)[..|Digits(n)| - 1] == Digits(n / 10);
    }
  }

  /** Text a number may be followed by and still be read: nothing, or anything but another digit. */
  predicate Ends(post: string) {
    post == "" || !IsDigit(post[0])
  }

  lemma {:induction false} RunOfDigits(s: string, post: string)
    requires Ends(post) && forall i :: 0 <= i < |s| ==> IsDigit(s[i])
    ensures DigitRun(s + post) == |s|
  {
    if s == "" {
      assert s + post == post;
    } else {
      assert (s + post)[1..] == s[1..] + post;
      RunOfDigits(s[1..], post);
    }
  }

  lemma {:induction false} SpacesTrimmed(pre: string, s: string)
    requires (forall i :: 0 <= i < |pre| ==> IsSpace(pre[i])) && s != "" && !IsSpace(s[0])
    ensures TrimStart(pre + s) == s
  {
    if pre == "" {
      assert pre + s == s;
    } else {
      assert (pre + s)[1..] == pre[1..] + s;
      SpacesTrimmed(pre[1..], s);
    }
  }

  /** The digits of a number are read back as that number, after spaces and a sign and before anything but a digit. */
  lemma ParsesDigits(pre: string, n: nat, post: string)
    requires (forall i :: 0 <= i < |pre| ==> IsSpace(pre[i])) && Ends(post)
    ensures ParseInt(pre + (Digits(n) + post)) == Some(n as int)
    ensures ParseInt(pre + ("+" + (Digits(n) + post))) == Some(n as int)
    ensures ParseInt(pre + ("-" + (Digits(n) + post))) == Some(-(n as int))
  {
    hide TrimStart, Digits, DigitRun, Decimal;
    DigitsAre(n);
    var body := Digits(n) + post;
    RunOfDigits(Digits(n), post);
    assert body[..|Digits(n)|] == Digits(n);
    assert body[0] == Digits(n)[0] && IsDigit(body[0]);
    SpacesTrimmed(pre, body);
    SpacesTrimmed(pre, "+" + body);
    SpacesTrimmed(pre, "-" + body);
    assert ("+" + body)[1..] == body && ("-" + body)[1..] == body;
  }

  /** An event whose first "expiration" tag holds the digits of `n` expires at `n`; without a value in it, never. */
  lemma ExpiresAt(e: Event, n: nat, post: string, now: int)
    ensures FirstValue(e.tags, "expiration", Digits(n) + post) && Ends(post) ==>
      Expiration(e) == Some(n as int) && (IsExpired(e, now) <==> n <= now)
    ensures FirstValue(e.tags, "expiration", "") ==> Expiration(e) == None && !IsExpired(e, now)
  {
    hide FirstValue, FindTag, ParseInt;
    FirstValueIs(e.tags, "expiration", Digits(n) + post);
    FirstValueIs(e.tags, "expiration", "");
    DigitsAre(n);
    if Ends(post) {
      ParsesDigits("", n, post);
      assert "" + (Digits(n) + post) == Digits(n) + post;
    }
  }

  // ─── Puts ───────────────────────────────────────────────────────

  /** When a put takes effect: new, fit, not ephemeral, not deleted by its author, and ahead of its live rivals. */
  ghost predicate Taken(b: Base, v: View, e: Event) {
    && e.id !in v.events && Fit(b, e) && !(20000 <= e.kind <= 29999)
    && !(e.id in v.deletion && v.deletion[e.id].pubkey == e.pubkey)
    && forall id :: id in LiveEvents(v) && Rivals(LiveEvents(v)[id], e) ==> Beats(e, LiveEvents(v)[id])
  }

  /** The live events but those an event competes with. */
  ghost function WithoutRivals(live: map<string, Event>, e: Event): map<string, Event> {
    map id | id in live && !Rivals(live[id], e) :: live[id]
  }

  /** The only live rival of an event is the holder of its slot. */
  lemma LiveRivals(b: Base, v: View, e: Event, id: string)
    requires Consistent(b, v) && |e.pubkey| == 64 && id in LiveEvents(v)
    ensures Rivals(LiveEvents(v)[id], e) <==> HasSlot(e) && Holder(v, e) == Some(LiveEvents(v)[id])
  {
    hide Rivals, SlotKey, ClassifyKind, IndexedBy, IsProtected;
    var x := LiveEvents(v)[id];
    assert x == v.events[id] && x.id == id && Storable(b, x);
    RivalsShare(x, e);
    if HasSlot(e) {
      HolderNamed(b, v, e);
    }
  }

  lemma HolderIsLive(b: Base, v: View, e: Event)
    requires Consistent(b, v) && HasSlot(e) && Holder(v, e).Some?
    ensures var h := Holder(v, e).value; h.id in LiveEvents(v) && LiveEvents(v)[h.id] == h
  {
    hide SlotKey, ClassifyKind, IndexedBy, EventsSound;
    HolderNamed(b, v, e);
  }

  lemma TakenIs(b: Base, v: View, e: Event)
    requires Consistent(b, v)
    ensures Taken(b, v, e) <==> Accepts(b, v, e)
  {
    FitIs(b, e);
    EphemeralIs(e);
    if Fit(b, e) {
      RivalsYield(b, v, e);
    }
    hide Rivals, ClassifyKind, Consistent, Holder, Fit, Beats, LiveEvents, Storable, ShouldReplace;
  }

  lemma RivalsYield(b: Base, v: View, e: Event)
    requires Consistent(b, v) && |e.pubkey| == 64
    ensures (forall id :: id in LiveEvents(v) && Rivals(LiveEvents(v)[id], e) ==> Beats(e, LiveEvents(v)[id])) <==>
      (HasSlot(e) && Holder(v, e).Some? ==> ShouldReplace(Holder(v, e).value, e))
  {
    hide Rivals, HasSlot, Consistent, Holder, Beats, LiveEvents, ShouldReplace;
    forall id | id in LiveEvents(v)
      ensures Rivals(LiveEvents(v)[id], e) <==> HasSlot(e) && Holder(v, e) == Some(LiveEvents(v)[id])
    {
      LiveRivals(b, v, e, id);
    }
    if HasSlot(e) && Holder(v, e).Some? {
      HolderIsLive(b, v, e);
      BeatsIs(e, Holder(v, e).value);
    }
  }

  /**
   * A put of any event into any view a run can reach: what is stored, and which events are live. Superseded versions
   * stay stored.
   */
  lemma PutRule(b: Base, v: View, e: Event)
    requires Consistent(b, v)
    ensures
      var w, live := Put(b, v, e), LiveEvents(v);
      if Taken(b, v, e) then w.events == v.events[e.id := e] && LiveEvents(w) == WithoutRivals(live, e)[e.id := e]
      else w == v
  {
    TakenIs(b, v, e);
    hide Taken, Accepts, LiveEvents, Consistent, Put, Rivals, Holder, HasSlot, WithoutRivals;
    PutEffect(b, v, e);
    PutConsistent(b, v, e);
    if Accepts(b, v, e) {
      AcceptedWidth(b, v, e);
      LosesHolder(b, v, e);
    } else {
      RefusedUnchanged(b, v, e);
    }
  }

  lemma AcceptedWidth(b: Base, v: View, e: Event)
    requires Accepts(b, v, e)
    ensures |e.pubkey| == 64
  {
    hide IsProtected, ClassifyKind, SlotKey;
  }

  lemma LosesHolder(b: Base, v: View, e: Event)
    requires Consistent(b, v) && |e.pubkey| == 64
    ensures WithoutRivals(LiveEvents(v), e) ==
      if HasSlot(e) && Holder(v, e).Some? then LiveEvents(v) - {Holder(v, e).value.id} else LiveEvents(v)
  {
    hide LiveEvents, Rivals, Holder, HasSlot, Consistent;
    forall id | id in LiveEvents(v)
      ensures Rivals(LiveEvents(v)[id], e) <==> HasSlot(e) && Holder(v, e).Some? && Holder(v, e).value.id == id
    {
      LiveRivals(b, v, e, id);
      LiveFiled(b, v, id);
      if HasSlot(e) && Holder(v, e).Some? {
        HolderIsLive(b, v, e);
      }
    }
  }

  lemma LiveFiled(b: Base, v: View, id: string)
    requires Consistent(b, v) && id in LiveEvents(v)
    ensures LiveEvents(v)[id].id == id && id in v.events && v.events[id] == LiveEvents(v)[id] && Storable(b, v.events[id])
    ensures Class(v.events[id]) != Ephemeral
  {
    hide Live, IndexedBy, PointersResolve, Storable, ClassifyKind;
  }

  // ─── Put-only runs ──────────────────────────────────────────────

  /** Nothing that was put for the same author, kind and "d" value is newer. */
  ghost predicate NewestPut(b: Base, put: set<Event>, e: Event) {
    forall x :: x in put && Fit(b, x) && Rivals(x, e) ==> x.id == e.id || Beats(e, x)
  }

  /**
   * After puts alone, in any order: of the fit events that are versions of one thing the newest is live and no other;
   * an ephemeral one is not stored; every other is live.
   */
  lemma LiveIffNewest(b: Base, log: seq<Node>, e: Event)
    requires CollisionFree(b) && forall i :: 0 <= i < |log| ==> PutOnly(log[i])
    requires e in PutEvents(log) && Fit(b, e)
    ensures var v := Run(b, INITIAL, log).view;
      if 20000 <= e.kind <= 29999 then e.id !in v.events
      else e.id in LiveEvents(v) <==> NewestPut(b, PutEvents(log), e)
  {
    hide Run, LiveEvents, Rivals, PutEvents, Fit, CollisionFree, Settled, Storable, SlotKey, ClassifyKind, NewestPut;
    FitIs(b, e);
    EphemeralIs(e);
    RunSettled(b, log);
    var v := Run(b, INITIAL, log).view;
    if HasSlot(e) {
      if NewestPut(b, PutEvents(log), e) {
        LiveIfNewest(b, v, PutEvents(log), e);
      }
      if e.id in LiveEvents(v) {
        NewestIfLive(b, v, PutEvents(log), e);
      }
    } else {
      UnslottedPut(b, v, PutEvents(log), e);
    }
  }

  lemma UnslottedPut(b: Base, v: View, put: set<Event>, e: Event)
    requires CollisionFree(b) && Settled(b, v, put) && e in put && Storable(b, e) && !HasSlot(e)
    ensures if Class(e) == Ephemeral then e.id !in v.events else e.id in LiveEvents(v) && NewestPut(b, put, e)
  {
    hide SlotKey, ClassifyKind, Valid, IsProtected, IndexedBy, PointersResolve, Outranked, Fit;
    if e.id in v.events {
      assert Storable(b, v.events[e.id]) && SameContent(v.events[e.id], e);
      SameContentSameKeys(v.events[e.id], e);
    }
    forall x | x in put && Fit(b, x) ensures !Rivals(x, e) {
      NoRivals(x, e);
    }
  }

  lemma NoRivals(x: Event, e: Event)
    requires !HasSlot(e)
    ensures !Rivals(x, e)
  {
    hide FirstValue;
  }

  /** The pointer of an event's slot, after puts. */
  lemma SlotWinner(b: Base, v: View, put: set<Event>, e: Event)
    requires CollisionFree(b) && Settled(b, v, put) && e in put && Storable(b, e) && HasSlot(e)
    ensures Holder(v, e).Some?
    ensures var h := Holder(v, e).value;
      && h in put && Storable(b, h) && SharesSlot(h, e) && h.id in LiveEvents(v) && LiveEvents(v)[h.id] == h
      && (h.id == e.id || Newer(h, e))
      && (e.id in LiveEvents(v) <==> h.id == e.id)
  {
    hide SlotKey, ClassifyKind, Valid, IsProtected, IndexedBy, Newer;
    assert Outranked(v, e);
    HolderIsLive(b, v, e);
    HolderNamed(b, v, e);
    var h := Holder(v, e).value;
    assert h.id in v.events && v.events[h.id] == h;
    if e.id in v.events {
      assert Storable(b, v.events[e.id]) && SameContent(v.events[e.id], e);
      SameContentSameKeys(v.events[e.id], e);
    }
  }

  lemma LiveIfNewest(b: Base, v: View, put: set<Event>, e: Event)
    requires CollisionFree(b) && Settled(b, v, put) && e in put && Storable(b, e) && HasSlot(e)
    requires NewestPut(b, put, e)
    ensures e.id in LiveEvents(v)
  {
    hide SlotKey, ClassifyKind, Valid, IsProtected, Settled, Rivals, Beats, Newer, LiveEvents, Fit, Holder, HasSlot, CollisionFree;
    SlotWinner(b, v, put, e);
    var h := Holder(v, e).value;
    FitIs(b, h);
    FitWidth(b, h, e);
    RivalsShare(h, e);
    BeatsIs(e, h);
    NewerIsStrictOrder(e, h, e);
  }

  lemma FitWidth(b: Base, x: Event, e: Event)
    requires Storable(b, x) && Storable(b, e)
    ensures |x.pubkey| == |e.pubkey| == 64
  {
    hide IsProtected;
  }

  /** A live event's slot holds it, so whatever was put for the slot lost to it. */
  lemma NewestIfLive(b: Base, v: View, put: set<Event>, e: Event)
    requires CollisionFree(b) && Settled(b, v, put) && e in put && Storable(b, e) && HasSlot(e)
    requires e.id in LiveEvents(v)
    ensures NewestPut(b, put, e)
  {
    hide Settled, Rivals, Beats, Newer, LiveEvents, Fit, Holder, HasSlot, CollisionFree, Storable, SharesSlot, SameContent;
    SlotWinner(b, v, put, e);
    SameIdSame(b, Holder(v, e).value, e);
    forall x | x in put && Fit(b, x) && Rivals(x, e) ensures x.id == e.id || Beats(e, x) {
      FitIs(b, x);
      FitWidth(b, x, e);
      RivalsShare(x, e);
      SameHolder(v, x, e);
      SlotWinner(b, v, put, x);
      BeatsAlike(Holder(v, e).value, e, x);
    }
  }

  lemma SameIdSame(b: Base, x: Event, e: Event)
    requires CollisionFree(b) && Storable(b, x) && Storable(b, e) && x.id == e.id
    ensures x.createdAt == e.createdAt
  {
    hide Valid, IsProtected;
  }

  lemma SameHolder(v: View, x: Event, e: Event)
    requires SharesSlot(x, e)
    ensures Holder(v, x) == Holder(v, e) && HasSlot(x)
  {
    hide SlotKey, ClassifyKind;
  }

  lemma BeatsAlike(h: Event, e: Event, x: Event)
    requires h.id == e.id && h.createdAt == e.createdAt
    ensures Newer(h, x) <==> Beats(e, x)
  {
    hide Less;
  }

  /**
   * For an addressable event with the first "d" value `d`: it is live exactly when it is the newest of the fit ones put
   * with its author, its kind and that value; what was put with other values does not matter.
   */
  lemma LivePerValue(b: Base, log: seq<Node>, e: Event, d: string)
    requires CollisionFree(b) && forall i :: 0 <= i < |log| ==> PutOnly(log[i])
    requires e in PutEvents(log) && Fit(b, e) && 30000 <= e.kind <= 39999 && FirstValue(e.tags, "d", d)
    ensures e.id in LiveEvents(Run(b, INITIAL, log).view) <==>
      forall x :: x in PutEvents(log) && Fit(b, x) && x.pubkey == e.pubkey && x.kind == e.kind && FirstValue(x.tags, "d", d) ==>
        x.id == e.id || Beats(e, x)
  {
    hide Run, LiveEvents, PutEvents, Fit, CollisionFree, PutOnly, FirstValue, Beats;
    LiveIffNewest(b, log, e);
    forall x ensures Rivals(x, e) <==> x.pubkey == e.pubkey && x.kind == e.kind && FirstValue(x.tags, "d", d) {
      RivalOfValue(x, e, d);
    }
  }

  lemma RivalOfValue(x: Event, e: Event, d: string)
    requires 30000 <= e.kind <= 39999 && FirstValue(e.tags, "d", d)
    ensures Rivals(x, e) <==> x.pubkey == e.pubkey && x.kind == e.kind && FirstValue(x.tags, "d", d)
  {
    hide FirstValue;
    FirstValueIs(e.tags, "d", d);
    FirstValueIs(x.tags, "d", d);
    SameDTag(x, e);
  }

  /** In every view a run reaches, no two versions of one thing are live. */
  lemma OneLiveVersion(b: Base, log: seq<Node>, id: string, id': string)
    ensures var live := LiveEvents(Run(b, INITIAL, log).view);
      id in live && id' in live && Rivals(live[id], live[id']) ==> id == id'
  {
    hide Run, LiveEvents, Rivals, Consistent, Holder, HasSlot, Storable;
    EmptyConsistent(b);
    RunConsistent(b, INITIAL, log);
    var v := Run(b, INITIAL, log).view;
    if id in LiveEvents(v) && id' in LiveEvents(v) && Rivals(LiveEvents(v)[id], LiveEvents(v)[id']) {
      OnlyOne(b, v, id, id');
    }
  }

  lemma OnlyOne(b: Base, v: View, id: string, id': string)
    requires Consistent(b, v) && id in LiveEvents(v) && id' in LiveEvents(v) && Rivals(LiveEvents(v)[id], LiveEvents(v)[id'])
    ensures id == id'
  {
    hide LiveEvents, Rivals, Consistent, Holder, HasSlot, IsProtected, ClassifyKind;
    var y := LiveEvents(v)[id'];
    LiveFiled(b, v, id);
    LiveFiled(b, v, id');
    assert |y.pubkey| == 64;
    LiveRivals(b, v, y, id);
    RivalOfItself(LiveEvents(v)[id], y);
    LiveRivals(b, v, y, id');
  }

  lemma RivalOfItself(x: Event, e: Event)
    requires Rivals(x, e)
    ensures Rivals(e, e)
  {
    hide FirstValue;
  }

  // ─── Deletions ──────────────────────────────────────────────────

  /** An "e" tag names the id. */
  predicate NamesId(tags: seq<seq<string>>, id: string) {
    id != "" && exists i :: 0 <= i < |tags| && |tags[i]| > 1 && tags[i][0] == "e" && tags[i][1] == id
  }

  lemma {:induction false} TargetsAre(tags: seq<seq<string>>, id: string)
    ensures id in Targets(tags) <==> NamesId(tags, id)
  {
    if tags != [] {
      var init, last := tags[..|tags| - 1], tags[|tags| - 1];
      TargetsAre(init, id);
      assert tags == init + [last];
    }
  }

  /** The events but those of the deleter that its tags name. */
  function Spared(events: map<string, Event>, d: Event): map<string, Event> {
    map id | id in events && !(NamesId(d.tags, id) && events[id].pubkey == d.pubkey) :: events[id]
  }

  lemma SparedIs(events: map<string, Event>, d: Event)
    ensures Spared(events, d) == Undeleted(events, d.pubkey, Targets(d.tags))
  {
    hide NamesId, Targets;
    forall id ensures id in Targets(d.tags) <==> NamesId(d.tags, id) {
      TargetsAre(d.tags, id);
    }
  }

  /** A deletion ends the lives of the events it removes and of no others. */
  lemma {:induction false} DeleteTargetsLive(b: Base, v: View, d: Event, targets: seq<string>)
    requires Consistent(b, v)
    ensures Consistent(b, DeleteTargets(v, d, targets))
    ensures LiveEvents(DeleteTargets(v, d, targets)) == Undeleted(LiveEvents(v), d.pubkey, targets)
  {
    hide Consistent, LiveEvents, Drop, Undeleted, DeleteTarget;
    DeleteTargetsConsistent(b, v, d, targets);
    if targets == [] {
      UndeletedNone(LiveEvents(v), d.pubkey);
    } else {
      var init, t := targets[..|targets| - 1], targets[|targets| - 1];
      DeleteTargetsLive(b, v, d, init);
      UndeletedSnoc(LiveEvents(v), d.pubkey, init, t);
      assert targets == init + [t];
      OneTargetLive(b, DeleteTargets(v, d, init), d, t);
    }
  }

  lemma OneTargetLive(b: Base, v: View, d: Event, t: string)
    requires Consistent(b, v)
    ensures var live := LiveEvents(v);
      LiveEvents(DeleteTarget(v, d, t)) == if t in live && live[t].pubkey == d.pubkey then live - {t} else live
  {
    hide Consistent, LiveEvents, Drop;
    LiveAreStored(v);
    var w := if t in v.events && v.events[t].pubkey == d.pubkey then Drop(v, t) else v;
    if t in v.events {
      DropConsistent(b, v, t);
    }
    SameLife(w, DeleteTarget(v, d, t));
    if t !in LiveEvents(v) {
      assert LiveEvents(v) - {t} == LiveEvents(v);
    }
  }

  /**
   * A deletion by a writer, of whatever kind its event is: every stored event of the same author that an "e" tag names is
   * gone, from the live ones too; a tombstone of that author lies on every named id; and then the event itself is put.
   */
  lemma DeletionRule(b: Base, v: View, d: Event)
    requires Consistent(b, v)
    ensures
      if WellFormed(b, d) then
        exists u :: Deleted(b, v, d, u) && Delete(b, v, d) == Put(b, u, d)
      else Delete(b, v, d) == v
  {
    hide Consistent, LiveEvents, DeleteTargets, Targets, Put, Undeleted, Spared, Entombed, NamesId, Valid;
    FitIs(b, d);
    var u := DeleteTargets(v, d, Targets(d.tags));
    DeleteTargetsEffect(v, d, Targets(d.tags));
    DeleteTargetsLive(b, v, d, Targets(d.tags));
    SparedIs(v.events, d);
    SparedIs(LiveEvents(v), d);
    forall id ensures TombstoneAuthor(u, id) == if NamesId(d.tags, id) then Some(d.pubkey) else TombstoneAuthor(v, id) {
      TargetsAre(d.tags, id);
      EntombedAt(v.deletion, d, Targets(d.tags), id);
    }
    assert Valid(b, d) ==> Deleted(b, v, d, u);
  }

  lemma EntombedAt(deletion: map<string, Tombstone>, d: Event, targets: seq<string>, id: string)
    ensures var after := Entombed(deletion, d, targets);
      && (id in targets ==> id in after && after[id] == Tombstone(d.id, d.pubkey))
      && (id !in targets ==> (id in after <==> id in deletion) && (id in deletion ==> after[id] == deletion[id]))
  {
  }

  /** What a deletion leaves before its own event is put. */
  ghost predicate Deleted(b: Base, v: View, d: Event, u: View) {
    && Consistent(b, u)
    && u.events == Spared(v.events, d) && LiveEvents(u) == Spared(LiveEvents(v), d)
    && u.writers == v.writers && u.config == v.config
    && forall id :: TombstoneAuthor(u, id) == if NamesId(d.tags, id) then Some(d.pubkey) else TombstoneAuthor(v, id)
  }

  // ─── Optimistic blocks, flags and writers ───────────────────────

  /** An optimistic block is honored: a put of a known version, of a fit event, while the flag is on. */
  predicate Honored(b: Base, v: View, n: Node) {
    && n.value.Some? && n.value.value.PutOp? && !(n.value.value.v.Some? && n.value.value.v.value > 2)
    && "accept_optimistic" in v.config && v.config["accept_optimistic"] && Fit(b, n.value.value.event)
  }

  lemma OptimisticRule(b: Base, s: State, n: Node)
    requires n.optimistic && !s.halted
    ensures var t := Step(b, s, n);
      if Honored(b, s.view, n) then !t.halted && t.view == Put(b, s.view, n.value.value.event) && t.calls == s.calls + [AckWriter(n.from)]
      else t == s
  {
    hide Put, Accepts, Fit, Storable;
    if n.value.Some? && n.value.value.PutOp? {
      FitIs(b, n.value.value.event);
    }
  }

  predicate Sets(b: Base, n: Node, key: string) {
    n.value.Some? && !n.optimistic && n.from == b.founder && n.value.value.SetConfigOp? && n.value.value.key == key
  }

  /** What the founder last set a flag to. */
  function LastSetting(b: Base, log: seq<Node>, key: string): Option<bool> {
    if log == [] then None
    else
      var n := log[|log| - 1];
      if Sets(b, n, key) then Some(n.value.value.value) else LastSetting(b, log[..|log| - 1], key)
  }

  function Flag(v: View, key: string): Option<bool> {
    if key in v.config then Some(v.config[key]) else None
  }

  /** In a run that does not halt, a flag is what the founder last set it to. */
  lemma {:induction false} RunFlags(b: Base, log: seq<Node>, key: string)
    requires !Run(b, INITIAL, log).halted
    ensures Flag(Run(b, INITIAL, log).view, key) == LastSetting(b, log, key)
  {
    hide ApplyNode, AdmitsWriter, HostCalls, Presents;
    if log != [] {
      RunFlags(b, log[..|log| - 1], key);
      Governance.ApplyNodeRules(b, Run(b, INITIAL, log[..|log| - 1]).view, log[|log| - 1]);
    }
  }

  /** A writer's node with an op of a version above 2. */
  predicate FromTheFuture(n: Node) {
    !n.optimistic && n.value.Some? && n.value.value.v.Some? && n.value.value.v.value > 2
  }

  /** A run halts exactly at a writer's op of a newer version, and tells the host exactly then. */
  lemma {:induction false} HaltsIff(b: Base, log: seq<Node>)
    ensures var s := Run(b, INITIAL, log);
      && (s.halted <==> exists i :: 0 <= i < |log| && FromTheFuture(log[i]))
      && (s.halted <==> Interrupt in s.calls)
  {
    hide ApplyNode, AdmitsWriter, Presents, HonorsOptimistic;
    if log != [] {
      var init, n := log[..|log| - 1], log[|log| - 1];
      HaltsIff(b, init);
      if i :| 0 <= i < |init| && FromTheFuture(init[i]) {
        assert FromTheFuture(log[i]);
      }
      assert Halts(n) <==> FromTheFuture(n);
      assert FromTheFuture(n) ==> FromTheFuture(log[|log| - 1]);
    }
  }

  /** 64 lower-case hexadecimal digits. */
  predicate IsKey(key: string) {
    |key| == 64 && forall i :: 0 <= i < 64 ==> '0' <= key[i] <= '9' || 'a' <= key[i] <= 'f'
  }

  /** Whether an add_writer op admits its key: a new, well-formed key other than the founder's, below the cap of 64. */
  predicate Admissible(b: Base, v: View, key: string) {
    IsKey(key) && key != b.founder && key !in v.writers && |v.writers| < 64
  }

  lemma WriterRule(b: Base, s: State, n: Node)
    requires !s.halted && !n.optimistic && n.value.Some? && n.value.value.AddWriterOp? && !FromTheFuture(n)
    ensures var t, key := Step(b, s, n), n.value.value.key;
      if Admissible(b, s.view, key) then
        t.view == s.view.(writers := s.view.writers[key := n.from]) && t.calls == s.calls + [AddWriter(key, false)]
      else t.view == s.view && t.calls == s.calls
  {
  }

  /** Every writer of every run, in the same terms. */
  lemma WritersAreKeys(b: Base, log: seq<Node>)
    ensures var writers := Run(b, INITIAL, log).view.writers;
      |writers| <= 64 && forall k :: k in writers ==> IsKey(k) && k != b.founder
  {
    hide Run;
    Governance.RunWriters(b, log, []);
  }

  // ─── What is presented ──────────────────────────────────────────

  /** The ids a step stores that were not stored before. */
  function NewIds(s: State, t: State): set<string> {
    t.view.events.Keys - s.view.events.Keys
  }

  /** A step presents to live subscriptions exactly the event it newly stores, if any; it never stores two. */
  lemma PresentedIffStored(b: Base, s: State, n: Node)
    requires Consistent(b, s.view) && !s.halted
    ensures var t := Step(b, s, n);
      if NewIds(s, t) == {} then t.presented == s.presented
      else exists e: Event :: NewIds(s, t) == {e.id} && t.view.events[e.id] == e && t.presented == s.presented + [e]
  {
    hide Consistent, ApplyNode, Presents, HostCalls;
    if Halts(n) {
      assert Step(b, s, n).view == s.view;
    } else {
      NodePresents(b, s.view, n);
      var t := Step(b, s, n);
      if Presents(b, s.view, n) != [] {
        var e := Presents(b, s.view, n)[0];
        assert NewIds(s, t) == {e.id};
      } else {
        assert NewIds(s, t) == {};
      }
    }
  }

  lemma NodePresents(b: Base, v: View, n: Node)
    requires Consistent(b, v) && !Halts(n)
    ensures var w, es := ApplyNode(b, v, n), Presents(b, v, n);
      if es == [] then w.events.Keys <= v.events.Keys
      else es == [es[0]] && es[0].id !in v.events && es[0].id in w.events && w.events[es[0].id] == es[0]
           && w.events.Keys <= v.events.Keys + {es[0].id}
  {
    hide Put, DeleteTargets, Evict, Targets, Valid, Accepts, ApplyOp, HonorsOptimistic, Consistent;
    NodeIs(b, v, n);
    if n.value.Some? {
      OpIs(b, v, n.value.value, n.from);
      match n.value.value
      case PutOp(e, _) => PutStores(b, v, e);
      case DeleteOp(d, _) => DeletionStores(b, v, d);
      case ExpiryDeleteOp(ids, _) => EvictEffect(v, ids, true);
      case PruneDeleteOp(ids, _) => EvictEffect(v, ids, false);
      case _ =>
    }
  }

  lemma PutStores(b: Base, v: View, e: Event)
    ensures var w := Put(b, v, e);
      if Accepts(b, v, e) then e.id !in v.events && w.events == v.events[e.id := e] else w.events == v.events
  {
    hide Put, Accepts;
    PutEffect(b, v, e);
    AcceptsOnlyNew(b, v, e);
  }

  lemma DeletionStores(b: Base, v: View, d: Event)
    ensures var u := DeleteTargets(v, d, Targets(d.tags));
      && u.events.Keys <= v.events.Keys
      && (Accepts(b, u, d) ==> d.id !in v.events)
      && Put(b, u, d).events == if Accepts(b, u, d) then u.events[d.id := d] else u.events
  {
    hide Put, Accepts, Targets, DeleteTargets;
    var u := DeleteTargets(v, d, Targets(d.tags));
    DeleteTargetsEffect(v, d, Targets(d.tags));
    PutEffect(b, u, d);
    AcceptsOnlyNew(b, u, d);
  }
}
