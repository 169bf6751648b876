/** Nostr events and the per-event rules of src/nostr/events.ts (NIP-01, NIP-40, NIP-70). */
module NostrEvents {
  import opened Strings

  datatype Option<+T> = None | Some(value: T)

  datatype Event = Event(
    id: string,
    pubkey: string,
    createdAt: int,
    kind: int,
    tags: seq<seq<string>>,
    content: string,
    sig: string
  )

  datatype EventClass = Regular | Replaceable | Ephemeral | Addressable

  function ClassifyKind(kind: int): EventClass {
    if kind == 0 || kind == 3 || 10000 <= kind < 20000 then Replaceable
    else if 20000 <= kind < 30000 then Ephemeral
    else if 30000 <= kind < 40000 then Addressable
    else Regular
  }

  function Class(e: Event): EventClass {
    ClassifyKind(e.kind)
  }

  /** What `event.tags.find` returns for a tag name. */
  function FindTag(tags: seq<seq<string>>, name: string): Option<seq<string>> {
    if tags == [] then None
    else if tags[0] != [] && tags[0][0] == name then Some(tags[0])
    else FindTag(tags[1..], name)
  }

  /** `tag?.[1] ?? ''`: a missing tag and a missing value both read as the empty string. */
  function TagValue(tag: Option<seq<string>>): string {
    if tag.Some? && |tag.value| > 1 then tag.value[1] else ""
  }

  function DTag(e: Event): string {
    TagValue(FindTag(e.tags, "d"))
  }

  predicate IsSpace(c: char) {
    c == ' ' || '\t' <= c <= '\r'
  }

  function TrimStart(s: string): string {
    if s != [] && IsSpace(s[0]) then TrimStart(s[1..]) else s
  }

  predicate IsDigit(c: char) {
    '0' <= c <= '9'
  }

  function DigitRun(s: string): (n: nat)
    ensures n <= |s| && forall i :: 0 <= i < n ==> IsDigit(s[i])
  {
    if s == [] || !IsDigit(s[0]) then 0 else 1 + DigitRun(s[1..])
  }

  function Decimal(s: string): nat
    requires forall i :: 0 <= i < |s| ==> IsDigit(s[i])
  {
    if s == [] then 0
    else
      assert IsDigit(s[|s| - 1]);
      10 * Decimal(s[..|s| - 1]) + (s[|s| - 1] - '0') as nat
  }

  /** `Number.parseInt(s, 10)`; None is NaN. */
  function ParseInt(s: string): Option<int> {
    var t := TrimStart(s);
    var signed := t != [] && (t[0] == '-' || t[0] == '+');
    var body := if signed then t[1..] else t;
    var n := DigitRun(body);
    if n == 0 then None
    else
      var magnitude: int := Decimal(body[..n]);
      Some(if signed && t[0] == '-' then -magnitude else magnitude)
  }

  /** The declared NIP-40 expiration; None when there is no tag, no value, or no number in it. */
  function Expiration(e: Event): Option<int> {
    var v := TagValue(FindTag(e.tags, "expiration"));
    if v == "" then None else ParseInt(v)
  }

  predicate IsExpired(e: Event, now: int) {
    Expiration(e).Some? && Expiration(e).value <= now
  }

  /** NIP-70: carries a "-" tag. */
  predicate IsProtected(e: Event) {
    exists i :: 0 <= i < |e.tags| && e.tags[i] != [] && e.tags[i][0] == "-"
  }

  datatype Tag = Tag(name: string, value: string)

  predicate IsIndexable(tag: seq<string>) {
    |tag| > 1 && |tag[0]| == 1 && tag[1] != ""
  }

  /** The single-letter tags with a value, in order. */
  function IndexableTags(tags: seq<seq<string>>): seq<Tag> {
    if tags == [] then []
    else
      var last := tags[|tags| - 1];
      IndexableTags(tags[..|tags| - 1]) + (if IsIndexable(last) then [Tag(last[0], last[1])] else [])
  }

  method GetIndexableTags(e: Event) returns (result: seq<Tag>)
    ensures result == IndexableTags(e.tags)
  {
    result := [];
    var i := 0;
    while i < |e.tags|
      invariant 0 <= i <= |e.tags|
      invariant result == IndexableTags(e.tags[..i])
    {
      assert e.tags[..i + 1][..i] == e.tags[..i];
      if IsIndexable(e.tags[i]) {
        result := result + [Tag(e.tags[i][0], e.tags[i][1])];
      }
      i := i + 1;
    }
    assert e.tags[..i] == e.tags;
  }

  /** A tag is indexed exactly when some tag of the event has that one-character name and that non-empty value. */
  lemma {:induction false} IndexableTagsComplete(tags: seq<seq<string>>, name: string, value: string)
    ensures Tag(name, value) in IndexableTags(tags) <==>
            |name| == 1 && value != "" &&
            exists i :: 0 <= i < |tags| && |tags[i]| > 1 && tags[i][0] == name && tags[i][1] == value
  {
    if tags != [] {
      var init, last := tags[..|tags| - 1], tags[|tags| - 1];
      IndexableTagsComplete(init, name, value);
      assert tags == init + [last];
    }
  }

  predicate ValidateStructure(e: Event) {
    |e.id| == 64 && |e.pubkey| == 64 && e.kind >= 0 && |e.sig| == 128
  }

  /** Newer first, the smaller id on a tie. */
  predicate Newer(a: Event, b: Event) {
    a.createdAt > b.createdAt || (a.createdAt == b.createdAt && Less(a.id, b.id))
  }

  predicate ShouldReplace(existing: Event, incoming: Event) {
    if incoming.createdAt > existing.createdAt then true
    else if incoming.createdAt == existing.createdAt && Less(incoming.id, existing.id) then true
    else false
  }

  lemma NewerIsStrictOrder(a: Event, b: Event, c: Event)
    ensures !Newer(a, a)
    ensures Newer(a, b) ==> !Newer(b, a)
    ensures Newer(a, b) && Newer(b, c) ==> Newer(a, c)
    ensures a.id != b.id ==> Newer(a, b) || Newer(b, a)
  {
    LessIrreflexive(a.id);
    LessTotal(a.id, b.id);
    if Less(a.id, b.id) {
      LessAsymmetric(a.id, b.id);
      if Less(b.id, c.id) {
        LessTransitive(a.id, b.id, c.id);
      }
    }
  }

  /** Equal in everything a signature covers. */
  predicate SameContent(a: Event, b: Event) {
    a.(sig := b.sig) == b
  }

  // ─── Lists of events ────────────────────────────────────────────

  function EventIds(es: seq<Event>): seq<string> {
    if es == [] then [] else EventIds(es[..|es| - 1]) + [es[|es| - 1].id]
  }

  function IdSet(es: seq<Event>): set<string> {
    set e | e in es :: e.id
  }

  ghost predicate DistinctIds(es: seq<Event>) {
    forall i, j :: 0 <= i < j < |es| ==> es[i].id != es[j].id
  }

  lemma {:induction false} EventIdsFacts(es: seq<Event>)
    ensures |EventIds(es)| == |es| && (forall i :: 0 <= i < |es| ==> EventIds(es)[i] == es[i].id)
    ensures forall id :: id in EventIds(es) <==> id in IdSet(es)
  {
    if es != [] {
      EventIdsFacts(es[..|es| - 1]);
      assert es == es[..|es| - 1] + [es[|es| - 1]];
    }
  }
}
