/** Composite index keys and the range bounds over them (src/util/keys.ts, src/storage/query.ts). */
module Keys {
  import opened Strings
  import opened NostrEvents

  const SEPARATOR := "!"
  const TILDE := "~"
  const MAX_U32 := 0xffff_ffff
  const TWO_32 := 0x1_0000_0000

  predicate U32(n: int) {
    0 <= n < TWO_32
  }

  lemma Pow16Eight()
    ensures Pow16(8) == TWO_32
  {
    assert Pow16(2) == 256;
    assert Pow16(4) == 65536;
    assert Pow16(6) == 16777216;
  }

  /** `(n >>> 0).toString(16).padStart(width, '0')`; every caller pads to 8. */
  function PaddedHex(n: nat, width: nat): (s: string)
    requires width > 0 && n < Pow16(width)
    ensures |s| == width
  {
    PadHex(n, width);
    PadStart(ToHex(n), width, '0')
  }

  function Hex32(n: int): (s: string)
    ensures |s| == 8
  {
    Pow16Eight();
    PaddedHex(n % TWO_32, 8)
  }

  lemma PaddedHexOrder(m: nat, n: nat, width: nat)
    requires width > 0 && m < Pow16(width) && n < Pow16(width)
    ensures Less(PaddedHex(m, width), PaddedHex(n, width)) <==> m < n
    ensures PaddedHex(m, width) == PaddedHex(n, width) <==> m == n
    ensures ParseHex(PaddedHex(m, width)) == m
  {
    PadHex(m, width);
    PadHex(n, width);
    FixedHexOrder(m, n, width);
    ParseFixedHex(m, width);
  }

  lemma Hex32Order(m: int, n: int)
    requires U32(m) && U32(n)
    ensures Less(Hex32(m), Hex32(n)) <==> m < n
    ensures Hex32(m) == Hex32(n) <==> m == n
  {
    Pow16Eight();
    assert m % TWO_32 == m && n % TWO_32 == n;
    PaddedHexOrder(m, n, 8);
  }

  function InvertTimestamp(ts: int): (s: string)
    ensures |s| == 8
  {
    Hex32(MAX_U32 - ts)
  }

  function RecoverTimestamp(hex: string): (ts: int) {
    (MAX_U32 - ParseHex(hex)) % TWO_32
  }

  function EncodeKind(kind: int): (s: string)
    ensures |s| == 8
  {
    Hex32(kind)
  }

  /** Recovering an inverted timestamp gives it back modulo 2^32: exactly the u32 timestamps survive. */
  lemma RecoverInvert(ts: int)
    ensures RecoverTimestamp(InvertTimestamp(ts)) == ts % TWO_32
    ensures RecoverTimestamp(InvertTimestamp(ts)) == ts <==> U32(ts)
  {
    ParseHex32(MAX_U32 - ts);
    InvertTwice(ts);
    hide Hex32, ParseHex;
  }

  lemma ParseHex32(n: int)
    ensures ParseHex(Hex32(n)) == n % TWO_32
  {
    hide PaddedHex, Pow16;
    Pow16Eight();
    PaddedHexOrder(n % TWO_32, n % TWO_32, 8);
  }

  lemma InvertTwice(ts: int)
    ensures (MAX_U32 - (MAX_U32 - ts) % TWO_32) % TWO_32 == ts % TWO_32
  {
    var q, n := (MAX_U32 - ts) / TWO_32, (MAX_U32 - ts) % TWO_32;
    assert MAX_U32 - n == ts + q * TWO_32;
  }

  // ─── Key builders ───────────────────────────────────────────────

  /** The `inv_time!event_id` tail every time-ordered key ends with. */
  function Stamp(createdAt: int, id: string): string {
    InvertTimestamp(createdAt) + SEPARATOR + id
  }

  function KindKey(kind: int, createdAt: int, id: string): string {
    EncodeKind(kind) + SEPARATOR + Stamp(createdAt, id)
  }

  function AuthorKey(pubkey: string, createdAt: int, id: string): string {
    pubkey + SEPARATOR + Stamp(createdAt, id)
  }

  function AuthorKindPrefix(pubkey: string, kind: int): string {
    pubkey + SEPARATOR + EncodeKind(kind)
  }

  function AuthorKindKey(pubkey: string, kind: int, createdAt: int, id: string): string {
    AuthorKindPrefix(pubkey, kind) + SEPARATOR + Stamp(createdAt, id)
  }

  function TagPrefix(name: string, value: string): string {
    name + SEPARATOR + value
  }

  function TagKey(name: string, value: string, createdAt: int, id: string): string {
    TagPrefix(name, value) + SEPARATOR + Stamp(createdAt, id)
  }

  function CreatedAtKey(createdAt: int, id: string): string {
    Stamp(createdAt, id)
  }

  function ExpirationKey(expiry: int, id: string): string {
    Stamp(MAX_U32 - expiry, id)
  }

  function ReplaceableKey(pubkey: string, kind: int): string {
    pubkey + SEPARATOR + EncodeKind(kind)
  }

  function AddressableKey(pubkey: string, kind: int, dTag: string): string {
    pubkey + SEPARATOR + EncodeKind(kind) + SEPARATOR + dTag
  }

  /** The event id a 64-character-id index key ends with. */
  ghost function IdOf(key: string): string {
    if |key| < 64 then "" else key[|key| - 64..]
  }

  lemma StampTail(prefix: string, createdAt: int, id: string)
    requires |id| == 64
    ensures IdOf(prefix + Stamp(createdAt, id)) == id
    ensures IdOf(Stamp(createdAt, id)) == id
  {
    var h := InvertTimestamp(createdAt) + SEPARATOR;
    TailOf(prefix + h, id);
    TailOf(h, id);
    assert prefix + Stamp(createdAt, id) == (prefix + h) + id;
  }

  lemma TailOf(front: string, id: string)
    requires |id| == 64
    ensures IdOf(front + id) == id
  {
    assert (front + id)[|front|..] == id;
  }

  lemma SplitAt(a: string, b: string, c: string, d: string)
    requires a + b == c + d && |a| == |c|
    ensures a == c && b == d
  {
    assert a == (a + b)[..|a|] && c == (c + d)[..|c|];
    assert b == (a + b)[|a|..] && d == (c + d)[|c|..];
  }

  /** Inverted timestamps sort backwards. */
  lemma InvertOrder(ts: int, ts': int)
    requires U32(ts) && U32(ts')
    ensures Less(InvertTimestamp(ts), InvertTimestamp(ts')) <==> ts > ts'
    ensures InvertTimestamp(ts) == InvertTimestamp(ts') <==> ts == ts'
  {
    hide Hex32;
    Hex32Order(MAX_U32 - ts, MAX_U32 - ts');
  }

  lemma StampInjective(p: string, ts: int, id: string, p': string, ts': int, id': string)
    requires p + SEPARATOR + Stamp(ts, id) == p' + SEPARATOR + Stamp(ts', id')
    requires |id| == |id'| == 64 && U32(ts) && U32(ts')
    ensures p == p' && ts == ts' && id == id'
  {
    hide InvertTimestamp;
    var s, s' := Stamp(ts, id), Stamp(ts', id');
    assert |s| == |s'| == 73;
    SplitAt(p + SEPARATOR, s, p' + SEPARATOR, s');
    SplitAt(p, SEPARATOR, p', SEPARATOR);
    SplitAt(InvertTimestamp(ts) + SEPARATOR, id, InvertTimestamp(ts') + SEPARATOR, id');
    SplitAt(InvertTimestamp(ts), SEPARATOR, InvertTimestamp(ts'), SEPARATOR);
    InvertOrder(ts, ts');
  }

  /** No two different events or values share a time-ordered key, even when a tag value contains the separator. */
  lemma IndexKeysInjective(e: Event, e': Event, t: Tag, t': Tag)
    requires |e.id| == |e'.id| == 64 && U32(e.createdAt) && U32(e'.createdAt)
    ensures KindKey(e.kind, e.createdAt, e.id) == KindKey(e'.kind, e'.createdAt, e'.id) && U32(e.kind) && U32(e'.kind) ==>
              e.kind == e'.kind && e.createdAt == e'.createdAt && e.id == e'.id
    ensures AuthorKey(e.pubkey, e.createdAt, e.id) == AuthorKey(e'.pubkey, e'.createdAt, e'.id) ==>
              e.pubkey == e'.pubkey && e.createdAt == e'.createdAt && e.id == e'.id
    ensures AuthorKindKey(e.pubkey, e.kind, e.createdAt, e.id) == AuthorKindKey(e'.pubkey, e'.kind, e'.createdAt, e'.id) &&
            U32(e.kind) && U32(e'.kind) ==>
              e.pubkey == e'.pubkey && e.kind == e'.kind && e.createdAt == e'.createdAt && e.id == e'.id
    ensures |t.name| == |t'.name| == 1 &&
            TagKey(t.name, t.value, e.createdAt, e.id) == TagKey(t'.name, t'.value, e'.createdAt, e'.id) ==>
              t == t' && e.createdAt == e'.createdAt && e.id == e'.id
    ensures CreatedAtKey(e.createdAt, e.id) == CreatedAtKey(e'.createdAt, e'.id) ==>
              e.createdAt == e'.createdAt && e.id == e'.id
  {
    var ts, id, ts', id' := e.createdAt, e.id, e'.createdAt, e'.id;
    if KindKey(e.kind, ts, id) == KindKey(e'.kind, ts', id') && U32(e.kind) && U32(e'.kind) {
      StampInjective(EncodeKind(e.kind), ts, id, EncodeKind(e'.kind), ts', id');
      Hex32Order(e.kind, e'.kind);
    }
    if AuthorKey(e.pubkey, ts, id) == AuthorKey(e'.pubkey, ts', id') {
      StampInjective(e.pubkey, ts, id, e'.pubkey, ts', id');
    }
    if AuthorKindKey(e.pubkey, e.kind, ts, id) == AuthorKindKey(e'.pubkey, e'.kind, ts', id') && U32(e.kind) && U32(e'.kind) {
      StampInjective(AuthorKindPrefix(e.pubkey, e.kind), ts, id, AuthorKindPrefix(e'.pubkey, e'.kind), ts', id');
      AuthorKindPrefixInjective(e.pubkey, e.kind, e'.pubkey, e'.kind);
    }
    if |t.name| == |t'.name| == 1 && TagKey(t.name, t.value, ts, id) == TagKey(t'.name, t'.value, ts', id') {
      StampInjective(TagPrefix(t.name, t.value), ts, id, TagPrefix(t'.name, t'.value), ts', id');
      SplitAt(t.name + SEPARATOR, t.value, t'.name + SEPARATOR, t'.value);
      SplitAt(t.name, SEPARATOR, t'.name, SEPARATOR);
    }
    if CreatedAtKey(ts, id) == CreatedAtKey(ts', id') {
      StampInjective("", ts, id, "", ts', id');
    }
  }

  lemma AuthorKindPrefixInjective(p: string, k: int, p': string, k': int)
    requires AuthorKindPrefix(p, k) == AuthorKindPrefix(p', k')
    ensures p == p' && EncodeKind(k) == EncodeKind(k')
    ensures U32(k) && U32(k') ==> k == k'
  {
    SplitAt(p + SEPARATOR, EncodeKind(k), p' + SEPARATOR, EncodeKind(k'));
    SplitAt(p, SEPARATOR, p', SEPARATOR);
    if U32(k) && U32(k') {
      Hex32Order(k, k');
    }
  }

  /** Pointer and expiration keys identify what they are built from. */
  lemma PointerKeysInjective(p: string, k: int, d: string, p': string, k': int, d': string, id: string, id': string)
    requires |p| == |p'| && |id| == |id'| == 64 && U32(k) && U32(k')
    ensures ReplaceableKey(p, k) == ReplaceableKey(p', k') ==> p == p' && k == k'
    ensures AddressableKey(p, k, d) == AddressableKey(p', k', d') ==> p == p' && k == k' && d == d'
    ensures ExpirationKey(k, id) == ExpirationKey(k', id') ==> k == k' && id == id'
  {
    if ReplaceableKey(p, k) == ReplaceableKey(p', k') {
      AuthorKindPrefixInjective(p, k, p', k');
    }
    if AddressableKey(p, k, d) == AddressableKey(p', k', d') {
      SplitAt(AuthorKindPrefix(p, k) + SEPARATOR, d, AuthorKindPrefix(p', k') + SEPARATOR, d');
      SplitAt(AuthorKindPrefix(p, k), SEPARATOR, AuthorKindPrefix(p', k'), SEPARATOR);
      AuthorKindPrefixInjective(p, k, p', k');
    }
    if ExpirationKey(k, id) == ExpirationKey(k', id') {
      StampInjective("", MAX_U32 - k, id, "", MAX_U32 - k', id');
    }
  }

  // ─── Order ──────────────────────────────────────────────────────

  /** Stamps sort newest first, then by id. */
  lemma StampOrder(ts: int, id: string, ts': int, id': string)
    requires U32(ts) && U32(ts')
    ensures Less(Stamp(ts, id), Stamp(ts', id')) <==> ts > ts' || (ts == ts' && Less(id, id'))
  {
    hide InvertTimestamp;
    InvertOrder(ts, ts');
    var h, h' := InvertTimestamp(ts), InvertTimestamp(ts');
    LessBlocks(h + SEPARATOR, h' + SEPARATOR, id, id');
    LessBlocks(h, h', SEPARATOR, SEPARATOR);
    LessIrreflexive(SEPARATOR);
    if h + SEPARATOR == h' + SEPARATOR {
      SplitAt(h, SEPARATOR, h', SEPARATOR);
    }
  }

  /** Under one prefix, key order is the order `compareNewestFirst` sorts by. */
  lemma KeyOrderIsNewestFirst(prefix: string, a: Event, b: Event)
    requires U32(a.createdAt) && U32(b.createdAt)
    ensures Less(prefix + Stamp(a.createdAt, a.id), prefix + Stamp(b.createdAt, b.id)) <==> Newer(a, b)
  {
    LessCommonPrefix(prefix, Stamp(a.createdAt, a.id), Stamp(b.createdAt, b.id));
    StampOrder(a.createdAt, a.id, b.createdAt, b.id);
  }

  // ─── Ranges ─────────────────────────────────────────────────────

  datatype Upper = Lt(bound: string) | Lte(bound: string)
  datatype Range = Range(gte: string, upper: Upper)

  predicate InRange(key: string, r: Range) {
    LessEq(r.gte, key) && (if r.upper.Lt? then Less(key, r.upper.bound) else LessEq(key, r.upper.bound))
  }

  function TimeRangeForPrefix(prefix: string, since: Option<int>, until: Option<int>): Range {
    Range(
      if until.Some? then prefix + SEPARATOR + InvertTimestamp(until.value) else prefix + SEPARATOR,
      if since.Some? then Lte(prefix + SEPARATOR + (InvertTimestamp(since.value) + TILDE)) else Lt(prefix + TILDE))
  }

  function TimeRangeForCreatedAt(since: Option<int>, until: Option<int>): Range {
    Range(
      if until.Some? then InvertTimestamp(until.value) else "",
      if since.Some? then Lte(InvertTimestamp(since.value) + TILDE) else Lt(TILDE))
  }

  predicate InWindow(ts: int, since: Option<int>, until: Option<int>) {
    (since.Some? ==> since.value <= ts) && (until.Some? ==> ts <= until.value)
  }

  predicate U32Bound(t: Option<int>) {
    t.Some? ==> U32(t.value)
  }

  /** A stamp clears the `gte` bound of a window exactly when it is not after `until`. */
  lemma StampAboveUntil(ts: int, id: string, until: int)
    requires U32(ts) && U32(until)
    ensures LessEq(InvertTimestamp(until), Stamp(ts, id)) <==> ts <= until
  {
    hide InvertTimestamp;
    var h, h' := InvertTimestamp(ts), InvertTimestamp(until);
    InvertOrder(ts, until);
    LessBlocks(h, h', SEPARATOR + id, "");
    assert h + (SEPARATOR + id) == Stamp(ts, id) && h' + "" == h';
  }

  /** A stamp stays under the `lte` bound of a window exactly when it is not before `since`. */
  lemma StampBelowSince(ts: int, id: string, since: int)
    requires U32(ts) && U32(since)
    ensures LessEq(Stamp(ts, id), InvertTimestamp(since) + TILDE) <==> since <= ts
  {
    hide InvertTimestamp;
    var h, h' := InvertTimestamp(ts), InvertTimestamp(since);
    InvertOrder(since, ts);
    LessBlocks(h', h, TILDE, SEPARATOR + id);
    assert h + (SEPARATOR + id) == Stamp(ts, id);
    assert !Less(TILDE, SEPARATOR + id);
  }

  lemma StampBelowTilde(ts: int, id: string)
    ensures Less(Stamp(ts, id), TILDE)
  {
    StampDigits(ts, id);
  }

  /** A stamp starts with eight hexadecimal digits, which sort strictly between the separator and the tilde. */
  lemma StampDigits(ts: int, id: string)
    ensures |Stamp(ts, id)| >= 8 && forall i :: 0 <= i < 8 ==> IsHexLower(Stamp(ts, id)[i])
  {
    var n := (MAX_U32 - ts) % TWO_32;
    Pow16Eight();
    PadHex(n, 8);
    AllHexDigits(n, 8);
    assert forall i :: 0 <= i < 8 ==> Stamp(ts, id)[i] == InvertTimestamp(ts)[i];
  }

  lemma {:induction false} AllHexDigits(n: nat, w: nat)
    ensures forall i :: 0 <= i < w ==> IsHexLower(FixedHex(n, w)[i])
  {
    if w > 0 {
      AllHexDigits(n / 16, w - 1);
    }
  }

  /** A prefix window selects an entry of that prefix exactly when its timestamp lies in the window. */
  lemma PrefixWindow(prefix: string, ts: int, id: string, since: Option<int>, until: Option<int>)
    requires U32(ts) && U32Bound(since) && U32Bound(until)
    ensures InRange(prefix + SEPARATOR + Stamp(ts, id), TimeRangeForPrefix(prefix, since, until)) <==> InWindow(ts, since, until)
  {
    var p := prefix + SEPARATOR;
    var s := Stamp(ts, id);
    if until.Some? {
      LessCommonPrefix(p, s, InvertTimestamp(until.value));
      StampAboveUntil(ts, id, until.value);
    } else {
      LessCommonPrefix(p, s, "");
      assert p + "" == p;
    }
    if since.Some? {
      LessCommonPrefix(p, InvertTimestamp(since.value) + TILDE, s);
      StampBelowSince(ts, id, since.value);
    } else {
      assert p + s == prefix + (SEPARATOR + s);
      LessCommonPrefix(prefix, SEPARATOR + s, TILDE);
    }
  }

  /** The same for the global index, whose keys are bare stamps. */
  lemma GlobalWindow(ts: int, id: string, since: Option<int>, until: Option<int>)
    requires U32(ts) && U32Bound(since) && U32Bound(until)
    ensures InRange(CreatedAtKey(ts, id), TimeRangeForCreatedAt(since, until)) <==> InWindow(ts, since, until)
  {
    if until.Some? {
      StampAboveUntil(ts, id, until.value);
    }
    if since.Some? {
      StampBelowSince(ts, id, since.value);
    } else {
      StampBelowTilde(ts, id);
    }
  }

  /** Every key in a prefix window that sorts before some entry of the prefix is itself under `prefix!`. */
  lemma WindowSandwich(prefix: string, key: string, ts: int, id: string, since: Option<int>, until: Option<int>)
    requires InRange(key, TimeRangeForPrefix(prefix, since, until))
    requires Less(key, prefix + SEPARATOR + Stamp(ts, id))
    ensures StartsWith(key, prefix + SEPARATOR)
  {
    var p := prefix + SEPARATOR;
    if until.Some? {
      LessCommonPrefix(p, InvertTimestamp(until.value), "");
      assert p + "" == p;
      LessEqTransitive(p, p + InvertTimestamp(until.value), key);
    }
    Sandwich(p, key, Stamp(ts, id));
  }

  /** For a fixed-width prefix the window holds nothing else: a key built from another prefix of that width is outside. */
  lemma FixedWidthWindow(prefix: string, other: string, ts: int, id: string, since: Option<int>, until: Option<int>)
    requires |prefix| == |other| && other != prefix
    ensures !InRange(other + SEPARATOR + Stamp(ts, id), TimeRangeForPrefix(prefix, since, until))
  {
    hide Stamp, InvertTimestamp;
    var rest := SEPARATOR + Stamp(ts, id);
    assert other + SEPARATOR + Stamp(ts, id) == other + rest;
    var lower := if until.Some? then SEPARATOR + InvertTimestamp(until.value) else SEPARATOR;
    assert prefix + lower == TimeRangeForPrefix(prefix, since, until).gte;
    LessBlocks(other, prefix, rest, lower);
    var upper := if since.Some? then SEPARATOR + (InvertTimestamp(since.value) + TILDE) else TILDE;
    assert prefix + upper == TimeRangeForPrefix(prefix, since, until).upper.bound;
    LessBlocks(other, prefix, rest, upper);
    LessBlocks(prefix, other, upper, rest);
    LessTotal(other, prefix);
    if Less(other, prefix) {
      LessAsymmetric(other, prefix);
    } else {
      LessAsymmetric(prefix, other);
    }
  }

  /** A range whose bounds start with `a!` holds no key that goes on above '!' after as many characters. */
  lemma ShortPrefixMisses(a: string, key: string, r: Range)
    requires |a| < |key| && key[|a|] > '!'
    requires StartsWith(r.gte, a + SEPARATOR) && StartsWith(r.upper.bound, a + SEPARATOR)
    ensures !InRange(key, r)
  {
    var x, rest := key[..|a|], key[|a|..];
    var lower, upper := r.gte[|a|..], r.upper.bound[|a|..];
    assert key == x + rest;
    assert (a + SEPARATOR)[..|a|] == a;
    assert r.gte[..|a|] == a && r.upper.bound[..|a|] == a by {
      assert r.gte[..|a|] == r.gte[..|a| + 1][..|a|] && r.upper.bound[..|a|] == r.upper.bound[..|a| + 1][..|a|];
    }
    assert r.gte == a + lower && r.upper.bound == a + upper;
    assert upper[0] == '!' by {
      assert r.upper.bound[..|a| + 1][|a|] == '!';
    }
    LessBlocks(a, x, upper, rest);
    LessBlocks(x, a, rest, lower);
    LessBlocks(x, a, rest, upper);
    LessTotal(a, x);
    LessIrreflexive(a);
    if Less(a, x) || a == x {
      if Less(a, x) {
        LessAsymmetric(a, x);
      } else {
        LessAsymmetric(upper, rest);
      }
    }
  }

  lemma StartsWithPlus(a: string, rest: string)
    ensures StartsWith(a + rest, a)
  {
  }

  /**
   * An author prefix does not survive a `since` bound: the author range of a string shorter than a pubkey then holds
   * none of that pubkey's entries, whatever their time. Without the bound a prefix holds all of them.
   */
  lemma SinceDropsAuthorPrefix(a: string, pubkey: string, ts: int, id: string, since: int, until: Option<int>)
    requires |a| < |pubkey| && pubkey[|a|] > '!'
    ensures !InRange(AuthorKey(pubkey, ts, id), TimeRangeForPrefix(a, Some(since), until))
    ensures StartsWith(pubkey, a) && pubkey[|a|] < '~' ==>
      InRange(AuthorKey(pubkey, ts, id), TimeRangeForPrefix(a, None, until))
  {
    hide Stamp, InvertTimestamp;
    var r := TimeRangeForPrefix(a, Some(since), until);
    StartsWithPlus(a + SEPARATOR, if until.Some? then InvertTimestamp(until.value) else "");
    assert a + SEPARATOR + "" == a + SEPARATOR;
    StartsWithPlus(a + SEPARATOR, InvertTimestamp(since) + TILDE);
    hide InRange;
    ShortPrefixMisses(a, AuthorKey(pubkey, ts, id), r);
    if StartsWith(pubkey, a) && pubkey[|a|] < '~' {
      PrefixHoldsAuthor(a, pubkey, ts, id, until);
    }
  }

  lemma PrefixHoldsAuthor(a: string, pubkey: string, ts: int, id: string, until: Option<int>)
    requires |a| < |pubkey| && StartsWith(pubkey, a) && '!' < pubkey[|a|] < '~'
    ensures InRange(AuthorKey(pubkey, ts, id), TimeRangeForPrefix(a, None, until))
  {
    hide Stamp, InvertTimestamp;
    var rest := pubkey[|a|..] + SEPARATOR + Stamp(ts, id);
    assert a + rest == AuthorKey(pubkey, ts, id);
    var lower := if until.Some? then SEPARATOR + InvertTimestamp(until.value) else SEPARATOR;
    assert a + lower == TimeRangeForPrefix(a, None, until).gte;
    LessCommonPrefix(a, rest, lower);
    LessCommonPrefix(a, rest, TILDE);
  }

  /** On the author+kind index a string shorter than a pubkey finds none of its entries, with or without bounds. */
  lemma KindDropsAuthorPrefix(a: string, listed: int, pubkey: string, kind: int, ts: int, id: string,
                              since: Option<int>, until: Option<int>)
    requires |a| < |pubkey| && pubkey[|a|] > '!'
    ensures !InRange(AuthorKindKey(pubkey, kind, ts, id), TimeRangeForPrefix(AuthorKindPrefix(a, listed), since, until))
  {
    hide Stamp, InvertTimestamp, InRange, EncodeKind;
    var p, r := AuthorKindPrefix(a, listed), TimeRangeForPrefix(AuthorKindPrefix(a, listed), since, until);
    var lower := if until.Some? then SEPARATOR + InvertTimestamp(until.value) else SEPARATOR;
    var upper := if since.Some? then SEPARATOR + (InvertTimestamp(since.value) + TILDE) else TILDE;
    assert r.gte == (a + SEPARATOR) + (EncodeKind(listed) + lower);
    assert r.upper.bound == (a + SEPARATOR) + (EncodeKind(listed) + upper);
    StartsWithPlus(a + SEPARATOR, EncodeKind(listed) + lower);
    StartsWithPlus(a + SEPARATOR, EncodeKind(listed) + upper);
    ShortPrefixMisses(a, AuthorKindKey(pubkey, kind, ts, id), r);
  }

  function Wrapped(t: Option<int>): Option<int> {
    if t.Some? then Some(t.value % TWO_32) else None
  }

  lemma InvertWraps(ts: int)
    ensures InvertTimestamp(ts) == InvertTimestamp(ts % TWO_32)
  {
    hide Hex32;
    SameModulo(MAX_U32 - ts, ts / TWO_32);
    assert MAX_U32 - ts % TWO_32 == MAX_U32 - ts + ts / TWO_32 * TWO_32;
    Hex32Modulo(MAX_U32 - ts, MAX_U32 - ts % TWO_32);
  }

  lemma SameModulo(n: int, q: int)
    ensures (n + q * TWO_32) % TWO_32 == n % TWO_32
  {
  }

  lemma Hex32Modulo(m: int, n: int)
    requires m % TWO_32 == n % TWO_32
    ensures Hex32(m) == Hex32(n)
  {
    hide PaddedHex, Pow16;
  }

  /**
   * Outside u32 nothing is clamped: timestamps and bounds act modulo 2^32, so an `until` of 2^32 keeps only events
   * stamped 0 (modulo 2^32) and a `since` of -1 only those stamped 2^32 - 1.
   */
  lemma WindowWraps(prefix: string, ts: int, id: string, since: Option<int>, until: Option<int>)
    ensures InRange(prefix + SEPARATOR + Stamp(ts, id), TimeRangeForPrefix(prefix, since, until)) <==>
            InWindow(ts % TWO_32, Wrapped(since), Wrapped(until))
    ensures InRange(CreatedAtKey(ts, id), TimeRangeForCreatedAt(since, until)) <==>
            InWindow(ts % TWO_32, Wrapped(since), Wrapped(until))
  {
    hide InvertTimestamp, InRange;
    InvertWraps(ts);
    InvertWraps(if since.Some? then since.value else 0);
    InvertWraps(if until.Some? then until.value else 0);
    assert TimeRangeForPrefix(prefix, since, until) == TimeRangeForPrefix(prefix, Wrapped(since), Wrapped(until));
    assert TimeRangeForCreatedAt(since, until) == TimeRangeForCreatedAt(Wrapped(since), Wrapped(until));
    PrefixWindow(prefix, ts % TWO_32, id, Wrapped(since), Wrapped(until));
    GlobalWindow(ts % TWO_32, id, Wrapped(since), Wrapped(until));
  }
}
