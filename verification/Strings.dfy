/** Strings as the store orders them: by code unit, a proper prefix first; and fixed-width hexadecimal. */
module Strings {

  /** The order Hyperbee iterates in and that `<` means on JavaScript strings. */
  predicate Less(a: string, b: string) {
    b != [] && (a == [] || a[0] < b[0] || (a[0] == b[0] && Less(a[1..], b[1..])))
  }

  predicate LessEq(a: string, b: string) {
    !Less(b, a)
  }

  predicate StartsWith(s: string, prefix: string) {
    |prefix| <= |s| && s[..|prefix|] == prefix
  }

  lemma {:induction false} LessIrreflexive(a: string)
    ensures !Less(a, a)
  {
    if a != [] {
      LessIrreflexive(a[1..]);
    }
  }

  lemma {:induction false} LessAsymmetric(a: string, b: string)
    requires Less(a, b)
    ensures !Less(b, a) && a != b
  {
    if a != [] && a[0] == b[0] {
      LessAsymmetric(a[1..], b[1..]);
    }
  }

  lemma {:induction false} LessTransitive(a: string, b: string, c: string)
    requires Less(a, b) && Less(b, c)
    ensures Less(a, c)
  {
    if a != [] && a[0] == b[0] == c[0] {
      LessTransitive(a[1..], b[1..], c[1..]);
    }
  }

  lemma {:induction false} LessTotal(a: string, b: string)
    ensures Less(a, b) || a == b || Less(b, a)
  {
    if a != [] && b != [] && a[0] == b[0] {
      LessTotal(a[1..], b[1..]);
      assert a == [a[0]] + a[1..] && b == [b[0]] + b[1..];
    }
  }

  lemma LessEqTransitive(a: string, b: string, c: string)
    requires LessEq(a, b) && LessEq(b, c)
    ensures LessEq(a, c)
  {
    if Less(c, a) {
      LessTotal(a, b);
      if Less(a, b) {
        LessTransitive(c, a, b);
      }
    }
  }

  /** Strings that start with two blocks of one width are ordered by the blocks, then by the rest. */
  lemma {:induction false} LessBlocks(x: string, y: string, a: string, b: string)
    requires |x| == |y|
    ensures Less(x + a, y + b) <==> (Less(x, y) || (x == y && Less(a, b)))
  {
    if x == [] {
      assert x + a == a && y + b == b;
    } else {
      assert (x + a)[1..] == x[1..] + a && (y + b)[1..] == y[1..] + b;
      LessBlocks(x[1..], y[1..], a, b);
      assert x == [x[0]] + x[1..] && y == [y[0]] + y[1..];
    }
  }

  lemma LessCommonPrefix(p: string, a: string, b: string)
    ensures Less(p + a, p + b) <==> Less(a, b)
  {
    LessIrreflexive(p);
    LessBlocks(p, p, a, b);
  }

  /** Whatever sorts between a prefix and one of its extensions extends that prefix. */
  lemma {:induction false} Sandwich(p: string, k: string, x: string)
    requires LessEq(p, k) && Less(k, p + x)
    ensures StartsWith(k, p)
  {
    if p != [] {
      assert (p + x)[0] == p[0] && (p + x)[1..] == p[1..] + x;
      assert k != [];
      assert k[0] == p[0];
      Sandwich(p[1..], k[1..], x);
      assert k[..|p|] == [k[0]] + k[1..][..|p| - 1];
      assert p == [p[0]] + p[1..];
    }
  }

  /** `toLowerCase()` on ASCII. */
  function LowerChar(c: char): char {
    if 'A' <= c <= 'Z' then c - 'A' + 'a' else c
  }

  function ToLower(s: string): (r: string)
    ensures |r| == |s|
  {
    if s == [] then [] else [LowerChar(s[0])] + ToLower(s[1..])
  }

  /** Lower-casing replaces exactly the letters "A" to "Z", by the ones 32 code units up. */
  lemma {:induction false} LowerAt(s: string, i: nat)
    requires i < |s|
    ensures ToLower(s)[i] as int == if 'A' <= s[i] <= 'Z' then s[i] as int + 32 else s[i] as int
  {
    if i > 0 {
      LowerAt(s[1..], i - 1);
    }
  }

  /** `s.includes(sub)` */
  predicate Includes(s: string, sub: string) {
    exists i :: 0 <= i <= |s| - |sub| && StartsWith(s[i..], sub)
  }

  // ─── Enumerating a set of keys in order ─────────────────────────

  ghost predicate Ascending(ks: seq<string>) {
    forall i, j :: 0 <= i < j < |ks| ==> Less(ks[i], ks[j])
  }

  /** `ks` is what a read stream over exactly the keys `keys` yields. */
  ghost predicate Enumerates(ks: seq<string>, keys: set<string>) {
    Ascending(ks) && (forall k :: k in ks <==> k in keys)
  }

  lemma {:induction false} EnumerationSize(ks: seq<string>, keys: set<string>)
    requires Enumerates(ks, keys)
    ensures |ks| == |keys|
  {
    if ks == [] {
      assert forall k :: k in keys ==> k in ks;
    } else {
      LessIrreflexive(ks[0]);
      assert ks[0] in keys;
      forall k ensures k in ks[1..] <==> k in keys - {ks[0]} {
        assert ks == [ks[0]] + ks[1..];
      }
      EnumerationSize(ks[1..], keys - {ks[0]});
    }
  }

  /** The stream over a set of keys is determined by the set. */
  lemma {:induction false} EnumerationUnique(a: seq<string>, b: seq<string>, keys: set<string>)
    requires Enumerates(a, keys) && Enumerates(b, keys)
    ensures a == b
  {
    EnumerationSize(a, keys);
    EnumerationSize(b, keys);
    if a != [] {
      assert a[0] in b && b[0] in a;
      if a[0] != b[0] {
        var i :| 0 <= i < |a| && a[i] == b[0];
        var j :| 0 <= j < |b| && b[j] == a[0];
        LessAsymmetric(a[0], a[i]);
        assert false;
      }
      forall k
        ensures k in a[1..] <==> k in keys - {a[0]}
        ensures k in b[1..] <==> k in keys - {a[0]}
      {
        LessIrreflexive(a[0]);
        assert a == [a[0]] + a[1..] && b == [b[0]] + b[1..];
      }
      EnumerationUnique(a[1..], b[1..], keys - {a[0]});
      assert a == [a[0]] + a[1..] && b == [b[0]] + b[1..];
    }
  }

  /** Insert a key at its place in an ascending list. */
  function InsertKey(ks: seq<string>, k: string): (r: seq<string>)
    requires Ascending(ks) && k !in ks
    ensures Ascending(r) && (forall x :: x in r <==> x in ks || x == k)
  {
    if ks == [] then [k]
    else if Less(k, ks[0]) then
      InsertFront(ks, k);
      [k] + ks
    else
      LessTotal(k, ks[0]);
      var rest := InsertKey(ks[1..], k);
      assert ks == [ks[0]] + ks[1..];
      assert forall i :: 0 <= i < |rest| ==> rest[i] in rest && (rest[i] in ks[1..] || rest[i] == k);
      [ks[0]] + rest
  }

  lemma InsertFront(ks: seq<string>, k: string)
    requires Ascending(ks) && ks != [] && Less(k, ks[0])
    ensures Ascending([k] + ks)
  {
    forall i | 0 < i < |ks| ensures Less(k, ks[i]) {
      LessTransitive(k, ks[0], ks[i]);
    }
  }

  /** The keys of a set in the order a read stream yields them. */
  ghost function SortedKeys(keys: set<string>): (ks: seq<string>)
    ensures Enumerates(ks, keys)
  {
    if keys == {} then []
    else
      var k :| k in keys;
      InsertKey(SortedKeys(keys - {k}), k)
  }

  // ─── Hexadecimal ────────────────────────────────────────────────

  predicate IsHexLower(c: char) {
    '0' <= c <= '9' || 'a' <= c <= 'f'
  }

  function HexDigit(d: nat): (c: char)
    requires d < 16
  {
    "0123456789abcdef"[d]
  }

  /** `n.toString(16)` */
  function ToHex(n: nat): (s: string)
    ensures s != []
  {
    if n < 16 then [HexDigit(n)] else ToHex(n / 16) + [HexDigit(n % 16)]
  }

  function Repeat(c: char, n: nat): (s: string)
    ensures |s| == n
  {
    if n == 0 then [] else [c] + Repeat(c, n - 1)
  }

  /** `s.padStart(width, c)` */
  function PadStart(s: string, width: nat, c: char): (r: string) {
    if |s| >= width then s else Repeat(c, width - |s|) + s
  }

  function Pow16(w: nat): (p: nat)
    ensures p > 0
  {
    if w == 0 then 1 else 16 * Pow16(w - 1)
  }

  /** `n` written with exactly `w` hexadecimal digits. */
  ghost function FixedHex(n: nat, w: nat): (s: string)
    ensures |s| == w
  {
    if w == 0 then [] else FixedHex(n / 16, w - 1) + [HexDigit(n % 16)]
  }

  lemma {:induction false} FixedHexZero(w: nat)
    ensures FixedHex(0, w) == Repeat('0', w)
  {
    if w > 0 {
      FixedHexZero(w - 1);
      RepeatSnoc('0', w - 1);
    }
  }

  lemma {:induction false} RepeatSnoc(c: char, n: nat)
    ensures Repeat(c, n) + [c] == Repeat(c, n + 1)
  {
    if n > 0 {
      RepeatSnoc(c, n - 1);
      assert Repeat(c, n) + [c] == [c] + (Repeat(c, n - 1) + [c]);
    }
  }

  /** Padding the shortest form gives the fixed-width form. */
  lemma {:induction false} PadHex(n: nat, w: nat)
    requires w > 0 && n < Pow16(w)
    ensures |ToHex(n)| <= w && PadStart(ToHex(n), w, '0') == FixedHex(n, w)
  {
    hide PadStart, HexDigit, Repeat;
    if n < 16 {
      assert n / 16 == 0 && n % 16 == n;
      FixedHexZero(w - 1);
      assert ToHex(n) == [HexDigit(n)];
      RepeatEmpty(w - 1, ToHex(n));
    } else {
      assert Pow16(1) == 16 * Pow16(0);
      PadHex(n / 16, w - 1);
      var h := ToHex(n / 16);
      assert ToHex(n) == h + [HexDigit(n % 16)];
      RepeatEmpty(w - 1 - |h|, h);
      assert Repeat('0', w - 1 - |h|) + (h + [HexDigit(n % 16)]) == (Repeat('0', w - 1 - |h|) + h) + [HexDigit(n % 16)];
      RepeatEmpty(w - 1 - |h|, ToHex(n));
    }
  }

  lemma RepeatEmpty(n: nat, s: string)
    ensures PadStart(s, n + |s|, '0') == Repeat('0', n) + s
  {
    if n == 0 {
      assert Repeat('0', 0) + s == s;
    }
  }

  /** Fixed-width hexadecimal sorts like the numbers it writes. */
  lemma {:induction false} FixedHexOrder(m: nat, n: nat, w: nat)
    requires m < Pow16(w) && n < Pow16(w)
    ensures Less(FixedHex(m, w), FixedHex(n, w)) <==> m < n
    ensures FixedHex(m, w) == FixedHex(n, w) <==> m == n
  {
    if w > 0 {
      FixedHexOrder(m / 16, n / 16, w - 1);
      var x, y := FixedHex(m / 16, w - 1), FixedHex(n / 16, w - 1);
      LessBlocks(x, y, [HexDigit(m % 16)], [HexDigit(n % 16)]);
      DigitOrder(m % 16, n % 16);
      LastDigit(x, HexDigit(m % 16));
      LastDigit(y, HexDigit(n % 16));
      assert m == 16 * (m / 16) + m % 16 && n == 16 * (n / 16) + n % 16;
    }
  }

  lemma LastDigit(x: string, c: char)
    ensures (x + [c])[|x|] == c && (x + [c])[..|x|] == x
  {
  }

  lemma DigitOrder(a: nat, b: nat)
    requires a < 16 && b < 16
    ensures Less([HexDigit(a)], [HexDigit(b)]) <==> a < b
    ensures HexDigit(a) == HexDigit(b) <==> a == b
  {
    assert forall d :: 0 <= d < 10 ==> HexDigit(d) == '0' + d as char;
    assert forall d :: 10 <= d < 16 ==> HexDigit(d) == 'a' + (d - 10) as char;
    assert Less([HexDigit(a)], [HexDigit(b)]) <==> HexDigit(a) < HexDigit(b);
  }

  /** `Number.parseInt(s, 16)` on a string of hexadecimal digits. */
  function HexValue(c: char): (d: nat)
    ensures d < 16
  {
    if '0' <= c <= '9' then (c - '0') as nat else if 'a' <= c <= 'f' then 10 + (c - 'a') as nat else 0
  }

  function ParseHex(s: string): nat {
    if s == [] then 0 else 16 * ParseHex(s[..|s| - 1]) + HexValue(s[|s| - 1])
  }

  lemma ParseHexSnoc(s: string, c: char)
    ensures ParseHex(s + [c]) == 16 * ParseHex(s) + HexValue(c)
  {
    LastDigit(s, c);
  }

  lemma DigitValue(d: nat)
    requires d < 16
    ensures HexValue(HexDigit(d)) == d
  {
    assert forall d :: 0 <= d < 10 ==> HexDigit(d) == '0' + d as char;
    assert forall d :: 10 <= d < 16 ==> HexDigit(d) == 'a' + (d - 10) as char;
  }

  lemma {:induction false} ParseFixedHex(n: nat, w: nat)
    requires n < Pow16(w)
    ensures ParseHex(FixedHex(n, w)) == n
  {
    hide ParseHex, HexDigit, HexValue;
    if w == 0 {
      ParseNothing();
    } else {
      ParseFixedHex(n / 16, w - 1);
      ParseHexSnoc(FixedHex(n / 16, w - 1), HexDigit(n % 16));
      DigitValue(n % 16);
    }
  }

  lemma ParseNothing()
    ensures ParseHex("") == 0
  {
  }
}
