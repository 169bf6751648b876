/** Read streams over an ordered map: Hyperbee's `createReadStream`, taken as iteration in key order. */
module Streams {
  import opened Strings
  import opened Keys

  /** The keys of a map that lie in a range. */
  function KeysIn<V>(m: map<string, V>, r: Range): set<string> {
    set k | k in m && InRange(k, r)
  }

  /** What a range read yields. */
  ghost function Stream<V>(m: map<string, V>, r: Range): (ks: seq<string>)
    ensures Ascending(ks) && forall k :: k in ks <==> k in m && InRange(k, r)
  {
    SortedKeys(KeysIn(m, r))
  }

  /** The first `n` keys, resolved to their ids. */
  ghost function Resolve(m: map<string, string>, ks: seq<string>, n: nat): (ids: seq<string>)
    requires forall k :: k in ks ==> k in m
    ensures |ids| == (if n < |ks| then n else |ks|) && forall i :: 0 <= i < |ids| ==> ids[i] == m[ks[i]]
  {
    if n == 0 || ks == [] then [] else [m[ks[0]]] + Resolve(m, ks[1..], n - 1)
  }

  lemma {:induction false} ResolveSnoc(m: map<string, string>, ks: seq<string>, n: nat)
    requires (forall k :: k in ks ==> k in m) && n < |ks|
    ensures Resolve(m, ks, n + 1) == Resolve(m, ks, n) + [m[ks[n]]]
  {
    if n > 0 {
      ResolveSnoc(m, ks[1..], n - 1);
    }
  }

  /** A count that reaches the limit or the end resolves what the limit resolves. */
  lemma ResolveAll(m: map<string, string>, ks: seq<string>, n: nat, limit: nat)
    requires (forall k :: k in ks ==> k in m) && (n == limit || (n == |ks| && n <= limit))
    ensures Resolve(m, ks, n) == Resolve(m, ks, limit)
  {
  }

  /** The keys a range read yields: exactly those in range, ascending. */
  method ReadStream<V>(m: map<string, V>, r: Range) returns (ks: seq<string>)
    ensures ks == Stream(m, r)
  {
    ks := ReadSet(KeysIn(m, r));
  }

  /** The keys of a set, ascending. */
  method ReadSet(keys: set<string>) returns (ks: seq<string>)
    ensures ks == SortedKeys(keys)
  {
    ks := [];
    var rest := keys;
    while rest != {}
      invariant rest <= keys && Enumerates(ks, keys - rest)
      decreases |rest|
    {
      var k :| k in rest;
      ks := InsertKey(ks, k);
      rest := rest - {k};
    }
    EnumerationUnique(ks, SortedKeys(keys), keys);
  }
}
