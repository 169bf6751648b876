/** The token bucket of src/util/rate-limit.ts, over real-valued tokens and a millisecond clock. */
module RateLimit {

  datatype Limit = Limit(capacity: real, refillRate: real)

  datatype Bucket = Bucket(tokens: real, lastRefill: int)

  function Min(a: real, b: real): real {
    if a <= b then a else b
  }

  /** Tokens earned in a span of milliseconds. */
  function Earned(l: Limit, ms: int): real {
    l.refillRate * (ms as real / 1000.0)
  }

  function Refilled(l: Limit, b: Bucket, now: int): Bucket {
    Bucket(Min(l.capacity, b.tokens + Earned(l, now - b.lastRefill)), now)
  }

  predicate Allows(l: Limit, b: Bucket, now: int) {
    Refilled(l, b, now).tokens >= 1.0
  }

  function Consumed(l: Limit, b: Bucket, now: int): Bucket {
    var r := Refilled(l, b, now);
    if r.tokens >= 1.0 then Bucket(r.tokens - 1.0, now) else r
  }

  function Refunded(l: Limit, b: Bucket, now: int): Bucket {
    Bucket(Min(l.capacity, Refilled(l, b, now).tokens + 1.0), now)
  }

  /** A use of the bucket at a moment. */
  datatype Use = Use(now: int, refund: bool)

  function After(l: Limit, b: Bucket, uses: seq<Use>): Bucket {
    if uses == [] then b
    else
      var p, u := After(l, b, uses[..|uses| - 1]), uses[|uses| - 1];
      if u.refund then Refunded(l, p, u.now) else Consumed(l, p, u.now)
  }

  /** Successful consumes minus refunds. */
  function Net(l: Limit, b: Bucket, uses: seq<Use>): int {
    if uses == [] then 0
    else
      var p, u := After(l, b, uses[..|uses| - 1]), uses[|uses| - 1];
      Net(l, b, uses[..|uses| - 1]) + (if u.refund then -1 else if Allows(l, p, u.now) then 1 else 0)
  }

  ghost predicate Sane(l: Limit, b: Bucket) {
    0.0 <= b.tokens <= l.capacity && l.refillRate >= 0.0
  }

  ghost predicate Forward(from: int, uses: seq<Use>) {
    && (forall i :: 0 <= i < |uses| ==> from <= uses[i].now)
    && (forall i, j :: 0 <= i < j < |uses| ==> uses[i].now <= uses[j].now)
  }

  lemma EarnedAdds(l: Limit, a: int, b: int)
    ensures Earned(l, a) + Earned(l, b) == Earned(l, a + b)
    ensures l.refillRate >= 0.0 && a >= 0 ==> Earned(l, a) >= 0.0
  {
    var x, y := a as real / 1000.0, b as real / 1000.0;
    assert (a + b) as real / 1000.0 == x + y;
    assert l.refillRate * (x + y) == l.refillRate * x + l.refillRate * y;
    if l.refillRate >= 0.0 && a >= 0 {
      assert x >= 0.0;
      assert l.refillRate * x >= 0.0;
    }
  }

  /** Under a clock that does not go back, the tokens stay between zero and the capacity. */
  lemma {:induction false} TokensBounded(l: Limit, b: Bucket, uses: seq<Use>)
    requires Sane(l, b) && Forward(b.lastRefill, uses)
    ensures Sane(l, After(l, b, uses))
    ensures After(l, b, uses).lastRefill == if uses == [] then b.lastRefill else uses[|uses| - 1].now
  {
    if uses != [] {
      var init, u := uses[..|uses| - 1], uses[|uses| - 1];
      TokensBounded(l, b, init);
      EarnedAdds(l, u.now - After(l, b, init).lastRefill, 0);
    }
  }

  /** Tokens are only created by time: what is in the bucket plus what was spent never exceeds what was there plus what was earned. */
  lemma {:induction false} Conservation(l: Limit, b: Bucket, uses: seq<Use>)
    requires Sane(l, b) && Forward(b.lastRefill, uses)
    ensures var end := After(l, b, uses);
      end.tokens + Net(l, b, uses) as real <= b.tokens + Earned(l, end.lastRefill - b.lastRefill)
  {
    if uses == [] {
      EarnedAdds(l, 0, 0);
    } else {
      var init, u := uses[..|uses| - 1], uses[|uses| - 1];
      Conservation(l, b, init);
      TokensBounded(l, b, init);
      var p := After(l, b, init);
      EarnedAdds(l, p.lastRefill - b.lastRefill, u.now - p.lastRefill);
    }
  }

  /**
   * Over any window of uses, successful consumes minus refunds are at most the capacity plus what the time from
   * the first use to the last earns, whatever state the bucket was in.
   */
  lemma WindowBound(l: Limit, b: Bucket, uses: seq<Use>)
    requires Sane(l, b) && uses != [] && Forward(b.lastRefill, uses)
    ensures Net(l, b, uses) as real <= l.capacity + Earned(l, uses[|uses| - 1].now - uses[0].now)
  {
    hide After, Net, Refilled, Earned, Forward, Sane;
    var t := uses[0].now;
    var r := Refilled(l, b, t);
    RefilledSane(l, b, uses);
    RefillFirst(l, b, uses);
    Conservation(l, r, uses);
    TokensBounded(l, r, uses);
    SaneBounds(l, After(l, r, uses));
  }

  lemma SaneBounds(l: Limit, b: Bucket)
    requires Sane(l, b)
    ensures 0.0 <= b.tokens <= l.capacity
  {
  }

  /** Refilled at the first use, a bucket is still sane, and the uses still go forward from there. */
  lemma RefilledSane(l: Limit, b: Bucket, uses: seq<Use>)
    requires Sane(l, b) && uses != [] && Forward(b.lastRefill, uses)
    ensures var r := Refilled(l, b, uses[0].now);
      && Sane(l, r) && r.lastRefill == uses[0].now && Forward(r.lastRefill, uses)
      && 0.0 <= r.tokens <= l.capacity
  {
    hide Earned;
    EarnedAdds(l, uses[0].now - b.lastRefill, 0);
  }

  lemma RefillTwice(l: Limit, b: Bucket, now: int)
    requires Sane(l, b) && b.lastRefill <= now
    ensures Refilled(l, Refilled(l, b, now), now) == Refilled(l, b, now)
  {
    EarnedAdds(l, 0, 0);
    assert Earned(l, 0) == 0.0;
  }

  /** Refilling at the time of the first use changes nothing the uses observe. */
  lemma {:induction false} RefillFirst(l: Limit, b: Bucket, uses: seq<Use>)
    requires Sane(l, b) && uses != [] && Forward(b.lastRefill, uses)
    ensures After(l, Refilled(l, b, uses[0].now), uses) == After(l, b, uses)
    ensures Net(l, Refilled(l, b, uses[0].now), uses) == Net(l, b, uses)
  {
    var init := uses[..|uses| - 1];
    if init == [] {
      RefillTwice(l, b, uses[0].now);
    } else {
      RefillFirst(l, b, init);
    }
  }

  // ─── Exactly when a token is refused ────────────────────────────

  /** What would be left at `t` of the tokens there were at first and all that were earned, had none been lost. */
  function Left(l: Limit, b: Bucket, uses: seq<Use>, t: int): real {
    b.tokens + l.refillRate * ((t - b.lastRefill) as real / 1000.0) - Net(l, b, uses) as real
  }

  /**
   * The same counted from the i-th use on, with a full bucket just before it if it consumes and just after it if it
   * refunds.
   */
  function LeftSince(l: Limit, b: Bucket, uses: seq<Use>, i: nat, t: int): real
    requires i < |uses|
  {
    var before := if uses[i].refund then uses[..i + 1] else uses[..i];
    l.capacity + l.refillRate * ((t - uses[i].now) as real / 1000.0) - (Net(l, b, uses) - Net(l, b, before)) as real
  }

  /** A further use spends `spent`, and time goes on from `s` to `t`. */
  lemma LeftLater(l: Limit, b: Bucket, uses: seq<Use>, s: int, t: int)
    requires uses != []
    ensures var init := uses[..|uses| - 1];
      var later := Earned(l, t - s) - (Net(l, b, uses) - Net(l, b, init)) as real;
      && Left(l, b, uses, t) == Left(l, b, init, s) + later
      && (forall i :: 0 <= i < |init| ==> LeftSince(l, b, uses, i, t) == LeftSince(l, b, init, i, s) + later)
  {
    hide Net;
    var init := uses[..|uses| - 1];
    EarnedAdds(l, s - b.lastRefill, t - s);
    forall i | 0 <= i < |init|
      ensures LeftSince(l, b, uses, i, t) == LeftSince(l, b, init, i, s) + Earned(l, t - s) - (Net(l, b, uses) - Net(l, b, init)) as real
    {
      EarnedAdds(l, s - uses[i].now, t - s);
      assert uses[..i] == init[..i] && uses[..i + 1] == init[..i + 1];
    }
  }

  /** What the last use spends and leaves. */
  lemma LastUse(l: Limit, b: Bucket, uses: seq<Use>, t: int)
    requires uses != []
    ensures
      var init, u := uses[..|uses| - 1], uses[|uses| - 1];
      var y, spent := Refilled(l, After(l, b, init), u.now).tokens, Net(l, b, uses) - Net(l, b, init);
      && (spent == if u.refund then -1 else if y >= 1.0 then 1 else 0)
      && Refilled(l, After(l, b, uses), t).tokens ==
           Min(l.capacity, Earned(l, t - u.now) + (if u.refund then Min(l.capacity, y + 1.0) else y - spent as real))
      && LeftSince(l, b, uses, |uses| - 1, t) == l.capacity + Earned(l, t - u.now) - (if u.refund then 0.0 else spent as real)
  {
    UseSpends(l, b, uses);
    UseLeaves(l, b, uses, t);
    UseCounts(l, b, uses, t);
    hide After, Net, Refilled, Earned, LeftSince, Min;
  }

  lemma UseSpends(l: Limit, b: Bucket, uses: seq<Use>)
    requires uses != []
    ensures var init, u := uses[..|uses| - 1], uses[|uses| - 1];
      Net(l, b, uses) - Net(l, b, init) ==
        if u.refund then -1 else if Refilled(l, After(l, b, init), u.now).tokens >= 1.0 then 1 else 0
  {
    hide Refilled;
  }

  lemma UseLeaves(l: Limit, b: Bucket, uses: seq<Use>, t: int)
    requires uses != []
    ensures
      var init, u := uses[..|uses| - 1], uses[|uses| - 1];
      var y := Refilled(l, After(l, b, init), u.now).tokens;
      Refilled(l, After(l, b, uses), t).tokens ==
        Min(l.capacity, Earned(l, t - u.now) +
          (if u.refund then Min(l.capacity, y + 1.0) else if y >= 1.0 then y - 1.0 else y))
  {
    hide Earned, Net;
  }

  lemma UseCounts(l: Limit, b: Bucket, uses: seq<Use>, t: int)
    requires uses != []
    ensures var u, spent := uses[|uses| - 1], Net(l, b, uses) - Net(l, b, uses[..|uses| - 1]);
      LeftSince(l, b, uses, |uses| - 1, t) == l.capacity + Earned(l, t - u.now) - (if u.refund then 0.0 else spent as real)
  {
    hide Net;
    assert uses[..|uses|] == uses;
  }

  /** The bucket holds at `t` the least of its capacity and of what is left counted from the start and from each use. */
  lemma {:induction false} TokensExact(l: Limit, b: Bucket, uses: seq<Use>, t: int)
    ensures var x := Refilled(l, After(l, b, uses), t).tokens;
      && x <= l.capacity && x <= Left(l, b, uses, t)
      && (forall i :: 0 <= i < |uses| ==> x <= LeftSince(l, b, uses, i, t))
      && (x == l.capacity || x == Left(l, b, uses, t) || exists i :: 0 <= i < |uses| && x == LeftSince(l, b, uses, i, t))
  {
    if uses != [] {
      var init, u := uses[..|uses| - 1], uses[|uses| - 1];
      TokensExact(l, b, init, u.now);
      LeftLater(l, b, uses, u.now, t);
      LastUse(l, b, uses, t);
      hide After, Net, Refilled, Earned, Left, LeftSince;
      var y := Refilled(l, After(l, b, init), u.now).tokens;
      if i :| 0 <= i < |init| && y == LeftSince(l, b, init, i, u.now) {
        assert LeftSince(l, b, uses, i, t) == y + Earned(l, t - u.now) - (Net(l, b, uses) - Net(l, b, init)) as real;
      }
    }
  }

  /**
   * A token is refused exactly when everything was spent: less than one is left of what there was and was earned, counted
   * from the start or from some earlier use with a full bucket. So time earns tokens, and refunds give them back.
   */
  lemma AllowsIff(l: Limit, b: Bucket, uses: seq<Use>, t: int)
    ensures Allows(l, After(l, b, uses), t) <==>
      && l.capacity >= 1.0
      && b.tokens + l.refillRate * ((t - b.lastRefill) as real / 1000.0) - Net(l, b, uses) as real >= 1.0
      && forall i :: 0 <= i < |uses| ==> LeftSince(l, b, uses, i, t) >= 1.0
  {
    AllowsWhileLeft(l, b, uses, t);
    hide After, Net, Earned, LeftSince, Allows, Refilled;
  }

  lemma AllowsWhileLeft(l: Limit, b: Bucket, uses: seq<Use>, t: int)
    ensures Allows(l, After(l, b, uses), t) <==>
      l.capacity >= 1.0 && Left(l, b, uses, t) >= 1.0 && forall i :: 0 <= i < |uses| ==> LeftSince(l, b, uses, i, t) >= 1.0
  {
    TokensExact(l, b, uses, t);
    hide After, Net, Earned, LeftSince, Left, Refilled;
  }

  /** Consuming a token and giving it back at the same moment leaves what there would have been without. */
  lemma RefundUndoes(l: Limit, b: Bucket, now: int)
    requires Allows(l, b, now)
    ensures var earned := b.tokens + l.refillRate * ((now - b.lastRefill) as real / 1000.0);
      Refunded(l, Consumed(l, b, now), now) == Bucket(if earned <= l.capacity then earned else l.capacity, now)
  {
    EarnedAdds(l, 0, 0);
    assert Earned(l, 0) == 0.0;
  }

  class TokenBucket {
    const limit: Limit
    var tokens: real
    var lastRefill: int

    constructor (capacity: real, refillRate: real, now: int)
      ensures limit == Limit(capacity, refillRate) && State() == Bucket(capacity, now)
    {
      limit := Limit(capacity, refillRate);
      tokens := capacity;
      lastRefill := now;
    }

    function State(): Bucket
      reads this
    {
      Bucket(tokens, lastRefill)
    }

    method Refill(now: int)
      modifies this
      ensures State() == Refilled(limit, old(State()), now)
    {
      var elapsed := (now - lastRefill) as real / 1000.0;
      tokens := Min(limit.capacity, tokens + limit.refillRate * elapsed);
      lastRefill := now;
    }

    method Consume(now: int) returns (allowed: bool)
      modifies this
      ensures allowed == Allows(limit, old(State()), now) && State() == Consumed(limit, old(State()), now)
    {
      Refill(now);
      if tokens >= 1.0 {
        tokens := tokens - 1.0;
        return true;
      }
      return false;
    }

    method Refund(now: int)
      modifies this
      ensures State() == Refunded(limit, old(State()), now)
    {
      Refill(now);
      tokens := Min(limit.capacity, tokens + 1.0);
    }
  }
}
