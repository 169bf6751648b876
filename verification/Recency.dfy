/** Insertion-ordered sets used as recency lists: which keys a bounded one still holds. */
module Recency {
  import opened Sets

  /** The list with its occurrence of `x` removed. */
  function Without<T(==)>(s: seq<T>, x: T): seq<T> {
    if s == [] then []
    else if s[|s| - 1] == x then s[..|s| - 1]
    else Without(s[..|s| - 1], x) + [s[|s| - 1]]
  }

  lemma DistinctSnoc<T>(s: seq<T>, x: T)
    requires Distinct(s) && x !in s
    ensures Distinct(s + [x])
  {
    assert forall i :: 0 <= i < |s| ==> (s + [x])[i] == s[i] && s[i] in s;
  }

  lemma {:induction false} WithoutDistinct<T>(s: seq<T>, x: T)
    requires Distinct(s)
    ensures Distinct(Without(s, x)) && (forall y :: y in Without(s, x) <==> y in s && y != x)
  {
    if s != [] {
      var init, last := s[..|s| - 1], s[|s| - 1];
      assert s == init + [last];
      WithoutDistinct(init, x);
      assert last !in init;
      if last != x {
        DistinctSnoc(Without(init, x), last);
      }
    }
  }

  lemma {:induction false} WithoutSplit<T>(a: seq<T>, b: seq<T>, x: T)
    requires x !in b
    ensures Without(a + b, x) == Without(a, x) + b
  {
    if b == [] {
      assert a + b == a;
    } else {
      var init, last := b[..|b| - 1], b[|b| - 1];
      assert a + b == (a + init) + [last] && b == init + [last];
      assert (a + b)[..|a + b| - 1] == a + init;
      WithoutSplit(a, init, x);
    }
  }

  lemma {:induction false} WithoutAbsent<T>(s: seq<T>, x: T)
    requires x !in s
    ensures Without(s, x) == s
  {
    if s != [] {
      var init, last := s[..|s| - 1], s[|s| - 1];
      assert s == init + [last];
      WithoutAbsent(init, x);
    }
  }

  /** Move or append a key to the most recent end. */
  function Touch<T(==)>(s: seq<T>, x: T): seq<T> {
    Without(s, x) + [x]
  }

  /** All keys of a history, ordered by last presentation. */
  function ByRecency<T(==)>(history: seq<T>): seq<T> {
    if history == [] then [] else Touch(ByRecency(history[..|history| - 1]), history[|history| - 1])
  }

  lemma {:induction false} ByRecencyDistinct<T>(history: seq<T>)
    ensures Distinct(ByRecency(history)) && (forall x :: x in ByRecency(history) <==> x in history)
  {
    if history != [] {
      var init, last := history[..|history| - 1], history[|history| - 1];
      assert history == init + [last];
      ByRecencyDistinct(init);
      WithoutDistinct(ByRecency(init), last);
      DistinctSnoc(Without(ByRecency(init), last), last);
    }
  }

  /** The `n` most recent entries of a list. */
  function Latest<T>(s: seq<T>, n: nat): seq<T> {
    if |s| <= n then s else s[|s| - n..]
  }

  /** What presenting a key does to a bounded list: refresh it, or add it and evict the oldest on overflow. */
  function Present<T(==)>(kept: seq<T>, x: T, max: nat): seq<T> {
    if x in kept then Touch(kept, x)
    else if |kept| + 1 > max then (kept + [x])[1..]
    else kept + [x]
  }

  function Kept<T(==)>(history: seq<T>, max: nat): seq<T> {
    if history == [] then [] else Present(Kept(history[..|history| - 1], max), history[|history| - 1], max)
  }

  /** The bounded list is always the `max` most recent keys of the full history. */
  lemma {:induction false} KeptIsLatest<T>(history: seq<T>, max: nat)
    requires max > 0
    ensures Kept(history, max) == Latest(ByRecency(history), max)
  {
    if history != [] {
      var init, x := history[..|history| - 1], history[|history| - 1];
      KeptIsLatest(init, max);
      ByRecencyDistinct(init);
      PresentLatest(ByRecency(init), x, max);
    }
  }

  lemma NotBefore<T>(before: seq<T>, after: seq<T>, x: T)
    requires Distinct(before + after) && x in after
    ensures x !in before
  {
    var i :| 0 <= i < |after| && after[i] == x;
    var all := before + after;
    assert all[|before| + i] == x;
    assert forall j :: 0 <= j < |before| ==> all[j] == before[j];
  }

  lemma PresentLatest<T>(order: seq<T>, x: T, max: nat)
    requires max > 0 && Distinct(order)
    ensures Present(Latest(order, max), x, max) == Latest(Touch(order, x), max)
  {
    hide Touch, Present, Without;
    var kept := Latest(order, max);
    var head := order[..|order| - |kept|];
    assert order == head + kept;
    if x in kept {
      NotBefore(head, kept, x);
      PresentHeld(head, kept, x, max);
    } else {
      PresentNew(head, kept, x, max);
    }
  }

  lemma PresentHeld<T>(head: seq<T>, kept: seq<T>, x: T, max: nat)
    requires |kept| == max || (head == [] && |kept| <= max)
    requires x in kept && x !in head
    ensures Present(kept, x, max) == Latest(Touch(head + kept, x), max)
  {
    hide Without;
    WithoutFirst(head, kept, x);
    WithoutLength(kept, x);
    assert Touch(head + kept, x) == head + Touch(kept, x);
    LatestTail(head, Touch(kept, x), max);
  }

  lemma PresentNew<T>(head: seq<T>, kept: seq<T>, x: T, max: nat)
    requires max > 0 && (|kept| == max || (head == [] && |kept| < max))
    requires x !in kept
    ensures Present(kept, x, max) == Latest(Touch(head + kept, x), max)
  {
    hide Without;
    WithoutSplit(head, kept, x);
    var rest := Without(head, x);
    assert Touch(head + kept, x) == rest + (kept + [x]);
    if |kept| == max {
      var tail := (kept + [x])[1..];
      assert rest + (kept + [x]) == rest + [kept[0]] + tail;
      LatestTail(rest + [kept[0]], tail, max);
    } else {
      WithoutAbsent(head, x);
      LatestTail([], kept + [x], max);
      assert rest + (kept + [x]) == [] + (kept + [x]);
    }
  }

  lemma LatestTail<T>(head: seq<T>, tail: seq<T>, max: nat)
    requires |tail| == max || (head == [] && |tail| <= max)
    ensures Latest(head + tail, max) == tail
  {
    if head == [] {
      assert head + tail == tail;
    }
  }

  lemma {:induction false} WithoutFirst<T>(head: seq<T>, kept: seq<T>, x: T)
    requires x !in head && x in kept
    ensures Without(head + kept, x) == head + Without(kept, x)
  {
    var init, last := kept[..|kept| - 1], kept[|kept| - 1];
    assert kept == init + [last] && (head + kept)[..|head + kept| - 1] == head + init;
    if last != x {
      WithoutFirst(head, init, x);
    }
  }

  lemma {:induction false} WithoutLength<T>(s: seq<T>, x: T)
    ensures |Without(s, x)| == if x in s then |s| - 1 else |s|
  {
    if s != [] {
      var init, last := s[..|s| - 1], s[|s| - 1];
      assert s == init + [last];
      WithoutLength(init, x);
    }
  }

  // ─── The window, read off the history ───────────────────────────

  /** The distinct keys presented after the last presentation of `x`. */
  function Since<T(==)>(history: seq<T>, x: T): set<T> {
    if history == [] || history[|history| - 1] == x then {}
    else Since(history[..|history| - 1], x) + {history[|history| - 1]}
  }

  /** In recency order, exactly the keys presented since come after a key. */
  lemma {:induction false} RecencyPosition<T>(history: seq<T>, x: T) returns (before: seq<T>, after: seq<T>)
    requires x in history
    ensures ByRecency(history) == before + [x] + after
    ensures Elements(after) == Since(history, x) && Distinct(after) && x !in after
  {
    hide ByRecency, Touch, Without, Since, Distinct, Elements;
    var init, last := history[..|history| - 1], history[|history| - 1];
    assert history == init + [last];
    HistorySnoc(history, x);
    if last == x {
      before, after := Without(ByRecency(init), x), [];
      NothingSince<T>();
      TouchIs(ByRecency(init), x);
      assert before + [x] + after == before + [x];
    } else {
      var b, a := RecencyPosition(init, x);
      ByRecencyDistinct(init);
      before, after := TouchAround(b, x, a, last);
      MovedLast(a, last, x);
    }
  }

  lemma HistorySnoc<T>(history: seq<T>, x: T)
    requires history != []
    ensures var init, last := history[..|history| - 1], history[|history| - 1];
      && ByRecency(history) == Touch(ByRecency(init), last)
      && Since(history, x) == if last == x then {} else Since(init, x) + {last}
  {
    hide Touch;
  }

  lemma TouchIs<T>(s: seq<T>, x: T)
    ensures Touch(s, x) == Without(s, x) + [x]
  {
    hide Without;
  }

  lemma NothingSince<T>()
    ensures Elements<T>([]) == {} && Distinct<T>([])
  {
  }

  /** Moving a key to the end of a list of distinct others keeps it one, with that key. */
  lemma MovedLast<T>(a: seq<T>, last: T, x: T)
    requires Distinct(a) && x !in a && x != last
    ensures var after := Without(a, last) + [last];
      Elements(after) == Elements(a) + {last} && Distinct(after) && x !in after
  {
    hide Without;
    WithoutDistinct(a, last);
    DistinctSnoc(Without(a, last), last);
    forall y ensures y in Elements(Without(a, last) + [last]) <==> y in Elements(a) + {last} {
      assert y in Without(a, last) + [last] <==> y in Without(a, last) || y == last;
    }
    assert Elements(Without(a, last) + [last]) == Elements(a) + {last};
  }

  /** Touching another key keeps `x` where it is and moves the touched key behind it. */
  lemma TouchAround<T>(b: seq<T>, x: T, a: seq<T>, y: T) returns (before: seq<T>, after: seq<T>)
    requires Distinct(b + [x] + a) && x != y
    ensures Touch(b + [x] + a, y) == before + [x] + after && after == Without(a, y) + [y]
  {
    after := Without(a, y) + [y];
    if y in a {
      NotBefore(b + [x], a, y);
      WithoutFirst(b + [x], a, y);
      before := b;
      assert Touch(b + [x] + a, y) == (b + [x] + Without(a, y)) + [y];
    } else {
      WithoutSplit(b + [x], a, y);
      WithoutSplit(b, [x], y);
      WithoutAbsent(a, y);
      before := Without(b, y);
      assert Touch(b + [x] + a, y) == (Without(b, y) + [x] + a) + [y];
    }
  }

  /** A key is still held exactly when fewer than `max` other keys were presented since its last presentation. */
  lemma KeptIffRecent<T>(history: seq<T>, x: T, max: nat)
    requires max > 0
    ensures x in Kept(history, max) <==> x in history && |Since(history, x)| < max
  {
    KeptIsLatest(history, max);
    ByRecencyDistinct(history);
    var order := ByRecency(history);
    if x in history {
      var before, after := RecencyPosition(history, x);
      DistinctSize(after);
      var i := |before|;
      assert order[i] == x && |order| == i + 1 + |after|;
      if |after| < max {
        assert |order| <= max || Latest(order, max)[i - (|order| - max)] == x;
      } else {
        assert forall j :: |order| - max <= j < |order| ==> order[j] != x;
      }
    }
  }
}
