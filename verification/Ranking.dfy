/** Newest-first lists: the top of a set of events, and when a partial collection already contains it. */
module Ranking {
  import opened NostrEvents
  import opened Sets

  ghost predicate NewestFirst(es: seq<Event>) {
    forall i, j :: 0 <= i < j < |es| ==> Newer(es[i], es[j])
  }

  ghost function NewerThan(events: set<Event>, e: Event): set<Event> {
    set x | x in events && Newer(x, e)
  }

  /** The `limit` newest events of a set: those with fewer than `limit` newer ones. */
  ghost function Top(events: set<Event>, limit: nat): set<Event> {
    set e | e in events && |NewerThan(events, e)| < limit
  }

  /** In a newest-first list, the events newer than the one at index i are exactly the i before it. */
  lemma RankIsIndex(es: seq<Event>, i: nat)
    requires NewestFirst(es) && i < |es|
    ensures NewerThan(Elements(es), es[i]) == Elements(es[..i]) && |Elements(es[..i])| == i
  {
    forall x ensures x in NewerThan(Elements(es), es[i]) <==> x in Elements(es[..i]) {
      if x in Elements(es) && Newer(x, es[i]) {
        var j :| 0 <= j < |es| && es[j] == x;
        NewerIsStrictOrder(x, es[i], x);
        assert j < i;
        assert es[..i][j] == x;
      }
    }
    NewestFirstSize(es[..i]);
  }

  lemma {:induction false} NewestFirstSize(es: seq<Event>)
    requires NewestFirst(es)
    ensures |Elements(es)| == |es|
  {
    if es != [] {
      var init, last := es[..|es| - 1], es[|es| - 1];
      NewestFirstSize(init);
      forall i | 0 <= i < |init| ensures init[i] != last {
        NewerIsStrictOrder(es[i], last, last);
      }
      assert es == init + [last];
      assert Elements(es) == Elements(init) + {last};
    }
  }

  /** There is only one newest-first list of a set. */
  lemma {:induction false} NewestFirstUnique(a: seq<Event>, b: seq<Event>)
    requires NewestFirst(a) && NewestFirst(b) && Elements(a) == Elements(b)
    ensures a == b
  {
    NewestFirstSize(a);
    NewestFirstSize(b);
    forall i | 0 <= i < |a| ensures a[i] == b[i] {
      assert a[i] in Elements(b);
      var j :| 0 <= j < |b| && b[j] == a[i];
      RankIsIndex(a, i);
      RankIsIndex(b, j);
    }
  }

  /** Nothing is cut from a set within the limit. */
  lemma TopOfFew(events: set<Event>, limit: nat)
    requires |events| <= limit
    ensures Top(events, limit) == events
  {
    forall e | e in events ensures |NewerThan(events, e)| < limit {
      NewerIsStrictOrder(e, e, e);
      SmallerSubset(NewerThan(events, e), events - {e});
    }
  }

  // ─── Partial collections ────────────────────────────────────────

  /** An event need not be looked for: it was collected, or `limit` newer ones were. */
  ghost predicate Covered(collected: set<Event>, e: Event, limit: nat) {
    e in collected || |NewerThan(collected, e)| >= limit
  }

  lemma CoveredGrows(collected: set<Event>, more: set<Event>, e: Event, limit: nat)
    requires Covered(collected, e, limit) && collected <= more
    ensures Covered(more, e, limit)
  {
    SmallerSubset(NewerThan(collected, e), NewerThan(more, e));
  }

  /** A collection that covers a set has the same top as the set. */
  lemma CoveredTop(all: set<Event>, collected: set<Event>, limit: nat)
    requires collected <= all && forall e :: e in all ==> Covered(collected, e, limit)
    ensures Top(collected, limit) == Top(all, limit)
  {
    forall e | e in all ensures e in Top(all, limit) <==> e in Top(collected, limit) {
      SmallerSubset(NewerThan(collected, e), NewerThan(all, e));
      if e in Top(collected, limit) {
        forall x | x in NewerThan(all, e) ensures x in collected {
          if x !in collected {
            assert NewerThan(collected, x) <= NewerThan(collected, e) by {
              forall y | y in NewerThan(collected, x) ensures Newer(y, e) {
                NewerIsStrictOrder(y, x, e);
              }
            }
            SmallerSubset(NewerThan(collected, x), NewerThan(collected, e));
          }
        }
        assert NewerThan(all, e) == NewerThan(collected, e);
      }
    }
  }

  // ─── Sorting ────────────────────────────────────────────────────

  /** Insert an event at its place in a newest-first list. */
  function InsertEvent(es: seq<Event>, e: Event): seq<Event> {
    if es == [] then [e]
    else if Newer(e, es[0]) then [e] + es
    else [es[0]] + InsertEvent(es[1..], e)
  }

  lemma {:induction false} InsertElements(es: seq<Event>, e: Event)
    ensures Elements(InsertEvent(es, e)) == Elements(es) + {e}
  {
    if es != [] {
      InsertElements(es[1..], e);
      assert es == [es[0]] + es[1..];
      assert forall x :: x in InsertEvent(es[1..], e) <==> x in Elements(InsertEvent(es[1..], e));
    }
  }

  lemma {:induction false} InsertSorted(es: seq<Event>, e: Event)
    requires NewestFirst(es) && forall x :: x in es ==> x.id != e.id
    ensures NewestFirst(InsertEvent(es, e))
  {
    if es != [] {
      if Newer(e, es[0]) {
        forall i | 0 <= i < |es| ensures Newer(e, es[i]) {
          NewerIsStrictOrder(e, es[0], es[i]);
        }
      } else {
        var rest := InsertEvent(es[1..], e);
        InsertSorted(es[1..], e);
        InsertElements(es[1..], e);
        NewerIsStrictOrder(es[0], e, e);
        forall i | 0 <= i < |rest| ensures Newer(es[0], rest[i]) {
          assert rest[i] in Elements(rest);
          assert rest[i] == e || rest[i] in es[1..];
        }
      }
    }
  }

  /** `events.sort(compareNewestFirst)` on events of distinct ids. */
  method SortNewestFirst(es: seq<Event>) returns (sorted: seq<Event>)
    requires DistinctIds(es)
    ensures NewestFirst(sorted) && Elements(sorted) == Elements(es)
  {
    sorted := [];
    var i := 0;
    while i < |es|
      invariant 0 <= i <= |es|
      invariant NewestFirst(sorted) && Elements(sorted) == Elements(es[..i])
    {
      assert es[..i + 1] == es[..i] + [es[i]];
      forall x | x in sorted ensures x.id != es[i].id {
        assert x in Elements(es[..i]);
      }
      InsertSorted(sorted, es[i]);
      InsertElements(sorted, es[i]);
      sorted := InsertEvent(sorted, es[i]);
      i := i + 1;
    }
    assert es[..i] == es;
  }

  /** Cutting a newest-first list leaves the top of its elements. */
  lemma CutIsTop(sorted: seq<Event>, limit: nat)
    requires NewestFirst(sorted)
    ensures var cut := if |sorted| > limit then sorted[..limit] else sorted;
      NewestFirst(cut) && Elements(cut) == Top(Elements(sorted), limit)
  {
    var cut := if |sorted| > limit then sorted[..limit] else sorted;
    forall e ensures e in Elements(cut) <==> e in Top(Elements(sorted), limit) {
      if e in Elements(sorted) {
        var i :| 0 <= i < |sorted| && sorted[i] == e;
        RankIsIndex(sorted, i);
        if i < |cut| {
          assert cut[i] == e;
        } else if e in cut {
          var j :| 0 <= j < |cut| && cut[j] == e;
          RankIsIndex(sorted, j);
        }
      }
    }
  }

  /** A finite set of events of distinct ids has a newest-first list. */
  lemma {:induction false} Arranged(all: set<Event>) returns (es: seq<Event>)
    requires forall x, y :: x in all && y in all && x.id == y.id ==> x == y
    ensures NewestFirst(es) && Elements(es) == all
  {
    if all == {} {
      es := [];
    } else {
      var e :| e in all;
      var rest := Arranged(all - {e});
      assert forall x :: x in rest ==> x in Elements(rest);
      InsertSorted(rest, e);
      InsertElements(rest, e);
      es := InsertEvent(rest, e);
    }
  }

  /** Anything between the top of a set and the set has the same top. */
  lemma SandwichTop(all: set<Event>, some: set<Event>, limit: nat)
    requires forall x, y :: x in all && y in all && x.id == y.id ==> x == y
    requires Top(all, limit) <= some <= all
    ensures Top(some, limit) == Top(all, limit)
  {
    var es := Arranged(all);
    CutIsTop(es, limit);
    forall e | e in all ensures Covered(some, e, limit) {
      var i :| 0 <= i < |es| && es[i] == e;
      if i >= limit {
        var cut := es[..limit];
        assert forall x :: x in cut ==> x in Elements(cut);
        forall x | x in Elements(cut) ensures x in NewerThan(some, e) {
          var j :| 0 <= j < limit && es[j] == x;
        }
        NewestFirstSize(cut);
        SmallerSubset(Elements(cut), NewerThan(some, e));
      } else {
        assert e in Elements(if |es| > limit then es[..limit] else es) by {
          assert (if |es| > limit then es[..limit] else es)[i] == e;
        }
      }
    }
    CoveredTop(all, some, limit);
  }
}
