/** Boundary-tie pagination of src/primal-shim/verbs/feeds.ts, and a pager that walks a feed with it. */
module Paging {
  import opened NostrEvents
  import opened Keys
  import opened Ranking
  import opened Sets

  const MAX_OFFSET := 500

  datatype FeedRequest = FeedRequest(until: Option<int>, since: Option<int>, offset: nat, limit: nat)

  /** A numeric request offset as `clampOffset` passes it on. */
  function ClampOffset(value: int): nat {
    if value < 0 then 0 else if value > MAX_OFFSET then MAX_OFFSET else value
  }

  function Boundary(req: FeedRequest): Option<int> {
    if req.until.Some? then req.until else req.since
  }

  function Windowed(events: seq<Event>, req: FeedRequest): seq<Event> {
    if events == [] then []
    else
      var last := events[|events| - 1];
      Windowed(events[..|events| - 1], req) + (if InWindow(last.createdAt, req.since, req.until) then [last] else [])
  }

  /** What is left of a sorted feed after skipping the first `offset` events on the boundary second. */
  function SkipTies(sorted: seq<Event>, boundary: Option<int>, offset: nat): seq<Event> {
    if sorted == [] then []
    else if boundary == Some(sorted[0].createdAt) && offset > 0 then SkipTies(sorted[1..], boundary, offset - 1)
    else [sorted[0]] + SkipTies(sorted[1..], boundary, offset)
  }

  /** The unique newest-first arrangement of a list of events with distinct ids. */
  function Sorted(events: seq<Event>): seq<Event> {
    if events == [] then [] else InsertEvent(Sorted(events[..|events| - 1]), events[|events| - 1])
  }

  lemma {:induction false} SortedFacts(events: seq<Event>)
    requires DistinctIds(events)
    ensures NewestFirst(Sorted(events)) && Elements(Sorted(events)) == Elements(events)
  {
    if events != [] {
      var init, last := events[..|events| - 1], events[|events| - 1];
      assert events == init + [last];
      SortedFacts(init);
      forall x | x in Sorted(init) ensures x.id != last.id {
        assert x in Elements(init);
      }
      InsertSorted(Sorted(init), last);
      InsertElements(Sorted(init), last);
    }
  }

  lemma {:induction false} WindowedFacts(events: seq<Event>, req: FeedRequest)
    requires DistinctIds(events)
    ensures DistinctIds(Windowed(events, req))
    ensures forall e :: e in Windowed(events, req) <==> e in events && InWindow(e.createdAt, req.since, req.until)
  {
    if events != [] {
      var init, last := events[..|events| - 1], events[|events| - 1];
      assert events == init + [last];
      WindowedFacts(init, req);
      assert forall e :: e in Windowed(init, req) ==> e in init;
    }
  }

  /** A page: window the feed, sort it, skip the boundary ties already shown, take up to the limit (but never none). */
  function Page(events: seq<Event>, req: FeedRequest): seq<Event> {
    Take(SkipTies(Sorted(Windowed(events, req)), Boundary(req), req.offset), if req.limit == 0 then 1 else req.limit)
  }

  // ─── What a page holds ──────────────────────────────────────────

  /** The events of a list on one second ahead of `e`. */
  ghost function TiesAhead(es: seq<Event>, t: int, e: Event): set<Event> {
    set x | x in es && x.createdAt == t && Newer(x, e)
  }

  lemma TiesAheadMore(h: Event, tail: seq<Event>, t: int, e: Event)
    requires NewestFirst([h] + tail) && e in tail && e.createdAt == t
    ensures |TiesAhead([h] + tail, t, e)| == |TiesAhead(tail, t, e)| + (if h.createdAt == t then 1 else 0)
    ensures h != e
  {
    hide Newer;
    var es := [h] + tail;
    var j :| 0 <= j < |tail| && tail[j] == e;
    assert es[j + 1] == e && Newer(es[0], es[j + 1]);
    NewerIsStrictOrder(h, e, h);
    forall i | 0 <= i < |tail| ensures tail[i] != h {
      assert es[i + 1] == tail[i] && Newer(es[0], es[i + 1]);
      NewerIsStrictOrder(h, h, h);
    }
    if h.createdAt == t {
      assert TiesAhead(es, t, e) == TiesAhead(tail, t, e) + {h};
    } else {
      assert TiesAhead(es, t, e) == TiesAhead(tail, t, e);
    }
  }

  lemma NoTiesAhead(h: Event, tail: seq<Event>, t: int)
    requires NewestFirst([h] + tail)
    ensures TiesAhead([h] + tail, t, h) == {}
  {
    hide Newer;
    var es := [h] + tail;
    forall x | x in es ensures !Newer(x, h) {
      var i :| 0 <= i < |es| && es[i] == x;
      NewerIsStrictOrder(x, h, x);
      NewerIsStrictOrder(h, h, h);
      assert i > 0 ==> Newer(es[0], es[i]);
    }
  }

  /** Skipping leaves, in order, all but the events on the boundary second with fewer than `offset` ahead of them there. */
  lemma {:induction false} SkipLeaves(es: seq<Event>, boundary: Option<int>, offset: nat, e: Event)
    requires NewestFirst(es)
    ensures e in SkipTies(es, boundary, offset) <==>
      e in es && !(boundary == Some(e.createdAt) && |TiesAhead(es, e.createdAt, e)| < offset)
  {
    hide NewestFirst, TiesAhead;
    if es != [] {
      var h, tail := es[0], es[1..];
      assert es == [h] + tail;
      TailNewestFirst(es);
      if e in tail {
        TiesAheadMore(h, tail, e.createdAt, e);
      }
      NoTiesAhead(h, tail, h.createdAt);
      SkipLeaves(tail, boundary, if boundary == Some(h.createdAt) && offset > 0 then offset - 1 else offset, e);
    }
  }

  lemma TailNewestFirst(es: seq<Event>)
    requires NewestFirst(es) && es != []
    ensures NewestFirst(es[1..])
  {
  }

  lemma {:induction false} SkipSorted(es: seq<Event>, boundary: Option<int>, offset: nat)
    requires NewestFirst(es)
    ensures NewestFirst(SkipTies(es, boundary, offset)) && forall e :: e in SkipTies(es, boundary, offset) ==> e in es
  {
    hide Newer;
    if es != [] {
      var h, tail := es[0], es[1..];
      var rest := SkipTies(tail, boundary, if boundary == Some(h.createdAt) && offset > 0 then offset - 1 else offset);
      TailNewestFirst(es);
      SkipSorted(tail, boundary, if boundary == Some(h.createdAt) && offset > 0 then offset - 1 else offset);
      forall i | 0 <= i < |rest| ensures Newer(h, rest[i]) {
        assert rest[i] in tail;
        var j :| 0 <= j < |tail| && tail[j] == rest[i];
        assert es[j + 1] == tail[j];
      }
    }
  }

  /** Within the bounds, and not one of the first `offset` events on the second the request starts from. */
  ghost predicate Wanted(events: seq<Event>, req: FeedRequest, e: Event) {
    && e in events
    && (req.until.Some? ==> e.createdAt <= req.until.value) && (req.since.Some? ==> e.createdAt >= req.since.value)
    && (req.until.Some? && e.createdAt == req.until.value ==> |TiesAhead(events, e.createdAt, e)| >= req.offset)
    && (req.until.None? && req.since.Some? && e.createdAt == req.since.value ==>
          |TiesAhead(events, e.createdAt, e)| >= req.offset)
  }

  /**
   * A page, for bounds on either side: newest first, the newest `limit` (at least one) of the events in the bounds other
   * than the first `offset` ones on the boundary second, which is `until` if given and `since` for a poll without it.
   */
  lemma PageExact(events: seq<Event>, req: FeedRequest)
    requires DistinctIds(events)
    ensures var page := Page(events, req);
      && NewestFirst(page)
      && Elements(page) == Top(set e | e in events && Wanted(events, req, e), if req.limit == 0 then 1 else req.limit)
  {
    hide Newer, Sorted, Windowed, SkipTies, Top, TiesAhead, NewestFirst, Take;
    var windowed := Windowed(events, req);
    var sorted := Sorted(windowed);
    var left := SkipTies(sorted, Boundary(req), req.offset);
    WindowedFacts(events, req);
    SortedFacts(windowed);
    SkipSorted(sorted, Boundary(req), req.offset);
    forall e ensures e in left <==> e in events && Wanted(events, req, e) {
      SkipLeaves(sorted, Boundary(req), req.offset, e);
      SortedHolds(windowed, sorted, e);
      if e in windowed && Boundary(req) == Some(e.createdAt) {
        SameTies(events, req, sorted, e);
      }
    }
    assert Elements(left) == set e | e in events && Wanted(events, req, e);
    CutTop(left, if req.limit == 0 then 1 else req.limit);
  }

  lemma SortedHolds(windowed: seq<Event>, sorted: seq<Event>, e: Event)
    requires Elements(sorted) == Elements(windowed)
    ensures e in sorted <==> e in windowed
  {
    assert e in sorted <==> e in Elements(sorted);
  }

  /** All events on the boundary second of a page that is not empty are in its window. */
  lemma SameTies(events: seq<Event>, req: FeedRequest, sorted: seq<Event>, e: Event)
    requires DistinctIds(events) && Elements(sorted) == Elements(Windowed(events, req)) && e in Windowed(events, req)
    ensures TiesAhead(sorted, e.createdAt, e) == TiesAhead(events, e.createdAt, e)
  {
    hide Windowed, Newer;
    WindowedFacts(events, req);
    forall x: Event | x.createdAt == e.createdAt ensures x in sorted <==> x in events {
      SortedHolds(Windowed(events, req), sorted, x);
    }
  }

  lemma CutTop(es: seq<Event>, n: nat)
    requires NewestFirst(es)
    ensures NewestFirst(Take(es, n)) && Elements(Take(es, n)) == Top(Elements(es), n)
  {
    CutIsTop(es, n);
  }

  method ApplyPage(events: seq<Event>, req: FeedRequest) returns (page: seq<Event>)
    requires DistinctIds(events)
    ensures page == Page(events, req)
  {
    var windowed: seq<Event> := [];
    var i := 0;
    while i < |events|
      invariant 0 <= i <= |events| && windowed == Windowed(events[..i], req)
    {
      assert events[..i + 1][..i] == events[..i];
      if InWindow(events[i].createdAt, req.since, req.until) {
        windowed := windowed + [events[i]];
      }
      i := i + 1;
    }
    assert events[..i] == events;
    WindowedFacts(events, req);
    var sorted := SortNewestFirst(windowed);
    SortedFacts(windowed);
    NewestFirstUnique(sorted, Sorted(windowed));
    page := SkipAndTake(sorted, Boundary(req), req.offset, req.limit);
  }

  /** The page loop: skip boundary ties up to the offset, push the rest until the limit is reached. */
  method SkipAndTake(sorted: seq<Event>, boundary: Option<int>, offset: nat, limit: nat) returns (page: seq<Event>)
    ensures page == Take(SkipTies(sorted, boundary, offset), if limit == 0 then 1 else limit)
  {
    hide Take, SkipTies;
    var skipped := 0;
    page := [];
    ghost var all := SkipTies(sorted, boundary, offset);
    assert sorted[0..] == sorted;
    var i := 0;
    while i < |sorted|
      invariant 0 <= i <= |sorted| && skipped <= offset
      invariant |page| == 0 || |page| < limit
      invariant all == page + SkipTies(sorted[i..], boundary, offset - skipped)
    {
      var event := sorted[i];
      SkipStep(sorted, i, boundary, offset - skipped);
      i := i + 1;
      if boundary.Some? && event.createdAt == boundary.value && skipped < offset {
        skipped := skipped + 1;
        continue;
      }
      ghost var rest := SkipTies(sorted[i..], boundary, offset - skipped);
      assert page + ([event] + rest) == (page + [event]) + rest;
      page := page + [event];
      if |page| >= limit {
        TakeFirst(page, SkipTies(sorted[i..], boundary, offset - skipped), if limit == 0 then 1 else limit);
        return;
      }
    }
    SkipEnd(sorted[i..], boundary, offset - skipped);
    TakeFirst(page, [], if limit == 0 then 1 else limit);
  }

  lemma SkipStep(sorted: seq<Event>, i: nat, boundary: Option<int>, offset: nat)
    requires i < |sorted|
    ensures SkipTies(sorted[i..], boundary, offset) ==
      if boundary == Some(sorted[i].createdAt) && offset > 0 then SkipTies(sorted[i + 1..], boundary, offset - 1)
      else [sorted[i]] + SkipTies(sorted[i + 1..], boundary, offset)
  {
    assert sorted[i..][1..] == sorted[i + 1..];
  }

  lemma SkipEnd(rest: seq<Event>, boundary: Option<int>, offset: nat)
    requires rest == []
    ensures SkipTies(rest, boundary, offset) == []
  {
  }

  lemma TakeFirst(page: seq<Event>, rest: seq<Event>, most: nat)
    requires |page| == most || (rest == [] && |page| <= most)
    ensures Take(page + rest, most) == page
  {
  }

  // ─── Walking a feed ─────────────────────────────────────────────

  /** How many of the shown events sit on the second `t`. */
  function TiesAt(shown: seq<Event>, t: int): (k: nat)
    ensures k <= |shown|
  {
    if shown == [] then 0 else (if shown[|shown| - 1].createdAt == t then 1 else 0) + TiesAt(shown[..|shown| - 1], t)
  }

  /** The request a client makes after having been shown `shown`: until its oldest second, past the ties already there. */
  function NextRequest(shown: seq<Event>, limit: nat, clamp: bool): FeedRequest {
    if shown == [] then FeedRequest(None, None, 0, limit)
    else
      var t := shown[|shown| - 1].createdAt;
      FeedRequest(Some(t), None, if clamp then ClampOffset(TiesAt(shown, t)) else TiesAt(shown, t), limit)
  }

  lemma {:induction false} TiesAreTail(sorted: seq<Event>, n: nat, t: int)
    requires NewestFirst(sorted) && 0 < n <= |sorted| && sorted[n - 1].createdAt == t
    ensures var k := TiesAt(sorted[..n], t);
      && 1 <= k <= n
      && (forall i :: n - k <= i < n ==> sorted[i].createdAt == t)
      && (forall i :: 0 <= i < n - k ==> sorted[i].createdAt > t)
  {
    assert sorted[..n][..n - 1] == sorted[..n - 1];
    if n > 1 {
      assert Newer(sorted[n - 2], sorted[n - 1]);
      if sorted[n - 2].createdAt == t {
        TiesAreTail(sorted, n - 1, t);
      } else {
        NoTies(sorted, n - 1, t);
      }
    }
  }

  lemma {:induction false} NoTies(sorted: seq<Event>, n: nat, t: int)
    requires NewestFirst(sorted) && n <= |sorted| && (n > 0 ==> sorted[n - 1].createdAt > t)
    ensures TiesAt(sorted[..n], t) == 0 && forall i :: 0 <= i < n ==> sorted[i].createdAt > t
  {
    if n > 0 {
      assert sorted[..n][..n - 1] == sorted[..n - 1];
      if n > 1 {
        assert Newer(sorted[n - 2], sorted[n - 1]);
      }
      NoTies(sorted, n - 1, t);
    }
  }

  /** Windowing a feed to `until t` and sorting leaves the suffix of the sorted feed from the first event at or before t. */
  lemma WindowIsSuffix(events: seq<Event>, t: int, m: nat, offset: nat, limit: nat)
    requires DistinctIds(events) && m <= |Sorted(events)|
    requires forall i :: 0 <= i < m ==> Sorted(events)[i].createdAt > t
    requires forall i :: m <= i < |Sorted(events)| ==> Sorted(events)[i].createdAt <= t
    ensures Sorted(Windowed(events, FeedRequest(Some(t), None, offset, limit))) == Sorted(events)[m..]
  {
    hide Windowed, Sorted, Newer, Elements;
    var req, sorted := FeedRequest(Some(t), None, offset, limit), Sorted(events);
    var w := Windowed(events, req);
    WindowedFacts(events, req);
    SortedFacts(events);
    SortedFacts(w);
    ElementsFrom(sorted, t, m);
    SameElements(w, sorted[m..], events, t);
    NewestFirstUnique(Sorted(w), sorted[m..]);
  }

  lemma ElementsFrom(sorted: seq<Event>, t: int, m: nat)
    requires m <= |sorted|
    requires forall i :: 0 <= i < m ==> sorted[i].createdAt > t
    requires forall i :: m <= i < |sorted| ==> sorted[i].createdAt <= t
    ensures forall e :: e in sorted[m..] <==> e in Elements(sorted) && e.createdAt <= t
  {
    forall e | e in Elements(sorted) && e.createdAt <= t ensures e in sorted[m..] {
      var i :| 0 <= i < |sorted| && sorted[i] == e;
      assert sorted[m..][i - m] == e;
    }
  }

  lemma SameElements(w: seq<Event>, tail: seq<Event>, events: seq<Event>, t: int)
    requires forall e :: e in w <==> e in events && e.createdAt <= t
    requires forall e :: e in tail <==> e in Elements(events) && e.createdAt <= t
    ensures Elements(w) == Elements(tail)
  {
  }

  /** With no bounds, the window is the feed. */
  lemma {:induction false} UnboundedWindow(events: seq<Event>, offset: nat, limit: nat)
    ensures Windowed(events, FeedRequest(None, None, offset, limit)) == events
  {
    if events != [] {
      UnboundedWindow(events[..|events| - 1], offset, limit);
      assert events == events[..|events| - 1] + [events[|events| - 1]];
    }
  }

  /** Skipping `k` ties from a list whose first `k` events sit on the boundary drops exactly those. */
  lemma {:induction false} SkipDrops(es: seq<Event>, t: int, k: nat)
    requires k <= |es| && forall i :: 0 <= i < k ==> es[i].createdAt == t
    ensures SkipTies(es, Some(t), k) == es[k..]
  {
    if k > 0 {
      SkipDrops(es[1..], t, k - 1);
    } else {
      SkipNone(es, Some(t));
    }
  }

  lemma {:induction false} SkipNone(es: seq<Event>, boundary: Option<int>)
    ensures SkipTies(es, boundary, 0) == es
  {
    if es != [] {
      SkipNone(es[1..], boundary);
    }
  }

  /** Without a boundary nothing is skipped. */
  lemma {:induction false} SkipUnbounded(es: seq<Event>, offset: nat)
    ensures SkipTies(es, None, offset) == es
  {
    if es != [] {
      SkipUnbounded(es[1..], offset);
    }
  }

  /** The page asked for after the first `n` events have been shown, when the request skips `k` boundary ties. */
  lemma PageAfter(events: seq<Event>, n: nat, k: nat, limit: nat)
    requires DistinctIds(events) && limit >= 1 && 0 < n <= |Sorted(events)|
    requires k <= TiesAt(Sorted(events)[..n], Sorted(events)[n - 1].createdAt)
    ensures
      var sorted := Sorted(events);
      var t := sorted[n - 1].createdAt;
      Page(events, FeedRequest(Some(t), None, k, limit)) == Take(sorted[n - TiesAt(sorted[..n], t) + k..], limit)
  {
    SortedFacts(events);
    var sorted := Sorted(events);
    var t := sorted[n - 1].createdAt;
    TiesAreTail(sorted, n, t);
    var m := n - TiesAt(sorted[..n], t);
    forall i | m <= i < |sorted| ensures sorted[i].createdAt <= t {
      if i > n - 1 {
        assert Newer(sorted[n - 1], sorted[i]);
      }
    }
    hide Sorted, Windowed, NewestFirst, TiesAt, Elements, DistinctIds;
    WindowIsSuffix(events, t, m, k, limit);
    SkipDrops(sorted[m..], t, k);
    assert sorted[m..][k..] == sorted[m + k..];
  }

  /** Skipping the shown ties from where they start ends where the shown part ends. */
  lemma AllTies(sorted: seq<Event>, n: nat)
    requires 0 < n <= |sorted|
    ensures var k := TiesAt(sorted[..n], sorted[n - 1].createdAt); sorted[n - k + k..] == sorted[n..]
  {
    hide TiesAt;
  }

  /** The next page continues the sorted feed exactly where the shown part ends. */
  lemma NextPageContinues(events: seq<Event>, n: nat, limit: nat)
    requires DistinctIds(events) && limit >= 1 && n <= |Sorted(events)|
    ensures Page(events, NextRequest(Sorted(events)[..n], limit, false)) == Take(Sorted(events)[n..], limit)
  {
    hide Sorted, TiesAt, DistinctIds, SkipTies, Windowed;
    var sorted := Sorted(events);
    var shown := sorted[..n];
    if n == 0 {
      UnboundedWindow(events, 0, limit);
      SkipUnbounded(sorted, 0);
      assert sorted[0..] == sorted;
    } else {
      assert shown[|shown| - 1] == sorted[n - 1];
      hide Page;
      PageAfter(events, n, TiesAt(shown, sorted[n - 1].createdAt), limit);
      AllTies(sorted, n);
    }
  }

  /** The pages fetched one after the other until an empty one, with `shown` already displayed. */
  ghost function Walk(events: seq<Event>, limit: nat, clamp: bool, shown: seq<Event>, pages: nat): seq<seq<Event>>
    decreases pages
  {
    if pages == 0 then []
    else
      var page := Page(events, NextRequest(shown, limit, clamp));
      if page == [] then [] else [page] + Walk(events, limit, clamp, shown + page, pages - 1)
  }

  function Flatten(pages: seq<seq<Event>>): seq<Event> {
    if pages == [] then [] else pages[0] + Flatten(pages[1..])
  }

  lemma {:induction false} WalkFrom(events: seq<Event>, limit: nat, n: nat, pages: nat)
    requires DistinctIds(events) && limit >= 1 && n <= |Sorted(events)| && pages >= |Sorted(events)| - n
    ensures Flatten(Walk(events, limit, false, Sorted(events)[..n], pages)) == Sorted(events)[n..]
    decreases pages
  {
    hide Page, NextRequest, Sorted, DistinctIds;
    var sorted := Sorted(events);
    NextPageContinues(events, n, limit);
    var page := Take(sorted[n..], limit);
    if pages > 0 && page != [] {
      var n' := n + |page|;
      assert sorted[..n] + page == sorted[..n'];
      WalkFrom(events, limit, n', pages - 1);
      assert page + sorted[n'..] == sorted[n..];
      var walk := Walk(events, limit, false, sorted[..n], pages);
      assert walk == [page] + Walk(events, limit, false, sorted[..n'], pages - 1);
      assert walk[1..] == Walk(events, limit, false, sorted[..n'], pages - 1);
    }
  }

  /**
   * Paging is exact: fetching pages until one is empty shows the whole sorted feed, nothing twice and nothing
   * missing, and an empty page does come after at most as many pages as there are events.
   */
  lemma PagingExact(events: seq<Event>, limit: nat)
    requires DistinctIds(events) && limit >= 1
    ensures Flatten(Walk(events, limit, false, [], |events|)) == Sorted(events)
    ensures Page(events, NextRequest(Sorted(events), limit, false)) == []
    ensures NewestFirst(Sorted(events)) && Elements(Sorted(events)) == Elements(events) && |Sorted(events)| == |events|
  {
    SortedFacts(events);
    SortedLength(events);
    WalkFrom(events, limit, 0, |events|);
    assert Sorted(events)[..0] == [] && Sorted(events)[0..] == Sorted(events);
    NextPageContinues(events, |events|, limit);
    assert Sorted(events)[..|events|] == Sorted(events);
  }

  lemma {:induction false} SortedLength(events: seq<Event>)
    ensures |Sorted(events)| == |events|
  {
    if events != [] {
      SortedLength(events[..|events| - 1]);
      InsertLength(Sorted(events[..|events| - 1]), events[|events| - 1]);
    }
  }

  lemma {:induction false} InsertLength(es: seq<Event>, e: Event)
    ensures |InsertEvent(es, e)| == |es| + 1
  {
    if es != [] {
      InsertLength(es[1..], e);
    }
  }

  /**
   * Through the request parser, which clamps offsets at 500, the next page continues the feed exactly when at
   * most 500 of the shown events tie on the boundary second; otherwise it repeats what it should have skipped.
   */
  lemma ClampedPagingIff(events: seq<Event>, n: nat, limit: nat)
    requires DistinctIds(events) && limit >= 1 && 0 < n <= |Sorted(events)|
    ensures
      var sorted := Sorted(events);
      var ties := TiesAt(sorted[..n], sorted[n - 1].createdAt);
      var page := Page(events, NextRequest(sorted[..n], limit, true));
      && (page == Take(sorted[n..], limit) <==> ties <= 500)
      && (ties > 500 ==> page == Take(sorted[n - ties + 500..], limit))
  {
    hide Sorted, Page, TiesAt, Elements, DistinctIds, Newer, Take, NewestFirst, NextRequest;
    SortedFacts(events);
    ClampedPage(events, n, limit);
    var sorted := Sorted(events);
    var ties := TiesAt(sorted[..n], sorted[n - 1].createdAt);
    if ties > MAX_OFFSET {
      TakesDiffer(sorted, n - ties + MAX_OFFSET, n, limit);
    }
  }

  lemma ClampedPage(events: seq<Event>, n: nat, limit: nat)
    requires DistinctIds(events) && limit >= 1 && 0 < n <= |Sorted(events)|
    ensures
      var sorted := Sorted(events);
      var ties := TiesAt(sorted[..n], sorted[n - 1].createdAt);
      && 1 <= ties <= n
      && Page(events, NextRequest(sorted[..n], limit, true)) == Take(sorted[n - ties + ClampOffset(ties)..], limit)
  {
    hide Sorted, Page, TiesAt, Elements, DistinctIds, Newer, Take, NewestFirst;
    var sorted := Sorted(events);
    SortedFacts(events);
    TiesAreTail(sorted, n, sorted[n - 1].createdAt);
    ClampedRequest(sorted, n, limit);
    PageAfter(events, n, ClampOffset(TiesAt(sorted[..n], sorted[n - 1].createdAt)), limit);
  }

  lemma ClampedRequest(sorted: seq<Event>, n: nat, limit: nat)
    requires 0 < n <= |sorted|
    ensures var t := sorted[n - 1].createdAt;
      NextRequest(sorted[..n], limit, true) == FeedRequest(Some(t), None, ClampOffset(TiesAt(sorted[..n], t)), limit)
  {
    hide TiesAt;
    assert sorted[..n][n - 1] == sorted[n - 1];
  }

  /** Pages of a sorted feed that start at different places differ. */
  lemma TakesDiffer(sorted: seq<Event>, m: nat, n: nat, limit: nat)
    requires NewestFirst(sorted) && m < n <= |sorted| && limit >= 1
    ensures Take(sorted[m..], limit) != Take(sorted[n..], limit)
  {
    assert Take(sorted[m..], limit)[0] == sorted[m];
    if n < |sorted| {
      assert Take(sorted[n..], limit)[0] == sorted[n];
      NewerIsStrictOrder(sorted[m], sorted[n], sorted[m]);
    }
  }

  /** A full page, or the last one, ends after the first `n` of `total` events. */
  predicate PageEnd(n: nat, limit: nat, total: nat)
    requires limit >= 1
  {
    0 < n <= total && (n % limit == 0 || n == total)
  }

  /** At most 500 of the first `n` events tie on the second of the last of them. */
  predicate TiesWithin(sorted: seq<Event>, n: nat)
    requires 0 < n <= |sorted|
  {
    TiesAt(sorted[..n], sorted[n - 1].createdAt) <= 500
  }

  /** No page end from `n` on has too many ties. */
  ghost predicate EndsWithin(sorted: seq<Event>, limit: nat, n: nat)
    requires limit >= 1
  {
    forall m :: n <= m && PageEnd(m, limit, |sorted|) ==> TiesWithin(sorted, m)
  }

  lemma SmallMultiple(limit: int, k: int)
    requires -limit < limit * k < limit
    ensures k == 0
  {
  }

  lemma Remainder(n: nat, d: nat, limit: nat)
    requires d < limit && n % limit == 0
    ensures (n + d) % limit == d
  {
    var q: int, r: int := n / limit, (n + d) / limit;
    assert n == limit * q && n + d == limit * r + (n + d) % limit;
    assert limit * (r - q) == limit * r - limit * q;
    SmallMultiple(limit, r - q);
  }

  lemma NextMultiple(n: nat, limit: nat)
    requires limit >= 1 && n % limit == 0
    ensures (n + limit) % limit == 0
  {
    var q: int := n / limit;
    assert n + limit == limit * (q + 1);
    var r: int, m: int := (n + limit) / limit, (n + limit) % limit;
    assert n + limit == limit * r + m;
    assert limit * (q + 1 - r) == limit * (q + 1) - limit * r;
    SmallMultiple(limit, q + 1 - r);
  }

  /** From one page end to the next. */
  lemma EndsAfter(sorted: seq<Event>, limit: nat, n: nat, n': nat)
    requires limit >= 1 && n < n' <= |sorted| && n % limit == 0
    requires n' == n + limit || (n' == |sorted| && n' < n + limit)
    ensures n' % limit == 0 || n' == |sorted|
    ensures EndsWithin(sorted, limit, n) <==> (n == 0 || TiesWithin(sorted, n)) && EndsWithin(sorted, limit, n')
  {
    hide TiesWithin, PageEnd;
    NextMultiple(n, limit);
    forall m | n < m < n' ensures !PageEnd(m, limit, |sorted|) {
      NotBetween(n, m, limit, |sorted|);
    }
    EndsAtMultiple(n, limit, |sorted|);
  }

  lemma EndsAtMultiple(n: nat, limit: nat, total: nat)
    requires limit >= 1 && n % limit == 0 && n < total
    ensures PageEnd(n, limit, total) <==> n > 0
  {
  }

  lemma NotBetween(n: nat, m: nat, limit: nat, total: nat)
    requires limit >= 1 && n % limit == 0 && n < m < n + limit && m < total
    ensures !PageEnd(m, limit, total)
  {
    Remainder(n, m - n, limit);
  }

  /** Flattened pages start with the first page. */
  lemma FlattenFirst(page: seq<Event>, rest: seq<seq<Event>>)
    ensures Flatten([page] + rest) == page + Flatten(rest)
  {
    assert ([page] + rest)[1..] == rest;
  }

  lemma {:induction false} ClampedWalkFrom(events: seq<Event>, limit: nat, n: nat, pages: nat)
    requires DistinctIds(events) && limit >= 1 && n <= |Sorted(events)| && pages > |Sorted(events)| - n
    requires n % limit == 0 || n == |Sorted(events)|
    ensures Flatten(Walk(events, limit, true, Sorted(events)[..n], pages)) == Sorted(events)[n..] <==>
      EndsWithin(Sorted(events), limit, n)
    decreases pages
  {
    hide Page, NextRequest, Sorted, DistinctIds, EndsWithin, TiesWithin, Flatten, Take, NewestFirst;
    var sorted := Sorted(events);
    var shown := sorted[..n];
    var page := Page(events, NextRequest(shown, limit, true));
    ghost var rest := if page == [] then [] else Walk(events, limit, true, shown + page, pages - 1);
    FlattenFirst(page, rest);
    if n > 0 && !TiesWithin(sorted, n) {
      TooManyTies(events, n, limit, Flatten(rest));
      assert n == |sorted| || n % limit == 0;
      assert PageEnd(n, limit, |sorted|) && !EndsWithin(sorted, limit, n) by { OneEndFails(sorted, limit, n); }
    } else {
      ClampedNext(events, n, limit);
      if n == |sorted| {
        NoEndAfter(sorted, limit);
        NoPages();
      } else {
        var n' := n + |page|;
        assert shown + page == sorted[..n'] && page + sorted[n'..] == sorted[n..];
        EndsAfter(sorted, limit, n, n');
        ClampedWalkFrom(events, limit, n', pages - 1);
      }
    }
  }

  lemma OneEndFails(sorted: seq<Event>, limit: nat, n: nat)
    requires limit >= 1 && PageEnd(n, limit, |sorted|) && !TiesWithin(sorted, n)
    ensures !EndsWithin(sorted, limit, n)
  {
    hide TiesWithin;
  }

  lemma NoPages()
    ensures Flatten([]) == []
  {
  }

  /** Up to 500 ties, the clamped request gets the next stretch of the feed. */
  lemma ClampedNext(events: seq<Event>, n: nat, limit: nat)
    requires DistinctIds(events) && limit >= 1 && n <= |Sorted(events)|
    requires n == 0 || TiesWithin(Sorted(events), n)
    ensures
      var sorted := Sorted(events);
      var page := Page(events, NextRequest(sorted[..n], limit, true));
      var n' := n + |page|;
      && n' == (if n + limit <= |sorted| then n + limit else |sorted|)
      && page == sorted[n..n']
  {
    hide Page, Sorted, DistinctIds, TiesAt;
    if n == 0 {
      NextPageContinues(events, 0, limit);
    } else {
      ClampedPagingIff(events, n, limit);
    }
  }

  /** With too many ties, the next page starts with an event already shown. */
  lemma TooManyTies(events: seq<Event>, n: nat, limit: nat, rest: seq<Event>)
    requires DistinctIds(events) && limit >= 1 && 0 < n <= |Sorted(events)| && !TiesWithin(Sorted(events), n)
    ensures
      var sorted := Sorted(events);
      var page := Page(events, NextRequest(sorted[..n], limit, true));
      page != [] && page + rest != sorted[n..]
  {
    hide Page, Sorted, DistinctIds, TiesAt, Newer, Elements, NextRequest;
    var sorted := Sorted(events);
    SortedFacts(events);
    ClampedPage(events, n, limit);
    var from := n - TiesAt(sorted[..n], sorted[n - 1].createdAt) + MAX_OFFSET;
    assert Take(sorted[from..], limit)[0] == sorted[from];
    if n < |sorted| {
      NewerIsStrictOrder(sorted[from], sorted[n], sorted[from]);
    }
  }

  lemma NoEndAfter(sorted: seq<Event>, limit: nat)
    requires limit >= 1
    ensures EndsWithin(sorted, limit, |sorted|) <==> sorted == [] || TiesWithin(sorted, |sorted|)
  {
    hide TiesWithin;
  }

  /**
   * Walking the feed through the request parser shows all of it, nothing twice, and then ends, exactly when at no page
   * end more than 500 of the events shown so far tie on the second of the last one.
   */
  lemma ClampedWalkExactIff(events: seq<Event>, limit: nat, pages: nat)
    requires DistinctIds(events) && limit >= 1 && pages > |events|
    ensures Flatten(Walk(events, limit, true, [], pages)) == Sorted(events) <==>
      forall n :: PageEnd(n, limit, |Sorted(events)|) ==> TiesWithin(Sorted(events), n)
  {
    hide Walk, Sorted, TiesWithin, Flatten;
    SortedLength(events);
    ClampedWalkFrom(events, limit, 0, pages);
    assert Sorted(events)[..0] == [] && Sorted(events)[0..] == Sorted(events);
  }

  /** The walk through the request parser shows one page over and over. */
  ghost predicate Sticks(events: seq<Event>, limit: nat, shown: seq<Event>) {
    forall pages: nat :: Repeats(Walk(events, limit, true, shown, pages), Page(events, NextRequest(shown, limit, true)), pages)
  }

  ghost predicate Repeats(walk: seq<seq<Event>>, page: seq<Event>, pages: nat) {
    |walk| == pages && forall i :: 0 <= i < pages ==> walk[i] == page
  }

  lemma {:induction false} TiesAppend(shown: seq<Event>, page: seq<Event>, t: int)
    ensures TiesAt(shown + page, t) == TiesAt(shown, t) + TiesAt(page, t)
  {
    if page == [] {
      assert shown + page == shown;
    } else {
      TiesAppend(shown, page[..|page| - 1], t);
      assert (shown + page)[..|shown + page| - 1] == shown + page[..|page| - 1];
    }
  }

  /** A page that ends on the boundary second, past the offset clamp, is asked for again. */
  lemma SameRequest(shown: seq<Event>, page: seq<Event>, limit: nat)
    requires shown != [] && page != [] && page[|page| - 1].createdAt == shown[|shown| - 1].createdAt
    requires TiesAt(shown, shown[|shown| - 1].createdAt) >= MAX_OFFSET
    ensures NextRequest(shown + page, limit, true) == NextRequest(shown, limit, true)
    ensures TiesAt(shown + page, shown[|shown| - 1].createdAt) >= MAX_OFFSET
  {
    hide TiesAt;
    var t := shown[|shown| - 1].createdAt;
    TiesAppend(shown, page, t);
    assert (shown + page)[|shown + page| - 1] == page[|page| - 1];
  }

  lemma {:induction false} WalkRepeats(events: seq<Event>, limit: nat, shown: seq<Event>, page: seq<Event>, pages: nat)
    requires shown != [] && TiesAt(shown, shown[|shown| - 1].createdAt) >= MAX_OFFSET
    requires page == Page(events, NextRequest(shown, limit, true))
    requires page != [] && page[|page| - 1].createdAt == shown[|shown| - 1].createdAt
    ensures Repeats(Walk(events, limit, true, shown, pages), page, pages)
    decreases pages
  {
    hide TiesAt, Page, NextRequest;
    if pages > 0 {
      SameRequest(shown, page, limit);
      assert (shown + page)[|shown + page| - 1] == page[|page| - 1];
      WalkRepeats(events, limit, shown + page, page, pages - 1);
    }
  }

  /** A page holds nothing younger than its `until`. */
  lemma PageWithin(events: seq<Event>, t: int, offset: nat, limit: nat, e: Event)
    requires DistinctIds(events) && e in Page(events, FeedRequest(Some(t), None, offset, limit))
    ensures e.createdAt <= t
  {
    var req := FeedRequest(Some(t), None, offset, limit);
    var w := Windowed(events, req);
    WindowedFacts(events, req);
    SortedFacts(w);
    SkippedFrom(Sorted(w), Some(t), offset);
    assert e in SkipTies(Sorted(w), Some(t), offset);
    assert e in Elements(Sorted(w));
    assert e in Elements(w);
  }

  lemma {:induction false} SkippedFrom(es: seq<Event>, boundary: Option<int>, offset: nat)
    ensures forall e :: e in SkipTies(es, boundary, offset) ==> e in es
  {
    if es != [] {
      SkippedFrom(es[1..], boundary, offset - (if boundary == Some(es[0].createdAt) && offset > 0 then 1 else 0));
    }
  }

  /** A walk that went on to an older second does not repeat the page. */
  lemma WalkMovesOn(events: seq<Event>, limit: nat, shown: seq<Event>)
    requires DistinctIds(events) && shown != []
    requires var page := Page(events, NextRequest(shown, limit, true));
      page != [] && page[|page| - 1].createdAt < page[0].createdAt
    ensures !Sticks(events, limit, shown)
  {
    hide Page, TiesAt, DistinctIds;
    var page := Page(events, NextRequest(shown, limit, true));
    var next := Page(events, NextRequest(shown + page, limit, true));
    assert (shown + page)[|shown + page| - 1] == page[|page| - 1];
    var t := page[|page| - 1].createdAt;
    if page[0] in next {
      PageWithin(events, t, ClampOffset(TiesAt(shown + page, t)), limit, page[0]);
    }
    assert page[0] in page && next != page;
    var walk := Walk(events, limit, true, shown, 2);
    assert walk == [page] + Walk(events, limit, true, shown + page, 1);
    assert |walk| == 2 ==> walk[1] == next;
    assert !Repeats(walk, page, 2);
  }

  /**
   * Once more than 500 shown events tie on the boundary second, the pager asks for the same page for ever exactly when
   * the page it gets ends on that second: the `limit` events past the 500th tie reach no older one.
   */
  lemma ClampedWalkSticksIff(events: seq<Event>, n: nat, limit: nat)
    requires DistinctIds(events) && limit >= 1 && 0 < n <= |Sorted(events)|
    requires TiesAt(Sorted(events)[..n], Sorted(events)[n - 1].createdAt) > 500
    ensures
      var sorted := Sorted(events);
      var t := sorted[n - 1].createdAt;
      var from := n - TiesAt(sorted[..n], t) + 500;
      var end := if from + limit <= |sorted| then from + limit else |sorted|;
      && 0 < end <= |sorted|
      && (Sticks(events, limit, sorted[..n]) <==> sorted[end - 1].createdAt == t)
  {
    hide Sorted, Page, TiesAt, DistinctIds, Sticks, Newer, NewestFirst, Walk, NextRequest, Elements, Take;
    SortedFacts(events);
    ClampedPage(events, n, limit);
    var sorted := Sorted(events);
    var from := n - TiesAt(sorted[..n], sorted[n - 1].createdAt) + MAX_OFFSET;
    TakeEnds(sorted, from, limit);
    BoundaryOf(sorted, n, from);
    SticksIffEnds(events, limit, sorted[..n], sorted, from);
  }

  /** The shown part ends on the boundary second, and so does the event past the 500th tie. */
  lemma BoundaryOf(sorted: seq<Event>, n: nat, from: nat)
    requires NewestFirst(sorted) && 0 < n <= |sorted|
    requires from == n - TiesAt(sorted[..n], sorted[n - 1].createdAt) + MAX_OFFSET < n
    ensures sorted[..n][n - 1] == sorted[n - 1] && sorted[from].createdAt == sorted[n - 1].createdAt
  {
    hide TiesAt, NewestFirst;
    TiesAreTail(sorted, n, sorted[n - 1].createdAt);
  }

  lemma SticksIffEnds(events: seq<Event>, limit: nat, shown: seq<Event>, sorted: seq<Event>, from: nat)
    requires DistinctIds(events) && NewestFirst(sorted) && shown != [] && from < |sorted|
    requires sorted[from].createdAt == shown[|shown| - 1].createdAt
    requires TiesAt(shown, shown[|shown| - 1].createdAt) >= MAX_OFFSET
    requires var page := Page(events, NextRequest(shown, limit, true));
      page != [] && from + |page| <= |sorted| && page[0] == sorted[from] && page[|page| - 1] == sorted[from + |page| - 1]
    ensures Sticks(events, limit, shown) <==>
      var page := Page(events, NextRequest(shown, limit, true)); page[|page| - 1].createdAt == shown[|shown| - 1].createdAt
  {
    hide Page, TiesAt, DistinctIds, Sticks, NewestFirst, NextRequest;
    var page := Page(events, NextRequest(shown, limit, true));
    if page[|page| - 1].createdAt == shown[|shown| - 1].createdAt {
      StickyPage(events, limit, shown);
    } else {
      NotYounger(sorted, from, from + |page| - 1);
      WalkMovesOn(events, limit, shown);
    }
  }

  lemma StickyPage(events: seq<Event>, limit: nat, shown: seq<Event>)
    requires shown != [] && TiesAt(shown, shown[|shown| - 1].createdAt) >= MAX_OFFSET
    requires var page := Page(events, NextRequest(shown, limit, true));
      page != [] && page[|page| - 1].createdAt == shown[|shown| - 1].createdAt
    ensures Sticks(events, limit, shown)
  {
    hide Page, TiesAt, NextRequest, Walk, Repeats;
    var page := Page(events, NextRequest(shown, limit, true));
    forall pages: nat ensures Repeats(Walk(events, limit, true, shown, pages), page, pages) {
      WalkRepeats(events, limit, shown, page, pages);
    }
  }

  lemma TakeEnds(sorted: seq<Event>, from: nat, limit: nat)
    requires from < |sorted| && limit >= 1
    ensures var page, end := Take(sorted[from..], limit), if from + limit <= |sorted| then from + limit else |sorted|;
      |page| == end - from > 0 && page[0] == sorted[from] && page[|page| - 1] == sorted[end - 1]
  {
  }

  lemma NotYounger(sorted: seq<Event>, i: nat, j: nat)
    requires NewestFirst(sorted) && i <= j < |sorted|
    ensures sorted[j].createdAt <= sorted[i].createdAt
  {
    if i < j {
      assert Newer(sorted[i], sorted[j]);
    }
  }
}
