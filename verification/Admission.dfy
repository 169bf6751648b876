/** In-band writer admission (src/swarm/admission.ts): concurrent evaluations interleaved at their awaits. */
module Admission {
  import opened Strings
  import opened Consensus
  import opened NostrEvents
  import opened RateLimit
  import EventStores
  import opened Rules

  const ADMISSION_VERSION := 1
  /** A burst of 16 admissions, refilled at 16 an hour. */
  const BUDGET := Limit(16.0, 16.0 / 3600.0)

  datatype AdmissionRequest = AdmissionRequest(v: int, wants: string, writerKey: string, proof: string)

  datatype Reply = Admitted | Rejected | Failed

  /** Where an evaluation is suspended. Checking and beyond are inside `admitWriter`, after the token was spent. */
  datatype Phase =
    | Deduping
    | Checking
    | Counting
    | Appending
    | Settling(appended: bool, already: bool)
    | Done(reply: Reply)

  datatype Call = Call(key: string, phase: Phase)

  /**
   * Everything the evaluations share. `views` are the writers maps materialized so far, the current one last; a
   * reorganisation may have taken writers out again. `uses` is the bucket's history since it was created at
   * `created`, and `appended` the add_writer ops this node has appended.
   */
  datatype World = World(
    views: seq<map<string, string>>,
    writable: bool,
    created: int,
    uses: seq<Use>,
    calls: seq<Call>,
    appended: seq<string>
  )

  /**
   * One uninterrupted stretch of execution, at a clock reading. A request arrives over a connection that is ready
   * or not; `expected` is the proof (an HMAC over the base key, the connection's handshake and the writer key)
   * the granter computes for it. What a resumed evaluation awaited was read from any view materialized so far.
   */
  datatype Turn =
    | Arrive(req: AdmissionRequest, ready: bool, expected: string)
    | Resume(call: nat, now: int, read: nat)
    | ViewChanges(writers: map<string, string>)
    | WritableChanges(writable: bool)

  function NewBucket(w: World): Bucket {
    Bucket(BUDGET.capacity, w.created)
  }

  function BucketNow(w: World): Bucket {
    After(BUDGET, NewBucket(w), w.uses)
  }

  predicate ProofAccepted(req: AdmissionRequest, expected: string) {
    && req.v == ADMISSION_VERSION && req.wants == "writer"
    && IsWriterKey(ToLower(req.writerKey)) && IsWriterKey(ToLower(req.proof))
    && ToLower(req.proof) == expected
  }

  /** The founder, or a writer in some view materialized so far. */
  predicate WasWriter(founder: string, w: World, key: string) {
    key == founder || exists j :: 0 <= j < |w.views| && key in w.views[j]
  }

  function SetPhase(w: World, i: nat, phase: Phase): World
    requires i < |w.calls|
  {
    w.(calls := w.calls[i := w.calls[i].(phase := phase)])
  }

  /** What a suspended evaluation does when it runs again, having read `writers`. */
  function ResumeCall(founder: string, w: World, i: nat, now: int, writers: map<string, string>): World
    requires i < |w.calls|
  {
    var key := w.calls[i].key;
    match w.calls[i].phase
    case Deduping =>
      if key == founder || key in writers then SetPhase(w, i, Done(Admitted))
      else
        var spent := w.(uses := w.uses + [Use(now, false)]);
        if !Allows(BUDGET, BucketNow(w), now) then SetPhase(spent, i, Done(Rejected))
        else if !w.writable then SetPhase(spent, i, Done(Failed))
        else SetPhase(spent, i, Checking)
    case Checking =>
      if key in writers then SetPhase(w, i, Settling(false, true)) else SetPhase(w, i, Counting)
    case Counting =>
      if |writers| >= MAX_WRITERS then SetPhase(w, i, Settling(false, false)) else SetPhase(w, i, Appending)
    case Appending =>
      SetPhase(w.(appended := w.appended + [key]), i, Settling(true, false))
    case Settling(appended, already) =>
      if appended then SetPhase(w, i, Done(Admitted))
      else SetPhase(w.(uses := w.uses + [Use(now, true)]), i, Done(if already then Admitted else Rejected))
    case Done(_) => w
  }

  function Next(founder: string, w: World, t: Turn): World {
    match t
    case Arrive(req, ready, expected) =>
      var key := ToLower(req.writerKey);
      var phase := if ProofAccepted(req, expected) && w.writable && ready then Deduping else Done(Rejected);
      w.(calls := w.calls + [Call(key, phase)])
    case Resume(i, now, read) =>
      if i < |w.calls| && read < |w.views| then ResumeCall(founder, w, i, now, w.views[read]) else w
    case ViewChanges(writers) => w.(views := w.views + [writers])
    case WritableChanges(writable) => w.(writable := writable)
  }

  function RunTurns(founder: string, w: World, turns: seq<Turn>): World {
    if turns == [] then w else Next(founder, RunTurns(founder, w, turns[..|turns| - 1]), turns[|turns| - 1])
  }

  function Start(writers: map<string, string>, writable: bool, created: int): World {
    World([writers], writable, created, [], [], [])
  }

  /** The clock readings of the turns never go back, from the bucket's creation up to `until`. */
  ghost predicate ClockForward(created: int, turns: seq<Turn>, until: int) {
    && created <= until
    && (forall i :: 0 <= i < |turns| && turns[i].Resume? ==> created <= turns[i].now <= until)
    && (forall i, j :: 0 <= i < j < |turns| && turns[i].Resume? && turns[j].Resume? ==> turns[i].now <= turns[j].now)
  }

  // ─── Accounting ─────────────────────────────────────────────────

  /** Evaluations that hold a token not yet turned into an append or given back. */
  function Holds(phase: Phase): bool {
    phase.Checking? || phase.Counting? || phase.Appending? || (phase.Settling? && !phase.appended) || phase == Done(Failed)
  }

  function Holders(calls: seq<Call>): nat {
    if calls == [] then 0 else Holders(calls[..|calls| - 1]) + (if Holds(calls[|calls| - 1].phase) then 1 else 0)
  }

  lemma {:induction false} HoldersUpdate(calls: seq<Call>, i: nat, c: Call)
    requires i < |calls|
    ensures Holders(calls[i := c]) ==
            Holders(calls) - (if Holds(calls[i].phase) then 1 else 0) + (if Holds(c.phase) then 1 else 0)
  {
    var init, init' := calls[..|calls| - 1], calls[i := c][..|calls| - 1];
    if i == |calls| - 1 {
      assert init' == init;
    } else {
      assert init' == init[i := c];
      HoldersUpdate(init, i, c);
    }
  }

  /** Every token spent and not refunded is an appended op or still held. */
  ghost predicate Accounted(w: World) {
    Net(BUDGET, NewBucket(w), w.uses) == |w.appended| + Holders(w.calls)
  }

  /** Nobody is told "admitted" who neither was a writer nor has an op appended. */
  ghost predicate RepliesTrue(founder: string, w: World) {
    forall i :: 0 <= i < |w.calls| ==>
      var c := w.calls[i];
      && (c.phase == Done(Admitted) ==> WasWriter(founder, w, c.key) || c.key in w.appended)
      && (c.phase.Settling? && c.phase.appended ==> c.key in w.appended)
      && (c.phase.Settling? && c.phase.already ==> WasWriter(founder, w, c.key))
      && (c.phase != Done(Rejected) ==> IsWriterKey(c.key))
  }

  lemma NetSnoc(b: Bucket, uses: seq<Use>, u: Use)
    ensures Net(BUDGET, b, uses + [u]) ==
      Net(BUDGET, b, uses) + (if u.refund then -1 else if Allows(BUDGET, After(BUDGET, b, uses), u.now) then 1 else 0)
  {
    assert (uses + [u])[..|uses|] == uses;
  }

  lemma NextAccounted(founder: string, w: World, t: Turn)
    requires Accounted(w)
    ensures Accounted(Next(founder, w, t)) && Next(founder, w, t).created == w.created
  {
    hide Net, After, Allows, IsWriterKey, ToLower, ResumeCall;
    match t
    case Arrive(_, _, _) =>
      var calls := Next(founder, w, t).calls;
      assert calls[..|calls| - 1] == w.calls;
    case Resume(i, now, read) =>
      if i < |w.calls| && read < |w.views| {
        ResumeAccounted(founder, w, i, now, w.views[read]);
      }
    case _ =>
  }

  lemma ResumeAccounted(founder: string, w: World, i: nat, now: int, writers: map<string, string>)
    requires Accounted(w) && i < |w.calls|
    ensures var u := ResumeCall(founder, w, i, now, writers); Accounted(u) && u.created == w.created
  {
    hide Net, After, Allows, IsWriterKey, ToLower, Holders;
    NetSnoc(NewBucket(w), w.uses, Use(now, false));
    NetSnoc(NewBucket(w), w.uses, Use(now, true));
    HoldersUpdate(w.calls, i, ResumeCall(founder, w, i, now, writers).calls[i]);
  }

  lemma NextReplies(founder: string, w: World, t: Turn)
    requires RepliesTrue(founder, w)
    ensures RepliesTrue(founder, Next(founder, w, t))
  {
    hide After, Allows, IsWriterKey, ToLower, ResumeCall, WasWriter;
    if !t.Resume? {
      WritersKept(founder, w, Next(founder, w, t));
    } else if t.call < |w.calls| && t.read < |w.views| {
      ResumeReplies(founder, w, t.call, t.now, t.read);
    }
  }

  lemma WritersKept(founder: string, w: World, u: World)
    requires w.views <= u.views
    ensures forall key :: WasWriter(founder, w, key) ==> WasWriter(founder, u, key)
  {
    forall key | WasWriter(founder, w, key) ensures WasWriter(founder, u, key) {
      if key != founder {
        var j :| 0 <= j < |w.views| && key in w.views[j];
        assert u.views[j] == w.views[j];
      }
    }
  }

  lemma ResumeReplies(founder: string, w: World, i: nat, now: int, read: nat)
    requires RepliesTrue(founder, w) && i < |w.calls| && read < |w.views|
    ensures RepliesTrue(founder, ResumeCall(founder, w, i, now, w.views[read]))
  {
    hide After, Allows, IsWriterKey, ToLower, BucketNow, WasWriter;
    var u := ResumeCall(founder, w, i, now, w.views[read]);
    WritersKept(founder, w, u);
    if w.calls[i].key == founder || w.calls[i].key in w.views[read] {
      ReadWriter(founder, u, read, w.calls[i].key);
    }
  }

  lemma ReadWriter(founder: string, w: World, read: nat, key: string)
    requires read < |w.views| && (key == founder || key in w.views[read])
    ensures WasWriter(founder, w, key)
  {
  }

  /** Every reachable world is accounted for and truthful, under any interleaving. */
  lemma {:induction false} RunAccounted(founder: string, writers: map<string, string>, writable: bool, created: int,
                                        turns: seq<Turn>)
    ensures var w := RunTurns(founder, Start(writers, writable, created), turns);
      Accounted(w) && RepliesTrue(founder, w) && w.created == created
  {
    hide Accounted, RepliesTrue, Next;
    if turns == [] {
      StartAccounted(founder, writers, writable, created);
    } else {
      var init := turns[..|turns| - 1];
      RunAccounted(founder, writers, writable, created, init);
      var u := RunTurns(founder, Start(writers, writable, created), init);
      NextAccounted(founder, u, turns[|turns| - 1]);
      NextReplies(founder, u, turns[|turns| - 1]);
    }
  }

  lemma StartAccounted(founder: string, writers: map<string, string>, writable: bool, created: int)
    ensures var w := Start(writers, writable, created); Accounted(w) && RepliesTrue(founder, w)
  {
  }

  /** The key arrived with the expected proof, in a request for a writer's place. */
  ghost predicate Proven(turns: seq<Turn>, key: string) {
    exists j :: 0 <= j < |turns| && Proves(turns[j], key)
  }

  predicate Proves(t: Turn, key: string) {
    && t.Arrive? && t.req.v == 1 && t.req.wants == "writer"
    && ToLower(t.req.writerKey) == key && IsKey(key) && ToLower(t.req.proof) == t.expected
  }

  ghost predicate AllProven(turns: seq<Turn>, w: World) {
    && (forall i :: 0 <= i < |w.calls| ==> w.calls[i].phase == Done(Rejected) || Proven(turns, w.calls[i].key))
    && (forall i :: 0 <= i < |w.appended| ==> Proven(turns, w.appended[i]))
  }

  lemma ProvenMore(turns: seq<Turn>, t: Turn, key: string)
    requires Proven(turns, key)
    ensures Proven(turns + [t], key)
  {
    hide Proves;
    var j :| 0 <= j < |turns| && Proves(turns[j], key);
    assert (turns + [t])[j] == turns[j];
  }

  lemma NextProven(founder: string, w: World, turns: seq<Turn>, t: Turn)
    requires AllProven(turns, w)
    ensures AllProven(turns + [t], Next(founder, w, t))
  {
    hide After, Allows, IsWriterKey, ToLower, Proven, ProofAccepted;
    forall key | Proven(turns, key) ensures Proven(turns + [t], key) {
      ProvenMore(turns, t, key);
    }
    if t.Arrive? && ProofAccepted(t.req, t.expected) {
      ArrivalProven(turns, t);
    }
  }

  lemma ArrivalProven(turns: seq<Turn>, t: Turn)
    requires t.Arrive? && ProofAccepted(t.req, t.expected)
    ensures Proven(turns + [t], ToLower(t.req.writerKey))
  {
    hide ToLower;
    assert (turns + [t])[|turns|] == t;
  }

  /** Only keys that arrived with a valid proof are ever appended, under any interleaving. */
  lemma {:induction false} AppendsProven(founder: string, writers: map<string, string>, writable: bool, created: int,
                                         turns: seq<Turn>)
    ensures AllProven(turns, RunTurns(founder, Start(writers, writable, created), turns))
  {
    hide AllProven, Next;
    if turns == [] {
      NoneProven(writers, writable, created);
    } else {
      var init := turns[..|turns| - 1];
      AppendsProven(founder, writers, writable, created, init);
      NextProven(founder, RunTurns(founder, Start(writers, writable, created), init), init, turns[|turns| - 1]);
      assert turns == init + [turns[|turns| - 1]];
    }
  }

  lemma NoneProven(writers: map<string, string>, writable: bool, created: int)
    ensures AllProven([], Start(writers, writable, created))
  {
  }

  /** Exactly the requests with the expected proof are evaluated, by a granter that may write, on a ready connection. */
  lemma EvaluatedIff(founder: string, w: World, req: AdmissionRequest, ready: bool, expected: string)
    ensures
      var calls := Next(founder, w, Arrive(req, ready, expected)).calls;
      && calls == w.calls + [calls[|w.calls|]] && calls[|w.calls|].key == ToLower(req.writerKey)
      && calls[|w.calls|].phase ==
           if && req.v == 1 && req.wants == "writer" && IsKey(ToLower(req.writerKey))
              && IsKey(ToLower(req.proof)) && ToLower(req.proof) == expected && w.writable && ready
           then Deduping else Done(Rejected)
  {
    hide ToLower;
  }

  /** The bucket's uses are some of the turns' clock readings, in order. */
  lemma {:induction false} RunForward(founder: string, writers: map<string, string>, writable: bool, created: int,
                                      turns: seq<Turn>, until: int)
    requires ClockForward(created, turns, until)
    ensures var uses := RunTurns(founder, Start(writers, writable, created), turns).uses;
      && Forward(created, uses)
      && (uses != [] ==>
            && uses[|uses| - 1].now <= until
            && exists i :: 0 <= i < |turns| && turns[i].Resume? && uses[|uses| - 1].now == turns[i].now)
  {
    hide Next, Forward;
    if turns == [] {
      NoUses(created);
    } else {
      var init, t := turns[..|turns| - 1], turns[|turns| - 1];
      RunForward(founder, writers, writable, created, init, until);
      var u := RunTurns(founder, Start(writers, writable, created), init);
      NextUses(founder, u, t);
      if u.uses != [] {
        var i :| 0 <= i < |init| && init[i].Resume? && u.uses[|u.uses| - 1].now == init[i].now;
        assert turns[i] == init[i];
      }
      if t.Resume? {
        ForwardSnoc(created, u.uses, t.now);
      }
    }
  }

  lemma NoUses(created: int)
    ensures Forward(created, [])
  {
  }

  lemma ForwardSnoc(created: int, uses: seq<Use>, now: int)
    requires Forward(created, uses) && created <= now && (uses != [] ==> uses[|uses| - 1].now <= now)
    ensures forall r :: Forward(created, uses + [Use(now, r)])
  {
  }

  lemma NextUses(founder: string, w: World, t: Turn)
    ensures Next(founder, w, t).uses == w.uses || (t.Resume? && exists r :: Next(founder, w, t).uses == w.uses + [Use(t.now, r)])
  {
    hide After, Allows, IsWriterKey, ToLower;
  }

  /**
   * The admission rate bound: `until - created` milliseconds after the bucket was created, however many calls
   * are evaluated and however they interleave, at most 16 + 16 per hour add_writer ops have been appended.
   */
  lemma AdmissionRateBound(founder: string, writers: map<string, string>, writable: bool, created: int,
                           turns: seq<Turn>, until: int)
    requires ClockForward(created, turns, until)
    ensures |RunTurns(founder, Start(writers, writable, created), turns).appended| as real
            <= 16.0 + 16.0 * ((until - created) as real / 1000.0) / 3600.0
  {
    hide RunTurns, Net, After, Forward, Holders, RepliesTrue, Earned, ClockForward;
    var w := RunTurns(founder, Start(writers, writable, created), turns);
    RunAccounted(founder, writers, writable, created, turns);
    RunForward(founder, writers, writable, created, turns, until);
    UntilIsLater(created, turns, until);
    NetBound(created, w.uses, until);
    HourlyRate(until - created);
  }

  lemma UntilIsLater(created: int, turns: seq<Turn>, until: int)
    requires ClockForward(created, turns, until)
    ensures created <= until
  {
  }

  lemma HourlyRate(ms: int)
    ensures Earned(BUDGET, ms) == 16.0 * (ms as real / 1000.0) / 3600.0
  {
  }

  /** What uses of the bucket net to, by any later time. */
  lemma NetBound(created: int, uses: seq<Use>, until: int)
    requires Forward(created, uses) && created <= until && (uses != [] ==> uses[|uses| - 1].now <= until)
    ensures Net(BUDGET, Bucket(BUDGET.capacity, created), uses) as real <= 16.0 + Earned(BUDGET, until - created)
  {
    hide Net, After, Earned, Forward;
    var b := Bucket(BUDGET.capacity, created);
    Conservation(BUDGET, b, uses);
    TokensBounded(BUDGET, b, uses);
    var last := After(BUDGET, b, uses).lastRefill;
    EarnedAdds(BUDGET, until - last, last - created);
  }

  /** A use of the bucket since which the budget of 16 and 16 an hour has less than one token left. */
  ghost predicate SpentSince(w: World, i: nat, now: int)
    requires i < |w.uses|
  {
    var before := if w.uses[i].refund then w.uses[..i + 1] else w.uses[..i];
    16.0 + 16.0 / 3600.0 * ((now - w.uses[i].now) as real / 1000.0)
      - (Net(BUDGET, NewBucket(w), w.uses) - Net(BUDGET, NewBucket(w), before)) as real < 1.0
  }

  /**
   * The other side of the rate bound: under any interleaving, an evaluation that finds its key is no writer is rejected for
   * want of a token exactly when the budget was spent on ops appended and evaluations under way, counted from the bucket's
   * creation or from some earlier use.
   */
  lemma RateLimitedIff(founder: string, writers: map<string, string>, writable: bool, created: int, turns: seq<Turn>,
                       i: nat, now: int, read: nat)
    requires var w := RunTurns(founder, Start(writers, writable, created), turns);
      && i < |w.calls| && w.calls[i].phase == Deduping && read < |w.views|
      && w.calls[i].key != founder && w.calls[i].key !in w.views[read]
    ensures var w := RunTurns(founder, Start(writers, writable, created), turns);
      Next(founder, w, Resume(i, now, read)).calls[i].phase == Done(Rejected) <==>
        || 16.0 + 16.0 / 3600.0 * ((now - created) as real / 1000.0) - (|w.appended| + Holders(w.calls)) as real < 1.0
        || exists j :: 0 <= j < |w.uses| && SpentSince(w, j, now)
  {
    hide RunTurns, Net, After, Holders, RepliesTrue, Allows, LeftSince;
    var w := RunTurns(founder, Start(writers, writable, created), turns);
    RunAccounted(founder, writers, writable, created, turns);
    AllowsIff(BUDGET, NewBucket(w), w.uses, now);
    forall j | 0 <= j < |w.uses| ensures SpentSince(w, j, now) <==> LeftSince(BUDGET, NewBucket(w), w.uses, j, now) < 1.0 {
      SpentIs(w, j, now);
    }
  }

  lemma SpentIs(w: World, j: nat, now: int)
    requires j < |w.uses|
    ensures SpentSince(w, j, now) <==> LeftSince(BUDGET, NewBucket(w), w.uses, j, now) < 1.0
  {
    hide Net;
  }

  // ─── An evaluation nothing interrupts ───────────────────────────

  /** One call run on for a number of turns, at one clock reading and over one view. */
  function RunOn(founder: string, w: World, i: nat, now: int, read: nat, times: nat): World {
    if times == 0 then w else Next(founder, RunOn(founder, w, i, now, read, times - 1), Resume(i, now, read))
  }

  /**
   * Run on without interruption, the interleaved evaluation gives what `EvaluateAdmissionRequest` does: everyone who is a
   * writer is told so, and a new key under the cap of 64 is admitted as long as there is a token.
   */
  lemma RunsThrough(founder: string, w: World, req: AdmissionRequest, expected: string, now: int, read: nat)
    requires read < |w.views| && w.writable && req.v == 1 && req.wants == "writer"
    requires IsKey(ToLower(req.writerKey)) && IsKey(ToLower(req.proof)) && ToLower(req.proof) == expected
    ensures
      var key, writers, i := ToLower(req.writerKey), w.views[read], |w.calls|;
      var r := RunOn(founder, Next(founder, w, Arrive(req, true, expected)), i, now, read, 5);
      && |r.calls| == i + 1
      && if key == founder || key in writers then
           r.calls[i].phase == Done(Admitted) && r.appended == w.appended && r.uses == w.uses
         else if !Allows(BUDGET, BucketNow(w), now) then
           r.calls[i].phase == Done(Rejected) && r.appended == w.appended && r.uses == w.uses + [Use(now, false)]
         else if |writers| < 64 then
           r.calls[i].phase == Done(Admitted) && r.appended == w.appended + [key] && r.uses == w.uses + [Use(now, false)]
         else
           r.calls[i].phase == Done(Rejected) && r.appended == w.appended && r.uses == w.uses + [Use(now, false), Use(now, true)]
  {
    var i := |w.calls|;
    EvaluatedIff(founder, w, req, true, expected);
    hide ToLower, IsWriterKey, Allows, BucketNow, IsKey;
    var w1 := Next(founder, w, Arrive(req, true, expected));
    assert w1.calls[i] == Call(ToLower(req.writerKey), Deduping) && |w1.calls| == i + 1;
    SameBucket(w, w1);
    FromDeduping(founder, w1, i, now, read);
  }

  lemma FromDeduping(founder: string, w: World, i: nat, now: int, read: nat)
    requires i < |w.calls| && read < |w.views| && w.writable && w.calls[i].phase == Deduping
    ensures
      var key, writers := w.calls[i].key, w.views[read];
      var r := RunOn(founder, w, i, now, read, 5);
      && |r.calls| == |w.calls|
      && if key == founder || key in writers then
           r.calls[i].phase == Done(Admitted) && r.appended == w.appended && r.uses == w.uses
         else if !Allows(BUDGET, BucketNow(w), now) then
           r.calls[i].phase == Done(Rejected) && r.appended == w.appended && r.uses == w.uses + [Use(now, false)]
         else if |writers| < 64 then
           r.calls[i].phase == Done(Admitted) && r.appended == w.appended + [key] && r.uses == w.uses + [Use(now, false)]
         else
           r.calls[i].phase == Done(Rejected) && r.appended == w.appended && r.uses == w.uses + [Use(now, false), Use(now, true)]
  {
    RunOnSteps(founder, w, i, now, read);
    hide Allows, BucketNow, RunOn;
  }

  lemma SameBucket(w: World, w': World)
    requires w'.uses == w.uses && w'.created == w.created
    ensures BucketNow(w') == BucketNow(w)
  {
  }

  /** The five stretches one after the other. */
  lemma RunOnSteps(founder: string, w: World, i: nat, now: int, read: nat)
    ensures var t := Resume(i, now, read);
      RunOn(founder, w, i, now, read, 5) == Next(founder, Next(founder, Next(founder, Next(founder, Next(founder, w, t), t), t), t), t)
  {
    hide Next;
    assert RunOn(founder, w, i, now, read, 1) == Next(founder, w, Resume(i, now, read));
    assert RunOn(founder, w, i, now, read, 2) == Next(founder, RunOn(founder, w, i, now, read, 1), Resume(i, now, read));
    assert RunOn(founder, w, i, now, read, 3) == Next(founder, RunOn(founder, w, i, now, read, 2), Resume(i, now, read));
    assert RunOn(founder, w, i, now, read, 4) == Next(founder, RunOn(founder, w, i, now, read, 3), Resume(i, now, read));
  }

  /**
   * A race lost after the token was spent: an evaluation that then finds its key among the writers is answered "admitted"
   * and gives its token back, without an append.
   */
  lemma LostRaceRefunds(founder: string, w: World, i: nat, now: int, read: nat)
    requires i < |w.calls| && read < |w.views| && w.calls[i].phase == Checking && w.calls[i].key in w.views[read]
    ensures var r := Next(founder, Next(founder, w, Resume(i, now, read)), Resume(i, now, read));
      r == w.(calls := w.calls[i := Call(w.calls[i].key, Done(Admitted))], uses := w.uses + [Use(now, true)])
  {
    hide Allows, BucketNow;
  }

  /**
   * One evaluation run through without another in between, against the live store and bucket: a token is
   * durably spent only for an appended op, and nothing at all happens without a proof.
   */
  method EvaluateAdmissionRequest(store: EventStores.EventStore, req: AdmissionRequest, ready: bool, expected: string,
                                  bucket: TokenBucket, now: int)
    returns (reply: Reply)
    modifies store`appended, bucket
    ensures
      var key, v := ToLower(req.writerKey), old(store.Snapshot());
      if !ProofAccepted(req, expected) || !(store.localKey == store.base.founder || store.localKey in store.writers) || !ready then
        reply == Rejected && store.appended == old(store.appended) && bucket.State() == old(bucket.State())
      else if key == store.base.founder || key in v.writers then
        reply == Admitted && store.appended == old(store.appended) && bucket.State() == old(bucket.State())
      else if !Allows(bucket.limit, old(bucket.State()), now) then
        reply == Rejected && store.appended == old(store.appended)
        && bucket.State() == Refilled(bucket.limit, old(bucket.State()), now)
      else if |v.writers| < MAX_WRITERS then
        reply == Admitted && store.appended == old(store.appended) + [AddWriterOp(key, None)]
        && bucket.State() == Consumed(bucket.limit, old(bucket.State()), now)
      else
        reply == Rejected && store.appended == old(store.appended)
        && bucket.State() == Refunded(bucket.limit, Consumed(bucket.limit, old(bucket.State()), now), now)
    ensures req.v != 1 || req.wants != "writer" || !IsKey(ToLower(req.writerKey)) || ToLower(req.proof) != expected ==>
      reply == Rejected && store.appended == old(store.appended) && bucket.State() == old(bucket.State())
    ensures
      var key, tokens := ToLower(req.writerKey), old(bucket.tokens + bucket.limit.refillRate * ((now - bucket.lastRefill) as real / 1000.0));
      && req.v == 1 && req.wants == "writer" && IsKey(key) && IsKey(ToLower(req.proof)) && ToLower(req.proof) == expected
      && ready && (store.localKey == store.base.founder || store.localKey in store.writers) && key != store.base.founder && key !in store.writers && |store.writers| < 64
      && tokens >= 1.0 && bucket.limit.capacity >= 1.0 ==>
        reply == Admitted && store.appended == old(store.appended) + [AddWriterOp(key, None)]
  {
    hide ToLower;
    if req.v != ADMISSION_VERSION || req.wants != "writer" {
      return Rejected;
    }
    var writerKey := ToLower(req.writerKey);
    if !IsWriterKey(writerKey) {
      return Rejected;
    }
    if !IsWriterKey(ToLower(req.proof)) {
      return Rejected;
    }
    if !store.Writable() || !ready {
      return Rejected;
    }
    if ToLower(req.proof) != expected {
      return Rejected;
    }
    if writerKey == store.base.founder || writerKey in store.writers {
      return Admitted;
    }
    var allowed := bucket.Consume(now);
    if !allowed {
      return Rejected;
    }
    LowerTwice(req.writerKey);
    var result := store.AdmitWriter(writerKey);
    if result == EventStores.Appended {
      return Admitted;
    }
    bucket.Refund(now);
    reply := if result == EventStores.AlreadyAdmitted then Admitted else Rejected;
  }

  lemma {:induction false} LowerTwice(s: string)
    ensures ToLower(ToLower(s)) == ToLower(s)
  {
    if s != [] {
      LowerTwice(s[1..]);
    }
  }
}
