/** Who the run admits and what untrusted (optimistic) blocks cannot touch. */
module Governance {
  import opened NostrEvents
  import opened Consensus
  import opened Effects
  import opened Sets

  lemma PutKeepsRules(b: Base, v: View, e: Event)
    ensures var w := Put(b, v, e); w.deletion == v.deletion && w.writers == v.writers && w.config == v.config
  {
    PutEffect(b, v, e);
  }

  /** Only an add_writer op of a writer touches the writers, and only a founder's set_config the config. */
  lemma ApplyNodeRules(b: Base, v: View, n: Node)
    ensures var w := ApplyNode(b, v, n);
      && w.writers == (if n.value.Some? && !n.optimistic && n.value.value.AddWriterOp? && AdmitsWriter(b, v, n.value.value.key)
                       then v.writers[n.value.value.key := n.from] else v.writers)
      && w.config == (if n.value.Some? && !n.optimistic && n.value.value.SetConfigOp? && n.from == b.founder
                      then v.config[n.value.value.key := n.value.value.value] else v.config)
  {
    hide Put, DeleteTargets, Evict, Targets, Valid, Storable, AdmitsWriter;
    if n.value.Some? {
      match n.value.value
      case PutOp(e, _) => PutEffect(b, v, e);
      case DeleteOp(d, _) =>
        DeleteTargetsEffect(v, d, Targets(d.tags));
        PutEffect(b, DeleteTargets(v, d, Targets(d.tags)), d);
      case ExpiryDeleteOp(ids, _) => EvictEffect(v, ids, true);
      case PruneDeleteOp(ids, _) => EvictEffect(v, ids, false);
      case _ =>
    }
  }

  // ─── Writers ────────────────────────────────────────────────────

  /** The keys handed to `host.addWriter`, in order. */
  function AddedKeys(calls: seq<HostCall>): seq<string> {
    if calls == [] then []
    else AddedKeys(calls[..|calls| - 1]) + (if calls[|calls| - 1].AddWriter? then [calls[|calls| - 1].key] else [])
  }

  lemma {:induction false} AddedKeysSnoc(calls: seq<HostCall>, c: HostCall)
    ensures AddedKeys(calls + [c]) == AddedKeys(calls) + (if c.AddWriter? then [c.key] else [])
  {
    assert (calls + [c])[..|calls|] == calls;
  }

  /** The writers map is exactly what the host was told: each key once, never as an indexer, never the founder. */
  ghost predicate WritersMatchHost(b: Base, s: State) {
    var added := AddedKeys(s.calls);
    && Distinct(added)
    && (forall k :: k in s.view.writers <==> k in added)
    && |s.view.writers| == |added| <= MAX_WRITERS
    && (forall k :: k in s.view.writers ==> IsWriterKey(k) && k != b.founder)
    && (forall c :: c in s.calls && c.AddWriter? ==> !c.indexer)
  }

  lemma StepWriters(b: Base, s: State, n: Node)
    requires WritersMatchHost(b, s)
    ensures WritersMatchHost(b, Step(b, s, n))
    ensures forall k :: k in s.view.writers ==>
      k in Step(b, s, n).view.writers && Step(b, s, n).view.writers[k] == s.view.writers[k]
  {
    hide ApplyNode, Presents, IsWriterKey, HonorsOptimistic, AddedKeys;
    if !s.halted {
      var t := Step(b, s, n);
      ApplyNodeRules(b, s.view, n);
      if |t.calls| > |s.calls| {
        var c := t.calls[|s.calls|];
        assert t.calls == s.calls + [c];
        AddedKeysSnoc(s.calls, c);
        if c.AddWriter? {
          assert |t.view.writers| == |s.view.writers| + 1;
        }
      } else {
        assert t.calls == s.calls;
      }
    }
  }

  /** In every run from the empty view: at most 64 writers, only ever growing, exactly those the host was told to add. */
  lemma {:induction false} RunWriters(b: Base, first: seq<Node>, second: seq<Node>)
    ensures WritersMatchHost(b, Run(b, INITIAL, first))
    ensures forall k :: k in Run(b, INITIAL, first).view.writers ==>
      && k in Run(b, INITIAL, first + second).view.writers
      && Run(b, INITIAL, first + second).view.writers[k] == Run(b, INITIAL, first).view.writers[k]
    decreases |first| + |second|, |second|
  {
    hide Step, WritersMatchHost;
    if second != [] {
      var init := second[..|second| - 1];
      RunWriters(b, first, init);
      RunWriters(b, first + init, []);
      StepWriters(b, Run(b, INITIAL, first + init), second[|second| - 1]);
      assert (first + second)[..|first + second| - 1] == first + init;
    } else {
      assert first + second == first;
      if first != [] {
        RunWriters(b, first[..|first| - 1], []);
        StepWriters(b, Run(b, INITIAL, first[..|first| - 1]), first[|first| - 1]);
      } else {
        NoWriters(b);
      }
    }
  }

  lemma NoWriters(b: Base)
    ensures WritersMatchHost(b, INITIAL)
  {
  }

  /** Writers' nodes come only from the founder or from keys admitted before them. */
  ghost predicate Authorized(b: Base, log: seq<Node>) {
    forall i :: 0 <= i < |log| && log[i].value.Some? && !log[i].optimistic ==>
      log[i].from == b.founder || log[i].from in Run(b, INITIAL, log[..i]).view.writers
  }

  /** Following `addedBy` for at most `steps` hops arrives at the founder. */
  predicate Rooted(writers: map<string, string>, founder: string, key: string, steps: nat)
    decreases steps
  {
    key == founder || (steps > 0 && key in writers && Rooted(writers, founder, writers[key], steps - 1))
  }

  ghost predicate AddedInOrder(b: Base, s: State) {
    InOrder(s.view.writers, b.founder, AddedKeys(s.calls))
  }

  /** Every added key was added by the founder or by a key added before it. */
  ghost predicate InOrder(writers: map<string, string>, founder: string, added: seq<string>) {
    forall i :: 0 <= i < |added| ==> AddedEarlier(writers, founder, added, i)
  }

  predicate AddedEarlier(writers: map<string, string>, founder: string, added: seq<string>, i: nat)
    requires i < |added|
  {
    added[i] in writers && (writers[added[i]] == founder || writers[added[i]] in added[..i])
  }

  lemma InOrderSnoc(writers: map<string, string>, founder: string, added: seq<string>, key: string, from: string)
    requires InOrder(writers, founder, added) && key !in added && (from == founder || from in added)
    ensures InOrder(writers[key := from], founder, added + [key])
  {
    var added' := added + [key];
    var writers' := writers[key := from];
    forall i | 0 <= i < |added'| ensures AddedEarlier(writers', founder, added', i) {
      if i < |added| {
        assert AddedEarlier(writers, founder, added, i);
        assert added'[i] == added[i] && added[i] in added && added'[..i] == added[..i];
      } else {
        assert added'[..i] == added;
      }
    }
  }

  lemma StepAddedInOrder(b: Base, s: State, n: Node)
    requires WritersMatchHost(b, s) && AddedInOrder(b, s)
    requires n.value.Some? && !n.optimistic ==> n.from == b.founder || n.from in s.view.writers
    ensures AddedInOrder(b, Step(b, s, n))
  {
    hide ApplyNode, Presents, IsWriterKey, HonorsOptimistic, AddedKeys, InOrder;
    if !s.halted {
      var t := Step(b, s, n);
      ApplyNodeRules(b, s.view, n);
      if |t.calls| > |s.calls| {
        var c := t.calls[|s.calls|];
        assert t.calls == s.calls + [c];
        AddedKeysSnoc(s.calls, c);
        if c.AddWriter? {
          InOrderSnoc(s.view.writers, b.founder, AddedKeys(s.calls), c.key, n.from);
          assert AddedKeys(t.calls) == AddedKeys(s.calls) + [c.key];
          assert t.view.writers == s.view.writers[c.key := n.from];
        } else {
          assert AddedKeys(s.calls) + [] == AddedKeys(s.calls);
        }
      } else {
        assert t.calls == s.calls;
      }
    }
  }

  lemma {:induction false} RunAddedInOrder(b: Base, log: seq<Node>)
    requires Authorized(b, log)
    ensures AddedInOrder(b, Run(b, INITIAL, log))
  {
    hide Step, AddedInOrder, WritersMatchHost;
    if log == [] {
      NoneAdded(b);
    } else {
      var init := log[..|log| - 1];
      assert forall i :: 0 <= i < |init| ==> init[i] == log[i] && init[..i] == log[..i];
      RunAddedInOrder(b, init);
      RunWriters(b, init, []);
      StepAddedInOrder(b, Run(b, INITIAL, init), log[|log| - 1]);
    }
  }

  lemma NoneAdded(b: Base)
    ensures AddedInOrder(b, INITIAL)
  {
  }

  lemma {:induction false} OrderRoots(b: Base, s: State, i: nat)
    requires AddedInOrder(b, s) && i < |AddedKeys(s.calls)|
    ensures Rooted(s.view.writers, b.founder, AddedKeys(s.calls)[i], i + 1)
  {
    hide AddedKeys;
    var added := AddedKeys(s.calls);
    assert AddedEarlier(s.view.writers, b.founder, added, i);
    var adder := s.view.writers[added[i]];
    if adder != b.founder {
      var j :| 0 <= j < i && added[j] == adder;
      OrderRoots(b, s, j);
      RootedMore(s.view.writers, b.founder, adder, j + 1, i);
    }
  }

  lemma {:induction false} RootedMore(writers: map<string, string>, founder: string, key: string, m: nat, n: nat)
    requires Rooted(writers, founder, key, m) && m <= n
    ensures Rooted(writers, founder, key, n)
    decreases m
  {
    if key != founder {
      RootedMore(writers, founder, writers[key], m - 1, n - 1);
    }
  }

  /** When only the founder and admitted writers append, the `addedBy` links form a tree rooted at the founder. */
  lemma AdmissionsFormTree(b: Base, log: seq<Node>, key: string)
    requires Authorized(b, log)
    ensures var w := Run(b, INITIAL, log).view.writers;
      b.founder !in w && (key in w ==> Rooted(w, b.founder, key, |w|))
  {
    RunAddedInOrder(b, log);
    RunWriters(b, log, []);
    var s := Run(b, INITIAL, log);
    if key in s.view.writers {
      var i :| 0 <= i < |AddedKeys(s.calls)| && AddedKeys(s.calls)[i] == key;
      OrderRoots(b, s, i);
      RootedMore(s.view.writers, b.founder, key, i + 1, |s.view.writers|);
    }
  }

  // ─── Optimistic blocks ──────────────────────────────────────────

  /** An optimistic node never halts the run and never changes writers, config or tombstones; it admits no one. */
  lemma OptimisticConfined(b: Base, s: State, n: Node)
    requires n.optimistic
    ensures var t := Step(b, s, n);
      && t.halted == s.halted
      && t.view.writers == s.view.writers && t.view.config == s.view.config && t.view.deletion == s.view.deletion
      && (t.calls == s.calls || t.calls == s.calls + [AckWriter(n.from)])
  {
    hide Put, Presents;
    if n.value.Some? && n.value.value.PutOp? {
      PutKeepsRules(b, s.view, n.value.value.event);
    }
  }

  /** A founder op that turns optimistic writes on. */
  predicate OptsIn(b: Base, n: Node) {
    n.value.Some? && !n.optimistic && n.from == b.founder && n.value.value.SetConfigOp? &&
    n.value.value.key == ACCEPT_OPTIMISTIC && n.value.value.value
  }

  function WithoutOptimistic(log: seq<Node>): seq<Node> {
    if log == [] then []
    else WithoutOptimistic(log[..|log| - 1]) + (if log[|log| - 1].optimistic then [] else [log[|log| - 1]])
  }

  /** Unless the founder opts in, deleting every optimistic block from a log changes nothing it produces. */
  lemma {:induction false} OptimisticErasure(b: Base, log: seq<Node>)
    requires forall i :: 0 <= i < |log| ==> !OptsIn(b, log[i])
    ensures Run(b, INITIAL, log) == Run(b, INITIAL, WithoutOptimistic(log))
    ensures !AcceptsOptimistic(Run(b, INITIAL, log).view)
  {
    hide ApplyOp, Put, Presents, HostCalls;
    if log != [] {
      var init, n := log[..|log| - 1], log[|log| - 1];
      OptimisticErasure(b, init);
      var s := Run(b, INITIAL, init);
      ApplyNodeRules(b, s.view, n);
      if n.optimistic {
        IgnoredWhenClosed(b, s, n);
        assert WithoutOptimistic(log) == WithoutOptimistic(init);
      } else {
        var kept := WithoutOptimistic(log);
        assert kept == WithoutOptimistic(init) + [n];
        assert kept[..|kept| - 1] == WithoutOptimistic(init);
      }
    }
  }

  lemma IgnoredWhenClosed(b: Base, s: State, n: Node)
    requires n.optimistic && !AcceptsOptimistic(s.view)
    ensures Step(b, s, n) == s
  {
    hide Put, Storable;
  }
}
