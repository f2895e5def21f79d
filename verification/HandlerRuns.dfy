/**
 A handler that nothing interleaves with is a stretch of a cluster run: firing its item, and
 then whatever it leaves at its own node, reaches the state and the RPCs that Handlers.RunAlone
 gives. So what is proved of all cluster runs holds of the handler classes' methods.
 */
module HandlerRuns {
  import opened Wrappers
  import opened KeyStates
  import opened Messages
  import opened Clusters
  import opened Handlers
  import L = Lanes

  /** A handler's result as the key's state and the RPCs and replies it handed over, in order. */
  datatype Outcome = Outcome(ks: KeyState, out: seq<Env>)

  function Trail(mode: Mode, node: NodeCfg, env: Env, ks: KeyState): Outcome
    decreases Rank(env.item), 1, 0
  {
    var e := Section(mode, Queueing(node), env.origin, ks, env.item);
    SectionDescends(mode, Queueing(node), env.origin, ks, env.item);
    TrailAll(mode, node, env.key, e.origin, e.out, Rank(env.item), e.ks)
  }

  function TrailAll(mode: Mode, node: NodeCfg, key: string, origin: string, out: seq<Item>, rank: nat,
                    ks: KeyState): Outcome
    requires forall x :: x in out && Internal(x) ==> Rank(x) < rank
    decreases rank, 0, |out|
  {
    if out == [] then Outcome(ks, [])
    else
      var env := Env(key, origin, out[0]);
      var first := if Internal(out[0]) then Trail(mode, node, env, ks) else Outcome(ks, [env]);
      var rest := TrailAll(mode, node, key, origin, out[1..], rank, first.ks);
      Outcome(rest.ks, first.out + rest.out)
  }

  // ----- the same result, sorted into queues -----

  function PostAll(l: Local, out: seq<Env>): Local
    decreases |out|
  {
    if out == [] then l else PostAll(Post(l, out[0]), out[1..])
  }

  lemma {:induction false} PostAllParts(l: Local, a: seq<Env>, b: seq<Env>)
    ensures PostAll(l, a + b) == PostAll(PostAll(l, a), b)
    decreases |a|
  {
    if a == [] {
      assert a + b == b;
    } else {
      assert (a + b)[1..] == a[1..] + b;
      PostAllParts(Post(l, a[0]), a[1..], b);
    }
  }

  lemma {:induction false} PostAllState(l: Local, ks: KeyState, out: seq<Env>)
    ensures PostAll(l.(ks := ks), out) == PostAll(l, out).(ks := ks)
    decreases |out|
  {
    if out != [] { PostAllState(Post(l, out[0]), ks, out[1..]); }
  }

  lemma {:induction false} TrailIsRunAlone(mode: Mode, node: NodeCfg, env: Env, l: Local)
    ensures RunAlone(mode, node, env, l) ==
            PostAll(l, Trail(mode, node, env, l.ks).out).(ks := Trail(mode, node, env, l.ks).ks)
    decreases Rank(env.item), 1, 0
  {
    var e := Section(mode, Queueing(node), env.origin, l.ks, env.item);
    SectionDescends(mode, Queueing(node), env.origin, l.ks, env.item);
    TrailAllIsRunAll(mode, node, env.key, e.origin, e.out, Rank(env.item), l.(ks := e.ks));
    PostAllState(l, e.ks, Trail(mode, node, env, l.ks).out);
  }

  lemma {:induction false} TrailAllIsRunAll(mode: Mode, node: NodeCfg, key: string, origin: string, out: seq<Item>,
                                            rank: nat, l: Local)
    requires forall x :: x in out && Internal(x) ==> Rank(x) < rank
    ensures var t := TrailAll(mode, node, key, origin, out, rank, l.ks);
            RunAll(mode, node, key, origin, out, rank, l) == PostAll(l, t.out).(ks := t.ks)
    decreases rank, 0, |out|
  {
    if out != [] {
      var env := Env(key, origin, out[0]);
      var first := if Internal(out[0]) then Trail(mode, node, env, l.ks) else Outcome(l.ks, [env]);
      var rest := TrailAll(mode, node, key, origin, out[1..], rank, first.ks);
      var l1 := RunItem(mode, node, env, l);
      if Internal(out[0]) { TrailIsRunAlone(mode, node, env, l); }
      assert l1 == PostAll(l, first.out).(ks := first.ks);
      RunFirst(mode, node, key, origin, out, rank, l);
      TrailAllIsRunAll(mode, node, key, origin, out[1..], rank, l1);
      PostAllParts(l, first.out, rest.out);
      PostAllState(PostAll(l, first.out), first.ks, rest.out);
    }
  }

  // ----- stretches of a run -----

  ghost predicate FiresAt(cfg: Config, c: Cluster, step: Step, c': Cluster) {
    step.Fire? && |c.stores| == |cfg.nodes| && Enabled(cfg, c, step) && c' == Apply(cfg, c, step)
  }

  ghost predicate Stretch(cfg: Config, tr: seq<Cluster>, steps: seq<Step>) {
    && |tr| == |steps| + 1
    && (forall k :: 0 <= k < |tr| ==> |tr[k].stores| == |cfg.nodes|)
    && forall k :: 0 <= k < |steps| ==> FiresAt(cfg, tr[k], steps[k], tr[k+1])
  }

  ghost predicate Leads(cfg: Config, c: Cluster, c': Cluster) {
    exists tr, steps :: Stretch(cfg, tr, steps) && tr[0] == c && tr[|steps|] == c'
  }

  lemma LeadsNowhere(cfg: Config, c: Cluster)
    requires |c.stores| == |cfg.nodes|
    ensures Leads(cfg, c, c)
  {
    assert Stretch(cfg, [c], []);
  }

  lemma LeadsOneStep(cfg: Config, c: Cluster, i: nat)
    requires |c.stores| == |cfg.nodes| && Enabled(cfg, c, Fire(i))
    ensures Leads(cfg, c, Apply(cfg, c, Fire(i)))
  {
    var tr, steps := [c, Apply(cfg, c, Fire(i))], [Fire(i)];
    assert Stretch(cfg, tr, steps) && tr[0] == c && tr[|steps|] == Apply(cfg, c, Fire(i));
  }

  lemma StretchOn(cfg: Config, tr: seq<Cluster>, steps: seq<Step>, more: seq<Cluster>, moreSteps: seq<Step>)
    requires Stretch(cfg, tr, steps) && Stretch(cfg, more, moreSteps) && more[0] == tr[|steps|]
    ensures Stretch(cfg, tr + more[1..], steps + moreSteps)
            && (tr + more[1..])[|steps + moreSteps|] == more[|moreSteps|]
  {
    var all, allSteps, n := tr + more[1..], steps + moreSteps, |steps|;
    forall k | 0 <= k < |allSteps| ensures FiresAt(cfg, all[k], allSteps[k], all[k+1]) {
      if k < n {
        assert FiresAt(cfg, tr[k], steps[k], tr[k+1]);
      } else {
        assert all[k] == more[k - n] && all[k+1] == more[k - n + 1];
        assert FiresAt(cfg, more[k - n], moreSteps[k - n], more[k - n + 1]);
      }
    }
  }

  lemma LeadsOn(cfg: Config, c: Cluster, d: Cluster, e: Cluster)
    requires Leads(cfg, c, d) && Leads(cfg, d, e)
    ensures Leads(cfg, c, e)
  {
    var tr, steps :| Stretch(cfg, tr, steps) && tr[0] == c && tr[|steps|] == d;
    var more, moreSteps :| Stretch(cfg, more, moreSteps) && more[0] == d && more[|moreSteps|] == e;
    StretchOn(cfg, tr, steps, more, moreSteps);
    assert (tr + more[1..])[0] == c;
  }

  /** From c to c' only the key's cell at node x changed, to hold ks, and these items are outstanding. */
  ghost predicate Served(c: Cluster, c': Cluster, x: nat, key: string, ks: KeyState, net: multiset<Env>) {
    && |c'.stores| == |c.stores| && x < |c.stores|
    && CellOf(c'.stores[x], key).ks == ks
    && (forall y, k :: 0 <= y < |c.stores| && (y != x || k != key) ==>
          CellOf(c'.stores[y], k) == CellOf(c.stores[y], k))
    && (forall k :: k != key ==> LogOf(c'.logs, k) == LogOf(c.logs, k))
    && multiset(c'.net) == net
  }

  lemma ServedOn(c: Cluster, d: Cluster, e: Cluster, x: nat, key: string, ks: KeyState, ks': KeyState,
                 net: multiset<Env>, net': multiset<Env>)
    requires Served(c, d, x, key, ks, net) && Served(d, e, x, key, ks', net')
    ensures Served(c, e, x, key, ks', net')
  {
    forall y, k | 0 <= y < |c.stores| && (y != x || k != key) ensures CellOf(e.stores[y], k) == CellOf(c.stores[y], k) {
      assert CellOf(d.stores[y], k) == CellOf(c.stores[y], k);
    }
  }

  lemma WithoutOne(net: seq<Env>, i: nat)
    requires i < |net|
    ensures multiset(net) == multiset(L.Without(net, i)) + multiset{net[i]}
  {
    assert net == net[..i] + ([net[i]] + net[i+1..]);
  }

  // ----- a handler's sections, fired one after the other -----

  /** The queued ACK is asked for only where there is a predecessor. */
  ghost predicate AckDestination(mode: Mode, node: NodeCfg, m: Item) {
    node.pred.Some? || ((mode == CRAQ ==> node.isHead) && !m.PredAckDue?)
  }

  lemma SectionAsked(mode: Mode, node: NodeCfg, origin: string, ks: KeyState, m: Item)
    requires AckDestination(mode, node, m)
    ensures Section(mode, Queueing(node), origin, ks, m) == Section(mode, node, origin, ks, m)
    ensures forall x :: x in Section(mode, node, origin, ks, m).out ==> AckDestination(mode, node, x)
  {
  }

  lemma SectionStays(mode: Mode, node: NodeCfg, origin: string, ks: KeyState, m: Item)
    ensures forall x :: x in Section(mode, node, origin, ks, m).out && Internal(x) ==> At(x) == At(m)
  {
  }

  ghost predicate Startable(cfg: Config, c: Cluster, x: nat, env: Env) {
    && |c.stores| == |cfg.nodes| && x < |cfg.nodes| && At(env.item) == Some(x) && !Inert(env.item)
    && AckDestination(cfg.mode, cfg.nodes[x], env.item)
  }

  lemma FiresOnce(cfg: Config, c: Cluster, i: nat, x: nat)
    requires i < |c.net| && Startable(cfg, c, x, c.net[i])
    ensures Enabled(cfg, c, Fire(i)) && Leads(cfg, c, Apply(cfg, c, Fire(i)))
    ensures var e := EffectOf(cfg, c, c.net[i]);
            Served(c, Apply(cfg, c, Fire(i)), x, c.net[i].key, e.ks,
                   multiset(L.Without(c.net, i)) + multiset(Addressed(c.net[i].key, e.origin, e.out)))
  {
    LeadsOneStep(cfg, c, i);
  }

  lemma {:induction false} AloneLeads(cfg: Config, c: Cluster, i: nat, x: nat) returns (c': Cluster)
    requires i < |c.net| && Startable(cfg, c, x, c.net[i])
    ensures Leads(cfg, c, c')
    ensures var t := Trail(cfg.mode, cfg.nodes[x], c.net[i], CellOf(c.stores[x], c.net[i].key).ks);
            Served(c, c', x, c.net[i].key, t.ks, multiset(L.Without(c.net, i)) + multiset(t.out))
    decreases Rank(c.net[i].item), 1, 0
  {
    var env, ks := c.net[i], CellOf(c.stores[x], c.net[i].key).ks;
    var node := cfg.nodes[x];
    var e := EffectOf(cfg, c, env);
    SectionAsked(cfg.mode, node, env.origin, ks, env.item);
    SectionStays(cfg.mode, node, env.origin, ks, env.item);
    SectionDescends(cfg.mode, node, env.origin, ks, env.item);
    FiresOnce(cfg, c, i, x);
    var d := Apply(cfg, c, Fire(i));
    var base := multiset(L.Without(c.net, i));
    c' := AllLead(cfg, d, x, env.key, e.origin, e.out, Rank(env.item), base);
    LeadsOn(cfg, c, d, c');
    var t := Trail(cfg.mode, node, env, ks);
    ServedOn(c, d, c', x, env.key, e.ks, t.ks,
             base + multiset(Addressed(env.key, e.origin, e.out)), base + multiset(t.out));
  }

  /** The network when item i, with what it left, has been served and `last` is still to come. */
  lemma Exchanged(net: seq<Env>, i: nat, rest: seq<Env>, base: multiset<Env>, first: seq<Env>, net': seq<Env>,
                  last: seq<Env>)
    requires i < |net| && multiset(net) == base + multiset([net[i]] + rest)
    requires multiset(net') == multiset(L.Without(net, i)) + multiset(first)
    ensures multiset(net') == (base + multiset(first)) + multiset(rest)
    ensures (base + multiset(first)) + multiset(last) == base + multiset(first + last)
  {
    WithoutOne(net, i);
    assert multiset([net[i]] + rest) == multiset{net[i]} + multiset(rest);
    CancelOne(multiset(L.Without(net, i)), base + multiset(rest), net[i]);
  }

  lemma CancelOne(a: multiset<Env>, b: multiset<Env>, env: Env)
    requires a + multiset{env} == b + multiset{env}
    ensures a == b
  {
    forall e ensures a[e] == b[e] {
      assert (a + multiset{env})[e] == (b + multiset{env})[e];
    }
  }

  lemma Kept(env: Env, rest: seq<Env>, base: multiset<Env>, last: seq<Env>)
    ensures base + multiset([env] + rest) == (base + multiset{env}) + multiset(rest)
    ensures (base + multiset{env}) + multiset(last) == base + multiset([env] + last)
  {
    assert multiset([env] + rest) == multiset{env} + multiset(rest);
    assert multiset([env] + last) == multiset{env} + multiset(last);
  }

  ghost predicate Continues(cfg: Config, x: nat, out: seq<Item>, rank: nat)
    requires x < |cfg.nodes|
  {
    forall m :: m in out ==>
      AckDestination(cfg.mode, cfg.nodes[x], m) && (Internal(m) ==> At(m) == Some(x) && Rank(m) < rank)
  }

  lemma {:induction false} AllLead(cfg: Config, c: Cluster, x: nat, key: string, origin: string, out: seq<Item>,
                                   rank: nat, base: multiset<Env>) returns (c': Cluster)
    requires |c.stores| == |cfg.nodes| && x < |cfg.nodes| && Continues(cfg, x, out, rank)
    requires multiset(c.net) == base + multiset(Addressed(key, origin, out))
    ensures Leads(cfg, c, c')
    ensures var t := TrailAll(cfg.mode, cfg.nodes[x], key, origin, out, rank, CellOf(c.stores[x], key).ks);
            Served(c, c', x, key, t.ks, base + multiset(t.out))
    decreases rank, 0, |out|
  {
    var envs, ks := Addressed(key, origin, out), CellOf(c.stores[x], key).ks;
    if out == [] {
      LeadsNowhere(cfg, c);
      return c;
    }
    var env, rest := Env(key, origin, out[0]), Addressed(key, origin, out[1..]);
    assert envs == [env] + rest;
    if Internal(out[0]) {
      assert multiset(c.net)[env] > 0;
      var i :| 0 <= i < |c.net| && c.net[i] == env;
      var d := AloneLeads(cfg, c, i, x);
      var first := Trail(cfg.mode, cfg.nodes[x], env, ks);
      var last := TrailAll(cfg.mode, cfg.nodes[x], key, origin, out[1..], rank, first.ks);
      Exchanged(c.net, i, rest, base, first.out, d.net, last.out);
      c' := AllLead(cfg, d, x, key, origin, out[1..], rank, base + multiset(first.out));
      LeadsOn(cfg, c, d, c');
      ServedOn(c, d, c', x, key, first.ks, last.ks, multiset(d.net), base + multiset(first.out + last.out));
    } else {
      Kept(env, rest, base, TrailAll(cfg.mode, cfg.nodes[x], key, origin, out[1..], rank, ks).out);
      c' := AllLead(cfg, c, x, key, origin, out[1..], rank, base + multiset{env});
    }
  }

  /**
   Every run of the cluster in which an RPC waits at a node can go on by serving it in one
   piece: the node's state for the key becomes what the handler leaves, nothing else changes,
   and the RPC is replaced by those the handler starts. Sorted into queues these are exactly
   what RunAlone gives.
   */
  lemma HandlersAreRuns(cfg: Config, tr: seq<Cluster>, steps: seq<Step>, i: nat, x: nat, l: Local)
    requires IsRun(cfg, tr, steps)
    requires var c := tr[|steps|];
             i < |c.net| && Startable(cfg, c, x, c.net[i]) && l.ks == CellOf(c.stores[x], c.net[i].key).ks
    ensures exists tr', steps', out ::
      var c, c' := tr[|steps|], Last(tr');
      && IsRun(cfg, tr', steps') && tr <= tr' && steps <= steps'
      && Served(c, c', x, c.net[i].key, RunAlone(cfg.mode, cfg.nodes[x], c.net[i], l).ks,
                multiset(L.Without(c.net, i)) + multiset(out))
      && RunAlone(cfg.mode, cfg.nodes[x], c.net[i], l) ==
         PostAll(l, out).(ks := CellOf(c'.stores[x], c.net[i].key).ks)
  {
    var c := tr[|steps|];
    var c' := AloneLeads(cfg, c, i, x);
    TrailIsRunAlone(cfg.mode, cfg.nodes[x], c.net[i], l);
    var out := Trail(cfg.mode, cfg.nodes[x], c.net[i], l.ks).out;
    var more, moreSteps :| Stretch(cfg, more, moreSteps) && more[0] == c && more[|moreSteps|] == c';
    var tr', steps' := RunGoesOn(cfg, tr, steps, more, moreSteps);
    assert Last(tr') == c';
  }

  function Last(tr: seq<Cluster>): Cluster {
    if tr == [] then Cluster([], [], map[], 0) else tr[|tr|-1]
  }

  lemma RunGoesOn(cfg: Config, tr: seq<Cluster>, steps: seq<Step>, more: seq<Cluster>, moreSteps: seq<Step>)
    returns (tr': seq<Cluster>, steps': seq<Step>)
    requires IsRun(cfg, tr, steps) && Stretch(cfg, more, moreSteps) && more[0] == tr[|steps|]
    ensures IsRun(cfg, tr', steps') && tr <= tr' && steps <= steps' && Last(tr') == more[|moreSteps|]
  {
    tr', steps' := tr + more[1..], steps + moreSteps;
    forall k | 0 <= k < |steps'|
      ensures Enabled(cfg, tr'[k], steps'[k]) && tr'[k+1] == Apply(cfg, tr'[k], steps'[k])
    {
      if k >= |steps| {
        assert tr'[k] == more[k - |steps|] && tr'[k+1] == more[k - |steps| + 1];
        assert FiresAt(cfg, more[k - |steps|], moreSteps[k - |steps|], more[k - |steps| + 1]);
      } else {
        assert tr'[k] == tr[k] && tr'[k+1] == tr[k+1];
      }
    }
  }
}
