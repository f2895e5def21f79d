/** Acknowledgements and convergence of the whole system, read off each key's lane. */
module ClusterDelivery {
  import opened Messages
  import opened Clusters
  import opened ClusterProjection
  import K = LaneCounting

  // ----- positions in the projected network -----

  function PlaceOf(mode: Mode, route: seq<nat>, key: string, net: seq<Env>, i: nat): nat
    requires i <= |net|
  {
    |ProjectNet(mode, route, key, net[..i])|
  }

  lemma ImageAt(mode: Mode, route: seq<nat>, key: string, net: seq<Env>, i: nat)
    requires i < |net| && Relevant(key, route, net[i])
    ensures var p := PlaceOf(mode, route, key, net, i);
            && p < |ProjectNet(mode, route, key, net)|
            && ProjectNet(mode, route, key, net)[p] == Relabel(mode, route, net[i].item)
  {
    ProjectNetWithout(mode, route, key, net, i);
  }

  lemma PlacesDiffer(mode: Mode, route: seq<nat>, key: string, net: seq<Env>, i: nat, j: nat)
    requires i < j <= |net| && Relevant(key, route, net[i])
    ensures PlaceOf(mode, route, key, net, i) < PlaceOf(mode, route, key, net, j)
  {
    var a, b := net[..i], net[i..j];
    assert net[..j] == a + b;
    ProjectNetParts(mode, route, key, a, b);
    assert b == [net[i]] + b[1..];
    ProjectNetParts(mode, route, key, [net[i]], b[1..]);
    ProjectNetOne(mode, route, key, net[i]);
  }

  lemma {:induction false} ImageHasOrigin(mode: Mode, route: seq<nat>, key: string, net: seq<Env>, x: Item)
    returns (env: Env)
    requires x in ProjectNet(mode, route, key, net)
    ensures env in net && Relevant(key, route, env) && Relabel(mode, route, env.item) == x
  {
    if Relevant(key, route, net[0]) && Relabel(mode, route, net[0].item) == x {
      env := net[0];
    } else {
      assert x in ProjectNet(mode, route, key, net[1..]);
      env := ImageHasOrigin(mode, route, key, net[1..], x);
    }
  }

  // ----- acknowledgements -----

  predicate AckOf(env: Env, key: string, v: nat) {
    env.key == key && K.AckOf(env.item, v)
  }

  /** Without duplication no write of the key is acknowledged to its client twice. */
  lemma ClusterAckedAtMostOnce(cfg: Config, route: seq<nat>, direct: bool, key: string,
                               tr: seq<Cluster>, steps: seq<Step>, k: nat, v: nat, i: nat, j: nat)
    requires RouteOk(cfg, route, direct) && IsRun(cfg, tr, steps) && RoutedRun(cfg, route, key, steps)
    requires k < |tr| && !cfg.duplicating && i < j < |tr[k].net|
    ensures !(AckOf(tr[k].net[i], key, v) && AckOf(tr[k].net[j], key, v))
  {
    var net := tr[k].net;
    if AckOf(net[i], key, v) && AckOf(net[j], key, v) {
      ClusterRefinesLane(cfg, route, direct, key, tr, steps);
      ImageAt(cfg.mode, route, key, net, i);
      ImageAt(cfg.mode, route, key, net, j);
      PlacesDiffer(cfg.mode, route, key, net, i, j);
      K.AckedAtMostOnce(LaneCfg(cfg, route, direct), ProjectRun(cfg, route, key, tr),
                        ProjectSteps(cfg, route, key, tr, steps), k, v,
                        PlaceOf(cfg.mode, route, key, net, i), PlaceOf(cfg.mode, route, key, net, j));
      assert false;
    }
  }

  // ----- quiescence -----

  /** Nothing of the key is outstanding any more. */
  ghost predicate AtRest(c: Cluster, key: string) {
    forall env :: env in c.net && env.key == key ==> Inert(env.item)
  }

  lemma RestProjects(cfg: Config, route: seq<nat>, key: string, c: Cluster)
    requires AtRest(c, key) && forall j :: 0 <= j < |route| ==> route[j] < |c.stores|
    ensures K.Quiescent(Project(cfg, route, key, c))
  {
    var s := Project(cfg, route, key, c);
    forall m | m in s.net ensures Inert(m) {
      var env := ImageHasOrigin(cfg.mode, route, key, c.net, m);
      assert Inert(env.item);
    }
  }

  /** A client has its ACK for version v of the key exactly when the lane says so. */
  lemma AckProjects(mode: Mode, route: seq<nat>, key: string, net: seq<Env>, v: nat)
    ensures (exists env :: env in net && env.key == key && env.item.ClientAcked? && env.item.version == v)
       <==> (exists m :: m in ProjectNet(mode, route, key, net) && m.ClientAcked? && m.version == v)
  {
    if m :| m in ProjectNet(mode, route, key, net) && m.ClientAcked? && m.version == v {
      var env := ImageHasOrigin(mode, route, key, net, m);
      assert env.item.ClientAcked?;
    }
    if env :| env in net && env.key == key && env.item.ClientAcked? && env.item.version == v {
      ProjectNetMember(mode, route, key, net, env);
    }
  }

  /** With neither loss nor duplication, once the key has settled each write that asked for an ACK has one. */
  lemma ClusterAckedExactlyOnce(cfg: Config, route: seq<nat>, direct: bool, key: string,
                                tr: seq<Cluster>, steps: seq<Step>, k: nat, v: nat)
    requires RouteOk(cfg, route, direct) && IsRun(cfg, tr, steps) && RoutedRun(cfg, route, key, steps)
    requires k < |tr| && !cfg.duplicating && !cfg.lossy && AtRest(tr[k], key)
    requires 1 <= v <= |LogOf(tr[k].logs, key)|
    ensures LogOf(tr[k].logs, key)[v-1].client != ""
       <==> exists env :: env in tr[k].net && env.key == key && env.item.ClientAcked? && env.item.version == v
  {
    ClusterRefinesLane(cfg, route, direct, key, tr, steps);
    RestProjects(cfg, route, key, tr[k]);
    K.AckedExactlyOnce(LaneCfg(cfg, route, direct), ProjectRun(cfg, route, key, tr),
                       ProjectSteps(cfg, route, key, tr, steps), k, v);
    AckProjects(cfg.mode, route, key, tr[k].net, v);
  }

  /**
   Convergence of the whole system: with neither loss nor duplication, once the key has settled
   its tail (and in CRAQ every node) holds the head's last write as committed and latest seen.
   */
  lemma ClusterConverges(cfg: Config, route: seq<nat>, direct: bool, key: string,
                         tr: seq<Cluster>, steps: seq<Step>, k: nat, x: nat)
    requires RouteOk(cfg, route, direct) && IsRun(cfg, tr, steps) && RoutedRun(cfg, route, key, steps)
    requires k < |tr| && !cfg.duplicating && !cfg.lossy && AtRest(tr[k], key)
    requires x in route && (cfg.mode == CRAQ || x == Last(route))
    ensures x < |tr[k].stores|
    ensures var ks, log := CellOf(tr[k].stores[x], key).ks, LogOf(tr[k].logs, key);
            && ks.commVersion == |log| && ks.seenVersion == |log|
            && (log != [] ==> ks.commValue == log[|log|-1].value)
            && ks.pending == map[]
  {
    ClusterRefinesLane(cfg, route, direct, key, tr, steps);
    RestProjects(cfg, route, key, tr[k]);
    var p := Pos(route, x);
    if x == Last(route) { PosOfRoute(route, |route| - 1); }
    K.Convergence(LaneCfg(cfg, route, direct), ProjectRun(cfg, route, key, tr),
                  ProjectSteps(cfg, route, key, tr, steps), k, p);
  }

  // ----- message counts -----

  /** The step delivers a Propagate (or a predecessor Ack) RPC for the key. */
  predicate DeliversFor(c: Cluster, step: Step, key: string, acks: bool) {
    step.Fire? && step.i < |c.net| && c.net[step.i].key == key
    && if acks then c.net[step.i].item.AckSent? else c.net[step.i].item.PropSent?
  }

  /** How many such RPCs the first k steps delivered. */
  function DeliveriesFor(tr: seq<Cluster>, steps: seq<Step>, key: string, k: nat, acks: bool): nat
    requires k <= |steps| < |tr|
  {
    if k == 0 then 0
    else DeliveriesFor(tr, steps, key, k - 1, acks) + if DeliversFor(tr[k-1], steps[k-1], key, acks) then 1 else 0
  }

  /** Propagates and ACKs of the key only go to nodes of its route. */
  lemma MessagesStayOnRoute(cfg: Config, route: seq<nat>, direct: bool, key: string, c: Cluster, env: Env)
    requires RouteOk(cfg, route, direct) && Known(cfg, route, key, c) && env in c.net && env.key == key
    requires env.item.PropSent? || env.item.AckSent?
    ensures Relevant(key, route, env)
  {
    assert Placed(cfg, env.item);
    if cfg.mode == CROWN { assert CrownItem(route, env); }
  }

  lemma DeliveryProjects(cfg: Config, route: seq<nat>, direct: bool, key: string, c: Cluster, step: Step, acks: bool)
    requires RouteOk(cfg, route, direct) && Known(cfg, route, key, c) && Enabled(cfg, c, step)
    ensures DeliversFor(c, step, key, acks)
       <==> K.Delivers(Project(cfg, route, key, c), ProjectStep(cfg, route, key, c, step), acks)
  {
    if step.Fire? {
      var env := c.net[step.i];
      if Relevant(key, route, env) {
        ImageAt(cfg.mode, route, key, c.net, step.i);
      } else if env.key == key && (env.item.PropSent? || env.item.AckSent?) {
        MessagesStayOnRoute(cfg, route, direct, key, c, env);
      }
    }
  }

  lemma {:induction false} DeliveriesProject(cfg: Config, route: seq<nat>, direct: bool, key: string,
                                             tr: seq<Cluster>, steps: seq<Step>, k: nat, acks: bool)
    requires RouteOk(cfg, route, direct) && IsRun(cfg, tr, steps) && RoutedRun(cfg, route, key, steps) && k <= |steps|
    ensures DeliveriesFor(tr, steps, key, k, acks) ==
            K.Deliveries(ProjectRun(cfg, route, key, tr), ProjectSteps(cfg, route, key, tr, steps), k, acks)
  {
    if k > 0 {
      DeliveriesProject(cfg, route, direct, key, tr, steps, k - 1, acks);
      RunStaysKnown(cfg, route, direct, key, tr, steps, k - 1);
      DeliveryProjects(cfg, route, direct, key, tr[k-1], steps[k-1], acks);
    }
  }

  /**
   Exact message counts of the whole system: with neither loss nor duplication, a key with W
   numbered writes has settled after exactly W propagates to each node of its route but the
   first, and in CRAQ as many predecessor ACKs.
   */
  lemma ClusterMessageCounts(cfg: Config, route: seq<nat>, direct: bool, key: string,
                             tr: seq<Cluster>, steps: seq<Step>, k: nat)
    requires RouteOk(cfg, route, direct) && IsRun(cfg, tr, steps) && RoutedRun(cfg, route, key, steps)
    requires k < |tr| && !cfg.duplicating && !cfg.lossy && AtRest(tr[k], key)
    ensures DeliveriesFor(tr, steps, key, k, false) == |LogOf(tr[k].logs, key)| * (|route| - 1)
    ensures cfg.mode == CRAQ ==> DeliveriesFor(tr, steps, key, k, true) == |LogOf(tr[k].logs, key)| * (|route| - 1)
  {
    ClusterRefinesLane(cfg, route, direct, key, tr, steps);
    RestProjects(cfg, route, key, tr[k]);
    DeliveriesProject(cfg, route, direct, key, tr, steps, k, false);
    DeliveriesProject(cfg, route, direct, key, tr, steps, k, true);
    K.ExactMessageCounts(LaneCfg(cfg, route, direct), ProjectRun(cfg, route, key, tr),
                         ProjectSteps(cfg, route, key, tr, steps), k);
  }
}
