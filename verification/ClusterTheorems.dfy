/** What clients of the whole system can rely on, for each of the three designs. */
module ClusterTheorems {
  import opened KeyStates
  import opened Messages
  import opened Clusters
  import opened ClusterProjection
  import L = Lanes
  import I = LaneInvariant
  import R = LaneReads

  /** The committed state of the key at the end of its route, the node reads are measured by. */
  function TailState(route: seq<nat>, key: string, c: Cluster): KeyState {
    if route != [] && Last(route) < |c.stores| then CellOf(c.stores[Last(route)], key).ks else FRESH
  }

  lemma TailIsProjected(cfg: Config, route: seq<nat>, key: string, c: Cluster)
    requires route != [] && forall j :: 0 <= j < |route| ==> route[j] < |c.stores|
    ensures L.Tail(Project(cfg, route, key, c)).ks == TailState(route, key, c)
  {
  }

  /** A finished read appears in the lane as a finished read. */
  lemma ReadIsProjected(cfg: Config, route: seq<nat>, direct: bool, key: string, tr: seq<Cluster>, steps: seq<Step>,
                        j: nat, env: Env)
    requires RouteOk(cfg, route, direct) && IsRun(cfg, tr, steps) && RoutedRun(cfg, route, key, steps) && j < |tr|
    requires env in tr[j].net && env.key == key && env.item.ReadDone?
    ensures Relabel(cfg.mode, route, env.item) in Project(cfg, route, key, tr[j]).net
    ensures env.item.at in route
  {
    RunStaysKnown(cfg, route, direct, key, tr, steps, j);
    assert Placed(cfg, env.item) && (cfg.mode == CROWN ==> CrownItem(route, env));
    ProjectNetMember(cfg.mode, route, key, tr[j].net, env);
  }

  /**
   Linearizability of the whole system. Any finished read of the key, at any node, returned
   the version and value committed at the key's tail at some instant k at which the read had
   been invoked. A read invoked after instant i returns at least every version acknowledged
   and every version read by then.
   */
  lemma ClusterReadsAreLinearizable(cfg: Config, route: seq<nat>, direct: bool, key: string,
                                    tr: seq<Cluster>, steps: seq<Step>, j: nat, env: Env)
    requires RouteOk(cfg, route, direct) && IsRun(cfg, tr, steps) && RoutedRun(cfg, route, key, steps) && j < |tr|
    requires env in tr[j].net && env.key == key && env.item.ReadDone?
    ensures exists k: nat :: k <= j && env.item.rid < tr[k].clock
              && TailState(route, key, tr[k]).commVersion == env.item.version
              && TailState(route, key, tr[k]).commValue == env.item.value
    ensures Logged(tr[j], key, env.item.version, env.item.value)
  {
    var lane := LaneCfg(cfg, route, direct);
    var ltr, lsteps := ProjectRun(cfg, route, key, tr), ProjectSteps(cfg, route, key, tr, steps);
    ClusterRefinesLane(cfg, route, direct, key, tr, steps);
    ReadIsProjected(cfg, route, direct, key, tr, steps, j, env);
    R.ReadsAreLinearizable(lane, ltr, lsteps, j, Relabel(cfg.mode, route, env.item));
    var k: nat :| k <= j && R.TailAt(ltr, k, env.item.rid, env.item.version)
      && L.Tail(ltr[k]).ks.commValue == env.item.value;
    TailIsProjected(cfg, route, key, tr[k]);
  }

  /** The head numbered a write of `value` to the key as version v. */
  ghost predicate Logged(c: Cluster, key: string, v: nat, value: string) {
    1 <= v <= |LogOf(c.logs, key)| && LogOf(c.logs, key)[v-1].value == value
  }

  /** The client of the key's version v has been, or is being, told that it is committed. */
  ghost predicate AckedFor(c: Cluster, key: string, v: nat) {
    exists env ::
      env in c.net && env.key == key && (env.item.ClientAck? || env.item.ClientAcked?) && env.item.version == v
  }

  /** An acknowledged version is covered by the key's tail from then on. */
  lemma ClusterAckMeansCommitted(cfg: Config, route: seq<nat>, direct: bool, key: string,
                                 tr: seq<Cluster>, steps: seq<Step>, i: nat, j: nat, v: nat)
    requires RouteOk(cfg, route, direct) && IsRun(cfg, tr, steps) && RoutedRun(cfg, route, key, steps)
    requires i <= j < |tr| && AckedFor(tr[i], key, v)
    ensures 1 <= v <= TailState(route, key, tr[j]).commVersion
  {
    var lane := LaneCfg(cfg, route, direct);
    var ltr, lsteps := ProjectRun(cfg, route, key, tr), ProjectSteps(cfg, route, key, tr, steps);
    ClusterRefinesLane(cfg, route, direct, key, tr, steps);
    var a :| a in tr[i].net && a.key == key && (a.item.ClientAck? || a.item.ClientAcked?) && a.item.version == v;
    ProjectNetMember(cfg.mode, route, key, tr[i].net, a);
    assert R.Acknowledged(ltr[i], v);
    R.AckMeansCommitted(lane, ltr, lsteps, i, j, v);
    TailIsProjected(cfg, route, key, tr[j]);
  }

  lemma ClusterReadsRespectRealTime(cfg: Config, route: seq<nat>, direct: bool, key: string,
                                    tr: seq<Cluster>, steps: seq<Step>, i: nat, j: nat, env: Env)
    requires RouteOk(cfg, route, direct) && IsRun(cfg, tr, steps) && RoutedRun(cfg, route, key, steps) && i <= j < |tr|
    requires env in tr[j].net && env.key == key && env.item.ReadDone? && tr[i].clock <= env.item.rid
    ensures forall v: nat :: AckedFor(tr[i], key, v) ==> v <= env.item.version
    ensures forall r :: r in tr[i].net && r.key == key && r.item.ReadDone? ==> r.item.version <= env.item.version
  {
    var lane := LaneCfg(cfg, route, direct);
    var ltr, lsteps := ProjectRun(cfg, route, key, tr), ProjectSteps(cfg, route, key, tr, steps);
    ClusterRefinesLane(cfg, route, direct, key, tr, steps);
    ReadIsProjected(cfg, route, direct, key, tr, steps, j, env);
    R.ReadsRespectRealTime(lane, ltr, lsteps, i, j, Relabel(cfg.mode, route, env.item));
    forall v: nat | AckedFor(tr[i], key, v) ensures v <= env.item.version {
      var a :| a in tr[i].net && a.key == key && (a.item.ClientAck? || a.item.ClientAcked?) && a.item.version == v;
      ProjectNetMember(cfg.mode, route, key, tr[i].net, a);
      assert R.Acknowledged(ltr[i], v);
    }
    forall r | r in tr[i].net && r.key == key && r.item.ReadDone? ensures r.item.version <= env.item.version {
      ReadIsProjected(cfg, route, direct, key, tr, steps, i, r);
      assert Relabel(cfg.mode, route, r.item) in ltr[i].net;
    }
  }

  /**
   CROWN commit locality: of all nodes only the last on the key's route ever has a committed
   version for it, so a read reaching any other node fails instead of returning stale data.
   */
  lemma CrownCommitLocality(cfg: Config, route: seq<nat>, key: string, tr: seq<Cluster>, steps: seq<Step>, k: nat,
                            x: nat, rid: nat)
    requires RouteOk(cfg, route, false) && cfg.mode == CROWN
    requires IsRun(cfg, tr, steps) && RoutedRun(cfg, route, key, steps) && k < |tr|
    requires x < |cfg.nodes| && x != Last(route)
    ensures |tr[k].stores| == |cfg.nodes|
    ensures CellOf(tr[k].stores[x], key).ks.commVersion == 0
    ensures EffectOf(cfg, tr[k], Env(key, "", ReadCall(x, rid))).out == [ReadFailed(x, rid, NotFound)]
  {
    RunStaysKnown(cfg, route, false, key, tr, steps, k);
    if x in route {
      var s := Project(cfg, route, key, tr[k]);
      var p := Pos(route, x);
      assert s.cells[p] == CellOf(tr[k].stores[x], key);
      assert I.CellOk(CHAIN, s.log, s.cells[p]);
      assert s.cells[p].cleaned == {};
    }
  }

  /** In CROWN only the last node of the route answers reads of the key. */
  lemma CrownReadsAtTail(cfg: Config, route: seq<nat>, key: string, tr: seq<Cluster>, steps: seq<Step>, j: nat,
                         env: Env)
    requires RouteOk(cfg, route, false) && cfg.mode == CROWN
    requires IsRun(cfg, tr, steps) && RoutedRun(cfg, route, key, steps) && j < |tr|
    requires env in tr[j].net && env.key == key && env.item.ReadDone?
    ensures env.item.at == Last(route)
  {
    ReadIsProjected(cfg, route, false, key, tr, steps, j, env);
    RunStaysKnown(cfg, route, false, key, tr, steps, j);
    assert I.ItemOk(LaneCfg(cfg, route, false), Project(cfg, route, key, tr[j]), Relabel(cfg.mode, route, env.item));
  }

  /** A write is refused for its destination exactly by a CHAIN or CRAQ node that is not the head. */
  lemma WriteRefusedIff(mode: Mode, node: NodeCfg, origin: string, ks: KeyState, at: nat, req: Req)
    ensures Section(mode, node, origin, ks, WriteCall(at, req)).out == [WriteRejected(at, req)]
       <==> mode != CROWN && !node.isHead
  {
  }

  /** A read is refused for its destination exactly by a CHAIN node that is not the tail. */
  lemma ReadRefusedIff(mode: Mode, node: NodeCfg, origin: string, ks: KeyState, at: nat, rid: nat)
    ensures Section(mode, node, origin, ks, ReadCall(at, rid)).out == [ReadFailed(at, rid, NotTail)]
       <==> mode == CHAIN && !node.isTail
  {
  }
}
