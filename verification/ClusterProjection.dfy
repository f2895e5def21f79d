/**
 Seen through one key, a cluster is a lane: the nodes on the key's route, in route order, run
 CHAIN or CRAQ for that key, and steps for other keys change nothing. In CROWN the route
 starts at the key's head and follows successors to the key's tail.
 */
module ClusterProjection {
  import opened Wrappers
  import opened KeyStates
  import opened Messages
  import opened Clusters
  import L = Lanes
  import I = LaneInvariant
  import ChainReplication
  import CraqReplication
  import CrownReplication
  import Text

  ghost predicate Distinct(route: seq<nat>) {
    forall i, j :: 0 <= i < j < |route| ==> route[i] != route[j]
  }

  function Last(route: seq<nat>): nat
    requires route != []
  {
    route[|route|-1]
  }

  /** The nodes of `route` are linked by their successors and predecessors. */
  ghost predicate Linked(cfg: Config, route: seq<nat>)
    requires Within(cfg, route)
  {
    forall j {:trigger cfg.nodes[route[j]]} :: 0 <= j < |route| - 1 ==> cfg.nodes[route[j]].succ == Some(route[j+1])
  }

  /** The role and neighbours of the node at place j of a chain. */
  ghost predicate LinearAt(node: NodeCfg, route: seq<nat>, direct: bool, j: nat)
    requires j < |route|
  {
    && node.isHead == (j == 0) && node.isTail == (j == |route| - 1)
    && node.pred == (if j == 0 then None else Some(route[j-1]))
    && node.succ == (if j == |route| - 1 then None else Some(route[j+1]))
    && node.tailStub == (if direct then Some(Last(route)) else None)
  }

  /** CHAIN and CRAQ: all nodes in chain order, with their roles and neighbours. */
  ghost predicate LinearRoute(cfg: Config, route: seq<nat>, direct: bool)
    requires Within(cfg, route)
  {
    && (forall x :: 0 <= x < |cfg.nodes| ==> x in route)
    && (forall j {:trigger cfg.nodes[route[j]]} :: 0 <= j < |route| ==> LinearAt(cfg.nodes[route[j]], route, direct, j))
  }

  /** CROWN: from a head along successors to the node numbered just before it. */
  ghost predicate RingRoute(cfg: Config, route: seq<nat>)
    requires Within(cfg, route)
  {
    && |cfg.nodes| <= Text.INT_MAX
    && (forall x :: 0 <= x < |cfg.nodes| ==> cfg.nodes[x].index == x && cfg.nodes[x].ringSize == |cfg.nodes|)
    && Linked(cfg, route)
    && Last(route) == CrownReplication.TailIndex(route[0], |cfg.nodes|)
  }

  ghost predicate Within(cfg: Config, route: seq<nat>) {
    route != [] && forall j :: 0 <= j < |route| ==> route[j] < |cfg.nodes|
  }

  ghost predicate RouteOk(cfg: Config, route: seq<nat>, direct: bool) {
    && Within(cfg, route) && Distinct(route)
    && if cfg.mode == CROWN then RingRoute(cfg, route) && !direct else LinearRoute(cfg, route, direct)
  }

  function LaneCfg(cfg: Config, route: seq<nat>, direct: bool): L.Cfg {
    L.Cfg(if cfg.mode == CRAQ then CRAQ else CHAIN, |route|, direct, cfg.lossy, cfg.duplicating)
  }

  function Pos(route: seq<nat>, x: nat): (p: nat)
    ensures p <= |route| && (p < |route| ==> route[p] == x) && (p == |route| ==> x !in route)
  {
    if route == [] then 0 else if route[0] == x then 0 else 1 + Pos(route[1..], x)
  }

  lemma PosOfRoute(route: seq<nat>, j: nat)
    requires Distinct(route) && j < |route|
    ensures Pos(route, route[j]) == j
  {
  }

  /** Node numbers become positions; a CROWN read refused off the tail is CHAIN's refusal. */
  function Relabel(mode: Mode, route: seq<nat>, m: Item): Item {
    match m
    case WriteCall(at, req) => WriteCall(Pos(route, at), req)
    case WriteAssigned(at, v, req) => WriteAssigned(Pos(route, at), v, req)
    case WriteRecorded(at, v, req) => WriteRecorded(Pos(route, at), v, req)
    case WriteRejected(at, req) => WriteRejected(Pos(route, at), req)
    case PropSent(at, v, req) => PropSent(Pos(route, at), v, req)
    case PropRecorded(at, v, req) => PropRecorded(Pos(route, at), v, req)
    case TailMarked(at, v, req) => TailMarked(Pos(route, at), v, req)
    case PredAckDue(at, v, req) => PredAckDue(Pos(route, at), v, req)
    case ClientAck(v, req) => m
    case ClientAcked(v, req) => m
    case AckSent(at, v, req) => AckSent(Pos(route, at), v, req)
    case AckMarked(at, v, req) => AckMarked(Pos(route, at), v, req)
    case ReadCall(at, rid) => ReadCall(Pos(route, at), rid)
    case ReadClean(at, rid, clean) => ReadClean(Pos(route, at), rid, clean)
    case QuerySent(at, home, rid, clean) => QuerySent(Pos(route, at), Pos(route, home), rid, clean)
    case QueryReply(home, rid, clean, q) => QueryReply(Pos(route, home), rid, clean, q)
    case ReadDone(at, rid, v, value) => ReadDone(Pos(route, at), rid, v, value)
    case ReadFailed(at, rid, error) =>
      var p := Pos(route, at);
      ReadFailed(p, rid, if mode == CROWN && p + 1 < |route| then NotTail else error)
  }

  predicate OnRoute(route: seq<nat>, m: Item) {
    At(m).Some? ==> At(m).value in route
  }

  predicate Relevant(key: string, route: seq<nat>, env: Env) {
    env.key == key && OnRoute(route, env.item)
  }

  function ProjectNet(mode: Mode, route: seq<nat>, key: string, net: seq<Env>): seq<Item> {
    if net == [] then []
    else (if Relevant(key, route, net[0]) then [Relabel(mode, route, net[0].item)] else [])
         + ProjectNet(mode, route, key, net[1..])
  }

  function Project(cfg: Config, route: seq<nat>, key: string, c: Cluster): L.Lane
    requires forall j :: 0 <= j < |route| ==> route[j] < |c.stores|
  {
    L.Lane(seq(|route|, j requires 0 <= j < |route| => CellOf(c.stores[route[j]], key)),
           ProjectNet(cfg.mode, route, key, c.net),
           LogOf(c.logs, key),
           c.clock)
  }

  function ProjectStep(cfg: Config, route: seq<nat>, key: string, c: Cluster, step: Step): L.Step {
    match step
    case Fire(i) =>
      if i < |c.net| && Relevant(key, route, c.net[i])
      then L.Fire(|ProjectNet(cfg.mode, route, key, c.net[..i])|) else L.Idle(c.clock)
    case CallWrite(k, at, req) =>
      if k == key && at in route then L.CallWrite(Pos(route, at), req) else L.Idle(c.clock)
    case CallRead(k, at, rid) =>
      if k == key && at in route then L.CallRead(Pos(route, at), rid) else L.Idle(rid + 1)
    case Lose(i) =>
      if i < |c.net| && Relevant(key, route, c.net[i])
      then L.Lose(|ProjectNet(cfg.mode, route, key, c.net[..i])|) else L.Idle(c.clock)
    case Duplicate(i) =>
      if i < |c.net| && Relevant(key, route, c.net[i])
      then L.Duplicate(|ProjectNet(cfg.mode, route, key, c.net[..i])|) else L.Idle(c.clock)
  }

  // ----- projecting the network -----

  lemma {:induction false} ProjectNetParts(mode: Mode, route: seq<nat>, key: string, a: seq<Env>, b: seq<Env>)
    ensures ProjectNet(mode, route, key, a + b) == ProjectNet(mode, route, key, a) + ProjectNet(mode, route, key, b)
  {
    hide Relevant, Relabel;
    if a == [] {
      assert a + b == b;
    } else {
      assert (a + b)[1..] == a[1..] + b;
      ProjectNetParts(mode, route, key, a[1..], b);
    }
  }

  function Image(mode: Mode, route: seq<nat>, key: string, env: Env): seq<Item> {
    if Relevant(key, route, env) then [Relabel(mode, route, env.item)] else []
  }

  lemma ProjectNetOne(mode: Mode, route: seq<nat>, key: string, env: Env)
    ensures ProjectNet(mode, route, key, [env]) == Image(mode, route, key, env)
  {
    assert [env][1..] == [];
  }

  /** Removing an item removes its image, at the place its predecessors' images determine. */
  lemma ProjectNetWithout(mode: Mode, route: seq<nat>, key: string, net: seq<Env>, i: nat)
    requires i < |net|
    ensures var p := ProjectNet(mode, route, key, net);
            var j := |ProjectNet(mode, route, key, net[..i])|;
            if Relevant(key, route, net[i])
            then j < |p| && p[j] == Relabel(mode, route, net[i].item)
                 && ProjectNet(mode, route, key, L.Without(net, i)) == L.Without(p, j)
            else ProjectNet(mode, route, key, L.Without(net, i)) == p
  {
    var a, b := net[..i], net[i+1..];
    assert net == a + ([net[i]] + b);
    ProjectNetParts(mode, route, key, a, [net[i]] + b);
    ProjectNetParts(mode, route, key, [net[i]], b);
    ProjectNetOne(mode, route, key, net[i]);
    ProjectNetParts(mode, route, key, a, b);
  }

  lemma {:induction false} ProjectNetMember(mode: Mode, route: seq<nat>, key: string, net: seq<Env>, env: Env)
    requires env in net && Relevant(key, route, env)
    ensures Relabel(mode, route, env.item) in ProjectNet(mode, route, key, net)
  {
    if net[0] != env {
      assert env in net[1..];
      ProjectNetMember(mode, route, key, net[1..], env);
    }
  }

  // ----- what the cluster keeps besides the lane's invariant -----

  /** A CROWN item of a correctly routed key; every propagate names the route's first node. */
  ghost predicate CrownItem(route: seq<nat>, env: Env) {
    match env.item
    case WriteCall(at, _) => route != [] && at == route[0]
    case WriteAssigned(at, _, _) => route != [] && at == route[0]
    case WriteRecorded(at, _, _) => route != [] && at == route[0]
    case PropSent(at, _, _) => at in route && env.origin == Text.ToString(route[0])
    case PropRecorded(at, _, _) => at in route && env.origin == Text.ToString(route[0])
    case TailMarked(at, _, _) => at in route
    case ClientAck(_, _) => true
    case ClientAcked(_, _) => true
    case ReadCall(_, _) => true
    case ReadDone(at, _, _, _) => at in route
    case ReadFailed(_, _, _) => true
    case _ => false
  }

  ghost predicate Placed(cfg: Config, m: Item) {
    && (At(m).Some? ==> At(m).value < |cfg.nodes|)
    && (m.QuerySent? ==> m.home < |cfg.nodes|)
  }

  ghost predicate Known(cfg: Config, route: seq<nat>, key: string, c: Cluster) {
    && |c.stores| == |cfg.nodes|
    && (forall env :: env in c.net && env.key == key ==> Placed(cfg, env.item))
    && (cfg.mode == CROWN ==>
          && (forall env :: env in c.net && env.key == key ==> CrownItem(route, env))
          && (forall x :: 0 <= x < |c.stores| && x !in route ==> CellOf(c.stores[x], key) == L.EMPTY_CELL))
  }

  /** Client routing: a CROWN write of the key enters at the first node of its route. */
  ghost predicate Routed(cfg: Config, route: seq<nat>, key: string, step: Step) {
    cfg.mode == CROWN && step.CallWrite? && step.key == key ==> route != [] && step.at == route[0]
  }

  // ----- one section, on a node of the route and at its position -----

  /** The node's section and the position's section do the same, up to relabelling. */
  ghost predicate Alike(cfg: Config, route: seq<nat>, e: Effect, f: Effect) {
    && e.ks == f.ks && e.note == f.note && |e.out| == |f.out|
    && forall i {:trigger e.out[i]} :: 0 <= i < |e.out| ==>
         && Relabel(cfg.mode, route, e.out[i]) == f.out[i]
         && OnRoute(route, e.out[i]) && Placed(cfg, e.out[i])
  }

  ghost predicate AlikeAt(cfg: Config, route: seq<nat>, direct: bool, j: nat, origin: string, ks: KeyState, m: Item)
    requires j < |route| && route[j] < |cfg.nodes|
  {
    var lane := LaneCfg(cfg, route, direct);
    Alike(cfg, route, Section(cfg.mode, cfg.nodes[route[j]], origin, ks, m),
          L.Section(lane.mode, L.LinearNode(lane, j), "", ks, Relabel(cfg.mode, route, m)))
  }

  /** A neighbour named by node number, and the same neighbour by position. */
  ghost predicate SameNeighbour(cfg: Config, route: seq<nat>, a: Option<nat>, b: Option<nat>) {
    match a
    case None => b == None
    case Some(x) => x in route && x < |cfg.nodes| && b == Some(Pos(route, x))
  }

  /** A node's configuration and that of its position say the same. */
  ghost predicate Mirrors(cfg: Config, route: seq<nat>, node: NodeCfg, lin: NodeCfg) {
    && node.isHead == lin.isHead && node.isTail == lin.isTail
    && SameNeighbour(cfg, route, node.pred, lin.pred)
    && SameNeighbour(cfg, route, node.succ, lin.succ)
    && SameNeighbour(cfg, route, node.tailStub, lin.tailStub)
  }

  lemma LinearMirrors(cfg: Config, route: seq<nat>, direct: bool, j: nat)
    requires Within(cfg, route) && Distinct(route) && j < |route| && LinearAt(cfg.nodes[route[j]], route, direct, j)
    ensures Mirrors(cfg, route, cfg.nodes[route[j]], L.LinearNode(LaneCfg(cfg, route, direct), j))
  {
    PosOfRoute(route, |route| - 1);
    if j > 0 { PosOfRoute(route, j - 1); }
    if j < |route| - 1 { PosOfRoute(route, j + 1); }
  }

  lemma ChainWriteMirrored(cfg: Config, route: seq<nat>, node: NodeCfg, lin: NodeCfg, origin: string, ks: KeyState,
                           m: Item)
    requires cfg.mode == CHAIN && Mirrors(cfg, route, node, lin) && OnRoute(route, m) && Placed(cfg, m)
    requires m.WriteCall? || m.WriteAssigned? || m.PropSent?
    ensures Alike(cfg, route, ChainReplication.Section(node, origin, ks, m),
                  ChainReplication.Section(lin, "", ks, Relabel(CHAIN, route, m)))
  {
  }

  lemma ChainForwardMirrored(cfg: Config, route: seq<nat>, node: NodeCfg, lin: NodeCfg, origin: string, ks: KeyState,
                             m: Item)
    requires cfg.mode == CHAIN && Mirrors(cfg, route, node, lin) && OnRoute(route, m) && Placed(cfg, m)
    requires m.WriteRecorded? || m.PropRecorded?
    ensures Alike(cfg, route, ChainReplication.Section(node, origin, ks, m),
                  ChainReplication.Section(lin, "", ks, Relabel(CHAIN, route, m)))
  {
  }

  lemma ChainReadMirrored(cfg: Config, route: seq<nat>, node: NodeCfg, lin: NodeCfg, origin: string, ks: KeyState,
                          m: Item)
    requires cfg.mode == CHAIN && Mirrors(cfg, route, node, lin) && OnRoute(route, m) && Placed(cfg, m)
    requires !(m.WriteCall? || m.WriteAssigned? || m.WriteRecorded? || m.PropSent? || m.PropRecorded?)
    ensures Alike(cfg, route, ChainReplication.Section(node, origin, ks, m),
                  ChainReplication.Section(lin, "", ks, Relabel(CHAIN, route, m)))
  {
  }

  lemma CraqPropagateMirrored(cfg: Config, route: seq<nat>, node: NodeCfg, lin: NodeCfg, origin: string, ks: KeyState,
                              m: Item)
    requires cfg.mode == CRAQ && Mirrors(cfg, route, node, lin) && OnRoute(route, m) && Placed(cfg, m)
    requires m.WriteCall? || m.WriteAssigned? || m.WriteRecorded? || m.PropSent? || m.PropRecorded?
    ensures Alike(cfg, route, CraqReplication.Section(node, origin, ks, m),
                  CraqReplication.Section(lin, "", ks, Relabel(CRAQ, route, m)))
  {
  }

  lemma CraqReadMirrored(cfg: Config, route: seq<nat>, node: NodeCfg, lin: NodeCfg, origin: string, ks: KeyState,
                         m: Item)
    requires cfg.mode == CRAQ && node.isTail == lin.isTail && OnRoute(route, m) && Placed(cfg, m)
    requires m.ReadCall? || m.ReadClean?
    ensures Alike(cfg, route, CraqReplication.Section(node, origin, ks, m),
                  CraqReplication.Section(lin, "", ks, Relabel(CRAQ, route, m)))
  {
  }

  lemma CraqReplyMirrored(cfg: Config, route: seq<nat>, node: NodeCfg, lin: NodeCfg, origin: string, ks: KeyState,
                          m: Item)
    requires cfg.mode == CRAQ && OnRoute(route, m) && Placed(cfg, m) && m.QueryReply?
    ensures Alike(cfg, route, CraqReplication.Section(node, origin, ks, m),
                  CraqReplication.Section(lin, "", ks, Relabel(CRAQ, route, m)))
  {
  }

  lemma CraqQueryMirrored(cfg: Config, route: seq<nat>, node: NodeCfg, lin: NodeCfg, origin: string, ks: KeyState,
                          m: Item)
    requires cfg.mode == CRAQ && Mirrors(cfg, route, node, lin) && OnRoute(route, m) && Placed(cfg, m)
    requires m.QuerySent? && m.home in route
    ensures Alike(cfg, route, CraqReplication.Section(node, origin, ks, m),
                  CraqReplication.Section(lin, "", ks, Relabel(CRAQ, route, m)))
  {
  }

  lemma CraqTailMirrored(cfg: Config, route: seq<nat>, node: NodeCfg, lin: NodeCfg, origin: string, ks: KeyState,
                         m: Item)
    requires cfg.mode == CRAQ && Mirrors(cfg, route, node, lin) && OnRoute(route, m) && Placed(cfg, m)
    requires m.TailMarked? || m.PredAckDue?
    ensures Alike(cfg, route, CraqReplication.Section(node, origin, ks, m),
                  CraqReplication.Section(lin, "", ks, Relabel(CRAQ, route, m)))
  {
  }

  lemma CraqAckMirrored(cfg: Config, route: seq<nat>, node: NodeCfg, lin: NodeCfg, origin: string, ks: KeyState,
                        m: Item)
    requires cfg.mode == CRAQ && Mirrors(cfg, route, node, lin) && OnRoute(route, m) && Placed(cfg, m)
    requires m.AckSent? || m.AckMarked?
    ensures Alike(cfg, route, CraqReplication.Section(node, origin, ks, m),
                  CraqReplication.Section(lin, "", ks, Relabel(CRAQ, route, m)))
  {
  }

  lemma CraqMirrored(cfg: Config, route: seq<nat>, node: NodeCfg, lin: NodeCfg, origin: string, ks: KeyState, m: Item)
    requires cfg.mode == CRAQ && Mirrors(cfg, route, node, lin) && OnRoute(route, m) && Placed(cfg, m)
    requires !Inert(m) && !m.ClientAck?
    requires m.QuerySent? ==> m.home in route
    ensures Alike(cfg, route, CraqReplication.Section(node, origin, ks, m),
                  CraqReplication.Section(lin, "", ks, Relabel(CRAQ, route, m)))
  {
    match m
    case ReadCall(_, _) => CraqReadMirrored(cfg, route, node, lin, origin, ks, m);
    case ReadClean(_, _, _) => CraqReadMirrored(cfg, route, node, lin, origin, ks, m);
    case QuerySent(_, _, _, _) => CraqQueryMirrored(cfg, route, node, lin, origin, ks, m);
    case QueryReply(_, _, _, _) => CraqReplyMirrored(cfg, route, node, lin, origin, ks, m);
    case TailMarked(_, _, _) => CraqTailMirrored(cfg, route, node, lin, origin, ks, m);
    case PredAckDue(_, _, _) => CraqTailMirrored(cfg, route, node, lin, origin, ks, m);
    case AckSent(_, _, _) => CraqAckMirrored(cfg, route, node, lin, origin, ks, m);
    case AckMarked(_, _, _) => CraqAckMirrored(cfg, route, node, lin, origin, ks, m);
    case _ => CraqPropagateMirrored(cfg, route, node, lin, origin, ks, m);
  }

  lemma LinearSimulates(cfg: Config, route: seq<nat>, direct: bool, j: nat, origin: string, ks: KeyState, m: Item)
    requires RouteOk(cfg, route, direct) && cfg.mode != CROWN && j < |route|
    requires At(m) == Some(route[j]) && Placed(cfg, m) && !Inert(m)
    ensures AlikeAt(cfg, route, direct, j, origin, ks, m)
  {
    var node, lin := cfg.nodes[route[j]], L.LinearNode(LaneCfg(cfg, route, direct), j);
    assert Mirrors(cfg, route, node, lin) by { LinearMirrors(cfg, route, direct, j); }
    assert m.QuerySent? ==> m.home in route;
    if cfg.mode == CHAIN {
      if m.WriteCall? || m.WriteAssigned? || m.PropSent? {
        ChainWriteMirrored(cfg, route, node, lin, origin, ks, m);
      } else if m.WriteRecorded? || m.PropRecorded? {
        ChainForwardMirrored(cfg, route, node, lin, origin, ks, m);
      } else {
        ChainReadMirrored(cfg, route, node, lin, origin, ks, m);
      }
    } else {
      CraqMirrored(cfg, route, node, lin, origin, ks, m);
    }
  }

  /** What CROWN's own checks come to at position j of a correctly routed key. */
  ghost predicate RingMirrors(cfg: Config, route: seq<nat>, node: NodeCfg, lin: NodeCfg) {
    && route != []
    && lin.isHead == (node.index == route[0])
    && (node.ringSize <= 1 <==> lin.isHead && lin.isTail)
    && (!lin.isTail ==> SameNeighbour(cfg, route, node.succ, lin.succ))
  }

  /** The check that each propagate makes of its origin. */
  ghost predicate FindsTail(route: seq<nat>, node: NodeCfg, lin: NodeCfg) {
    route != [] && CrownReplication.IsRequestTail(node, Text.ToString(route[0])) == Ok(lin.isTail)
  }

  lemma RouteMirrors(cfg: Config, route: seq<nat>, j: nat)
    requires RouteOk(cfg, route, false) && cfg.mode == CROWN && j < |route|
    ensures RingMirrors(cfg, route, cfg.nodes[route[j]], L.LinearNode(LaneCfg(cfg, route, false), j))
    ensures FindsTail(route, cfg.nodes[route[j]], L.LinearNode(LaneCfg(cfg, route, false), j))
  {
    TailByOrigin(cfg, route, j);
    RingSize(cfg, route);
    if j < |route| - 1 { PosOfRoute(route, j + 1); }
  }

  /** A CROWN item at node x, at the position it has on the route. */
  ghost predicate CrownPlace(cfg: Config, route: seq<nat>, node: NodeCfg, lin: NodeCfg, env: Env, x: nat) {
    && cfg.mode == CROWN && RingMirrors(cfg, route, node, lin) && CrownItem(route, env) && Placed(cfg, env.item)
    && At(env.item) == Some(x) && node.index == x && x in route && Pos(route, x) == lin.index
    && lin.isTail == (lin.index == |route| - 1)
  }

  ghost predicate CrownAlike(cfg: Config, route: seq<nat>, node: NodeCfg, lin: NodeCfg, env: Env, ks: KeyState) {
    var e := CrownReplication.Section(node, env.origin, ks, env.item);
    && Alike(cfg, route, e, ChainReplication.Section(lin, "", ks, Relabel(CROWN, route, env.item)))
    && forall i :: 0 <= i < |e.out| ==> CrownItem(route, Env(env.key, e.origin, e.out[i]))
  }

  lemma CrownWriteMirrored(cfg: Config, route: seq<nat>, node: NodeCfg, lin: NodeCfg, env: Env, ks: KeyState, x: nat)
    requires CrownPlace(cfg, route, node, lin, env, x) && lin.isHead
    requires env.item.WriteAssigned? || env.item.WriteCall?
    ensures CrownAlike(cfg, route, node, lin, env, ks)
  {
  }

  lemma CrownSendMirrored(cfg: Config, route: seq<nat>, node: NodeCfg, lin: NodeCfg, env: Env, ks: KeyState, x: nat)
    requires CrownPlace(cfg, route, node, lin, env, x) && lin.isHead && env.item.WriteRecorded?
    ensures CrownAlike(cfg, route, node, lin, env, ks)
  {
  }

  lemma CrownArrivalMirrored(cfg: Config, route: seq<nat>, node: NodeCfg, lin: NodeCfg, env: Env, ks: KeyState, x: nat)
    requires CrownPlace(cfg, route, node, lin, env, x)
    requires (env.item.PropSent? && env.item.version != 0) || env.item.TailMarked?
    ensures CrownAlike(cfg, route, node, lin, env, ks)
  {
  }

  lemma CrownForwardMirrored(cfg: Config, route: seq<nat>, node: NodeCfg, lin: NodeCfg, env: Env, ks: KeyState, x: nat)
    requires CrownPlace(cfg, route, node, lin, env, x) && FindsTail(route, node, lin) && env.item.PropRecorded?
    ensures CrownAlike(cfg, route, node, lin, env, ks)
  {
  }

  /** Off the tail nothing is committed, so CROWN's unchecked read fails as CHAIN's checked one does. */
  lemma CrownReadMirrored(cfg: Config, route: seq<nat>, node: NodeCfg, lin: NodeCfg, env: Env, ks: KeyState, x: nat)
    requires cfg.mode == CROWN && env.item.ReadCall? && env.item.at == x && x < |cfg.nodes| && x in route
    requires Pos(route, x) == lin.index && lin.isTail == (lin.index == |route| - 1)
    requires !lin.isTail ==> ks.commVersion == 0
    ensures CrownAlike(cfg, route, node, lin, env, ks)
  {
    var rid, p, reply := env.item.rid, Pos(route, x), ReadReply(x, env.item.rid, ReadCommitted(ks));
    assert CrownReplication.Section(node, env.origin, ks, env.item).out == [reply];
    assert ChainReplication.Section(lin, "", ks, ReadCall(p, rid)).out ==
           [if lin.isTail then ReadReply(p, rid, ReadCommitted(ks)) else ReadFailed(p, rid, NotTail)];
  }

  /** In CROWN the role checks of CHAIN hold of themselves on a correctly routed key. */
  lemma RingSimulates(cfg: Config, route: seq<nat>, j: nat, env: Env, s: L.Lane, ks: KeyState)
    requires RouteOk(cfg, route, false) && cfg.mode == CROWN && j < |route|
    requires At(env.item) == Some(route[j]) && CrownItem(route, env) && Placed(cfg, env.item)
    requires !Inert(env.item)
    requires |s.cells| == |route| && I.ItemOk(LaneCfg(cfg, route, false), s, Relabel(CROWN, route, env.item))
    requires j < |route| - 1 ==> ks.commVersion == 0
    ensures AlikeAt(cfg, route, false, j, env.origin, ks, env.item)
    ensures var e := Section(CROWN, cfg.nodes[route[j]], env.origin, ks, env.item);
            forall i :: 0 <= i < |e.out| ==> CrownItem(route, Env(env.key, e.origin, e.out[i]))
  {
    var node, lin := cfg.nodes[route[j]], L.LinearNode(LaneCfg(cfg, route, false), j);
    PosOfRoute(route, j);
    RouteMirrors(cfg, route, j);
    assert node.index == route[j];
    var m, x := env.item, route[j];
    if m.ReadCall? {
      CrownReadMirrored(cfg, route, node, lin, env, ks, x);
    } else if m.PropSent? || m.TailMarked? {
      CrownArrivalMirrored(cfg, route, node, lin, env, ks, x);
    } else if m.PropRecorded? {
      CrownForwardMirrored(cfg, route, node, lin, env, ks, x);
    } else if m.WriteRecorded? {
      CrownSendMirrored(cfg, route, node, lin, env, ks, x);
    } else {
      CrownWriteMirrored(cfg, route, node, lin, env, ks, x);
    }
  }

  /** The ring has one node exactly when the route has one position. */
  lemma RingSize(cfg: Config, route: seq<nat>)
    requires RouteOk(cfg, route, false) && cfg.mode == CROWN
    ensures |cfg.nodes| <= 1 <==> |route| == 1
  {
    if |route| > 1 { assert route[0] != route[1]; }
  }

  /** A node finds itself the tail of a propagate exactly when it is last on the route. */
  lemma TailByOrigin(cfg: Config, route: seq<nat>, j: nat)
    requires RouteOk(cfg, route, false) && cfg.mode == CROWN && j < |route|
    ensures CrownReplication.IsRequestTail(cfg.nodes[route[j]], Text.ToString(route[0])) == Ok(j == |route| - 1)
  {
    RingSize(cfg, route);
    CrownReplication.OriginRoundTrip(route[0], |cfg.nodes|);
    if j < |route| - 1 { assert route[j] != Last(route); }
  }

  // ----- one cluster step, seen through the key -----

  lemma {:induction false} AddressedImages(mode: Mode, route: seq<nat>, key: string, origin: string, out: seq<Item>,
                                           image: seq<Item>)
    requires |out| == |image|
    requires forall i {:trigger out[i]} :: 0 <= i < |out| ==>
               OnRoute(route, out[i]) && Relabel(mode, route, out[i]) == image[i]
    ensures ProjectNet(mode, route, key, Addressed(key, origin, out)) == image
  {
    if out != [] {
      var envs := Addressed(key, origin, out);
      assert envs[1..] == Addressed(key, origin, out[1..]);
      forall i | 0 <= i < |out[1..]|
        ensures OnRoute(route, out[1..][i]) && Relabel(mode, route, out[1..][i]) == image[1..][i]
      { assert out[1..][i] == out[i+1]; }
      AddressedImages(mode, route, key, origin, out[1..], image[1..]);
      assert OnRoute(route, out[0]) && Relabel(mode, route, out[0]) == image[0];
      assert image == [image[0]] + image[1..];
    }
  }

  lemma {:induction false} IrrelevantVanish(mode: Mode, route: seq<nat>, key: string, net: seq<Env>)
    requires forall env :: env in net ==> !Relevant(key, route, env)
    ensures ProjectNet(mode, route, key, net) == []
  {
    if net != [] {
      assert net[0] in net;
      forall env | env in net[1..] ensures !Relevant(key, route, env) { assert env in net; }
      IrrelevantVanish(mode, route, key, net[1..]);
    }
  }

  /** The store part of the projection after node x's cell of key k changed. */
  lemma CellsAfter(cfg: Config, route: seq<nat>, key: string, c: Cluster, c': Cluster, x: nat, k: string, cell: L.Cell)
    requires Distinct(route) && (forall j :: 0 <= j < |route| ==> route[j] < |c.stores|) && x < |c.stores|
    requires c'.stores == c.stores[x := c.stores[x][k := cell]]
    ensures var cells, cells' := Project(cfg, route, key, c).cells, Project(cfg, route, key, c').cells;
            if k == key && x in route then cells' == cells[Pos(route, x) := cell] else cells' == cells
  {
    var cells, cells' := Project(cfg, route, key, c).cells, Project(cfg, route, key, c').cells;
    assert x in route ==> route[Pos(route, x)] == x;
    forall j | 0 <= j < |route|
      ensures cells'[j] == if k == key && route[j] == x then cell else cells[j]
    {
    }
  }

  /** Steps for other keys leave this key's projection unchanged. */
  lemma OtherKeyFire(cfg: Config, route: seq<nat>, direct: bool, key: string, c: Cluster, i: nat)
    requires RouteOk(cfg, route, direct) && |c.stores| == |cfg.nodes| && Enabled(cfg, c, Fire(i)) && c.net[i].key != key
    ensures Project(cfg, route, key, Apply(cfg, c, Fire(i))) == Project(cfg, route, key, c)
  {
    var env := c.net[i];
    var c' := Apply(cfg, c, Fire(i));
    var out := if env.item.ClientAck? then [Env(env.key, env.origin, ClientAcked(env.item.version, env.item.req))]
               else Addressed(env.key, EffectOf(cfg, c, env).origin, EffectOf(cfg, c, env).out);
    assert c'.net == L.Without(c.net, i) + out;
    ProjectNetWithout(cfg.mode, route, key, c.net, i);
    ProjectNetParts(cfg.mode, route, key, L.Without(c.net, i), out);
    IrrelevantVanish(cfg.mode, route, key, out);
    if !env.item.ClientAck? {
      var x := At(env.item).value;
      CellsAfter(cfg, route, key, c, c', x, env.key, L.Witness(CellOf(c.stores[x], env.key), EffectOf(cfg, c, env)));
    }
  }

  /** A CROWN item of the key off its route is a read, and it fails without touching anything. */
  lemma OffRouteFire(cfg: Config, route: seq<nat>, key: string, c: Cluster, i: nat)
    requires RouteOk(cfg, route, false) && cfg.mode == CROWN && Known(cfg, route, key, c) && Enabled(cfg, c, Fire(i))
    requires c.net[i].key == key && !OnRoute(route, c.net[i].item)
    ensures Project(cfg, route, key, Apply(cfg, c, Fire(i))) == Project(cfg, route, key, c)
    ensures EffectOf(cfg, c, c.net[i]).out == [ReadFailed(At(c.net[i].item).value, c.net[i].item.rid, NotFound)]
    ensures EffectOf(cfg, c, c.net[i]).note == Quiet
    ensures EffectOf(cfg, c, c.net[i]).ks == FRESH
  {
    var env := c.net[i];
    var c' := Apply(cfg, c, Fire(i));
    assert CrownItem(route, env);
    assert env.item.ReadCall?;
    var x := env.item.at;
    assert CellOf(c.stores[x], key) == L.EMPTY_CELL;
    var e := EffectOf(cfg, c, env);
    assert e.out == [ReadFailed(x, env.item.rid, NotFound)];
    var out := Addressed(key, e.origin, e.out);
    ProjectNetWithout(cfg.mode, route, key, c.net, i);
    ProjectNetParts(cfg.mode, route, key, L.Without(c.net, i), out);
    IrrelevantVanish(cfg.mode, route, key, out);
    CellsAfter(cfg, route, key, c, c', x, key, L.Witness(L.EMPTY_CELL, e));
  }

  /** The item's section agrees with that of its image in the lane. */
  lemma FireAlike(cfg: Config, route: seq<nat>, direct: bool, key: string, c: Cluster, i: nat)
    requires RouteOk(cfg, route, direct) && Known(cfg, route, key, c) && Enabled(cfg, c, Fire(i))
    requires Relevant(key, route, c.net[i]) && !c.net[i].item.ClientAck?
    requires I.Inv(LaneCfg(cfg, route, direct), Project(cfg, route, key, c))
    ensures var x := At(c.net[i].item).value;
            Pos(route, x) < |route| && route[Pos(route, x)] == x
            && AlikeAt(cfg, route, direct, Pos(route, x), c.net[i].origin, CellOf(c.stores[x], key).ks, c.net[i].item)
    ensures cfg.mode == CROWN ==>
              var e := EffectOf(cfg, c, c.net[i]);
              forall k :: 0 <= k < |e.out| ==> CrownItem(route, Env(key, e.origin, e.out[k]))
  {
    var env := c.net[i];
    var x := At(env.item).value;
    var s := Project(cfg, route, key, c);
    assert route[Pos(route, x)] == x;
    var j := Pos(route, x);
    assert s.cells[j] == CellOf(c.stores[x], key);
    if cfg.mode == CROWN {
      ProjectNetMember(cfg.mode, route, key, c.net, env);
      assert I.CellOk(CHAIN, s.log, s.cells[j]);
      RingSimulates(cfg, route, j, env, s, s.cells[j].ks);
    } else {
      LinearSimulates(cfg, route, direct, j, env.origin, s.cells[j].ks, env.item);
    }
  }

  /** The network after a section, projected: the item's image replaced by what it left. */
  lemma NetAfter(cfg: Config, route: seq<nat>, key: string, c: Cluster, i: nat, e: Effect, f: Effect)
    requires i < |c.net| && Relevant(key, route, c.net[i]) && Alike(cfg, route, e, f)
    ensures var net, i' := ProjectNet(cfg.mode, route, key, c.net), |ProjectNet(cfg.mode, route, key, c.net[..i])|;
            && i' < |net| && net[i'] == Relabel(cfg.mode, route, c.net[i].item)
            && ProjectNet(cfg.mode, route, key, L.Without(c.net, i) + Addressed(key, e.origin, e.out))
               == L.Without(net, i') + f.out
  {
    ProjectNetWithout(cfg.mode, route, key, c.net, i);
    AddressedImages(cfg.mode, route, key, e.origin, e.out, f.out);
    ProjectNetParts(cfg.mode, route, key, L.Without(c.net, i), Addressed(key, e.origin, e.out));
  }

  lemma RelevantFire(cfg: Config, route: seq<nat>, direct: bool, key: string, c: Cluster, i: nat)
    requires RouteOk(cfg, route, direct) && Known(cfg, route, key, c) && Enabled(cfg, c, Fire(i))
    requires Relevant(key, route, c.net[i]) && !c.net[i].item.ClientAck?
    requires I.Inv(LaneCfg(cfg, route, direct), Project(cfg, route, key, c))
    ensures var s, t := Project(cfg, route, key, c), ProjectStep(cfg, route, key, c, Fire(i));
            && L.Enabled(LaneCfg(cfg, route, direct), s, t)
            && L.Apply(LaneCfg(cfg, route, direct), s, t) == Project(cfg, route, key, Apply(cfg, c, Fire(i)))
  {
    FireAlike(cfg, route, direct, key, c, i);
    AlikeFires(cfg, route, direct, key, c, i);
  }

  /** A section of lane item j, from the four fields of the state it leaves. */
  lemma LaneFires(lane: L.Cfg, s: L.Lane, s': L.Lane, j: nat, p: nat)
    requires L.CfgOk(lane) && j < |s.net| && p < |s.cells| && At(s.net[j]) == Some(p) && !Inert(s.net[j])
    requires var f := L.LocalEffect(lane, s, s.net[j]);
             && s'.cells == s.cells[p := L.Witness(s.cells[p], f)]
             && s'.net == L.Without(s.net, j) + f.out
             && s'.log == L.LogAfter(s.log, s.net[j], f.note)
             && s'.clock == s.clock
    ensures L.Enabled(lane, s, L.Fire(j)) && L.Apply(lane, s, L.Fire(j)) == s'
  {
  }

  /** Relabelling an item keeps what the logs learn from it, who works on it, and whether it is done. */
  lemma RelabelKeeps(mode: Mode, route: seq<nat>, m: Item, log: seq<Req>, note: Note)
    ensures L.LogAfter(log, Relabel(mode, route, m), note) == L.LogAfter(log, m, note)
    ensures At(Relabel(mode, route, m)) == if At(m).Some? then Some(Pos(route, At(m).value)) else None
    ensures Inert(Relabel(mode, route, m)) == Inert(m) && InTransit(Relabel(mode, route, m)) == InTransit(m)
  {
  }

  /** The cluster after one section, field by field. */
  lemma ClusterAfter(cfg: Config, c: Cluster, i: nat)
    requires |c.stores| == |cfg.nodes| && Enabled(cfg, c, Fire(i)) && !c.net[i].item.ClientAck?
    ensures var env, c' := c.net[i], Apply(cfg, c, Fire(i));
            var x, e := At(env.item).value, EffectOf(cfg, c, env);
            && c'.stores == c.stores[x := c.stores[x][env.key := L.Witness(CellOf(c.stores[x], env.key), e)]]
            && c'.net == L.Without(c.net, i) + Addressed(env.key, e.origin, e.out)
            && LogOf(c'.logs, env.key) == L.LogAfter(LogOf(c.logs, env.key), env.item, e.note)
            && c'.clock == c.clock
  {
  }

  lemma AlikeFires(cfg: Config, route: seq<nat>, direct: bool, key: string, c: Cluster, i: nat)
    requires Within(cfg, route) && Distinct(route) && |c.stores| == |cfg.nodes| && Enabled(cfg, c, Fire(i))
    requires Relevant(key, route, c.net[i]) && !c.net[i].item.ClientAck?
    requires var x := At(c.net[i].item).value;
             Pos(route, x) < |route| && route[Pos(route, x)] == x
             && AlikeAt(cfg, route, direct, Pos(route, x), c.net[i].origin, CellOf(c.stores[x], key).ks, c.net[i].item)
    ensures var s, t := Project(cfg, route, key, c), ProjectStep(cfg, route, key, c, Fire(i));
            && L.Enabled(LaneCfg(cfg, route, direct), s, t)
            && L.Apply(LaneCfg(cfg, route, direct), s, t) == Project(cfg, route, key, Apply(cfg, c, Fire(i)))
  {
    var env, c' := c.net[i], Apply(cfg, c, Fire(i));
    var lane, s, s' := LaneCfg(cfg, route, direct), Project(cfg, route, key, c), Project(cfg, route, key, c');
    var x, e := At(env.item).value, EffectOf(cfg, c, env);
    var p, j := Pos(route, x), |ProjectNet(cfg.mode, route, key, c.net[..i])|;
    var f := L.Section(lane.mode, L.LinearNode(lane, p), "", s.cells[p].ks, Relabel(cfg.mode, route, env.item));
    ClusterAfter(cfg, c, i);
    NetAfter(cfg, route, key, c, i, e, f);
    CellsAfter(cfg, route, key, c, c', x, key, L.Witness(CellOf(c.stores[x], key), e));
    RelabelKeeps(cfg.mode, route, env.item, s.log, e.note);
    LaneFires(lane, s, s', j, p);
  }

  lemma RelevantDelivery(cfg: Config, route: seq<nat>, direct: bool, key: string, c: Cluster, i: nat)
    requires RouteOk(cfg, route, direct) && |c.stores| == |cfg.nodes| && Enabled(cfg, c, Fire(i))
    requires c.net[i].key == key && c.net[i].item.ClientAck?
    ensures var s, t := Project(cfg, route, key, c), ProjectStep(cfg, route, key, c, Fire(i));
            && L.Enabled(LaneCfg(cfg, route, direct), s, t)
            && L.Apply(LaneCfg(cfg, route, direct), s, t) == Project(cfg, route, key, Apply(cfg, c, Fire(i)))
  {
    var env := c.net[i];
    var out := Env(key, env.origin, ClientAcked(env.item.version, env.item.req));
    ProjectNetWithout(cfg.mode, route, key, c.net, i);
    ProjectNetParts(cfg.mode, route, key, L.Without(c.net, i), [out]);
    ProjectNetOne(cfg.mode, route, key, out);
  }

  ghost predicate Simulates(cfg: Config, route: seq<nat>, direct: bool, key: string, c: Cluster, step: Step)
    requires Within(cfg, route) &&  |c.stores| == |cfg.nodes| && Enabled(cfg, c, step)
  {
    var lane, s, t := LaneCfg(cfg, route, direct), Project(cfg, route, key, c), ProjectStep(cfg, route, key, c, step);
    L.Enabled(lane, s, t) && L.Apply(lane, s, t) == Project(cfg, route, key, Apply(cfg, c, step))
  }

  lemma WriteCallImage(mode: Mode, route: seq<nat>, key: string, k: string, at: nat, req: Req)
    ensures Image(mode, route, key, Env(k, "", WriteCall(at, req))) ==
            if k == key && at in route then [WriteCall(Pos(route, at), req)] else []
  {
  }

  lemma CallWriteSimulates(cfg: Config, route: seq<nat>, direct: bool, key: string, c: Cluster, step: Step)
    requires Within(cfg, route) && |c.stores| == |cfg.nodes| && Enabled(cfg, c, step) && step.CallWrite?
    ensures Simulates(cfg, route, direct, key, c, step)
  {
    hide Relabel, Image, ProjectNet;
    var env := Env(step.key, "", WriteCall(step.at, step.req));
    ProjectNetParts(cfg.mode, route, key, c.net, [env]);
    ProjectNetOne(cfg.mode, route, key, env);
    WriteCallImage(cfg.mode, route, key, step.key, step.at, step.req);
  }

  lemma ReadCallImage(mode: Mode, route: seq<nat>, key: string, k: string, at: nat, rid: nat)
    ensures Image(mode, route, key, Env(k, "", ReadCall(at, rid))) ==
            if k == key && at in route then [ReadCall(Pos(route, at), rid)] else []
  {
  }

  lemma CallReadSimulates(cfg: Config, route: seq<nat>, direct: bool, key: string, c: Cluster, step: Step)
    requires Within(cfg, route) && |c.stores| == |cfg.nodes| && Enabled(cfg, c, step) && step.CallRead?
    ensures Simulates(cfg, route, direct, key, c, step)
  {
    hide Relabel, Image, ProjectNet;
    var env := Env(step.key, "", ReadCall(step.at, step.rid));
    ProjectNetParts(cfg.mode, route, key, c.net, [env]);
    ProjectNetOne(cfg.mode, route, key, env);
    ReadCallImage(cfg.mode, route, key, step.key, step.at, step.rid);
  }

  lemma LossSimulates(cfg: Config, route: seq<nat>, direct: bool, key: string, c: Cluster, step: Step)
    requires Within(cfg, route) && |c.stores| == |cfg.nodes| && Enabled(cfg, c, step) && step.Lose?
    ensures Simulates(cfg, route, direct, key, c, step)
  {
    ProjectNetWithout(cfg.mode, route, key, c.net, step.i);
  }

  lemma DuplicationSimulates(cfg: Config, route: seq<nat>, direct: bool, key: string, c: Cluster, step: Step)
    requires Within(cfg, route) && |c.stores| == |cfg.nodes| && Enabled(cfg, c, step) && step.Duplicate?
    ensures Simulates(cfg, route, direct, key, c, step)
  {
    hide Relabel, ProjectNet;
    RelabelKeeps(cfg.mode, route, c.net[step.i].item, [], Quiet);
    ProjectNetWithout(cfg.mode, route, key, c.net, step.i);
    ProjectNetParts(cfg.mode, route, key, c.net, [c.net[step.i]]);
    ProjectNetOne(cfg.mode, route, key, c.net[step.i]);
  }

  /** Every cluster step is a step of the key's lane, or leaves the lane as it is. */
  lemma StepSimulates(cfg: Config, route: seq<nat>, direct: bool, key: string, c: Cluster, step: Step)
    requires RouteOk(cfg, route, direct) && Known(cfg, route, key, c) && Enabled(cfg, c, step)
    requires I.Inv(LaneCfg(cfg, route, direct), Project(cfg, route, key, c))
    ensures Simulates(cfg, route, direct, key, c, step)
  {
    match step
    case Fire(i) =>
      if c.net[i].key != key {
        OtherKeyFire(cfg, route, direct, key, c, i);
      } else if !OnRoute(route, c.net[i].item) {
        assert Placed(cfg, c.net[i].item);
        OffRouteFire(cfg, route, key, c, i);
      } else if c.net[i].item.ClientAck? {
        RelevantDelivery(cfg, route, direct, key, c, i);
      } else {
        RelevantFire(cfg, route, direct, key, c, i);
      }
    case Lose(_) => LossSimulates(cfg, route, direct, key, c, step);
    case Duplicate(_) => DuplicationSimulates(cfg, route, direct, key, c, step);
    case CallWrite(_, _, _) => CallWriteSimulates(cfg, route, direct, key, c, step);
    case CallRead(_, _, _) => CallReadSimulates(cfg, route, direct, key, c, step);
  }

  // ----- whole runs -----

  ghost predicate EnvOk(cfg: Config, route: seq<nat>, env: Env) {
    Placed(cfg, env.item) && (cfg.mode == CROWN ==> CrownItem(route, env))
  }

  /** What a Fire step emits for the key is placed, and in CROWN correctly routed. */
  lemma FireEmits(cfg: Config, route: seq<nat>, direct: bool, key: string, c: Cluster, i: nat)
    requires RouteOk(cfg, route, direct) && Known(cfg, route, key, c) && Enabled(cfg, c, Fire(i))
    requires c.net[i].key == key && !c.net[i].item.ClientAck?
    requires I.Inv(LaneCfg(cfg, route, direct), Project(cfg, route, key, c))
    ensures var e := EffectOf(cfg, c, c.net[i]);
            forall env :: env in Addressed(key, e.origin, e.out) ==> EnvOk(cfg, route, env)
  {
    var e := EffectOf(cfg, c, c.net[i]);
    assert Placed(cfg, c.net[i].item);
    if OnRoute(route, c.net[i].item) {
      FireAlike(cfg, route, direct, key, c, i);
      forall env | env in Addressed(key, e.origin, e.out) ensures EnvOk(cfg, route, env) {
        var k :| 0 <= k < |e.out| && env == Env(key, e.origin, e.out[k]);
        assert Placed(cfg, e.out[k]);
      }
    } else {
      OffRouteFire(cfg, route, key, c, i);
    }
  }

  lemma StoresStayKnown(cfg: Config, route: seq<nat>, direct: bool, key: string, c: Cluster, i: nat)
    requires RouteOk(cfg, route, direct) && Known(cfg, route, key, c) && Enabled(cfg, c, Fire(i)) && cfg.mode == CROWN
    ensures var c' := Apply(cfg, c, Fire(i));
            forall x :: 0 <= x < |c'.stores| && x !in route ==> CellOf(c'.stores[x], key) == L.EMPTY_CELL
  {
    if c.net[i].key == key && !OnRoute(route, c.net[i].item) { OffRouteFire(cfg, route, key, c, i); }
  }

  lemma FireKeepsKnown(cfg: Config, route: seq<nat>, direct: bool, key: string, c: Cluster, i: nat)
    requires RouteOk(cfg, route, direct) && Known(cfg, route, key, c) && Enabled(cfg, c, Fire(i))
    requires I.Inv(LaneCfg(cfg, route, direct), Project(cfg, route, key, c))
    ensures Known(cfg, route, key, Apply(cfg, c, Fire(i)))
  {
    var c' := Apply(cfg, c, Fire(i));
    var env := c.net[i];
    if cfg.mode == CROWN { StoresStayKnown(cfg, route, direct, key, c, i); }
    if env.key == key && !env.item.ClientAck? { FireEmits(cfg, route, direct, key, c, i); }
    forall x | x in c'.net && x.key == key ensures EnvOk(cfg, route, x) {
      if x in L.Without(c.net, i) { I.WithoutMember(c.net, i, x); }
    }
  }

  lemma StepKeepsKnown(cfg: Config, route: seq<nat>, direct: bool, key: string, c: Cluster, step: Step)
    requires RouteOk(cfg, route, direct) && Known(cfg, route, key, c) && Enabled(cfg, c, step)
    requires Routed(cfg, route, key, step)
    requires I.Inv(LaneCfg(cfg, route, direct), Project(cfg, route, key, c))
    ensures Known(cfg, route, key, Apply(cfg, c, step))
  {
    match step
    case Fire(i) => FireKeepsKnown(cfg, route, direct, key, c, i);
    case Lose(i) =>
      forall x | x in L.Without(c.net, i) ensures x in c.net { I.WithoutMember(c.net, i, x); }
    case _ =>
  }

  /** The lane run a cluster run amounts to for one key. */
  function ProjectRun(cfg: Config, route: seq<nat>, key: string, tr: seq<Cluster>): seq<L.Lane>
    requires forall k, j :: 0 <= k < |tr| && 0 <= j < |route| ==> route[j] < |tr[k].stores|
  {
    seq(|tr|, k requires 0 <= k < |tr| => Project(cfg, route, key, tr[k]))
  }

  function ProjectSteps(cfg: Config, route: seq<nat>, key: string, tr: seq<Cluster>, steps: seq<Step>): seq<L.Step>
    requires |tr| == |steps| + 1
  {
    seq(|steps|, k requires 0 <= k < |steps| => ProjectStep(cfg, route, key, tr[k], steps[k]))
  }

  ghost predicate RoutedRun(cfg: Config, route: seq<nat>, key: string, steps: seq<Step>) {
    forall k :: 0 <= k < |steps| ==> Routed(cfg, route, key, steps[k])
  }

  lemma {:induction false} RunStaysKnown(cfg: Config, route: seq<nat>, direct: bool, key: string,
                                         tr: seq<Cluster>, steps: seq<Step>, k: nat)
    requires RouteOk(cfg, route, direct) && IsRun(cfg, tr, steps) && RoutedRun(cfg, route, key, steps) && k < |tr|
    ensures Known(cfg, route, key, tr[k]) && I.Inv(LaneCfg(cfg, route, direct), Project(cfg, route, key, tr[k]))
    ensures k == 0 ==> Project(cfg, route, key, tr[0]) == L.Init(LaneCfg(cfg, route, direct))
  {
    var lane := LaneCfg(cfg, route, direct);
    if k == 0 {
      assert Project(cfg, route, key, tr[0]) == L.Init(lane);
      I.InitSatisfiesInv(lane);
    } else {
      RunStaysKnown(cfg, route, direct, key, tr, steps, k - 1);
      AdvanceKnown(cfg, route, direct, key, tr[k-1], steps[k-1]);
    }
  }

  lemma AdvanceKnown(cfg: Config, route: seq<nat>, direct: bool, key: string, c: Cluster, step: Step)
    requires RouteOk(cfg, route, direct) && Known(cfg, route, key, c) && Enabled(cfg, c, step)
    requires Routed(cfg, route, key, step)
    requires I.Inv(LaneCfg(cfg, route, direct), Project(cfg, route, key, c))
    ensures Known(cfg, route, key, Apply(cfg, c, step))
    ensures I.Inv(LaneCfg(cfg, route, direct), Project(cfg, route, key, Apply(cfg, c, step)))
  {
    StepSimulates(cfg, route, direct, key, c, step);
    StepKeepsKnown(cfg, route, direct, key, c, step);
    I.StepKeepsInv(LaneCfg(cfg, route, direct), Project(cfg, route, key, c), ProjectStep(cfg, route, key, c, step));
  }

  /**
   Refinement: for every key, a cluster run seen along the key's route is a run of the lane.
   CHAIN and CRAQ need no assumption on the client; CROWN assumes writes of the key are sent
   to the first node of its route, and then refines CHAIN.
   */
  lemma ClusterRefinesLane(cfg: Config, route: seq<nat>, direct: bool, key: string, tr: seq<Cluster>, steps: seq<Step>)
    requires RouteOk(cfg, route, direct) && IsRun(cfg, tr, steps) && RoutedRun(cfg, route, key, steps)
    ensures L.IsRun(LaneCfg(cfg, route, direct),
                    ProjectRun(cfg, route, key, tr), ProjectSteps(cfg, route, key, tr, steps))
  {
    var lane := LaneCfg(cfg, route, direct);
    var ltr, lsteps := ProjectRun(cfg, route, key, tr), ProjectSteps(cfg, route, key, tr, steps);
    RunStaysKnown(cfg, route, direct, key, tr, steps, 0);
    forall k | 0 <= k < |lsteps|
      ensures L.Enabled(lane, ltr[k], lsteps[k]) && ltr[k+1] == L.Apply(lane, ltr[k], lsteps[k])
    {
      RunStaysKnown(cfg, route, direct, key, tr, steps, k);
      StepSimulates(cfg, route, direct, key, tr[k], steps[k]);
      assert ltr[k+1] == Project(cfg, route, key, Apply(cfg, tr[k], steps[k]));
    }
  }
}
