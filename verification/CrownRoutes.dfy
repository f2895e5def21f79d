/**
 From an accepted CROWN configuration to the routes its keys take: every route is simple and
 short, but it covers the whole ring only if ring order follows id order.
 */
module CrownRoutes {
  import opened Wrappers
  import opened Messages
  import opened CrownTopology
  import Ring
  import Text
  import CrownReplication
  import KeyRouting
  import C = Clusters
  import P = ClusterProjection
  import T = ClusterTheorems

  /** The ring's successor map on ids. */
  function NextIds(nodes: seq<NodeRecord>): (next: seq<nat>)
    requires ValidRing(nodes)
    ensures |next| == |nodes|
  {
    IdsInRange(nodes);
    seq(|nodes|, id requires 0 <= id < |nodes| => IdAt(nodes, Succs(nodes)[PositionOf(nodes, id)]))
  }

  lemma IdsInRange(nodes: seq<NodeRecord>)
    requires ValidRing(nodes)
    ensures InRange(Ids(nodes))
  {
    InRangeIffPermutation(Ids(nodes));
  }

  function IdAt(nodes: seq<NodeRecord>, i: nat): (id: nat)
    requires ValidRing(nodes) && i < |nodes|
    ensures id < |nodes| && id == nodes[i].id
  {
    IdsInRange(nodes);
    assert Ids(nodes)[i] == nodes[i].id;
    nodes[i].id
  }

  function PositionOf(nodes: seq<NodeRecord>, id: nat): (i: nat)
    requires ValidRing(nodes) && id < |nodes|
    ensures i < |nodes| && nodes[i].id == id
  {
    IndexOf(Ids(nodes), id)
  }

  lemma PositionOfId(nodes: seq<NodeRecord>, i: nat)
    requires ValidRing(nodes) && i < |nodes|
    ensures PositionOf(nodes, IdAt(nodes, i)) == i
  {
    IndexOfUnique(Ids(nodes), i, nodes[i].id);
  }

  lemma StepIds(nodes: seq<NodeRecord>, i: nat)
    requires ValidRing(nodes) && i < |nodes|
    ensures Succs(nodes)[i] < |nodes| && NextIds(nodes)[IdAt(nodes, i)] == IdAt(nodes, Succs(nodes)[i])
  {
    PositionOfId(nodes, i);
  }

  /** Walking ids is walking list positions. */
  lemma WalkIds(nodes: seq<NodeRecord>, i: nat, t: nat)
    requires ValidRing(nodes) && i < |nodes| && Ring.Closed(NextIds(nodes))
    ensures Ring.Walk(NextIds(nodes), IdAt(nodes, i), t) == IdAt(nodes, Ring.Walk(Succs(nodes), i, t))
  {
    var name: seq<nat> := seq(|nodes|, j requires 0 <= j < |nodes| => IdAt(nodes, j));
    forall j | 0 <= j < |name| ensures NextIds(nodes)[name[j]] == name[Succs(nodes)[j]] { StepIds(nodes, j); }
    Ring.WalkImage(Succs(nodes), NextIds(nodes), name, i, t);
  }

  lemma NextIdsIsRing(nodes: seq<NodeRecord>)
    requires ValidRing(nodes)
    ensures Ring.OneCycle(NextIds(nodes)) && Ring.Injective(NextIds(nodes))
  {
    var next, succ := NextIds(nodes), Succs(nodes);
    assert Ring.Closed(next);
    InversesInject(succ, Preds(nodes));
    forall a: nat, b: nat | a < |next| && b < |next| ensures Ring.Reaches(next, a, b) {
      var i, j := PositionOf(nodes, a), PositionOf(nodes, b);
      assert Ring.Reaches(succ, i, j);
      var t: nat :| Ring.Meets(succ, i, t, j);
      WalkIds(nodes, i, t);
      assert Ring.Meets(next, a, t, b);
    }
    forall a, b | 0 <= a < |next| && 0 <= b < |next| && next[a] == next[b] ensures a == b {
      var i, j := PositionOf(nodes, a), PositionOf(nodes, b);
      PositionOfId(nodes, succ[i]);
      PositionOfId(nodes, succ[j]);
      assert succ[i] == succ[j];
    }
  }

  function PreviousId(nodes: seq<NodeRecord>, id: nat): nat
    requires ValidRing(nodes) && id < |nodes|
  {
    IdAt(nodes, Preds(nodes)[PositionOf(nodes, id)])
  }

  /** The node configurations the client pushes, by id. */
  function CrownConfig(nodes: seq<NodeRecord>, lossy: bool, duplicating: bool): C.Config
    requires ValidRing(nodes)
  {
    C.Config(CROWN,
      seq(|nodes|, id requires 0 <= id < |nodes| =>
        var n := nodes[PositionOf(nodes, id)];
        NodeCfg(Text.ToString(id), id, n.isHead, n.isTail,
                Some(PreviousId(nodes, id)), Some(NextIds(nodes)[id]), None, |nodes|)),
      lossy, duplicating)
  }

  /** From a head along the ring to the node the client reads from. */
  ghost function RouteFrom(nodes: seq<NodeRecord>, h: nat): (route: seq<nat>)
    requires ValidRing(nodes) && h < |nodes|
  {
    NextIdsIsRing(nodes);
    Ring.Route(NextIds(nodes), h, CrownReplication.TailIndex(h, |nodes|))
  }

  /**
   Ring walk: on every accepted ring, a write entering at any head reaches the node the client
   reads from within n-1 hops, without meeting a node twice, and the cluster serves the keys
   of that head along this route.
   */
  lemma AcceptedRingHasRoutes(nodes: seq<NodeRecord>, h: nat, lossy: bool, duplicating: bool)
    requires ValidRing(nodes) && h < |nodes| <= Text.INT_MAX
    ensures var route := RouteFrom(nodes, h);
            && P.RouteOk(CrownConfig(nodes, lossy, duplicating), route, false)
            && route[0] == h && P.Last(route) == CrownReplication.TailIndex(h, |nodes|)
            && |route| - 1 <= |nodes| - 1
  {
    var next := NextIds(nodes);
    var tail := CrownReplication.TailIndex(h, |nodes|);
    NextIdsIsRing(nodes);
    var route := RouteFrom(nodes, h);
    Ring.RouteIsSimple(next, h, tail);
    assert route[0] == Ring.Walk(next, h, 0);
    forall i, j | 0 <= i < j < |route| ensures route[i] != route[j] {
      assert Ring.Walk(next, h, i) != Ring.Walk(next, h, j);
    }
    forall j | 0 <= j < |route| - 1 ensures route[j+1] == next[route[j]] {
      assert Ring.Walk(next, h, j + 1) == next[Ring.Walk(next, h, j)];
    }
  }

  /**
   Full replication: the writes entering at h reach all nodes exactly when h is the ring
   successor of the node numbered just before it.
   */
  lemma RouteCoversRingIff(nodes: seq<NodeRecord>, h: nat)
    requires ValidRing(nodes) && h < |nodes|
    ensures |RouteFrom(nodes, h)| == |nodes| <==> NextIds(nodes)[CrownReplication.TailIndex(h, |nodes|)] == h
  {
    NextIdsIsRing(nodes);
    Ring.RouteCoversIff(NextIds(nodes), h, CrownReplication.TailIndex(h, |nodes|));
  }

  ghost predicate InIdOrder(nodes: seq<NodeRecord>)
    requires ValidRing(nodes)
  {
    forall id :: 0 <= id < |nodes| ==> NextIds(nodes)[id] == (id + 1) % |nodes|
  }

  lemma NextInOrder(id: nat, n: nat)
    requires id < n
    ensures (id + 1) % n == if id == n - 1 then 0 else id + 1
  {
  }

  /** The keys of the head after `id` are fully replicated exactly when `id` is followed by that head. */
  lemma CoversNextIff(nodes: seq<NodeRecord>, id: nat)
    requires ValidRing(nodes) && id < |nodes|
    ensures (id + 1) % |nodes| < |nodes|
    ensures |RouteFrom(nodes, (id + 1) % |nodes|)| == |nodes| <==> NextIds(nodes)[id] == (id + 1) % |nodes|
  {
    var h := (id + 1) % |nodes|;
    NextInOrder(id, |nodes|);
    CrownReplication.TailBefore(h, |nodes|);
    RouteCoversRingIff(nodes, h);
  }

  lemma EachHeadFollowsOne(h: nat, n: nat) returns (id: nat)
    requires h < n
    ensures id < n && (id + 1) % n == h
  {
    id := if h == 0 then n - 1 else h - 1;
    NextInOrder(id, n);
  }

  /** Every key is fully replicated exactly when ring order is id order. */
  lemma FullReplicationIffIdOrder(nodes: seq<NodeRecord>)
    requires ValidRing(nodes)
    ensures (forall h :: 0 <= h < |nodes| ==> |RouteFrom(nodes, h)| == |nodes|) <==> InIdOrder(nodes)
  {
    if forall h :: 0 <= h < |nodes| ==> |RouteFrom(nodes, h)| == |nodes| {
      forall id | 0 <= id < |nodes| ensures NextIds(nodes)[id] == (id + 1) % |nodes| { CoversNextIff(nodes, id); }
    }
    if InIdOrder(nodes) {
      forall h | 0 <= h < |nodes| ensures |RouteFrom(nodes, h)| == |nodes| {
        var id := EachHeadFollowsOne(h, |nodes|);
        CoversNextIff(nodes, id);
      }
    }
  }

  // ----- the whole CROWN service -----

  /** The client sends every write of the key to its head. */
  ghost predicate ClientRoutes(key: string, n: nat, steps: seq<C.Step>)
    requires n > 0
  {
    forall k :: 0 <= k < |steps| && steps[k].CallWrite? && steps[k].key == key ==>
      steps[k].at == KeyRouting.HeadIndex(key, n)
  }

  /**
   End to end: on any accepted configuration, if the client routes the key's writes, then
   every read of the key that succeeds was served by the key's tail and returned the version
   and value committed there at an instant within the read.
   */
  lemma CrownServiceIsLinearizable(nodes: seq<NodeRecord>, lossy: bool, duplicating: bool, key: string,
                                   tr: seq<C.Cluster>, steps: seq<C.Step>, j: nat, env: C.Env)
    requires 0 < |nodes| <= Text.INT_MAX && ValidRing(nodes)
    requires C.IsRun(CrownConfig(nodes, lossy, duplicating), tr, steps) && ClientRoutes(key, |nodes|, steps)
    requires j < |tr| && env in tr[j].net && env.key == key && env.item.ReadDone?
    ensures var tail := CrownReplication.TailIndex(KeyRouting.HeadIndex(key, |nodes|), |nodes|);
            && env.item.at == tail
            && exists k: nat :: k <= j && env.item.rid < tr[k].clock && tail < |tr[k].stores|
                 && C.CellOf(tr[k].stores[tail], key).ks.commVersion == env.item.version
                 && C.CellOf(tr[k].stores[tail], key).ks.commValue == env.item.value
  {
    var h := KeyRouting.HeadIndex(key, |nodes|);
    var cfg := CrownConfig(nodes, lossy, duplicating);
    AcceptedRingHasRoutes(nodes, h, lossy, duplicating);
    var route := RouteFrom(nodes, h);
    T.ClusterReadsAreLinearizable(cfg, route, false, key, tr, steps, j, env);
    T.CrownReadsAtTail(cfg, route, key, tr, steps, j, env);
    var k: nat :| k <= j && env.item.rid < tr[k].clock
      && T.TailState(route, key, tr[k]).commVersion == env.item.version
      && T.TailState(route, key, tr[k]).commValue == env.item.value;
    assert |tr[k].stores| == |cfg.nodes|;
  }
}
