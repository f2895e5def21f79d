/** What generated configurations give: accepted rings in id order, and linear chains. */
module GeneratedConfigs {
  import opened Wrappers
  import opened Messages
  import opened CrownTopology
  import opened ConfigGenerator
  import Ring
  import Text
  import CrownReplication
  import CrownRoutes
  import C = Clusters
  import P = ClusterProjection
  import T = ClusterTheorems
  import H = HeadlessClusters
  import L = Lanes

  // ----- rings -----

  function After(i: nat, n: nat): nat
    requires i < n
  {
    if i == n - 1 then 0 else i + 1
  }

  function Before(i: nat, n: nat): nat
    requires i < n
  {
    if i == 0 then n - 1 else i - 1
  }

  lemma ModSteps(i: nat, n: nat)
    requires i < n
    ensures (i + 1) % n == After(i, n) && (i - 1) % n == Before(i, n)
  {
  }

  /** Records linked by position as a generated ring, whatever their ids. */
  ghost predicate LinkedInOrder(nodes: seq<NodeRecord>) {
    forall i :: 0 <= i < |nodes| ==>
      && nodes[i].successor == Some(EndpointOf(nodes[After(i, |nodes|)]))
      && nodes[i].predecessor == Some(EndpointOf(nodes[Before(i, |nodes|)]))
  }

  lemma {:induction false} WalkInOrder(succ: seq<nat>, t: nat)
    requires Ring.Closed(succ) && t < |succ| && forall i :: 0 <= i < |succ| ==> succ[i] == After(i, |succ|)
    ensures Ring.Walk(succ, 0, t) == t
  {
    if t > 0 { WalkInOrder(succ, t - 1); }
  }

  lemma NamedNeighbour(nodes: seq<NodeRecord>, endpoint: Option<string>, j: nat)
    requires j < |nodes| && Unique(Endpoints(nodes)) && endpoint == Some(EndpointOf(nodes[j]))
    ensures Neighbour(Endpoints(nodes), endpoint) == j
  {
    IndexOfUnique(Endpoints(nodes), j, endpoint.value);
  }

  lemma OrderedLinks(nodes: seq<NodeRecord>, i: nat)
    requires LinkedInOrder(nodes) && Unique(Endpoints(nodes)) && i < |nodes|
    ensures Succs(nodes)[i] == After(i, |nodes|) && Preds(nodes)[i] == Before(i, |nodes|)
  {
    var n := |nodes|;
    assert nodes[i].successor == Some(EndpointOf(nodes[After(i, n)]));
    assert nodes[i].predecessor == Some(EndpointOf(nodes[Before(i, n)]));
    hide LinkedInOrder, EndpointOf, Neighbour, Endpoints, Unique;
    NamedNeighbour(nodes, nodes[i].successor, After(i, n));
    NamedNeighbour(nodes, nodes[i].predecessor, Before(i, n));
  }

  lemma OrderedRing(succ: seq<nat>, pred: seq<nat>)
    requires 0 < |succ| == |pred|
    requires forall i :: 0 <= i < |succ| ==> succ[i] == After(i, |succ|) && pred[i] == Before(i, |succ|)
    ensures MutualInverses(succ, pred) && Ring.OneCycle(succ)
  {
    InversesInject(succ, pred);
    forall j: nat | j < |succ| ensures Ring.Reaches(succ, 0, j) {
      WalkInOrder(succ, j);
      assert Ring.Meets(succ, 0, j, j);
    }
    Ring.OneStartSuffices(succ, 0);
  }

  /** A ring linked in list order is accepted when its endpoints differ and its ids are a permutation. */
  lemma OrderedLinksAreValid(nodes: seq<NodeRecord>)
    requires |nodes| > 0 && LinkedInOrder(nodes) && Unique(Endpoints(nodes)) && Permutation(Ids(nodes))
    ensures ValidRing(nodes)
    ensures forall i :: 0 <= i < |nodes| ==> Succs(nodes)[i] == After(i, |nodes|)
  {
    forall i | 0 <= i < |nodes|
      ensures Succs(nodes)[i] == After(i, |nodes|) && Preds(nodes)[i] == Before(i, |nodes|)
    { OrderedLinks(nodes, i); }
    OrderedRing(Succs(nodes), Preds(nodes));
  }

  lemma GeneratedEndpoints(nodes: seq<NodeRecord>, n: nat, basePort: int, env: EnvName, host: Option<string>)
    requires |nodes| == n && forall i :: 0 <= i < n ==>
               nodes[i].host == BuildHosts(n, env, host)[i] && nodes[i].port == BuildPorts(n, basePort, env)[i]
    ensures Endpoints(nodes) == BuildEndpoints(n, basePort, env, host)
  {
  }

  lemma {:induction false} GeneratedIds(nodes: seq<NodeRecord>)
    requires forall i :: 0 <= i < |nodes| ==> nodes[i].id == i
    ensures Permutation(Ids(nodes))
  {
    forall id | 0 <= id < |nodes| ensures id in Ids(nodes) { assert Ids(nodes)[id] == id; }
  }

  lemma GeneratedLinks(nodes: seq<NodeRecord>, n: nat, basePort: int, env: EnvName, host: Option<string>)
    requires n > 0 && IsGeneratedRing(nodes, n, basePort, env, host)
    ensures LinkedInOrder(nodes)
  {
    var endpoints := BuildEndpoints(n, basePort, env, host);
    forall i | 0 <= i < n ensures EndpointOf(nodes[i]) == endpoints[i] {
      assert nodes[i] == RingRecord(n, basePort, env, host, i);
    }
    forall i | 0 <= i < n
      ensures nodes[i].successor == Some(EndpointOf(nodes[After(i, n)]))
           && nodes[i].predecessor == Some(EndpointOf(nodes[Before(i, n)]))
    {
      ModSteps(i, n);
      assert nodes[i] == RingRecord(n, basePort, env, host, i);
    }
  }

  /**
   The generator meets the validator: a generated CROWN configuration is accepted exactly when
   it has one node, or the environment is dev, or no host override is given.
   */
  lemma GeneratedRingAcceptedIff(nodes: seq<NodeRecord>, n: nat, basePort: nat, env: EnvName, host: Option<string>)
    requires n > 0 && IsGeneratedRing(nodes, n, basePort, env, host)
    ensures ValidRing(nodes) <==> n == 1 || env == DEV || !Overridden(host)
  {
    forall i | 0 <= i < n ensures nodes[i].id == i
      && nodes[i].host == BuildHosts(n, env, host)[i] && nodes[i].port == BuildPorts(n, basePort, env)[i]
    { assert nodes[i] == RingRecord(n, basePort, env, host, i); }
    GeneratedEndpoints(nodes, n, basePort, env, host);
    EndpointsUniqueIff(n, basePort, env, host);
    if n == 1 || env == DEV || !Overridden(host) {
      GeneratedLinks(nodes, n, basePort, env, host);
      GeneratedIds(nodes);
      OrderedLinksAreValid(nodes);
    }
  }

  /** An accepted generated ring is in id order, so every key is fully replicated. */
  lemma GeneratedRingReplicatesFully(nodes: seq<NodeRecord>, n: nat, basePort: nat, env: EnvName, host: Option<string>,
                                     h: nat)
    requires n > 0 && IsGeneratedRing(nodes, n, basePort, env, host) && ValidRing(nodes) && h < n
    ensures CrownRoutes.InIdOrder(nodes)
    ensures |CrownRoutes.RouteFrom(nodes, h)| == n
  {
    forall i | 0 <= i < n ensures nodes[i].id == i { assert nodes[i] == RingRecord(n, basePort, env, host, i); }
    GeneratedLinks(nodes, n, basePort, env, host);
    OrderedLinksAreValid(nodes);
    forall id | 0 <= id < n ensures CrownRoutes.NextIds(nodes)[id] == (id + 1) % n {
      ModSteps(id, n);
      CrownRoutes.StepIds(nodes, id);
    }
    CrownRoutes.FullReplicationIffIdOrder(nodes);
  }

  /** The generator's neighbour addresses parse back to the neighbours' hosts and ports. */
  lemma GeneratedAddressesParse(nodes: seq<NodeRecord>, n: nat, basePort: nat, env: EnvName, host: Option<string>,
                                i: nat)
    requires IsGeneratedRing(nodes, n, basePort, env, host) && i < n && basePort + n <= Text.INT_MAX
    ensures nodes[i].successor.Some? && nodes[i].predecessor.Some?
    ensures var s, p := nodes[After(i, n)], nodes[Before(i, n)];
            && ParseAddr(nodes[i].successor.value) == Ok(Addr(s.host, s.port))
            && ParseAddr(nodes[i].predecessor.value) == Ok(Addr(p.host, p.port))
  {
    GeneratedLinks(nodes, n, basePort, env, host);
    forall k | 0 <= k < n ensures 0 <= nodes[k].port <= Text.INT_MAX {
      assert nodes[k] == RingRecord(n, basePort, env, host, k);
    }
    AddrRoundTrip(nodes[After(i, n)].host, nodes[After(i, n)].port);
    AddrRoundTrip(nodes[Before(i, n)].host, nodes[Before(i, n)].port);
  }

  // ----- an accepted ring that skips a node -----

  /** The local three-node ring with the ids of the last two nodes exchanged. */
  function Skewed(nodes: seq<NodeRecord>): seq<NodeRecord>
    requires |nodes| == 3
  {
    [nodes[0].(id := 0), nodes[1].(id := 2), nodes[2].(id := 1)]
  }

  lemma GeneratedUnique(nodes: seq<NodeRecord>, n: nat, basePort: nat)
    requires n > 0 && IsGeneratedRing(nodes, n, basePort, DEV, None)
    ensures Unique(Endpoints(nodes)) && LinkedInOrder(nodes)
  {
    GeneratedLinks(nodes, n, basePort, DEV, None);
    forall i | 0 <= i < n
      ensures nodes[i].host == BuildHosts(n, DEV, None)[i] && nodes[i].port == BuildPorts(n, basePort, DEV)[i]
    { assert nodes[i] == RingRecord(n, basePort, DEV, None, i); }
    GeneratedEndpoints(nodes, n, basePort, DEV, None);
    EndpointsUniqueIff(n, basePort, DEV, None);
  }

  lemma RenumberedEndpoint(n: NodeRecord, id: int)
    ensures EndpointOf(n.(id := id)) == EndpointOf(n)
  {
  }

  lemma SkewedKeepsLinks(nodes: seq<NodeRecord>)
    requires |nodes| == 3 && LinkedInOrder(nodes)
    ensures LinkedInOrder(Skewed(nodes)) && Endpoints(Skewed(nodes)) == Endpoints(nodes)
    ensures Ids(Skewed(nodes)) == [0, 2, 1]
  {
    hide EndpointOf;
    forall i | 0 <= i < 3 ensures EndpointOf(Skewed(nodes)[i]) == EndpointOf(nodes[i]) {
      RenumberedEndpoint(nodes[i], Skewed(nodes)[i].id);
    }
  }

  lemma SkewedIsValid(nodes: seq<NodeRecord>)
    requires |nodes| == 3 && LinkedInOrder(nodes) && Unique(Endpoints(nodes))
    ensures ValidRing(Skewed(nodes)) && CrownRoutes.RouteFrom(Skewed(nodes), 0) == [0, 2]
  {
    var ids := [0, 2, 1];
    SkewedKeepsLinks(nodes);
    assert Permutation(ids) by { assert ids[0] == 0 && ids[1] == 2 && ids[2] == 1; }
    OrderedLinksAreValid(Skewed(nodes));
    SkewedRoute(Skewed(nodes));
  }

  function LocalRing(n: nat, basePort: int): (nodes: seq<NodeRecord>)
    ensures IsGeneratedRing(nodes, n, basePort, DEV, None)
  {
    seq(n, i requires 0 <= i < n => RingRecord(n, basePort, DEV, None, i))
  }

  /**
   The validator accepts rings whose order is not id order, and on such a ring a key can miss
   a node: here the keys of head 0 have tail 2, its direct successor, and never reach node 1.
   */
  lemma AcceptedRingCanSkipNode()
    ensures exists nodes :: |nodes| == 3 && ValidRing(nodes) && CrownRoutes.RouteFrom(nodes, 0) == [0, 2]
  {
    var nodes := LocalRing(3, 50051);
    GeneratedUnique(nodes, 3, 50051);
    SkewedIsValid(nodes);
    assert |Skewed(nodes)| == 3;
  }

  lemma SkewedRoute(skewed: seq<NodeRecord>)
    requires |skewed| == 3 && ValidRing(skewed) && Ids(skewed) == [0, 2, 1]
    requires forall i :: 0 <= i < 3 ==> Succs(skewed)[i] == After(i, 3)
    ensures CrownRoutes.RouteFrom(skewed, 0) == [0, 2]
  {
    CrownRoutes.NextIdsIsRing(skewed);
    assert Ids(skewed)[0] == skewed[0].id && Ids(skewed)[1] == skewed[1].id;
    CrownRoutes.StepIds(skewed, 0);
    var next := CrownRoutes.NextIds(skewed);
    CrownReplication.TailBefore(0, 3);
    assert Ring.Walk(next, 0, 0) == 0 && Ring.Walk(next, 0, 1) == next[0] == 2;
    assert Ring.Meets(next, 0, 1, 2) && !Ring.Meets(next, 0, 0, 2);
    var k := Ring.HopsTo(next, 0, 2);
    assert k == 1;
  }

  // ----- chains -----

  function NeighbourIndex(keys: seq<string>, endpoint: Option<string>): Option<nat> {
    if endpoint.Some? then Some(IndexOf(keys, endpoint.value)) else None
  }

  /** The configuration of one node; the client never sends a tail address. */
  function LinearNodeCfg(keys: seq<string>, n: NodeRecord): NodeCfg {
    NodeCfg(Text.ToString(n.id), n.id, n.isHead, n.isTail,
            NeighbourIndex(keys, n.predecessor), NeighbourIndex(keys, n.successor), None, 0)
  }

  /** The node configurations the client pushes for CHAIN and CRAQ. */
  function LinearConfig(mode: Mode, nodes: seq<NodeRecord>, lossy: bool, duplicating: bool): C.Config {
    C.Config(mode, seq(|nodes|, i requires 0 <= i < |nodes| => LinearNodeCfg(Endpoints(nodes), nodes[i])),
             lossy, duplicating)
  }

  function Identity(n: nat): (route: seq<nat>)
    ensures |route| == n && forall i :: 0 <= i < n ==> route[i] == i
  {
    seq(n, i requires 0 <= i => i)
  }

  /** Record i is linked by position, as in a generated chain. */
  ghost predicate ChainLinkAt(nodes: seq<NodeRecord>, i: nat)
    requires i < |nodes|
  {
    && nodes[i].isHead == (i == 0) && nodes[i].isTail == (i == |nodes| - 1)
    && nodes[i].predecessor == (if i == 0 then None else Some(EndpointOf(nodes[i-1])))
    && nodes[i].successor == (if i == |nodes| - 1 then None else Some(EndpointOf(nodes[i+1])))
  }

  ghost predicate LinkedAsChain(nodes: seq<NodeRecord>) {
    forall i :: 0 <= i < |nodes| ==> ChainLinkAt(nodes, i)
  }

  lemma GeneratedChainLinks(nodes: seq<NodeRecord>, n: nat, basePort: nat, env: EnvName, host: Option<string>)
    requires IsGeneratedChain(nodes, n, basePort, env, host)
    ensures LinkedAsChain(nodes)
  {
    var endpoints := BuildEndpoints(n, basePort, env, host);
    forall i | 0 <= i < n ensures EndpointOf(nodes[i]) == endpoints[i] {
      assert nodes[i] == ChainRecord(n, basePort, env, host, i);
    }
    forall i | 0 <= i < n ensures ChainLinkAt(nodes, i) { assert nodes[i] == ChainRecord(n, basePort, env, host, i); }
  }

  lemma NeighbourFound(nodes: seq<NodeRecord>, i: nat)
    requires i < |nodes| && Unique(Endpoints(nodes))
    ensures NeighbourIndex(Endpoints(nodes), Some(EndpointOf(nodes[i]))) == Some(i)
  {
    IndexOfUnique(Endpoints(nodes), i, EndpointOf(nodes[i]));
  }

  lemma ChainNode(nodes: seq<NodeRecord>, j: nat)
    requires j < |nodes| && ChainLinkAt(nodes, j) && Unique(Endpoints(nodes))
    ensures P.LinearAt(LinearNodeCfg(Endpoints(nodes), nodes[j]), Identity(|nodes|), false, j)
  {
    if j > 0 { NeighbourFound(nodes, j - 1); }
    if j < |nodes| - 1 { NeighbourFound(nodes, j + 1); }
  }

  lemma ChainHasRoute(mode: Mode, nodes: seq<NodeRecord>, lossy: bool, duplicating: bool)
    requires |nodes| > 0 && mode != CROWN && LinkedAsChain(nodes) && Unique(Endpoints(nodes))
    ensures P.RouteOk(LinearConfig(mode, nodes, lossy, duplicating), Identity(|nodes|), false)
  {
    var cfg, route := LinearConfig(mode, nodes, lossy, duplicating), Identity(|nodes|);
    forall x | 0 <= x < |cfg.nodes| ensures x in route { assert route[x] == x; }
    forall j | 0 <= j < |route| ensures P.LinearAt(cfg.nodes[route[j]], route, false, j) {
      ChainNode(nodes, j);
    }
  }

  lemma ChainEndpoints(nodes: seq<NodeRecord>, n: nat, basePort: nat, env: EnvName, host: Option<string>)
    requires IsGeneratedChain(nodes, n, basePort, env, host) && (n == 1 || env == DEV || !Overridden(host))
    ensures Endpoints(nodes) == BuildEndpoints(n, basePort, env, host) && Unique(Endpoints(nodes))
  {
    forall i | 0 <= i < n
      ensures nodes[i].host == BuildHosts(n, env, host)[i] && nodes[i].port == BuildPorts(n, basePort, env)[i]
    { assert nodes[i] == ChainRecord(n, basePort, env, host, i); }
    GeneratedEndpoints(nodes, n, basePort, env, host);
    EndpointsUniqueIff(n, basePort, env, host);
  }

  /** A generated chain with distinct endpoints is one route through all nodes, head to tail. */
  lemma GeneratedChainHasRoute(mode: Mode, nodes: seq<NodeRecord>, n: nat, basePort: nat, env: EnvName,
                               host: Option<string>, lossy: bool, duplicating: bool)
    requires n > 0 && mode != CROWN && IsGeneratedChain(nodes, n, basePort, env, host)
    requires n == 1 || env == DEV || !Overridden(host)
    ensures P.RouteOk(LinearConfig(mode, nodes, lossy, duplicating), Identity(n), false)
  {
    ChainEndpoints(nodes, n, basePort, env, host);
    GeneratedChainLinks(nodes, n, basePort, env, host);
    ChainHasRoute(mode, nodes, lossy, duplicating);
  }

  // ----- chains whose nodes share an endpoint -----

  /** One process answers at each endpoint, and the last configuration pushed to it stays. */
  function Deployed(nodes: seq<NodeRecord>): seq<NodeRecord> {
    if nodes == [] then []
    else (if EndpointOf(nodes[0]) in Endpoints(nodes[1..]) then [] else [nodes[0]]) + Deployed(nodes[1..])
  }

  lemma {:induction false} DistinctAreDeployed(nodes: seq<NodeRecord>)
    requires Unique(Endpoints(nodes))
    ensures Deployed(nodes) == nodes
  {
    if nodes != [] {
      var keys, rest := Endpoints(nodes), Endpoints(nodes[1..]);
      forall i | 0 <= i < |rest| ensures rest[i] == keys[i+1] && rest[i] != keys[0] {}
      DistinctAreDeployed(nodes[1..]);
      assert nodes == [nodes[0]] + nodes[1..];
    }
  }

  lemma {:induction false} SharedLeaveTheLast(nodes: seq<NodeRecord>)
    requires nodes != [] && forall i :: 0 <= i < |nodes| ==> EndpointOf(nodes[i]) == EndpointOf(nodes[0])
    ensures Deployed(nodes) == [nodes[|nodes|-1]]
  {
    var rest := nodes[1..];
    if rest == [] {
      assert Deployed(rest) == [];
    } else {
      assert Endpoints(rest)[0] == EndpointOf(nodes[1]) == EndpointOf(nodes[0]);
      SharedLeaveTheLast(rest);
    }
  }

  /** The system the client's pushes set up, one node for each process. */
  function DeployedConfig(mode: Mode, nodes: seq<NodeRecord>, lossy: bool, duplicating: bool): C.Config {
    LinearConfig(mode, Deployed(nodes), lossy, duplicating)
  }

  /** With a host override in production all of a chain's nodes are one process, and it is no head. */
  lemma OverriddenChain(mode: Mode, nodes: seq<NodeRecord>, n: nat, basePort: nat, env: EnvName, host: Option<string>,
                        lossy: bool, duplicating: bool)
    requires n > 1 && IsGeneratedChain(nodes, n, basePort, env, host) && env == PROD && Overridden(host)
    ensures Deployed(nodes) == [nodes[n-1]] && !nodes[n-1].isHead
  {
    forall i | 0 <= i < n ensures EndpointOf(nodes[i]) == Endpoint(host.value, basePort) {
      assert nodes[i] == ChainRecord(n, basePort, env, host, i);
    }
    assert nodes[n-1] == ChainRecord(n, basePort, env, host, n - 1);
    SharedLeaveTheLast(nodes);
  }

  lemma LinearReadIsTailRead(mode: Mode, nodes: seq<NodeRecord>, n: nat, basePort: nat, env: EnvName,
                             host: Option<string>, lossy: bool, duplicating: bool, key: string,
                             tr: seq<C.Cluster>, steps: seq<C.Step>, j: nat, e: C.Env) returns (k: nat)
    requires n > 0 && mode != CROWN && IsGeneratedChain(nodes, n, basePort, env, host)
    requires n == 1 || env == DEV || !Overridden(host)
    requires C.IsRun(LinearConfig(mode, nodes, lossy, duplicating), tr, steps)
    requires j < |tr| && e in tr[j].net && e.key == key && e.item.ReadDone?
    ensures k <= j && e.item.rid < tr[k].clock && |tr[k].stores| == n
    ensures C.CellOf(tr[k].stores[n-1], key).ks.commVersion == e.item.version
    ensures C.CellOf(tr[k].stores[n-1], key).ks.commValue == e.item.value
  {
    var cfg := LinearConfig(mode, nodes, lossy, duplicating);
    GeneratedChainHasRoute(mode, nodes, n, basePort, env, host, lossy, duplicating);
    T.ClusterReadsAreLinearizable(cfg, Identity(n), false, key, tr, steps, j, e);
    k :| k <= j && e.item.rid < tr[k].clock
      && T.TailState(Identity(n), key, tr[k]).commVersion == e.item.version
      && T.TailState(Identity(n), key, tr[k]).commValue == e.item.value;
    assert |tr[k].stores| == |cfg.nodes|;
  }

  /** The process that holds the key's committed state, if the system has any. */
  function LastStore(c: C.Cluster): map<string, L.Cell> {
    if c.stores == [] then map[] else c.stores[|c.stores|-1]
  }

  /**
   End to end for CHAIN and CRAQ: on every generated chain, whatever its arguments, every read
   that succeeds, at any node and with no assumption on where clients send their calls,
   returned the version and value committed at the last node at an instant within the read.
   */
  lemma LinearServiceIsLinearizable(mode: Mode, nodes: seq<NodeRecord>, n: nat, basePort: nat, env: EnvName,
                                    host: Option<string>, lossy: bool, duplicating: bool, key: string,
                                    tr: seq<C.Cluster>, steps: seq<C.Step>, j: nat, e: C.Env)
    requires n > 0 && mode != CROWN && IsGeneratedChain(nodes, n, basePort, env, host)
    requires C.IsRun(DeployedConfig(mode, nodes, lossy, duplicating), tr, steps)
    requires j < |tr| && e in tr[j].net && e.key == key && e.item.ReadDone?
    ensures exists k: nat :: k <= j && e.item.rid < tr[k].clock
              && C.CellOf(LastStore(tr[k]), key).ks.commVersion == e.item.version
              && C.CellOf(LastStore(tr[k]), key).ks.commValue == e.item.value
  {
    if n == 1 || env == DEV || !Overridden(host) {
      ChainEndpoints(nodes, n, basePort, env, host);
      DistinctAreDeployed(nodes);
      var k := LinearReadIsTailRead(mode, nodes, n, basePort, env, host, lossy, duplicating, key, tr, steps, j, e);
      assert LastStore(tr[k]) == tr[k].stores[n-1];
    } else {
      OverriddenChain(mode, nodes, n, basePort, env, host, lossy, duplicating);
      H.NoHeadNoRead(DeployedConfig(mode, nodes, lossy, duplicating), tr, steps, j, e);
    }
  }

  /** With shared endpoints the service is safe but useless: no read of it ever succeeds. */
  lemma OverriddenChainNeverAnswers(mode: Mode, nodes: seq<NodeRecord>, n: nat, basePort: nat, host: Option<string>,
                                    lossy: bool, duplicating: bool, tr: seq<C.Cluster>, steps: seq<C.Step>, j: nat,
                                    e: C.Env)
    requires n > 1 && mode != CROWN && IsGeneratedChain(nodes, n, basePort, PROD, host) && Overridden(host)
    requires C.IsRun(DeployedConfig(mode, nodes, lossy, duplicating), tr, steps)
    requires j < |tr| && e in tr[j].net
    ensures !e.item.ReadDone? && !e.item.ClientAck? && !e.item.ClientAcked?
  {
    OverriddenChain(mode, nodes, n, basePort, PROD, host, lossy, duplicating);
    H.NoHeadNoRead(DeployedConfig(mode, nodes, lossy, duplicating), tr, steps, j, e);
  }
}
