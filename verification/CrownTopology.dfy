/**
 Configuration records, the client's validation of a CROWN topology, and the two ways the
 clients index the nodes by id.
 */
module CrownTopology {
  import opened Wrappers
  import Ring
  import Sets
  import Text

  /** One entry of the configuration's node list; a null or absent neighbour is None. */
  datatype NodeRecord = NodeRecord(
    id: int, host: string, port: int, isHead: bool, isTail: bool,
    predecessor: Option<string>, successor: Option<string>)

  function Endpoint(host: string, port: int): string {
    host + ":" + Text.ToString(port)
  }

  function EndpointOf(n: NodeRecord): string {
    Endpoint(n.host, n.port)
  }

  datatype ValidationError =
    | DuplicateEndpoint | DuplicateId | MissingNeighbour | IdsNotContiguous
    | PredecessorUnknown | SuccessorUnknown | RingInconsistent | CycleTooShort | RingOpen

  // ----- indexing a list by distinct keys -----

  ghost predicate Unique<T>(keys: seq<T>) {
    forall i, j :: 0 <= i < j < |keys| ==> keys[i] != keys[j]
  }

  function IndexFrom<T(==)>(keys: seq<T>, x: T, start: nat): (i: nat)
    requires start <= |keys|
    ensures start <= i <= |keys|
    ensures i < |keys| ==> keys[i] == x
    ensures i == |keys| ==> x !in keys[start..]
    decreases |keys| - start
  {
    if start == |keys| || keys[start] == x then start else IndexFrom(keys, x, start + 1)
  }

  /** The position of a key, or the list's length if it is not there. */
  function IndexOf<T(==)>(keys: seq<T>, x: T): (i: nat)
    ensures i <= |keys|
    ensures i < |keys| ==> keys[i] == x
    ensures i == |keys| ==> x !in keys
  {
    IndexFrom(keys, x, 0)
  }

  lemma IndexOfUnique<T>(keys: seq<T>, i: nat, x: T)
    requires Unique(keys) && i < |keys|
    ensures IndexOf(keys, x) == i <==> x == keys[i]
  {
  }

  /** The index built over the first k keys. */
  ghost predicate Indexed<T(!new)>(keys: seq<T>, k: nat, m: map<T, nat>) {
    && k <= |keys|
    && (forall i :: 0 <= i < k ==> keys[i] in m && m[keys[i]] == i)
    && (forall x :: x in m ==> m[x] < k && keys[m[x]] == x)
  }

  lemma IndexNext<T(!new)>(keys: seq<T>, k: nat, m: map<T, nat>)
    requires Indexed(keys, k, m) && k < |keys|
    ensures keys[k] in m <==> keys[k] in keys[..k]
    ensures keys[k] !in m ==> Indexed(keys, k + 1, m[keys[k] := k])
  {
    if keys[k] in m { assert keys[..k][m[keys[k]]] == keys[k]; }
    if keys[k] in keys[..k] {
      var i :| 0 <= i < k && keys[i] == keys[k];
      assert m[keys[i]] == i;
    }
  }

  lemma UniqueIff<T(!new)>(keys: seq<T>)
    ensures Unique(keys) <==> forall k :: 0 <= k < |keys| ==> keys[k] !in keys[..k]
  {
    if forall k :: 0 <= k < |keys| ==> keys[k] !in keys[..k] {
      forall i, j | 0 <= i < j < |keys| ensures keys[i] != keys[j] { assert keys[i] in keys[..j]; }
    }
  }

  lemma IndexedIsUnique<T(!new)>(keys: seq<T>, m: map<T, nat>)
    requires Indexed(keys, |keys|, m)
    ensures Unique(keys)
    ensures forall x :: IndexOf(keys, x) == if x in m then m[x] else |keys|
  {
    forall x ensures IndexOf(keys, x) == if x in m then m[x] else |keys| {
      var i := IndexOf(keys, x);
      if i < |keys| { assert m[keys[i]] == i; }
    }
  }

  // ----- what a valid ring is -----

  function Endpoints(nodes: seq<NodeRecord>): (keys: seq<string>)
    ensures |keys| == |nodes|
  {
    seq(|nodes|, i requires 0 <= i < |nodes| => EndpointOf(nodes[i]))
  }

  function Ids(nodes: seq<NodeRecord>): (keys: seq<int>)
    ensures |keys| == |nodes|
  {
    seq(|nodes|, i requires 0 <= i < |nodes| => nodes[i].id)
  }

  /** The ids are a permutation of 0..n-1. */
  ghost predicate Permutation(ids: seq<int>) {
    Unique(ids) && forall id :: 0 <= id < |ids| ==> id in ids
  }

  ghost predicate HaveNeighbours(nodes: seq<NodeRecord>) {
    forall i :: 0 <= i < |nodes| ==> nodes[i].predecessor.Some? && nodes[i].successor.Some?
  }

  function Neighbour(keys: seq<string>, endpoint: Option<string>): (i: nat)
    ensures i <= |keys|
  {
    if endpoint.Some? then IndexOf(keys, endpoint.value) else |keys|
  }

  /** Successors and predecessors as list positions. */
  function Succs(nodes: seq<NodeRecord>): (succ: seq<nat>)
    ensures |succ| == |nodes|
  {
    seq(|nodes|, i requires 0 <= i < |nodes| => Neighbour(Endpoints(nodes), nodes[i].successor))
  }

  function Preds(nodes: seq<NodeRecord>): (pred: seq<nat>)
    ensures |pred| == |nodes|
  {
    seq(|nodes|, i requires 0 <= i < |nodes| => Neighbour(Endpoints(nodes), nodes[i].predecessor))
  }

  ghost predicate MutualInverses(succ: seq<nat>, pred: seq<nat>) {
    && Ring.Closed(succ) && Ring.Closed(pred) && |succ| == |pred|
    && forall i :: 0 <= i < |succ| ==> succ[pred[i]] == i && pred[succ[i]] == i
  }

  /** Distinct endpoints, ids a permutation of 0..n-1, links that agree, one cycle over all nodes. */
  ghost predicate ValidRing(nodes: seq<NodeRecord>) {
    && Unique(Endpoints(nodes)) && Permutation(Ids(nodes)) && HaveNeighbours(nodes)
    && MutualInverses(Succs(nodes), Preds(nodes))
    && Ring.OneCycle(Succs(nodes))
  }

  lemma InversesClosed(succ: seq<nat>, pred: seq<nat>)
    requires MutualInverses(succ, pred)
    ensures Ring.Closed(succ)
  {
  }

  lemma InversesInject(succ: seq<nat>, pred: seq<nat>)
    requires MutualInverses(succ, pred)
    ensures Ring.Injective(succ)
  {
    forall i, j | 0 <= i < |succ| && 0 <= j < |succ| && succ[i] == succ[j] ensures i == j {
      assert pred[succ[i]] == i && pred[succ[j]] == j;
    }
  }

  // ----- the client's checks -----

  /** The first check that node k fails, in the order the checks are made. */
  ghost function FaultAt(nodes: seq<NodeRecord>, k: nat): Option<ValidationError>
    requires k < |nodes|
  {
    if Endpoints(nodes)[k] in Endpoints(nodes)[..k] then Some(DuplicateEndpoint)
    else if Ids(nodes)[k] in Ids(nodes)[..k] then Some(DuplicateId)
    else if nodes[k].predecessor.None? || nodes[k].successor.None? then Some(MissingNeighbour)
    else None
  }

  /** The first of the three that applies: endpoint seen before, id seen before, neighbour missing. */
  lemma FaultCases(nodes: seq<NodeRecord>, k: nat)
    requires k < |nodes|
    ensures FaultAt(nodes, k) == Some(DuplicateEndpoint) <==>
            exists i: nat :: i < k && EndpointOf(nodes[i]) == EndpointOf(nodes[k])
    ensures FaultAt(nodes, k) == Some(DuplicateId) <==>
            (forall i: nat :: i < k ==> EndpointOf(nodes[i]) != EndpointOf(nodes[k]))
            && exists i: nat :: i < k && nodes[i].id == nodes[k].id
    ensures FaultAt(nodes, k) == Some(MissingNeighbour) <==>
            (forall i: nat :: i < k ==> EndpointOf(nodes[i]) != EndpointOf(nodes[k]) && nodes[i].id != nodes[k].id)
            && (nodes[k].predecessor.None? || nodes[k].successor.None?)
  {
    var endpoints, ids := Endpoints(nodes), Ids(nodes);
    assert forall i: nat :: i < k ==> endpoints[..k][i] == EndpointOf(nodes[i]) && ids[..k][i] == nodes[i].id;
  }

  ghost predicate SoundUpTo(nodes: seq<NodeRecord>, k: nat) {
    k <= |nodes| && forall i :: 0 <= i < k ==> FaultAt(nodes, i) == None
  }

  lemma SoundIff(nodes: seq<NodeRecord>)
    ensures SoundUpTo(nodes, |nodes|) <==> Unique(Endpoints(nodes)) && Unique(Ids(nodes)) && HaveNeighbours(nodes)
  {
    UniqueIff(Endpoints(nodes));
    UniqueIff(Ids(nodes));
    if SoundUpTo(nodes, |nodes|) {
      forall k | 0 <= k < |nodes|
        ensures Endpoints(nodes)[k] !in Endpoints(nodes)[..k] && Ids(nodes)[k] !in Ids(nodes)[..k]
             && nodes[k].predecessor.Some? && nodes[k].successor.Some?
      { assert FaultAt(nodes, k) == None; }
    }
  }

  lemma FaultMeans(nodes: seq<NodeRecord>, k: nat)
    requires k < |nodes|
    ensures FaultAt(nodes, k) == Some(DuplicateEndpoint) ==> !Unique(Endpoints(nodes))
    ensures FaultAt(nodes, k) == Some(DuplicateId) ==> !Unique(Ids(nodes))
    ensures FaultAt(nodes, k) == Some(MissingNeighbour) ==> !HaveNeighbours(nodes)
    ensures FaultAt(nodes, k).Some? ==> FaultAt(nodes, k).value in {DuplicateEndpoint, DuplicateId, MissingNeighbour}
  {
    UniqueIff(Endpoints(nodes));
    UniqueIff(Ids(nodes));
  }

  /** The checks of one node against the indexes of the nodes before it. */
  method CheckNode(nodes: seq<NodeRecord>, k: nat, byEndpoint: map<string, nat>, byId: map<int, nat>)
    returns (r: Option<ValidationError>)
    requires k < |nodes| && Indexed(Endpoints(nodes), k, byEndpoint) && Indexed(Ids(nodes), k, byId)
    ensures r == FaultAt(nodes, k)
    ensures r.None? ==> Indexed(Endpoints(nodes), k + 1, byEndpoint[EndpointOf(nodes[k]) := k])
    ensures r.None? ==> Indexed(Ids(nodes), k + 1, byId[nodes[k].id := k])
  {
    IndexNext(Endpoints(nodes), k, byEndpoint);
    IndexNext(Ids(nodes), k, byId);
    hide Indexed;
    if EndpointOf(nodes[k]) in byEndpoint { return Some(DuplicateEndpoint); }
    if nodes[k].id in byId { return Some(DuplicateId); }
    if nodes[k].predecessor.None? || nodes[k].successor.None? { return Some(MissingNeighbour); }
    return None;
  }

  method IndexNodes(nodes: seq<NodeRecord>)
    returns (r: Result<map<string, nat>, ValidationError>, byId: map<int, nat>)
    ensures r.Ok? <==> Unique(Endpoints(nodes)) && Unique(Ids(nodes)) && HaveNeighbours(nodes)
    ensures r.Ok? ==> Indexed(Endpoints(nodes), |nodes|, r.value) && Indexed(Ids(nodes), |nodes|, byId)
    ensures r.Err? ==> exists k: nat :: SoundUpTo(nodes, k) && k < |nodes| && FaultAt(nodes, k) == Some(r.error)
    ensures r == Err(DuplicateEndpoint) ==> !Unique(Endpoints(nodes))
    ensures r == Err(DuplicateId) ==> !Unique(Ids(nodes))
    ensures r == Err(MissingNeighbour) ==> !HaveNeighbours(nodes)
    ensures r.Err? ==> r.error in {DuplicateEndpoint, DuplicateId, MissingNeighbour}
  {
    var byEndpoint: map<string, nat> := map[];
    byId := map[];
    var k := 0;
    assert Indexed(Endpoints(nodes), 0, byEndpoint) && Indexed(Ids(nodes), 0, byId) && SoundUpTo(nodes, 0);
    SoundIff(nodes);
    hide Indexed, Endpoints, EndpointOf, Ids, Unique, HaveNeighbours, FaultAt;
    while k < |nodes|
      invariant 0 <= k <= |nodes| && SoundUpTo(nodes, k)
      invariant Indexed(Endpoints(nodes), k, byEndpoint) && Indexed(Ids(nodes), k, byId)
    {
      var fault := CheckNode(nodes, k, byEndpoint, byId);
      if fault.Some? {
        FaultMeans(nodes, k);
        assert SoundUpTo(nodes, k) && FaultAt(nodes, k) == Some(fault.value);
        return Err(fault.value), byId;
      }
      byEndpoint := byEndpoint[EndpointOf(nodes[k]) := k];
      byId := byId[nodes[k].id := k];
      k := k + 1;
    }
    r := Ok(byEndpoint);
  }

  /** The ids are checked to contain 0..n-1. */
  method CheckIds(ids: seq<int>, byId: map<int, nat>) returns (ok: bool)
    requires Indexed(ids, |ids|, byId)
    ensures ok <==> forall id :: 0 <= id < |ids| ==> id in ids
  {
    var expected := 0;
    while expected < |ids|
      invariant 0 <= expected <= |ids|
      invariant forall id :: 0 <= id < expected ==> id in ids
    {
      if expected !in byId {
        assert expected !in ids;
        return false;
      }
      assert ids[byId[expected]] == expected;
      expected := expected + 1;
    }
    ok := true;
  }

  /** One node's links agree with its neighbours' links. */
  ghost predicate Consistent(succ: seq<nat>, pred: seq<nat>, i: nat)
    requires |succ| == |pred| && i < |succ|
  {
    && succ[i] < |succ| && pred[i] < |succ|
    && succ[pred[i]] == i && pred[succ[i]] == i
  }

  lemma ConsistentMeansInverses(succ: seq<nat>, pred: seq<nat>)
    requires |succ| == |pred|
    ensures MutualInverses(succ, pred) <==> forall i :: 0 <= i < |succ| ==> Consistent(succ, pred, i)
  {
    if forall i :: 0 <= i < |succ| ==> Consistent(succ, pred, i) {
      forall i | 0 <= i < |succ| ensures succ[i] < |succ| && pred[i] < |succ| { assert Consistent(succ, pred, i); }
      forall i | 0 <= i < |succ| ensures succ[pred[i]] == i && pred[succ[i]] == i { assert Consistent(succ, pred, i); }
    }
  }

  lemma BrokenLink(succ: seq<nat>, pred: seq<nat>, k: nat)
    requires |succ| == |pred| && k < |succ|
    ensures pred[k] == |pred| ==> !Ring.Closed(pred)
    ensures succ[k] == |succ| ==> !Ring.Closed(succ)
    ensures !Consistent(succ, pred, k) ==> !MutualInverses(succ, pred)
  {
  }

  /** The check of one node, in terms of endpoints. */
  lemma ConsistentIff(nodes: seq<NodeRecord>, k: nat, p: nat, s: nat)
    requires Unique(Endpoints(nodes)) && HaveNeighbours(nodes) && k < |nodes|
    requires p == Preds(nodes)[k] < |nodes| && s == Succs(nodes)[k] < |nodes|
    ensures Consistent(Succs(nodes), Preds(nodes), k)
       <==> nodes[p].successor.value == EndpointOf(nodes[k]) && nodes[s].predecessor.value == EndpointOf(nodes[k])
  {
    var keys := Endpoints(nodes);
    IndexOfUnique(keys, k, nodes[p].successor.value);
    IndexOfUnique(keys, k, nodes[s].predecessor.value);
  }

  /** What is wrong with one node's links: its predecessor is looked up first, then its successor. */
  ghost function LinkFault(nodes: seq<NodeRecord>, k: nat): Option<ValidationError>
    requires HaveNeighbours(nodes) && k < |nodes|
  {
    if nodes[k].predecessor.value !in Endpoints(nodes) then Some(PredecessorUnknown)
    else if nodes[k].successor.value !in Endpoints(nodes) then Some(SuccessorUnknown)
    else if LinksAgree(nodes, k) then None
    else Some(RingInconsistent)
  }

  /** The links of all nodes before k agree, and k's are the first at fault. */
  ghost predicate FirstLinkFault(nodes: seq<NodeRecord>, k: nat, fault: ValidationError) {
    && HaveNeighbours(nodes) && k < |nodes|
    && (forall i :: 0 <= i < k ==> LinksAgree(nodes, i))
    && LinkFault(nodes, k) == Some(fault)
  }

  lemma FaultsOfLinks(nodes: seq<NodeRecord>, k: nat)
    requires HaveNeighbours(nodes) && k < |nodes|
    ensures LinksAgree(nodes, k) ==>
              nodes[k].predecessor.value in Endpoints(nodes) && nodes[k].successor.value in Endpoints(nodes)
    ensures LinkFault(nodes, k) == None <==> LinksAgree(nodes, k)
  {
  }

  method CheckLink(nodes: seq<NodeRecord>, byEndpoint: map<string, nat>, k: nat) returns (r: Option<ValidationError>)
    requires HaveNeighbours(nodes) && Indexed(Endpoints(nodes), |nodes|, byEndpoint) && k < |nodes|
    ensures r.None? <==> LinksAgree(nodes, k)
    ensures r == Some(PredecessorUnknown) <==> nodes[k].predecessor.value !in Endpoints(nodes)
    ensures r == Some(SuccessorUnknown) <==>
              nodes[k].predecessor.value in Endpoints(nodes) && nodes[k].successor.value !in Endpoints(nodes)
    ensures r == LinkFault(nodes, k)
    ensures r.Some? ==> r.value in {PredecessorUnknown, SuccessorUnknown, RingInconsistent}
    ensures r.Some? ==> !MutualInverses(Succs(nodes), Preds(nodes))
    ensures r == Some(PredecessorUnknown) ==> !Ring.Closed(Preds(nodes))
    ensures r == Some(SuccessorUnknown) ==> !Ring.Closed(Succs(nodes))
  {
    FaultsOfLinks(nodes, k);
    BrokenLink(Succs(nodes), Preds(nodes), k);
    var before, after := nodes[k].predecessor.value, nodes[k].successor.value;
    IndexedIsUnique(Endpoints(nodes), byEndpoint);
    assert Preds(nodes)[k] == IndexOf(Endpoints(nodes), before);
    assert Succs(nodes)[k] == IndexOf(Endpoints(nodes), after);
    if before !in byEndpoint { return Some(PredecessorUnknown); }
    if after !in byEndpoint { return Some(SuccessorUnknown); }
    var p, s := byEndpoint[before], byEndpoint[after];
    ConsistentIff(nodes, k, p, s);
    var endpoint := EndpointOf(nodes[k]);
    if nodes[p].successor.value != endpoint || nodes[s].predecessor.value != endpoint {
      return Some(RingInconsistent);
    }
    r := None;
  }

  ghost predicate LinksAgree(nodes: seq<NodeRecord>, k: nat)
    requires k < |nodes|
  {
    Consistent(Succs(nodes), Preds(nodes), k)
  }

  lemma AllAgree(nodes: seq<NodeRecord>)
    requires forall k :: 0 <= k < |nodes| ==> LinksAgree(nodes, k)
    ensures MutualInverses(Succs(nodes), Preds(nodes))
  {
    ConsistentMeansInverses(Succs(nodes), Preds(nodes));
    forall k | 0 <= k < |nodes| ensures Consistent(Succs(nodes), Preds(nodes), k) { assert LinksAgree(nodes, k); }
  }

  lemma IsFirstLinkFault(nodes: seq<NodeRecord>, k: nat, fault: ValidationError)
    requires HaveNeighbours(nodes) && k < |nodes| && LinkFault(nodes, k) == Some(fault)
    requires forall i :: 0 <= i < k ==> LinksAgree(nodes, i)
    ensures FirstLinkFault(nodes, k, fault)
  {
  }

  method CheckLinks(nodes: seq<NodeRecord>, byEndpoint: map<string, nat>) returns (r: Option<ValidationError>)
    requires HaveNeighbours(nodes) && Indexed(Endpoints(nodes), |nodes|, byEndpoint)
    ensures r.None? <==> MutualInverses(Succs(nodes), Preds(nodes))
    ensures r.Some? ==> r.value in {PredecessorUnknown, SuccessorUnknown, RingInconsistent}
    ensures r.Some? ==> exists k :: FirstLinkFault(nodes, k, r.value)
    ensures r == Some(PredecessorUnknown) ==> !Ring.Closed(Preds(nodes))
    ensures r == Some(SuccessorUnknown) ==> !Ring.Closed(Succs(nodes))
  {
    hide *;
    var k := 0;
    while k < |nodes|
      invariant 0 <= k <= |nodes|
      invariant forall i :: 0 <= i < k ==> LinksAgree(nodes, i)
    {
      r := CheckLink(nodes, byEndpoint, k);
      if r.Some? {
        IsFirstLinkFault(nodes, k, r.value);
        return;
      }
      k := k + 1;
    }
    AllAgree(nodes);
    r := None;
  }

  // The endpoints of a set of list positions.
  ghost function Names(keys: seq<string>, s: set<nat>): set<string>
    requires forall i :: i in s ==> i < |keys|
  {
    set i | i in s :: keys[i]
  }

  /** Walk the ring from the first node, never meeting an endpoint twice. */
  ghost predicate Walking(keys: seq<string>, succ: seq<nat>, k: nat, current: string, visited: set<string>) {
    && Ring.Closed(succ) && 0 < |succ| == |keys| && k <= |succ|
    && current == keys[Ring.Walk(succ, 0, k)]
    && (forall i :: i in Ring.Visited(succ, 0, k) ==> i < |keys|)
    && visited == Names(keys, Ring.Visited(succ, 0, k))
    && Ring.DistinctWalk(succ, 0, k) && |visited| == k
  }

  lemma WalkMeetsOld(keys: seq<string>, succ: seq<nat>, k: nat, current: string, visited: set<string>)
    requires Unique(keys) && Walking(keys, succ, k, current, visited) && k < |succ| && current in visited
    ensures !Ring.OneCycle(succ)
  {
    var x :| x in Ring.Visited(succ, 0, k) && keys[x] == current;
    assert x == Ring.Walk(succ, 0, k);
    Ring.VisitedMembers(succ, 0, k, x);
    var t: nat :| t < k && Ring.Meets(succ, 0, t, x);
    Ring.RepeatLeavesOut(succ, 0, t, k);
  }

  lemma NamesGrow(keys: seq<string>, s: set<nat>, x: nat)
    requires x < |keys| && forall i :: i in s ==> i < |keys|
    ensures Names(keys, s + {x}) == Names(keys, s) + {keys[x]}
  {
  }

  lemma WalkGoesOn(keys: seq<string>, succ: seq<nat>, k: nat, current: string, visited: set<string>)
    requires Walking(keys, succ, k, current, visited) && k < |succ| && current !in visited
    ensures Ring.Walk(succ, 0, k) < |keys| && current == keys[Ring.Walk(succ, 0, k)]
    ensures Walking(keys, succ, k + 1, keys[succ[Ring.Walk(succ, 0, k)]], visited + {current})
  {
    hide Ring.DistinctWalk;
    NamesGrow(keys, Ring.Visited(succ, 0, k), Ring.Walk(succ, 0, k));
    assert Ring.Visited(succ, 0, k + 1) == Ring.Visited(succ, 0, k) + {Ring.Walk(succ, 0, k)};
    assert Ring.Walk(succ, 0, k) !in Ring.Visited(succ, 0, k);
    Ring.DistinctWalkOn(succ, 0, k);
    hide Names;
  }

  /** Looking up an endpoint and following its successor is one step of the ring. */
  method FollowSuccessor(nodes: seq<NodeRecord>, byEndpoint: map<string, nat>, current: string, ghost here: nat)
    returns (next: string)
    requires HaveNeighbours(nodes) && Indexed(Endpoints(nodes), |nodes|, byEndpoint) && Ring.Closed(Succs(nodes))
    requires here < |nodes| && current == Endpoints(nodes)[here]
    ensures next == Endpoints(nodes)[Succs(nodes)[here]]
  {
    next := nodes[byEndpoint[current]].successor.value;
    assert Succs(nodes)[here] == IndexOf(Endpoints(nodes), nodes[here].successor.value);
  }

  lemma WalkStarts(nodes: seq<NodeRecord>)
    requires Ring.Closed(Succs(nodes)) && |nodes| > 0
    ensures Walking(Endpoints(nodes), Succs(nodes), 0, EndpointOf(nodes[0]), {})
  {
  }

  /** A walk of n different nodes has covered the ring and is back at its start. */
  lemma WalkEnds(nodes: seq<NodeRecord>, current: string, visited: set<string>)
    requires |nodes| > 0 && MutualInverses(Succs(nodes), Preds(nodes))
    requires Walking(Endpoints(nodes), Succs(nodes), |nodes|, current, visited)
    ensures Ring.OneCycle(Succs(nodes)) && current == EndpointOf(nodes[0]) && |visited| == |nodes|
  {
    WalkedAllIff(Succs(nodes), Preds(nodes));
  }

  method CheckCycle(nodes: seq<NodeRecord>, byEndpoint: map<string, nat>) returns (r: Option<ValidationError>)
    requires |nodes| > 0 && HaveNeighbours(nodes)
    requires Indexed(Endpoints(nodes), |nodes|, byEndpoint) && MutualInverses(Succs(nodes), Preds(nodes))
    ensures r.None? <==> Ring.OneCycle(Succs(nodes))
    ensures r.Some? ==> r.value == CycleTooShort
  {
    hide *;
    InversesClosed(Succs(nodes), Preds(nodes));
    ghost var keys, succ := Endpoints(nodes), Succs(nodes);
    IndexedIsUnique(keys, byEndpoint);
    WalkStarts(nodes);
    var visited: set<string> := {};
    var current := EndpointOf(nodes[0]);
    var step: nat := 0;
    while step < |nodes|
      invariant step <= |nodes| && Walking(keys, succ, step, current, visited)
    {
      if current in visited {
        WalkMeetsOld(keys, succ, step, current, visited);
        return Some(CycleTooShort);
      }
      WalkGoesOn(keys, succ, step, current, visited);
      ghost var here := Ring.Walk(succ, 0, step);
      visited := visited + {current};
      current := FollowSuccessor(nodes, byEndpoint, current, here);
      step := step + 1;
    }
    WalkEnds(nodes, current, visited);
    if current != EndpointOf(nodes[0]) || |visited| != |nodes| { return Some(RingOpen); }
    r := None;
  }

  lemma DistinctWalkReaches(succ: seq<nat>)
    requires Ring.Closed(succ) && |succ| > 0 && Ring.DistinctWalk(succ, 0, |succ|)
    ensures forall j: nat :: j < |succ| ==> Ring.Reaches(succ, 0, j)
  {
    forall j: nat | j < |succ| ensures Ring.Reaches(succ, 0, j) { Ring.DistinctWalkCovers(succ, 0, j); }
  }

  /** n different nodes in a row: the walk has covered the ring and is back at its start. */
  lemma WalkedAllIff(succ: seq<nat>, pred: seq<nat>)
    requires |succ| > 0 && MutualInverses(succ, pred) && Ring.DistinctWalk(succ, 0, |succ|)
    ensures Ring.OneCycle(succ) && Ring.Walk(succ, 0, |succ|) == 0
  {
    InversesInject(succ, pred);
    DistinctWalkReaches(succ);
    Ring.OneStartSuffices(succ, 0);
    Ring.WalkCloses(succ, 0);
  }

  /**
   The validator accepts exactly the valid rings. Callers pass a non-empty list: it reads the
   first node, and an earlier check has refused empty lists.
   */
  method ValidateCrownTopology(nodes: seq<NodeRecord>) returns (r: Option<ValidationError>)
    requires |nodes| > 0
    ensures r.None? <==> ValidRing(nodes)
    ensures r == Some(DuplicateEndpoint) ==> !Unique(Endpoints(nodes))
    ensures r == Some(DuplicateId) ==> !Unique(Ids(nodes))
    ensures r == Some(MissingNeighbour) ==> !HaveNeighbours(nodes)
    ensures r.Some? && r.value in {DuplicateEndpoint, DuplicateId, MissingNeighbour} ==>
              exists k: nat :: SoundUpTo(nodes, k) && k < |nodes| && FaultAt(nodes, k) == r
    ensures r == Some(IdsNotContiguous) ==>
              SoundUpTo(nodes, |nodes|) && Unique(Ids(nodes)) && !Permutation(Ids(nodes))
    ensures r.Some? && r.value in {PredecessorUnknown, SuccessorUnknown, RingInconsistent, CycleTooShort} ==>
              SoundUpTo(nodes, |nodes|) && Permutation(Ids(nodes))
    ensures r.Some? && r.value in {PredecessorUnknown, SuccessorUnknown, RingInconsistent} ==>
              exists k :: FirstLinkFault(nodes, k, r.value)
    ensures r == Some(PredecessorUnknown) ==> !Ring.Closed(Preds(nodes))
    ensures r == Some(SuccessorUnknown) ==> !Ring.Closed(Succs(nodes))
    ensures r == Some(RingInconsistent) ==> !MutualInverses(Succs(nodes), Preds(nodes))
    ensures r == Some(CycleTooShort) ==>
              MutualInverses(Succs(nodes), Preds(nodes)) && !Ring.OneCycle(Succs(nodes))
    ensures r != Some(RingOpen)
  {
    var indexed, byId := IndexNodes(nodes);
    if indexed.Err? { return Some(indexed.error); }
    SoundIff(nodes);
    var contiguous := CheckIds(Ids(nodes), byId);
    if !contiguous { return Some(IdsNotContiguous); }
    var links := CheckLinks(nodes, indexed.value);
    if links.Some? { return links; }
    r := CheckCycle(nodes, indexed.value);
  }

  // ----- indexing the nodes by id -----

  ghost predicate InRange(ids: seq<int>) {
    forall i :: 0 <= i < |ids| ==> 0 <= ids[i] < |ids|
  }

  /** Both clients index the nodes by id, refusing ids out of range and duplicates. */
  method BuildById(nodes: seq<NodeRecord>) returns (r: Option<seq<nat>>)
    ensures r.Some? <==> Permutation(Ids(nodes))
    ensures r.Some? ==> |r.value| == |nodes| && forall id :: 0 <= id < |nodes| ==>
              r.value[id] < |nodes| && nodes[r.value[id]].id == id
  {
    ghost var ids := Ids(nodes);
    var byId := new Option<nat>[|nodes|](_ => None);
    if Unique(ids) { InRangeIffPermutation(ids); }
    var k := 0;
    while k < |nodes|
      invariant 0 <= k <= |nodes|
      invariant forall i :: 0 <= i < k ==> 0 <= ids[i] < |nodes| && byId[ids[i]] == Some(i)
      invariant forall id :: 0 <= id < |nodes| && byId[id].Some? ==> byId[id].value < k && ids[byId[id].value] == id
    {
      var id := nodes[k].id;
      assert ids[k] == id;
      if id < 0 || id >= |nodes| { return None; }
      if byId[id].Some? {
        assert ids[byId[id].value] == ids[k];
        return None;
      }
      byId[id] := Some(k);
      k := k + 1;
    }
    assert Unique(ids) by {
      forall i, j | 0 <= i < j < |ids| ensures ids[i] != ids[j] {
        assert byId[ids[i]] == Some(i) && byId[ids[j]] == Some(j);
      }
    }
    InRangeIffPermutation(ids);
    forall id | 0 <= id < |nodes| ensures byId[id].Some? { assert id in ids; }
    r := Some(seq(|nodes|, id requires 0 <= id < |nodes| && byId[id].Some? reads byId => byId[id].value));
  }

  function Elements(ids: seq<int>): set<int> {
    set id | id in ids
  }

  lemma {:induction false} ElementsSize(ids: seq<int>)
    requires Unique(ids)
    ensures |Elements(ids)| == |ids|
  {
    if ids != [] {
      var rest, last := ids[..|ids|-1], ids[|ids|-1];
      ElementsSize(rest);
      assert ids == rest + [last];
      assert Elements(ids) == Elements(rest) + {last};
    }
  }

  /** n distinct ids below n leave none out; conversely a permutation has no id out of range. */
  lemma InRangeIffPermutation(ids: seq<int>)
    requires Unique(ids)
    ensures InRange(ids) <==> Permutation(ids)
  {
    ElementsSize(ids);
    var elements, range := Elements(ids), Sets.Below(|ids|);
    if InRange(ids) {
      Sets.SubsetSize(elements, range);
      forall id | 0 <= id < |ids| ensures id in ids { assert id in elements; }
    }
    if Permutation(ids) {
      Sets.SubsetSize(range, elements);
      forall i | 0 <= i < |ids| ensures 0 <= ids[i] < |ids| { assert ids[i] in elements; }
    }
  }
}
