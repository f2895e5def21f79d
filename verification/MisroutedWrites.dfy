/**
 When a CROWN write reaches a node that is not its key's head. The node does not refuse it: it
 numbers the write and becomes its origin, so the write is committed at the node before that
 one, and acknowledged. Acknowledged writes are covered at the node the client reads from if
 and only if the writes entered at the key's head.
 */
module MisroutedWrites {
  import opened Wrappers
  import opened KeyStates
  import opened Messages
  import opened Clusters
  import L = Lanes
  import P = ClusterProjection
  import T = ClusterTheorems
  import Text
  import Topology = CrownTopology
  import CrownRoutes
  import CrownReplication
  import KeyRouting
  import ConfigGenerator
  import G = GeneratedConfigs

  // ----- exactly when routing is right -----

  /** All writes of the key are sent to node x. */
  ghost predicate EnterAt(key: string, x: nat, steps: seq<Step>) {
    forall k :: 0 <= k < |steps| && steps[k].CallWrite? && steps[k].key == key ==> steps[k].at == x
  }

  /** The node the client reads the key from, on a ring of n nodes. */
  function ReadTarget(key: string, n: nat): (x: nat)
    requires n > 0
    ensures x < n
  {
    CrownReplication.TailIndex(KeyRouting.HeadIndex(key, n), n)
  }

  lemma TailsDiffer(h: nat, x: nat, n: nat)
    requires h < n && x < n
    ensures CrownReplication.TailIndex(h, n) == CrownReplication.TailIndex(x, n) <==> h == x
  {
    CrownReplication.TailBefore(h, n);
    CrownReplication.TailBefore(x, n);
  }

  /**
   On every accepted ring and in every run whose writes of the key all enter at one node x, any
   acknowledged version is covered at the node the client reads the key from if and only if x
   is the key's head. If it is not, every read there answers "not found", whatever has been
   acknowledged.
   */
  lemma AckedWritesAreReadableIff(nodes: seq<Topology.NodeRecord>, lossy: bool, duplicating: bool, key: string, x: nat,
                                  tr: seq<Cluster>, steps: seq<Step>, k: nat, rid: nat)
    requires 0 < |nodes| <= Text.INT_MAX && Topology.ValidRing(nodes) && x < |nodes|
    requires IsRun(CrownRoutes.CrownConfig(nodes, lossy, duplicating), tr, steps) && EnterAt(key, x, steps) && k < |tr|
    ensures |tr[k].stores| == |nodes|
    ensures forall v: nat :: T.AckedFor(tr[k], key, v) ==>
              (v <= CellOf(tr[k].stores[ReadTarget(key, |nodes|)], key).ks.commVersion
               <==> x == KeyRouting.HeadIndex(key, |nodes|))
    ensures x != KeyRouting.HeadIndex(key, |nodes|) ==>
              ReadAt(nodes, lossy, duplicating, tr[k], key, rid)
              == [ReadFailed(ReadTarget(key, |nodes|), rid, NotFound)]
  {
    var cfg := CrownRoutes.CrownConfig(nodes, lossy, duplicating);
    var h := KeyRouting.HeadIndex(key, |nodes|);
    var route := CrownRoutes.RouteFrom(nodes, x);
    CrownRoutes.AcceptedRingHasRoutes(nodes, x, lossy, duplicating);
    TailsDiffer(h, x, |nodes|);
    assert P.RoutedRun(cfg, route, key, steps);
    if x != h { T.CrownCommitLocality(cfg, route, key, tr, steps, k, ReadTarget(key, |nodes|), rid); }
    forall v: nat | T.AckedFor(tr[k], key, v)
      ensures v <= CellOf(tr[k].stores[ReadTarget(key, |nodes|)], key).ks.commVersion <==> x == h
    {
      T.ClusterAckMeansCommitted(cfg, route, false, key, tr, steps, k, k, v);
    }
  }

  /** What a read of the key, at the node the client sends it to, is answered in state c. */
  function ReadAt(nodes: seq<Topology.NodeRecord>, lossy: bool, duplicating: bool, c: Cluster, key: string,
                  rid: nat): seq<Item>
    requires 0 < |nodes| == |c.stores| && Topology.ValidRing(nodes)
  {
    var cfg := CrownRoutes.CrownConfig(nodes, lossy, duplicating);
    EffectOf(cfg, c, Env(key, "", ReadCall(ReadTarget(key, |nodes|), rid))).out
  }

  // ----- a misrouted write, acknowledged and invisible -----

  /** A two-node ring in id order: keys with head 0 have tail 1. */
  const RING := Config(CROWN, [
      NodeCfg("0", 0, false, false, Some(1), Some(1), None, 2),
      NodeCfg("1", 1, false, false, Some(0), Some(0), None, 2)], false, false)

  const WRITE := Req("a", "client", 1)

  const NUMBERED := L.Cell(KeyState(1, 0, "", 0, "", map[]), {}, {})
  const SEEN := L.Cell(KeyState(1, 1, "a", 0, "", map[]), {1}, {})
  const COMMITTED := L.Cell(KeyState(1, 1, "a", 1, "a", map[]), {1}, {1})

  ghost predicate Reaches(c: Cluster) {
    exists tr, steps :: IsRun(RING, tr, steps) && tr[|tr|-1] == c
  }

  lemma Reach(c: Cluster, step: Step)
    requires Reaches(c) && |c.stores| == 2 && Enabled(RING, c, step)
    ensures Reaches(Apply(RING, c, step))
  {
    var tr, steps :| IsRun(RING, tr, steps) && tr[|tr|-1] == c;
    var tr', steps' := tr + [Apply(RING, c, step)], steps + [step];
    forall k | 0 <= k < |steps'|
      ensures Enabled(RING, tr'[k], steps'[k]) && tr'[k+1] == Apply(RING, tr'[k], steps'[k])
    {
      if k < |steps| { assert Enabled(RING, tr[k], steps[k]) && tr[k+1] == Apply(RING, tr[k], steps[k]); }
    }
    assert IsRun(RING, tr', steps');
  }

  type Store = map<string, L.Cell>

  /** One outstanding item. */
  function At1(s0: Store, s1: Store, env: Env, logs: map<string, seq<Req>>): Cluster {
    Cluster([s0, s1], [env], logs, 0)
  }

  /** One section of the only outstanding item, leaving stores t0 and t1. */
  lemma Fired(s0: Store, s1: Store, env: Env, logs: map<string, seq<Req>>, x: nat, e: Effect, m': Item, t0: Store,
              t1: Store)
    requires Reaches(At1(s0, s1, env, logs))
    requires !Inert(env.item) && At(env.item) == Some(x) && x < 2 && env.key in logs
    requires var cell := CellOf(if x == 0 then s0 else s1, env.key);
             e == CrownReplication.Section(RING.nodes[x], env.origin, cell.ks, env.item)
    requires e.out == [m'] && !e.note.Assigned?
    requires t0 == if x == 0 then s0[env.key := L.Witness(CellOf(s0, env.key), e)] else s0
    requires t1 == if x == 0 then s1 else s1[env.key := L.Witness(CellOf(s1, env.key), e)]
    ensures Reaches(At1(t0, t1, Env(env.key, e.origin, m'), logs))
  {
    var c := At1(s0, s1, env, logs);
    Reach(c, Fire(0));
    assert L.Without(c.net, 0) == [];
    assert Addressed(env.key, e.origin, e.out) == [Env(env.key, e.origin, m')];
    assert logs[env.key := logs[env.key]] == logs;
    assert Apply(RING, c, Fire(0)) == At1(t0, t1, Env(env.key, e.origin, m'), logs);
  }

  lemma Called(key: string)
    ensures Reaches(At1(map[], map[key := NUMBERED], Env(key, "", WriteAssigned(1, 1, WRITE)), map[key := [WRITE]]))
  {
    var s0 := Init(RING);
    assert IsRun(RING, [s0], []) && [s0][|[s0]|-1] == s0;
    Reach(s0, CallWrite(key, 1, WRITE));
    var env := Env(key, "", WriteCall(1, WRITE));
    var s1 := At1(map[], map[], env, map[]);
    assert Apply(RING, s0, CallWrite(key, 1, WRITE)) == s1;
    Reach(s1, Fire(0));
    assert L.Without(s1.net, 0) == [];
    var e := EffectOf(RING, s1, env);
    assert e.out == [WriteAssigned(1, 1, WRITE)] && L.Witness(L.EMPTY_CELL, e) == NUMBERED;
    assert Addressed(key, "", e.out) == [Env(key, "", WriteAssigned(1, 1, WRITE))];
    assert Apply(RING, s1, Fire(0)).stores == [map[], map[key := NUMBERED]];
    assert L.LogAfter([], env.item, e.note) == [WRITE];
    assert Apply(RING, s1, Fire(0)).logs == map[key := [WRITE]];
    assert Apply(RING, s1, Fire(0)) ==
           At1(map[], map[key := NUMBERED], Env(key, "", WriteAssigned(1, 1, WRITE)), map[key := [WRITE]]);
  }

  function Effect1(x: nat, origin: string, cell: L.Cell, m: Item): Effect
    requires x < 2
  {
    CrownReplication.Section(RING.nodes[x], origin, cell.ks, m)
  }

  /** Node 1 sends the write on with itself as the origin. */
  lemma SentOn(key: string)
    ensures Reaches(At1(map[], map[key := SEEN], Env(key, Text.ToString(1), PropSent(0, 1, WRITE)),
                        map[key := [WRITE]]))
  {
    Called(key);
    var logs := map[key := [WRITE]];
    var numbered, seen := map[key := NUMBERED], map[key := SEEN];
    assert L.Witness(NUMBERED, Effect1(1, "", NUMBERED, WriteAssigned(1, 1, WRITE))).recorded == {1};
    Fired(map[], numbered, Env(key, "", WriteAssigned(1, 1, WRITE)), logs, 1,
          Effect1(1, "", NUMBERED, WriteAssigned(1, 1, WRITE)), WriteRecorded(1, 1, WRITE), map[], seen);
    Fired(map[], seen, Env(key, "", WriteRecorded(1, 1, WRITE)), logs, 1,
          Effect1(1, "", SEEN, WriteRecorded(1, 1, WRITE)), PropSent(0, 1, WRITE), map[], seen);
  }

  /** Node 0 precedes the origin, so it takes itself for the tail. */
  lemma WronglyCommitted(key: string)
    ensures Reaches(At1(map[key := COMMITTED], map[key := SEEN], Env(key, Text.ToString(1), TailMarked(0, 1, WRITE)),
                        map[key := [WRITE]]))
  {
    SentOn(key);
    var logs, seen, origin := map[key := [WRITE]], map[key := SEEN], Text.ToString(1);
    CrownReplication.OriginRoundTrip(1, 2);
    CrownReplication.TailBefore(1, 2);
    assert L.Witness(L.EMPTY_CELL, Effect1(0, origin, L.EMPTY_CELL, PropSent(0, 1, WRITE))).recorded == {1};
    Fired(map[], seen, Env(key, origin, PropSent(0, 1, WRITE)), logs, 0,
          Effect1(0, origin, L.EMPTY_CELL, PropSent(0, 1, WRITE)), PropRecorded(0, 1, WRITE), seen, seen);
    assert L.Witness(SEEN, Effect1(0, origin, SEEN, PropRecorded(0, 1, WRITE))).cleaned == {1};
    Fired(seen, seen, Env(key, origin, PropRecorded(0, 1, WRITE)), logs, 0,
          Effect1(0, origin, SEEN, PropRecorded(0, 1, WRITE)), TailMarked(0, 1, WRITE), map[key := COMMITTED], seen);
  }

  /** The two-node ring is what the local generator writes and the validator accepts. */
  lemma RingIsGenerated(basePort: nat)
    ensures var nodes := G.LocalRing(2, basePort);
            Topology.ValidRing(nodes) && CrownRoutes.CrownConfig(nodes, false, false) == RING
  {
    var nodes := G.LocalRing(2, basePort);
    G.GeneratedRingAcceptedIff(nodes, 2, basePort, ConfigGenerator.DEV, None);
    G.GeneratedUnique(nodes, 2, basePort);
    forall i | 0 <= i < 2 ensures nodes[i].id == i && !nodes[i].isHead && !nodes[i].isTail {
      assert nodes[i] == ConfigGenerator.RingRecord(2, basePort, ConfigGenerator.DEV, None, i);
    }
    RingOfTwo(nodes);
  }

  lemma RingOfTwo(nodes: seq<Topology.NodeRecord>)
    requires |nodes| == 2 && Topology.ValidRing(nodes) && G.LinkedInOrder(nodes)
    requires forall i :: 0 <= i < 2 ==> nodes[i].id == i && !nodes[i].isHead && !nodes[i].isTail
    ensures CrownRoutes.CrownConfig(nodes, false, false) == RING
  {
    G.OrderedLinks(nodes, 0);
    G.OrderedLinks(nodes, 1);
    assert CrownRoutes.PositionOf(nodes, 0) == 0 && CrownRoutes.PositionOf(nodes, 1) == 1 by {
      CrownRoutes.PositionOfId(nodes, 0);
      CrownRoutes.PositionOfId(nodes, 1);
    }
    assert Text.ToString(0) == "0" && Text.ToString(1) == "1";
    var cfg := CrownRoutes.CrownConfig(nodes, false, false);
    assert cfg.nodes[0] == RING.nodes[0] && cfg.nodes[1] == RING.nodes[1];
  }

  /** The key "a" has head 0 on a ring of two nodes, and is read from node 1. */
  lemma HeadOfA()
    ensures KeyRouting.HeadIndex("a", 2) == 0 && ReadTarget("a", 2) == 1
  {
    KeyRouting.HeadOfA();
    CrownReplication.TailBefore(0, 2);
  }

  lemma NodeOneSeesNothing(key: string, rid: nat) returns (c: Cluster)
    ensures Reaches(c) && |c.stores| == 2 && c.net == [Env(key, Text.ToString(1), ClientAcked(1, WRITE))]
    ensures EffectOf(RING, c, Env(key, "", ReadCall(1, rid))).out == [ReadFailed(1, rid, NotFound)]
  {
    WronglyCommitted(key);
    var logs, seen, committed := map[key := [WRITE]], map[key := SEEN], map[key := COMMITTED];
    var origin := Text.ToString(1);
    Fired(committed, seen, Env(key, origin, TailMarked(0, 1, WRITE)), logs, 0,
          Effect1(0, origin, COMMITTED, TailMarked(0, 1, WRITE)), ClientAck(1, WRITE), committed, seen);
    var told := At1(committed, seen, Env(key, origin, ClientAck(1, WRITE)), logs);
    Reach(told, Fire(0));
    assert L.Without(told.net, 0) == [];
    c := At1(committed, seen, Env(key, origin, ClientAcked(1, WRITE)), logs);
    assert Apply(RING, told, Fire(0)) == c;
  }

  /**
   The case is real: on two nodes, a write of a key with head 0 sent to node 1 instead is
   acknowledged to its client, and the node that reads of the key go to answers "not found".
   */
  lemma MisroutedWriteIsInvisible(key: string, rid: nat)
    requires KeyRouting.HeadIndex(key, 2) == 0
    ensures exists c: Cluster ::
      && Reaches(c) && |c.stores| == 2
      && c.net == [Env(key, Text.ToString(1), ClientAcked(1, WRITE))]
      && EffectOf(RING, c, Env(key, "", ReadCall(ReadTarget(key, 2), rid))).out
         == [ReadFailed(ReadTarget(key, 2), rid, NotFound)]
  {
    assert ReadTarget(key, 2) == 1 by { CrownReplication.TailBefore(0, 2); }
    var c := NodeOneSeesNothing(key, rid);
  }
}
