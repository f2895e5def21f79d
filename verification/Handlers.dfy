/**
 What a handler does when nothing interleaves with it: its critical sections one after the
 other, with the RPCs it starts and the reply it gives collected on the side. The handler
 classes are proved against this, so every run of a handler is a run of the sections on which
 the protocol theorems are stated.
 */
module Handlers {
  import opened Wrappers
  import opened KeyStates
  import opened Messages
  import opened Clusters
  import opened ReplicationSupports
  import opened PropagateDispatchers

  /** What one handler can change: the key's state, the three kinds of RPC it starts, its reply. */
  datatype Local = Local(
    ks: KeyState, propagates: seq<Env>, acks: seq<AckRequest>, clientAcks: seq<AckRequest>, replies: seq<Item>)

  datatype HandlerError =
    | NotHead
    | ReadRefused(error: ReadError)
    | QueryFailed                       // the downstream version query failed
    | ZeroVersion
    | BadOrigin(origin: CrownReplication.OriginError)
    | AckDisabled

  /** A point inside a handler, between two of its critical sections. */
  predicate Internal(m: Item) {
    m.WriteAssigned? || m.WriteRecorded? || m.PropRecorded? || m.TailMarked? || m.PredAckDue? || m.AckMarked?
        || m.ReadClean?
  }

  /** A bound on the sections a handler has left. */
  function Rank(m: Item): nat {
    match m
    case WriteCall(_, _) => 5
    case WriteAssigned(_, _, _) => 4
    case PropSent(_, _, _) => 4
    case WriteRecorded(_, _, _) => 3
    case PropRecorded(_, _, _) => 3
    case TailMarked(_, _, _) => 2
    case AckSent(_, _, _) => 2
    case ReadCall(_, _) => 2
    case PredAckDue(_, _, _) => 1
    case AckMarked(_, _, _) => 1
    case ReadClean(_, _, _) => 1
    case _ => 0
  }

  /** The handlers queue an ACK for the predecessor without asking whether there is one. */
  function Queueing(node: NodeCfg): NodeCfg {
    if node.pred.None? then node.(pred := Some(0)) else node
  }

  function Post(l: Local, e: Env): Local {
    match e.item
    case PropSent(_, _, _) => l.(propagates := l.propagates + [e])
    case AckSent(_, v, req) => l.(acks := l.acks + [AckRequest(e.key, v, req)])
    case ClientAck(v, req) => l.(clientAcks := l.clientAcks + [AckRequest(e.key, v, req)])
    case m => l.(replies := l.replies + [m])
  }

  lemma SectionDescends(mode: Mode, node: NodeCfg, origin: string, ks: KeyState, m: Item)
    ensures forall x :: x in Section(mode, node, origin, ks, m).out && Internal(x) ==> Rank(x) < Rank(m)
  {
  }

  /** From item `env` to the end of its handler. */
  function RunAlone(mode: Mode, node: NodeCfg, env: Env, l: Local): Local
    decreases Rank(env.item), 1, 0
  {
    var e := Section(mode, Queueing(node), env.origin, l.ks, env.item);
    SectionDescends(mode, Queueing(node), env.origin, l.ks, env.item);
    RunAll(mode, node, env.key, e.origin, e.out, Rank(env.item), l.(ks := e.ks))
  }

  function RunAll(mode: Mode, node: NodeCfg, key: string, origin: string, out: seq<Item>, rank: nat, l: Local): Local
    requires forall x :: x in out && Internal(x) ==> Rank(x) < rank
    decreases rank, 0, |out|
  {
    if out == [] then l
    else
      var env := Env(key, origin, out[0]);
      RunAll(mode, node, key, origin, out[1..], rank,
             if Internal(out[0]) then RunAlone(mode, node, env, l) else Post(l, env))
  }

  /** An item left by a section: carried on by the handler, or handed over. */
  function RunItem(mode: Mode, node: NodeCfg, env: Env, l: Local): Local {
    if Internal(env.item) then RunAlone(mode, node, env, l) else Post(l, env)
  }

  lemma RunFirst(mode: Mode, node: NodeCfg, key: string, origin: string, out: seq<Item>, rank: nat, l: Local)
    requires out != [] && forall x :: x in out && Internal(x) ==> Rank(x) < rank
    ensures RunAll(mode, node, key, origin, out, rank, l) ==
            RunAll(mode, node, key, origin, out[1..], rank, RunItem(mode, node, Env(key, origin, out[0]), l))
  {
  }

  /** A section that leaves one item. */
  lemma RunOne(mode: Mode, node: NodeCfg, env: Env, l: Local, origin: string, x: Item)
    requires var e := Section(mode, Queueing(node), env.origin, l.ks, env.item); e.out == [x] && e.origin == origin
    ensures RunAlone(mode, node, env, l) ==
            RunItem(mode, node, Env(env.key, origin, x),
                    l.(ks := Section(mode, Queueing(node), env.origin, l.ks, env.item).ks))
  {
    var e := Section(mode, Queueing(node), env.origin, l.ks, env.item);
    SectionDescends(mode, Queueing(node), env.origin, l.ks, env.item);
    RunFirst(mode, node, env.key, origin, e.out, Rank(env.item), l.(ks := e.ks));
    assert e.out[1..] == [];
  }

  /** A section that leaves two items. */
  lemma RunTwo(mode: Mode, node: NodeCfg, env: Env, l: Local, origin: string, x: Item, y: Item)
    requires var e := Section(mode, Queueing(node), env.origin, l.ks, env.item); e.out == [x, y] && e.origin == origin
    ensures RunAlone(mode, node, env, l) ==
            RunItem(mode, node, Env(env.key, origin, y),
              RunItem(mode, node, Env(env.key, origin, x),
                      l.(ks := Section(mode, Queueing(node), env.origin, l.ks, env.item).ks)))
  {
    var e := Section(mode, Queueing(node), env.origin, l.ks, env.item);
    SectionDescends(mode, Queueing(node), env.origin, l.ks, env.item);
    RunFirst(mode, node, env.key, origin, e.out, Rank(env.item), l.(ks := e.ks));
    assert e.out[1..] == [y];
    RunFirst(mode, node, env.key, origin, [y], Rank(env.item),
             RunItem(mode, node, Env(env.key, origin, x), l.(ks := e.ks)));
    assert [y][1..] == [];
  }

  // ----- the objects a handler works on -----

  ghost function LocalOf(support: ReplicationSupport, dispatcher: PropagateDispatcher, key: string): Local
    reads support, dispatcher
  {
    Local(StateOf(support.byKey, key), dispatcher.queue, support.predAckQueue, support.clientAcks, [])
  }

  /** Every other key keeps its state. */
  twostate predicate OthersKept(support: ReplicationSupport, key: string)
    reads support
  {
    forall k :: k != key ==> StateOf(support.byKey, k) == old(StateOf(support.byKey, k))
  }
}
