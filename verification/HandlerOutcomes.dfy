/** Each handler's sections summed up: what a write, a propagate, an ACK and a read do in all. */
module HandlerOutcomes {
  import opened Wrappers
  import opened KeyStates
  import opened Messages
  import opened Clusters
  import opened ReplicationSupports
  import opened Handlers
  import CraqReplication
  import CrownReplication
  import Text

  function Notice(ack: AckRequest): seq<AckRequest> {
    if ack.req.client == "" then [] else [ack]
  }

  /** The end of the line: commit, tell the client, and in CRAQ owe the predecessor an ACK. */
  function AtTail(mode: Mode, node: NodeCfg, key: string, v: nat, req: Req, l: Local): Local {
    var ack := AckRequest(key, v, req);
    l.(ks := Commit(mode, l.ks, req.value, v),
       clientAcks := l.clientAcks + Notice(ack),
       acks := l.acks + if mode == CRAQ && !node.isHead then [ack] else [])
  }

  /** Anywhere else: queue the propagate for the successor. */
  function Onward(node: NodeCfg, key: string, origin: string, v: nat, req: Req, l: Local): Local {
    l.(propagates := l.propagates + Addressed(key, origin, Forward(node, v, req)))
  }

  function WriteOutcome(mode: Mode, node: NodeCfg, key: string, origin: string, at: nat, req: Req, l: Local): Local {
    if mode != CROWN && !node.isHead then l.(replies := l.replies + [WriteRejected(at, req)])
    else
      var v := l.ks.next + 1;
      var l1 := l.(ks := Record(mode, AssignNext(l.ks), req.value, v));
      if (if mode == CROWN then node.ringSize <= 1 else node.isTail) then AtTail(mode, node, key, v, req, l1)
      else Onward(node, key, if mode == CROWN then Text.ToString(node.index) else node.id, v, req, l1)
  }

  function PropagateOutcome(mode: Mode, node: NodeCfg, key: string, origin: string, v: nat, req: Req, l: Local): Local {
    if mode == CROWN && v == 0 then l
    else
      var l1 := l.(ks := Record(mode, l.ks, req.value, v));
      var isTail := if mode == CROWN then CrownReplication.IsRequestTail(node, origin) else Ok(node.isTail);
      if isTail.Err? then l1
      else if isTail.value then AtTail(mode, node, key, v, req, l1)
      else Onward(node, key, origin, v, req, l1)
  }

  lemma RunNone(mode: Mode, node: NodeCfg, env: Env, l: Local)
    requires Section(mode, Queueing(node), env.origin, l.ks, env.item).out == []
    ensures RunAlone(mode, node, env, l) == l.(ks := Section(mode, Queueing(node), env.origin, l.ks, env.item).ks)
  {
  }

  lemma AckDueAlone(node: NodeCfg, key: string, origin: string, at: nat, v: nat, req: Req, l: Local)
    ensures RunAlone(CRAQ, node, Env(key, origin, PredAckDue(at, v, req)), l) ==
            l.(acks := l.acks + [AckRequest(key, v, req)])
  {
    RunOne(CRAQ, node, Env(key, origin, PredAckDue(at, v, req)), l, origin, AckSent(Queueing(node).pred.value, v, req));
  }

  lemma MarkedAlone(mode: Mode, node: NodeCfg, key: string, origin: string, at: nat, v: nat, req: Req, l: Local)
    ensures RunAlone(mode, node, Env(key, origin, TailMarked(at, v, req)), l) ==
            l.(clientAcks := l.clientAcks + Notice(AckRequest(key, v, req)),
               acks := l.acks + if mode == CRAQ && !node.isHead then [AckRequest(key, v, req)] else [])
  {
    var env, told, due := Env(key, origin, TailMarked(at, v, req)), ClientAck(v, req), PredAckDue(at, v, req);
    var e := Section(mode, Queueing(node), origin, l.ks, env.item);
    if mode == CRAQ && !node.isHead {
      if req.client == "" {
        assert e.out == [due];
        RunOne(mode, node, env, l, origin, due);
        AckDueAlone(node, key, origin, at, v, req, l);
      } else {
        assert e.out == [told, due];
        RunTwo(mode, node, env, l, origin, told, due);
        AckDueAlone(node, key, origin, at, v, req, Post(l, Env(key, origin, told)));
      }
    } else if req.client == "" {
      RunNone(mode, node, env, l);
    } else {
      assert e.out == [told];
      RunOne(mode, node, env, l, origin, told);
    }
  }

  lemma OnwardAlone(mode: Mode, node: NodeCfg, env: Env, origin: string, v: nat, req: Req, l: Local)
    requires Section(mode, Queueing(node), env.origin, l.ks, env.item) ==
             Effect(l.ks, Quiet, Forward(node, v, req), origin)
    ensures RunAlone(mode, node, env, l) == Onward(node, env.key, origin, v, req, l)
  {
    if node.succ.None? {
      RunNone(mode, node, env, l);
      assert Addressed(env.key, origin, []) == [];
    } else {
      var p := PropSent(node.succ.value, v, req);
      RunOne(mode, node, env, l, origin, p);
      assert Addressed(env.key, origin, [p]) == [Env(env.key, origin, p)];
    }
  }

  lemma WriteRecordedAlone(mode: Mode, node: NodeCfg, key: string, origin: string, at: nat, v: nat, req: Req, l: Local)
    ensures RunAlone(mode, node, Env(key, origin, WriteRecorded(at, v, req)), l) ==
            if (if mode == CROWN then node.ringSize <= 1 else node.isTail) then AtTail(mode, node, key, v, req, l)
            else Onward(node, key, if mode == CROWN then Text.ToString(node.index) else node.id, v, req, l)
  {
    var env := Env(key, origin, WriteRecorded(at, v, req));
    if (if mode == CROWN then node.ringSize <= 1 else node.isTail) {
      RunOne(mode, node, env, l, origin, TailMarked(at, v, req));
      MarkedAlone(mode, node, key, origin, at, v, req, l.(ks := Commit(mode, l.ks, req.value, v)));
    } else {
      OnwardAlone(mode, node, env, if mode == CROWN then Text.ToString(node.index) else node.id, v, req, l);
    }
  }

  lemma WriteAlone(mode: Mode, node: NodeCfg, key: string, origin: string, at: nat, req: Req, l: Local)
    ensures RunAlone(mode, node, Env(key, origin, WriteCall(at, req)), l) ==
            WriteOutcome(mode, node, key, origin, at, req, l)
  {
    var env := Env(key, origin, WriteCall(at, req));
    if mode != CROWN && !node.isHead {
      RunOne(mode, node, env, l, origin, WriteRejected(at, req));
    } else {
      var v := l.ks.next + 1;
      var l1 := l.(ks := AssignNext(l.ks));
      var l2 := l.(ks := Record(mode, l1.ks, req.value, v));
      RunOne(mode, node, env, l, origin, WriteAssigned(at, v, req));
      RunOne(mode, node, Env(key, origin, WriteAssigned(at, v, req)), l1, origin, WriteRecorded(at, v, req));
      WriteRecordedAlone(mode, node, key, origin, at, v, req, l2);
    }
  }

  lemma PropRecordedAlone(mode: Mode, node: NodeCfg, key: string, origin: string, at: nat, v: nat, req: Req, l: Local)
    ensures RunAlone(mode, node, Env(key, origin, PropRecorded(at, v, req)), l) ==
            var isTail := if mode == CROWN then CrownReplication.IsRequestTail(node, origin) else Ok(node.isTail);
            if isTail.Err? then l
            else if isTail.value then AtTail(mode, node, key, v, req, l)
            else Onward(node, key, origin, v, req, l)
  {
    var env := Env(key, origin, PropRecorded(at, v, req));
    var isTail := if mode == CROWN then CrownReplication.IsRequestTail(node, origin) else Ok(node.isTail);
    if isTail.Err? {
      RunNone(mode, node, env, l);
    } else if isTail.value {
      RunOne(mode, node, env, l, origin, TailMarked(at, v, req));
      MarkedAlone(mode, node, key, origin, at, v, req, l.(ks := Commit(mode, l.ks, req.value, v)));
    } else {
      OnwardAlone(mode, node, env, origin, v, req, l);
    }
  }

  lemma PropagateAlone(mode: Mode, node: NodeCfg, key: string, origin: string, at: nat, v: nat, req: Req, l: Local)
    ensures RunAlone(mode, node, Env(key, origin, PropSent(at, v, req)), l) ==
            PropagateOutcome(mode, node, key, origin, v, req, l)
  {
    var env := Env(key, origin, PropSent(at, v, req));
    if mode == CROWN && v == 0 {
      RunNone(mode, node, env, l);
    } else {
      RunOne(mode, node, env, l, origin, PropRecorded(at, v, req));
      PropRecordedAlone(mode, node, key, origin, at, v, req, l.(ks := Record(mode, l.ks, req.value, v)));
    }
  }

  lemma AckMarkedAlone(node: NodeCfg, key: string, origin: string, at: nat, v: nat, req: Req, l: Local)
    ensures RunAlone(CRAQ, node, Env(key, origin, AckMarked(at, v, req)), l) ==
            l.(acks := l.acks + if node.isHead then [] else [AckRequest(key, v, req)])
  {
    var env := Env(key, origin, AckMarked(at, v, req));
    if node.isHead {
      RunNone(CRAQ, node, env, l);
    } else {
      RunOne(CRAQ, node, env, l, origin, AckSent(Queueing(node).pred.value, v, req));
    }
  }

  lemma AckAlone(node: NodeCfg, key: string, origin: string, at: nat, v: nat, req: Req, l: Local)
    ensures RunAlone(CRAQ, node, Env(key, origin, AckSent(at, v, req)), l) ==
            l.(ks := MarkClean(l.ks, v), acks := l.acks + if node.isHead then [] else [AckRequest(key, v, req)])
  {
    RunOne(CRAQ, node, Env(key, origin, AckSent(at, v, req)), l, origin, AckMarked(at, v, req));
    AckMarkedAlone(node, key, origin, at, v, req, l.(ks := MarkClean(l.ks, v)));
  }

  /** Outside CRAQ an ACK RPC is refused and changes nothing. */
  lemma AckRefusedAlone(mode: Mode, node: NodeCfg, key: string, origin: string, at: nat, v: nat, req: Req, l: Local)
    requires mode != CRAQ
    ensures RunAlone(mode, node, Env(key, origin, AckSent(at, v, req)), l) == l
  {
    RunNone(mode, node, Env(key, origin, AckSent(at, v, req)), l);
  }

  /** A read handled without interleaving, up to its reply or its version query. */
  lemma ReadAlone(mode: Mode, node: NodeCfg, key: string, at: nat, rid: nat, l: Local)
    ensures RunAlone(mode, node, Env(key, "", ReadCall(at, rid)), l) == l.(replies := l.replies + [
              if mode == CHAIN && !node.isTail then ReadFailed(at, rid, NotTail)
              else if mode == CRAQ && !node.isTail
              then CraqReplication.AfterSeen(at, rid, ReadCommitted(l.ks), ReadSeen(l.ks))
              else ReadReply(at, rid, ReadCommitted(l.ks))])
  {
    var env, clean := Env(key, "", ReadCall(at, rid)), ReadCommitted(l.ks);
    if mode == CRAQ && !node.isTail {
      RunOne(mode, node, env, l, "", ReadClean(at, rid, clean));
      RunOne(mode, node, Env(key, "", ReadClean(at, rid, clean)), l, "",
             CraqReplication.AfterSeen(at, rid, clean, ReadSeen(l.ks)));
    } else if mode == CHAIN && !node.isTail {
      RunOne(mode, node, env, l, "", ReadFailed(at, rid, NotTail));
    } else {
      RunOne(mode, node, env, l, "", ReadReply(at, rid, clean));
    }
  }
}
