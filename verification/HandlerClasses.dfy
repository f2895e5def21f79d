/** The three designs' handler classes, each proved to run its design's sections in order. */
module HandlerClasses {
  import opened Wrappers
  import opened KeyStates
  import opened Messages
  import opened Clusters
  import opened ReplicationSupports
  import opened PropagateDispatchers
  import opened Handlers
  import opened HandlerOutcomes
  import CraqReplication
  import CrownReplication
  import Text

  /** Queue a propagate for the successor, if there is one. */
  method ForwardPropagate(node: NodeCfg, dispatcher: PropagateDispatcher, key: string, origin: string, version: nat,
                          req: Req)
    modifies dispatcher
    ensures dispatcher.queue == old(dispatcher.queue) + Addressed(key, origin, Forward(node, version, req))
  {
    var successor := if node.succ.Some? then node.succ.value else 0;
    dispatcher.EnqueueTask(node.succ, Env(key, origin, PropSent(successor, version, req)));
  }

  /** The handlers' `node` argument and `support_` member, with the design's dispatcher. */
  class ChainReplica {
    const self: nat
    const node: NodeCfg
    const support: ReplicationSupport
    const dispatcher: PropagateDispatcher

    constructor (self: nat, node: NodeCfg, support: ReplicationSupport, dispatcher: PropagateDispatcher)
      ensures this.self == self && this.node == node && this.support == support && this.dispatcher == dispatcher
    {
      this.self, this.node, this.support, this.dispatcher := self, node, support, dispatcher;
    }

    method HandleWrite(key: string, req: Req) returns (r: Result<nat, HandlerError>)
      modifies support, dispatcher
      ensures RunAlone(CHAIN, node, Env(key, "", WriteCall(self, req)), old(LocalOf(support, dispatcher, key))) ==
              LocalOf(support, dispatcher, key).(replies := if r.Err? then [WriteRejected(self, req)] else [])
      ensures r == if node.isHead then Ok(old(StateOf(support.byKey, key)).next + 1) else Err(NotHead)
      ensures OthersKept(support, key)
      ensures dispatcher.queue == old(dispatcher.queue) +
              if r.Ok? && !node.isTail && node.succ.Some?
              then [Env(key, node.id, PropSent(node.succ.value, r.value, req))]
              else []
      ensures support.clientAcks == old(support.clientAcks) +
              if r.Ok? && node.isTail && req.client != "" then [AckRequest(key, r.value, req)] else []
      ensures support.predAckQueue == old(support.predAckQueue)
    {
      hide RunAlone, RecordIfNewer, CommitIfNewer;
      WriteAlone(CHAIN, node, key, "", self, req, LocalOf(support, dispatcher, key));
      if !node.isHead { return Err(NotHead); }
      var version := support.AssignNextVersion(key);
      support.RecordLocalWriteIfNewer(key, req.value, version);
      if node.isTail {
        support.MarkVersionCommittedIfNewer(key, req.value, version);
        support.SendClientAck(AckRequest(key, version, req));
        return Ok(version);
      }
      ForwardPropagate(node, dispatcher, key, node.id, version, req);
      return Ok(version);
    }

    method HandlePropagate(key: string, origin: string, version: nat, req: Req)
      modifies support, dispatcher
      ensures RunAlone(CHAIN, node, Env(key, origin, PropSent(self, version, req)),
              old(LocalOf(support, dispatcher, key)))
              == LocalOf(support, dispatcher, key)
      ensures OthersKept(support, key)
      ensures dispatcher.queue == old(dispatcher.queue) +
              if !node.isTail && node.succ.Some?
              then [Env(key, origin, PropSent(node.succ.value, version, req))]
              else []
      ensures support.clientAcks == old(support.clientAcks) +
              if node.isTail && req.client != "" then [AckRequest(key, version, req)] else []
      ensures support.predAckQueue == old(support.predAckQueue)
    {
      PropagateAlone(CHAIN, node, key, origin, self, version, req, LocalOf(support, dispatcher, key));
      support.RecordLocalWriteIfNewer(key, req.value, version);
      if node.isTail {
        support.MarkVersionCommittedIfNewer(key, req.value, version);
        support.SendClientAck(AckRequest(key, version, req));
        return;
      }
      ForwardPropagate(node, dispatcher, key, origin, version, req);
    }

    method HandleRead(key: string, ghost rid: nat) returns (r: Result<Found, HandlerError>)
      ensures r == var ks := StateOf(support.byKey, key);
                   if !node.isTail then Err(ReadRefused(NotTail))
                   else if ks.commVersion == 0 then Err(ReadRefused(NotFound))
                   else Ok(Found(true, ks.commValue, ks.commVersion))
      ensures RunAlone(CHAIN, node, Env(key, "", ReadCall(self, rid)), LocalOf(support, dispatcher, key)).replies ==
              [ReplyItem(self, rid, r)]
    {
      ReadAlone(CHAIN, node, key, self, rid, LocalOf(support, dispatcher, key));
      if !node.isTail { return Err(ReadRefused(NotTail)); }
      var committed := support.ReadCommittedValue(key);
      if !committed.found { return Err(ReadRefused(NotFound)); }
      return Ok(committed);
    }

    /** Only CRAQ passes ACKs between nodes. */
    method HandleAck(ack: AckRequest) returns (r: Result<(), HandlerError>)
      ensures r == Err(AckDisabled)
      ensures RunAlone(CHAIN, node, Env(ack.key, "", AckSent(self, ack.version, ack.req)),
                       LocalOf(support, dispatcher, ack.key))
              == LocalOf(support, dispatcher, ack.key)
    {
      AckRefusedAlone(CHAIN, node, ack.key, "", self, ack.version, ack.req, LocalOf(support, dispatcher, ack.key));
      return Err(AckDisabled);
    }
  }

  /** The item that stands for a handler's read result. */
  function ReplyItem(at: nat, rid: nat, r: Result<Found, HandlerError>): Item {
    match r
    case Ok(found) => ReadDone(at, rid, found.version, found.value)
    case Err(e) => ReadFailed(at, rid, if e.ReadRefused? then e.error else NoRoute)
  }

  class CrownReplica {
    const self: nat
    const node: NodeCfg
    const support: ReplicationSupport
    const dispatcher: PropagateDispatcher

    constructor (self: nat, node: NodeCfg, support: ReplicationSupport, dispatcher: PropagateDispatcher)
      ensures this.self == self && this.node == node && this.support == support && this.dispatcher == dispatcher
    {
      this.self, this.node, this.support, this.dispatcher := self, node, support, dispatcher;
    }

    method HandleWrite(key: string, req: Req) returns (version: nat)
      modifies support, dispatcher
      ensures RunAlone(CROWN, node, Env(key, "", WriteCall(self, req)), old(LocalOf(support, dispatcher, key)))
              == LocalOf(support, dispatcher, key)
      ensures version == old(StateOf(support.byKey, key)).next + 1
      ensures OthersKept(support, key)
      ensures dispatcher.queue == old(dispatcher.queue) +
              if node.ringSize > 1 && node.succ.Some?
              then [Env(key, Text.ToString(node.index), PropSent(node.succ.value, version, req))]
              else []
      ensures support.clientAcks == old(support.clientAcks) +
              if node.ringSize <= 1 && req.client != "" then [AckRequest(key, version, req)] else []
      ensures support.predAckQueue == old(support.predAckQueue)
    {
      hide RunAlone, RecordIfNewer, CommitIfNewer;
      WriteAlone(CROWN, node, key, "", self, req, LocalOf(support, dispatcher, key));
      version := support.AssignNextVersion(key);
      support.RecordLocalWriteIfNewer(key, req.value, version);
      if node.ringSize <= 1 {
        support.MarkVersionCommittedIfNewer(key, req.value, version);
        support.SendClientAck(AckRequest(key, version, req));
        return version;
      }
      ForwardPropagate(node, dispatcher, key, Text.ToString(node.index), version, req);
    }

    /** A bad origin is noticed only after the write has been recorded. */
    method HandlePropagate(key: string, origin: string, version: nat, req: Req) returns (r: Result<(), HandlerError>)
      modifies support, dispatcher
      ensures RunAlone(CROWN, node, Env(key, origin, PropSent(self, version, req)),
              old(LocalOf(support, dispatcher, key)))
              == LocalOf(support, dispatcher, key)
      ensures r == if version == 0 then Err(ZeroVersion)
                   else match CrownReplication.IsRequestTail(node, origin)
                        case Err(e) => Err(BadOrigin(e))
                        case Ok(_) => Ok(())
      ensures OthersKept(support, key)
      ensures dispatcher.queue == old(dispatcher.queue) +
              if r.Ok? && CrownReplication.IsRequestTail(node, origin) == Ok(false) && node.succ.Some?
              then [Env(key, origin, PropSent(node.succ.value, version, req))]
              else []
      ensures support.clientAcks == old(support.clientAcks) +
              if r.Ok? && CrownReplication.IsRequestTail(node, origin) == Ok(true) && req.client != ""
              then [AckRequest(key, version, req)]
              else []
      ensures support.predAckQueue == old(support.predAckQueue)
    {
      PropagateAlone(CROWN, node, key, origin, self, version, req, LocalOf(support, dispatcher, key));
      if version == 0 { return Err(ZeroVersion); }
      support.RecordLocalWriteIfNewer(key, req.value, version);
      var isTail := CrownReplication.IsRequestTail(node, origin);
      if isTail.Err? { return Err(BadOrigin(isTail.error)); }
      if isTail.value {
        support.MarkVersionCommittedIfNewer(key, req.value, version);
        support.SendClientAck(AckRequest(key, version, req));
        return Ok(());
      }
      ForwardPropagate(node, dispatcher, key, origin, version, req);
      return Ok(());
    }

    method HandleRead(key: string, ghost rid: nat) returns (r: Result<Found, HandlerError>)
      ensures r == var ks := StateOf(support.byKey, key);
                   if ks.commVersion == 0 then Err(ReadRefused(NotFound))
                   else Ok(Found(true, ks.commValue, ks.commVersion))
      ensures RunAlone(CROWN, node, Env(key, "", ReadCall(self, rid)), LocalOf(support, dispatcher, key)).replies ==
              [ReplyItem(self, rid, r)]
    {
      ReadAlone(CROWN, node, key, self, rid, LocalOf(support, dispatcher, key));
      var committed := support.ReadCommittedValue(key);
      if !committed.found { return Err(ReadRefused(NotFound)); }
      return Ok(committed);
    }

    /** Only CRAQ passes ACKs between nodes. */
    method HandleAck(ack: AckRequest) returns (r: Result<(), HandlerError>)
      ensures r == Err(AckDisabled)
      ensures RunAlone(CROWN, node, Env(ack.key, "", AckSent(self, ack.version, ack.req)),
                       LocalOf(support, dispatcher, ack.key))
              == LocalOf(support, dispatcher, ack.key)
    {
      AckRefusedAlone(CROWN, node, ack.key, "", self, ack.version, ack.req, LocalOf(support, dispatcher, ack.key));
      return Err(AckDisabled);
    }
  }

  /** A CRAQ read from the item its local reads left; None when its query fails. */
  function ToEnd(node: NodeCfg, ks: KeyState, m: Item, remote: nat -> Option<nat>): Option<Item> {
    match m
    case QuerySent(_, home, rid, clean) =>
      (match CraqReplication.VersionQuery(node, home, rid, clean, ks)
       case QueryReply(_, _, _, q) => Some(CraqReplication.Resolve(home, rid, clean, q, ks))
       case QuerySent(next, _, _, _) =>
         if remote(next).None? then None
         else Some(CraqReplication.Resolve(home, rid, clean, remote(next).value, ks))
       case refused => Some(refused))
    case _ => Some(m)
  }

  class CraqReplica {
    const self: nat
    const node: NodeCfg
    const support: ReplicationSupport
    const dispatcher: PropagateDispatcher

    constructor (self: nat, node: NodeCfg, support: ReplicationSupport, dispatcher: PropagateDispatcher)
      ensures this.self == self && this.node == node && this.support == support && this.dispatcher == dispatcher
    {
      this.self, this.node, this.support, this.dispatcher := self, node, support, dispatcher;
    }

    method HandleWrite(key: string, req: Req) returns (r: Result<nat, HandlerError>)
      modifies support, dispatcher
      ensures RunAlone(CRAQ, node, Env(key, "", WriteCall(self, req)), old(LocalOf(support, dispatcher, key))) ==
              LocalOf(support, dispatcher, key).(replies := if r.Err? then [WriteRejected(self, req)] else [])
      ensures r == if node.isHead then Ok(old(StateOf(support.byKey, key)).next + 1) else Err(NotHead)
      ensures OthersKept(support, key)
      ensures dispatcher.queue == old(dispatcher.queue) +
              if r.Ok? && !node.isTail && node.succ.Some?
              then [Env(key, node.id, PropSent(node.succ.value, r.value, req))]
              else []
      ensures support.clientAcks == old(support.clientAcks) +
              if r.Ok? && node.isTail && req.client != "" then [AckRequest(key, r.value, req)] else []
      ensures support.predAckQueue == old(support.predAckQueue)
    {
      WriteAlone(CRAQ, node, key, "", self, req, LocalOf(support, dispatcher, key));
      if !node.isHead { return Err(NotHead); }
      var version := support.AssignNextVersion(key);
      support.RecordLocalWrite(key, req.value, version);
      if node.isTail {
        support.MarkVersionClean(key, version);
        support.SendClientAck(AckRequest(key, version, req));
        return Ok(version);
      }
      ForwardPropagate(node, dispatcher, key, node.id, version, req);
      return Ok(version);
    }

    method HandlePropagate(key: string, origin: string, version: nat, req: Req)
      modifies support, dispatcher
      ensures RunAlone(CRAQ, node, Env(key, origin, PropSent(self, version, req)),
              old(LocalOf(support, dispatcher, key)))
              == LocalOf(support, dispatcher, key)
      ensures OthersKept(support, key)
      ensures dispatcher.queue == old(dispatcher.queue) +
              if !node.isTail && node.succ.Some?
              then [Env(key, origin, PropSent(node.succ.value, version, req))]
              else []
      ensures support.clientAcks == old(support.clientAcks) +
              if node.isTail && req.client != "" then [AckRequest(key, version, req)] else []
      ensures support.predAckQueue == old(support.predAckQueue) +
              if node.isTail && !node.isHead then [AckRequest(key, version, req)] else []
    {
      PropagateAlone(CRAQ, node, key, origin, self, version, req, LocalOf(support, dispatcher, key));
      support.RecordLocalWrite(key, req.value, version);
      if node.isTail {
        support.MarkVersionClean(key, version);
        support.SendClientAck(AckRequest(key, version, req));
        if !node.isHead { support.EnqueuePredecessorAck(AckRequest(key, version, req)); }
        return;
      }
      ForwardPropagate(node, dispatcher, key, origin, version, req);
    }

    method HandleAck(ack: AckRequest)
      modifies support
      ensures RunAlone(CRAQ, node, Env(ack.key, "", AckSent(self, ack.version, ack.req)),
                       old(LocalOf(support, dispatcher, ack.key)))
              == LocalOf(support, dispatcher, ack.key)
      ensures OthersKept(support, ack.key)
      ensures support.predAckQueue == old(support.predAckQueue) + if node.isHead then [] else [ack]
      ensures support.clientAcks == old(support.clientAcks)
    {
      AckAlone(node, ack.key, "", self, ack.version, ack.req, LocalOf(support, dispatcher, ack.key));
      support.MarkVersionClean(ack.key, ack.version);
      if node.isHead { return; }
      support.EnqueuePredecessorAck(ack);
    }

    /** `remote` is what the VersionQuery RPC to each node would return; None when it fails. */
    method HandleVersionQuery(key: string, remote: nat -> Option<nat>) returns (r: Result<nat, HandlerError>)
      ensures node.isTail ==> r == Ok(StateOf(support.byKey, key).commVersion)
      ensures !node.isTail && node.tailStub.Some? ==>
                r == match remote(node.tailStub.value) case Some(q) => Ok(q) case None => Err(QueryFailed)
      ensures !node.isTail && node.tailStub.None? && node.succ.Some? ==>
                r == match remote(node.succ.value) case Some(q) => Ok(q) case None => Err(QueryFailed)
      ensures !node.isTail && node.tailStub.None? && node.succ.None? ==> r == Err(ReadRefused(NoRoute))
      ensures match CraqReplication.VersionQuery(node, self, 0, MISSING, StateOf(support.byKey, key))
              case QueryReply(_, _, _, q) => r == Ok(q)
              case QuerySent(next, _, _, _) =>
                r == if remote(next).Some? then Ok(remote(next).value) else Err(QueryFailed)
              case _ => r == Err(ReadRefused(NoRoute))
    {
      if node.isTail {
        var clean := support.ReadCommittedValue(key);
        return Ok(if clean.found then clean.version else 0);
      }
      if node.tailStub.Some? {
        var downstream := remote(node.tailStub.value);
        if downstream.None? { return Err(QueryFailed); }
        return Ok(downstream.value);
      }
      if node.succ.None? { return Err(ReadRefused(NoRoute)); }
      var downstream := remote(node.succ.value);
      if downstream.None? { return Err(QueryFailed); }
      return Ok(downstream.value);
    }

    /** A read that nothing interleaves with, except that its query's answer may be anything. */
    method HandleRead(key: string, ghost rid: nat, remote: nat -> Option<nat>) returns (r: Result<Found, HandlerError>)
      ensures var ks := StateOf(support.byKey, key);
              node.isTail || ks.seenVersion <= ks.commVersion ==>
                r == if ks.commVersion == 0 then Err(ReadRefused(NotFound))
                     else Ok(Found(true, ks.commValue, ks.commVersion))
      ensures var ks := StateOf(support.byKey, key);
              var next := if node.tailStub.Some? then node.tailStub else node.succ;
              !node.isTail && ks.seenVersion > ks.commVersion ==>
                r == if next.None? then Err(ReadRefused(NoRoute))
                     else match remote(next.value)
                          case None => Err(QueryFailed)
                          case Some(q) =>
                            if q == 0 then Err(ReadRefused(NotCommittedAtTail))
                            else if ValueAt(ks, q).None? then Err(ReadRefused(CannotMaterialize))
                            else Ok(Found(true, ValueAt(ks, q).value, q))
      ensures exists m ::
                && [m] ==
                   RunAlone(CRAQ, node, Env(key, "", ReadCall(self, rid)), LocalOf(support, dispatcher, key)).replies
                && ToEnd(node, StateOf(support.byKey, key), m, remote) ==
                   (if r == Err(QueryFailed) then None else Some(ReplyItem(self, rid, r)))
    {
      ReadAlone(CRAQ, node, key, self, rid, LocalOf(support, dispatcher, key));
      var clean := support.ReadCommittedValue(key);
      if node.isTail {
        if !clean.found { return Err(ReadRefused(NotFound)); }
        return Ok(clean);
      }
      var latest := support.ReadLatestSeen(key);
      var dirty := latest.found && (!clean.found || latest.version > clean.version);
      if !dirty {
        if !clean.found { return Err(ReadRefused(NotFound)); }
        return Ok(clean);
      }
      var answer := HandleVersionQuery(key, remote);
      if answer.Err? { return Err(answer.error); }
      var committed := answer.value;
      if committed == 0 { return Err(ReadRefused(NotCommittedAtTail)); }
      if clean.found && clean.version == committed { return Ok(clean); }
      var value := support.ReadValueAtVersion(key, committed);
      if value.None? { return Err(ReadRefused(CannotMaterialize)); }
      return Ok(Found(true, value.value, committed));
    }
  }
}
