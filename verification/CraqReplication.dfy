/** CRAQ: commits travel back from the tail as predecessor ACKs, and every node serves reads. */
module CraqReplication {
  import opened Wrappers
  import opened KeyStates
  import opened Messages

  /** One critical section of a CRAQ handler at `node`. */
  function Section(node: NodeCfg, origin: string, ks: KeyState, m: Item): Effect {
    match m
    case WriteCall(at, req) =>
      if !node.isHead then Effect(ks, Quiet, [WriteRejected(at, req)], origin)
      else
        var ks1 := AssignNext(ks);
        Effect(ks1, Assigned, [WriteAssigned(at, ks1.next, req)], origin)
    case WriteAssigned(at, v, req) =>
      Effect(RecordWrite(ks, req.value, v), Recorded(v), [WriteRecorded(at, v, req)], origin)
    case WriteRecorded(at, v, req) =>
      if node.isTail then Effect(MarkClean(ks, v), Cleaned(v), [TailMarked(at, v, req)], origin)
      else Effect(ks, Quiet, Forward(node, v, req), node.id)
    case PropSent(at, v, req) =>
      Effect(RecordWrite(ks, req.value, v), Recorded(v), [PropRecorded(at, v, req)], origin)
    case PropRecorded(at, v, req) =>
      if node.isTail then Effect(MarkClean(ks, v), Cleaned(v), [TailMarked(at, v, req)], origin)
      else Effect(ks, Quiet, Forward(node, v, req), origin)
    case TailMarked(at, v, req) =>
      Effect(ks, Quiet, ClientNotice(v, req) + if node.isHead then [] else [PredAckDue(at, v, req)], origin)
    case PredAckDue(at, v, req) =>
      Effect(ks, Quiet, PredecessorAck(node, v, req), origin)
    case AckSent(at, v, req) =>
      Effect(MarkClean(ks, v), Cleaned(v), [AckMarked(at, v, req)], origin)
    case AckMarked(at, v, req) =>
      Effect(ks, Quiet, if node.isHead then [] else PredecessorAck(node, v, req), origin)
    case ReadCall(at, rid) =>
      var clean := ReadCommitted(ks);
      Effect(ks, Quiet, [if node.isTail then ReadReply(at, rid, clean) else ReadClean(at, rid, clean)], origin)
    case ReadClean(at, rid, clean) =>
      Effect(ks, Quiet, [AfterSeen(at, rid, clean, ReadSeen(ks))], origin)
    case QuerySent(at, home, rid, clean) =>
      Effect(ks, Quiet, [VersionQuery(node, home, rid, clean, ks)], origin)
    case QueryReply(home, rid, clean, q) =>
      Effect(ks, Quiet, [Resolve(home, rid, clean, q, ks)], origin)
    case _ =>
      Effect(ks, Quiet, [], origin)
  }

  /** The ACK worker skips the ACK when there is no predecessor stub. */
  function PredecessorAck(node: NodeCfg, v: nat, req: Req): seq<Item> {
    if node.pred.Some? then [AckSent(node.pred.value, v, req)] else []
  }

  predicate Dirty(clean: Found, seen: Found) {
    seen.found && (!clean.found || seen.version > clean.version)
  }

  /** A non-tail read once both local reads are done: answer locally, or ask the tail. */
  function AfterSeen(at: nat, rid: nat, clean: Found, seen: Found): Item {
    if Dirty(clean, seen) then QuerySent(at, at, rid, clean) else ReadReply(at, rid, clean)
  }

  /** A version query is answered by the tail and passed on by every other node. */
  function VersionQuery(node: NodeCfg, home: nat, rid: nat, clean: Found, ks: KeyState): Item {
    if node.isTail then QueryReply(home, rid, clean, ReadCommitted(ks).version)
    else if node.tailStub.Some? then QuerySent(node.tailStub.value, home, rid, clean)
    else if node.succ.Some? then QuerySent(node.succ.value, home, rid, clean)
    else ReadFailed(home, rid, NoRoute)
  }

  /** A dirty read once the tail has named version `q`. */
  function Resolve(home: nat, rid: nat, clean: Found, q: nat, ks: KeyState): Item {
    if q == 0 then ReadFailed(home, rid, NotCommittedAtTail)
    else if clean.found && clean.version == q then ReadDone(home, rid, clean.version, clean.value)
    else
      var local := ValueAt(ks, q);
      if local.Some? then ReadDone(home, rid, q, local.value)
      else ReadFailed(home, rid, CannotMaterialize)
  }
}
