/** Chain replication: writes enter at the head, commit and are read at the tail. */
module ChainReplication {
  import opened KeyStates
  import opened Messages

  /** One critical section of a CHAIN handler at `node`. */
  function Section(node: NodeCfg, origin: string, ks: KeyState, m: Item): Effect {
    match m
    case WriteCall(at, req) =>
      if !node.isHead then Effect(ks, Quiet, [WriteRejected(at, req)], origin)
      else
        var ks1 := AssignNext(ks);
        Effect(ks1, Assigned, [WriteAssigned(at, ks1.next, req)], origin)
    case WriteAssigned(at, v, req) =>
      Effect(RecordIfNewer(ks, req.value, v), Recorded(v), [WriteRecorded(at, v, req)], origin)
    case WriteRecorded(at, v, req) =>
      if node.isTail then Effect(CommitIfNewer(ks, req.value, v), Cleaned(v), [TailMarked(at, v, req)], origin)
      else Effect(ks, Quiet, Forward(node, v, req), node.id)
    case PropSent(at, v, req) =>
      Effect(RecordIfNewer(ks, req.value, v), Recorded(v), [PropRecorded(at, v, req)], origin)
    case PropRecorded(at, v, req) =>
      if node.isTail then Effect(CommitIfNewer(ks, req.value, v), Cleaned(v), [TailMarked(at, v, req)], origin)
      else Effect(ks, Quiet, Forward(node, v, req), origin)
    case TailMarked(at, v, req) =>
      Effect(ks, Quiet, ClientNotice(v, req), origin)
    case ReadCall(at, rid) =>
      if !node.isTail then Effect(ks, Quiet, [ReadFailed(at, rid, NotTail)], origin)
      else Effect(ks, Quiet, [ReadReply(at, rid, ReadCommitted(ks))], origin)
    case _ =>
      Effect(ks, Quiet, [], origin)   // the Ack and VersionQuery RPCs are refused
  }
}
