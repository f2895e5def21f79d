/**
 A CRAQ read as its handler serves it, in a reachable state and with its query answered by the
 other nodes' handlers in that state: the answers compose to the tail's committed version, so
 the read returns exactly that version and value.
 */
module HandledReads {
  import opened Wrappers
  import opened KeyStates
  import opened Messages
  import opened Lanes
  import C = Clusters
  import I = LaneInvariant
  import H = Handlers
  import O = HandlerOutcomes
  import HandlerClasses
  import CraqReads
  import CraqReplication

  /** What a VersionQuery RPC to position y returns when every node serves it in state s. */
  function Answer(cfg: Cfg, s: Lane, y: nat): Option<nat>
    requires cfg.n > 0 && |s.cells| == cfg.n
    decreases cfg.n - y
  {
    if y >= cfg.n then None
    else
      match CraqReplication.VersionQuery(LinearNode(cfg, y), y, 0, MISSING, s.cells[y].ks)
      case QueryReply(_, _, _, q) => Some(q)
      case QuerySent(next, _, _, _) => if next > y then Answer(cfg, s, next) else None
      case _ => None
  }

  /** Hop by hop or straight to the tail, the answer is the tail's committed version. */
  lemma {:induction false} AnswerIsTails(cfg: Cfg, s: Lane, y: nat)
    requires cfg.n > 0 && |s.cells| == cfg.n && y < cfg.n
    ensures Answer(cfg, s, y) == Some(Tail(s).ks.commVersion)
    decreases cfg.n - y
  {
    if y < cfg.n - 1 { AnswerIsTails(cfg, s, if cfg.direct then cfg.n - 1 else y + 1); }
  }

  lemma LocalPart(cfg: Cfg, s: Lane, p: nat, key: string, rid: nat, l: H.Local)
    requires cfg.mode == CRAQ && cfg.n > 0 && |s.cells| == cfg.n && p < cfg.n
    requires l.ks == s.cells[p].ks && l.replies == []
    ensures var ks := s.cells[p].ks;
            H.RunAlone(CRAQ, LinearNode(cfg, p), C.Env(key, "", ReadCall(p, rid)), l).replies ==
            [if p < cfg.n - 1 then CraqReplication.AfterSeen(p, rid, ReadCommitted(ks), ReadSeen(ks))
             else ReadReply(p, rid, ReadCommitted(ks))]
  {
    O.ReadAlone(CRAQ, LinearNode(cfg, p), key, p, rid, l);
  }

  /** Composed, the handlers of a read do what its sections do at once. */
  lemma HandledIsReadAtOnce(cfg: Cfg, s: Lane, p: nat, rid: nat, remote: nat -> Option<nat>, m: Item)
    requires cfg.mode == CRAQ && cfg.n > 0 && |s.cells| == cfg.n && p < cfg.n
    requires forall y: nat :: y < cfg.n ==> remote(y) == Answer(cfg, s, y)
    requires var ks := s.cells[p].ks;
             m == if p < cfg.n - 1 then CraqReplication.AfterSeen(p, rid, ReadCommitted(ks), ReadSeen(ks))
                  else ReadReply(p, rid, ReadCommitted(ks))
    ensures HandlerClasses.ToEnd(LinearNode(cfg, p), s.cells[p].ks, m, remote) ==
            Some(CraqReads.ReadAtOnce(cfg, s, p, rid))
  {
    CraqReads.ReadAtOnceCases(cfg, s, p, rid);
    hide CraqReads.ReadAtOnce;
    if p < cfg.n - 1 { AnswerIsTails(cfg, s, if cfg.direct then cfg.n - 1 else p + 1); }
  }

  /**
   In every reachable state, at every position: a read served by the handlers returns the
   tail's committed version and value, and fails only if the tail has committed nothing, with the
   error that tells whether the position has seen a write.
   */
  lemma HandledReadIsExact(cfg: Cfg, tr: seq<Lane>, steps: seq<Step>, k: nat, p: nat, key: string, rid: nat,
                           l: H.Local, remote: nat -> Option<nat>)
    requires IsRun(cfg, tr, steps) && k < |tr| && cfg.mode == CRAQ && p < cfg.n && |tr[k].cells| == cfg.n
    requires l.ks == tr[k].cells[p].ks && l.replies == []
    requires forall y: nat :: y < cfg.n ==> remote(y) == Answer(cfg, tr[k], y)
    ensures exists m :: H.RunAlone(CRAQ, LinearNode(cfg, p), C.Env(key, "", ReadCall(p, rid)), l).replies == [m]
              && var r := HandlerClasses.ToEnd(LinearNode(cfg, p), l.ks, m, remote);
                 var v := Tail(tr[k]).ks.commVersion;
                 if v > 0 then r == Some(ReadDone(p, rid, v, Tail(tr[k]).ks.commValue))
                 else
                   var error := if p < cfg.n - 1 && l.ks.seenVersion != 0 then NotCommittedAtTail else NotFound;
                   r == Some(ReadFailed(p, rid, error))
  {
    var ks := tr[k].cells[p].ks;
    var m := if p < cfg.n - 1 then CraqReplication.AfterSeen(p, rid, ReadCommitted(ks), ReadSeen(ks))
             else ReadReply(p, rid, ReadCommitted(ks));
    LocalPart(cfg, tr[k], p, key, rid, l);
    HandledIsReadAtOnce(cfg, tr[k], p, rid, remote, m);
    CraqReads.RunReadAtOnceIsExact(cfg, tr, steps, k, p, rid);
    assert H.RunAlone(CRAQ, LinearNode(cfg, p), C.Env(key, "", ReadCall(p, rid)), l).replies == [m];
  }
}
