/**
 Reads are linearizable: a read that returns gives the version and value that were the
 tail's committed ones at some instant between its invocation and its reply, with every
 critical section a step of its own, under any reordering, loss and duplication.
 */
module LaneReads {
  import opened KeyStates
  import opened Messages
  import opened Lanes
  import opened LaneInvariant

  /** At instant k, with read `rid` already invoked, the tail's committed version is v. */
  ghost predicate TailAt(tr: seq<Lane>, k: nat, rid: nat, v: nat) {
    k < |tr| && rid < tr[k].clock && Tail(tr[k]).ks.commVersion == v
  }

  /** At instant k, with read `rid` already invoked, read_clean at position p gives `clean`. */
  ghost predicate CleanAt(tr: seq<Lane>, k: nat, p: nat, rid: nat, clean: Found) {
    k < |tr| && p < |tr[k].cells| && rid < tr[k].clock && ReadCommitted(tr[k].cells[p].ks) == clean
  }

  /** The past instant that justifies what a suspended or finished read carries. */
  ghost predicate Witnessed(tr: seq<Lane>, j: nat, m: Item) {
    match m
    case ReadClean(p, rid, clean) => exists k: nat :: k <= j && CleanAt(tr, k, p, rid, clean)
    case QueryReply(_, rid, _, q) => exists k: nat :: k <= j && TailAt(tr, k, rid, q)
    case ReadDone(_, rid, v, _) => exists k: nat :: k <= j && TailAt(tr, k, rid, v)
    case _ => true
  }

  lemma WitnessLasts(tr: seq<Lane>, i: nat, j: nat, m: Item)
    requires i <= j && Witnessed(tr, i, m)
    ensures Witnessed(tr, j, m)
  {
  }

  /**
   Why read_clean must come before read_latest_seen: if nothing newer than the clean version
   has been seen here by instant j, the tail's committed version at the earlier instant k,
   squeezed between the two, was that clean version.
   */
  lemma CleanReadIsTailRead(cfg: Cfg, tr: seq<Lane>, steps: seq<Step>, k: nat, j: nat, p: nat, rid: nat, clean: Found)
    requires IsRun(cfg, tr, steps) && k <= j < |tr| && p < cfg.n
    requires CleanAt(tr, k, p, rid, clean) && clean.found
    requires |tr[j].cells| == cfg.n && tr[j].cells[p].ks.seenVersion <= clean.version
    ensures TailAt(tr, k, rid, clean.version)
  {
    RunCells(cfg, tr, steps, k);
    VersionsGrow(cfg, tr, steps, k, j, p);
    Sandwich(cfg, tr[k], p, cfg.n - 1);
  }

  lemma ReadCallWitnesses(cfg: Cfg, tr: seq<Lane>, j: nat, m: Item, x: Item)
    requires CfgOk(cfg) && j < |tr| && |tr[j].cells| == cfg.n && m.ReadCall? && ItemOk(cfg, tr[j], m)
    requires x in LocalEffect(cfg, tr[j], m).out
    ensures Witnessed(tr, j, x)
  {
    assert CleanAt(tr, j, m.at, m.rid, ReadCommitted(tr[j].cells[m.at].ks));
    assert m.at == cfg.n - 1 ==> TailAt(tr, j, m.rid, tr[j].cells[m.at].ks.commVersion);
  }

  lemma QuerySentWitnesses(cfg: Cfg, tr: seq<Lane>, j: nat, m: Item, x: Item)
    requires CfgOk(cfg) && j < |tr| && |tr[j].cells| == cfg.n && m.QuerySent? && ItemOk(cfg, tr[j], m)
    requires x in LocalEffect(cfg, tr[j], m).out
    ensures Witnessed(tr, j, x)
  {
    assert m.at == cfg.n - 1 ==> TailAt(tr, j, m.rid, tr[j].cells[m.at].ks.commVersion);
  }

  lemma ReadCleanWitnesses(cfg: Cfg, tr: seq<Lane>, steps: seq<Step>, j: nat, m: Item, x: Item)
    requires IsRun(cfg, tr, steps) && j < |tr| && |tr[j].cells| == cfg.n
    requires m.ReadClean? && ItemOk(cfg, tr[j], m) && Witnessed(tr, j, m)
    requires x in LocalEffect(cfg, tr[j], m).out
    ensures Witnessed(tr, j, x)
  {
    if x.ReadDone? {
      var k: nat :| k <= j && CleanAt(tr, k, m.at, m.rid, m.clean);
      CleanReadIsTailRead(cfg, tr, steps, k, j, m.at, m.rid, m.clean);
    }
  }

  /** A dirty read resolved here returns the version its query brought back. */
  lemma QueryReplyWitnesses(cfg: Cfg, tr: seq<Lane>, j: nat, m: Item, x: Item)
    requires CfgOk(cfg) && j < |tr| && |tr[j].cells| == cfg.n && m.QueryReply? && ItemOk(cfg, tr[j], m)
    requires Witnessed(tr, j, m) && x in LocalEffect(cfg, tr[j], m).out
    ensures Witnessed(tr, j, x)
  {
  }

  lemma OtherSectionsWitness(cfg: Cfg, tr: seq<Lane>, j: nat, m: Item, x: Item)
    requires CfgOk(cfg) && j < |tr| && |tr[j].cells| == cfg.n && ItemOk(cfg, tr[j], m) && !Inert(m) && !m.ClientAck?
    requires !m.ReadCall? && !m.ReadClean? && !m.QuerySent? && !m.QueryReply?
    requires x in LocalEffect(cfg, tr[j], m).out
    ensures Witnessed(tr, j, x)
  {
  }

  lemma SectionWitnesses(cfg: Cfg, tr: seq<Lane>, steps: seq<Step>, j: nat, m: Item, x: Item)
    requires IsRun(cfg, tr, steps) && j < |tr| && |tr[j].cells| == cfg.n
    requires ItemOk(cfg, tr[j], m) && Witnessed(tr, j, m) && !Inert(m) && !m.ClientAck?
    requires x in LocalEffect(cfg, tr[j], m).out
    ensures Witnessed(tr, j, x)
  {
    match m
    case ReadCall(_, _) => ReadCallWitnesses(cfg, tr, j, m, x);
    case ReadClean(_, _, _) => ReadCleanWitnesses(cfg, tr, steps, j, m, x);
    case QuerySent(_, _, _, _) => QuerySentWitnesses(cfg, tr, j, m, x);
    case QueryReply(_, _, _, _) => QueryReplyWitnesses(cfg, tr, j, m, x);
    case _ => OtherSectionsWitness(cfg, tr, j, m, x);
  }

  lemma StepWitnesses(cfg: Cfg, tr: seq<Lane>, steps: seq<Step>, j: nat, x: Item)
    requires IsRun(cfg, tr, steps) && j < |steps|
    requires forall m :: m in tr[j].net ==> Witnessed(tr, j, m)
    requires x in tr[j+1].net
    ensures Witnessed(tr, j + 1, x)
  {
    if x !in tr[j].net {
      Provenance(cfg, tr[j], steps[j], x);
      if steps[j].Fire? && !tr[j].net[steps[j].i].ClientAck? {
        var m := tr[j].net[steps[j].i];
        RunItem(cfg, tr, steps, j, m);
        SectionWitnesses(cfg, tr, steps, j, m, x);
      }
    }
    assert Witnessed(tr, j, x);
    WitnessLasts(tr, j, j + 1, x);
  }

  lemma {:induction false} RunWitnesses(cfg: Cfg, tr: seq<Lane>, steps: seq<Step>, j: nat)
    requires IsRun(cfg, tr, steps) && j < |tr|
    ensures forall m :: m in tr[j].net ==> Witnessed(tr, j, m)
  {
    if j > 0 {
      RunWitnesses(cfg, tr, steps, j - 1);
      forall x | x in tr[j].net ensures Witnessed(tr, j, x) {
        StepWitnesses(cfg, tr, steps, j - 1, x);
      }
    }
  }

  /**
   A finished read returns the tail's committed version and value of some instant k at which
   the read had been invoked and not yet answered.
   */
  lemma ReadsAreLinearizable(cfg: Cfg, tr: seq<Lane>, steps: seq<Step>, j: nat, m: Item)
    requires IsRun(cfg, tr, steps) && j < |tr| && m in tr[j].net && m.ReadDone?
    ensures exists k: nat :: k <= j && TailAt(tr, k, m.rid, m.version) && Tail(tr[k]).ks.commValue == m.value
    ensures 1 <= m.version <= |tr[j].log| && tr[j].log[m.version - 1].value == m.value
  {
    assert CfgOk(cfg);
    hide IsRun;
    RunWitnesses(cfg, tr, steps, j);
    var k: nat :| k <= j && TailAt(tr, k, m.rid, m.version);
    RunCells(cfg, tr, steps, k);
    RunItem(cfg, tr, steps, j, m);
    RunExtends(cfg, tr, steps, k, j);
    assert CellOk(cfg.mode, tr[k].log, Tail(tr[k]));
  }

  /** The client of version v has been, or is being, told that the write is committed. */
  ghost predicate Acknowledged(s: Lane, v: nat) {
    exists m :: m in s.net && (m.ClientAck? || m.ClientAcked?) && m.version == v
  }

  /** An acknowledged version is covered by the tail's committed one from then on. */
  lemma AckMeansCommitted(cfg: Cfg, tr: seq<Lane>, steps: seq<Step>, i: nat, j: nat, v: nat)
    requires IsRun(cfg, tr, steps) && i <= j < |tr| && Acknowledged(tr[i], v)
    ensures 1 <= v <= Tail(tr[j]).ks.commVersion
  {
    var m :| m in tr[i].net && (m.ClientAck? || m.ClientAcked?) && m.version == v;
    RunCells(cfg, tr, steps, i);
    RunItem(cfg, tr, steps, i, m);
    assert CellOk(cfg.mode, tr[i].log, Tail(tr[i]));
    VersionsGrow(cfg, tr, steps, i, j, cfg.n - 1);
  }

  /** An acknowledgement carries the request that the head numbered with its version. */
  lemma AckNamesItsWrite(cfg: Cfg, tr: seq<Lane>, steps: seq<Step>, k: nat, m: Item)
    requires IsRun(cfg, tr, steps) && k < |tr| && m in tr[k].net && (m.ClientAck? || m.ClientAcked?)
    ensures 1 <= m.version <= |tr[k].log| && tr[k].log[m.version - 1] == m.req
  {
    RunItem(cfg, tr, steps, k, m);
  }

  /**
   Real-time order between a finished read and what happened before instant i, at which the
   read had not been invoked: it returns no less than any write acknowledged and any read
   answered by then.
   */
  lemma ReadsRespectRealTime(cfg: Cfg, tr: seq<Lane>, steps: seq<Step>, i: nat, j: nat, m: Item)
    requires IsRun(cfg, tr, steps) && i <= j < |tr| && m in tr[j].net && m.ReadDone?
    requires tr[i].clock <= m.rid
    ensures forall v: nat :: Acknowledged(tr[i], v) ==> v <= m.version
    ensures forall r :: r in tr[i].net && r.ReadDone? ==> r.version <= m.version
    ensures m.version <= |tr[j].log|
  {
    RunWitnesses(cfg, tr, steps, j);
    var k: nat :| k <= j && TailAt(tr, k, m.rid, m.version);
    if k < i { RunExtends(cfg, tr, steps, k, i); assert false; }
    RunItem(cfg, tr, steps, j, m);
    forall v: nat | Acknowledged(tr[i], v) ensures v <= m.version {
      AckMeansCommitted(cfg, tr, steps, i, k, v);
    }
    forall r | r in tr[i].net && r.ReadDone? ensures r.version <= m.version {
      AnswersStayCovered(cfg, tr, steps, i, k, r);
    }
  }

  lemma AnswersStayCovered(cfg: Cfg, tr: seq<Lane>, steps: seq<Step>, i: nat, k: nat, r: Item)
    requires IsRun(cfg, tr, steps) && i <= k < |tr| && r in tr[i].net && r.ReadDone?
    ensures r.version <= Tail(tr[k]).ks.commVersion
  {
    RunCells(cfg, tr, steps, i);
    RunItem(cfg, tr, steps, i, r);
    assert CellOk(cfg.mode, tr[i].log, Tail(tr[i]));
    VersionsGrow(cfg, tr, steps, i, k, cfg.n - 1);
  }
}
