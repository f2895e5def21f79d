/**
 The specification both protocols refine: one atomic log per key. Writes are numbered when
 the head takes them, commits extend the committed prefix, and only committed writes are
 acknowledged.
 */
module AtomicLog {
  import opened KeyStates
  import opened Messages
  import opened Lanes
  import opened LaneInvariant

  datatype Atomic = Atomic(invoked: seq<Req>, committed: nat, acked: set<nat>)

  ghost predicate WellFormed(a: Atomic) {
    a.committed <= |a.invoked| && forall v :: v in a.acked ==> 1 <= v <= a.committed
  }

  ghost predicate Invoke(a: Atomic, b: Atomic) {
    exists req :: b == a.(invoked := a.invoked + [req])
  }

  /** The committed prefix grows over writes already invoked, none of them acknowledged yet. */
  ghost predicate CommitTo(a: Atomic, b: Atomic) {
    && a.committed < b.committed <= |a.invoked|
    && b == a.(committed := b.committed)
    && forall v :: a.committed < v <= b.committed ==> v !in a.acked
  }

  ghost predicate Acknowledge(a: Atomic, b: Atomic) {
    exists v :: 1 <= v <= a.committed && b == a.(acked := a.acked + {v})
  }

  /** An acknowledgement on its way to the client is lost. */
  ghost predicate DropAck(a: Atomic, b: Atomic) {
    b.acked <= a.acked && b == a.(acked := b.acked)
  }

  ghost predicate Next(lossy: bool, a: Atomic, b: Atomic) {
    a == b || Invoke(a, b) || CommitTo(a, b) || Acknowledge(a, b) || (lossy && DropAck(a, b))
  }

  predicate IsAck(m: Item) {
    m.ClientAck? || m.ClientAcked?
  }

  function AckedIn(net: seq<Item>): set<nat> {
    set m | m in net && IsAck(m) :: m.version
  }

  function Abs(s: Lane): Atomic {
    Atomic(s.log, Tail(s).ks.commVersion, AckedIn(s.net))
  }

  lemma AbsIsWellFormed(cfg: Cfg, s: Lane)
    requires Inv(cfg, s)
    ensures WellFormed(Abs(s))
  {
    assert CellOk(cfg.mode, s.log, Tail(s));
    forall v | v in Abs(s).acked ensures 1 <= v <= Abs(s).committed {
      var m :| m in s.net && IsAck(m) && m.version == v;
      assert ItemOk(cfg, s, m);
    }
  }

  lemma WithoutKeepsOthers<T>(s: seq<T>, i: nat, x: T)
    requires i < |s| && x in s && x != s[i]
    ensures x in Without(s, i)
  {
    var j :| 0 <= j < |s| && s[j] == x;
    if j < i {
      assert Without(s, i)[j] == x;
    } else {
      assert Without(s, i)[j-1] == x;
    }
  }

  lemma AckedInParts(a: seq<Item>, b: seq<Item>)
    ensures AckedIn(a + b) == AckedIn(a) + AckedIn(b)
  {
    forall v | v in AckedIn(a) + AckedIn(b) ensures v in AckedIn(a + b) {
      var m :| (m in a || m in b) && IsAck(m) && m.version == v;
      assert m in a + b;
    }
  }

  lemma AckedWithout(net: seq<Item>, i: nat)
    requires i < |net|
    ensures AckedIn(Without(net, i)) <= AckedIn(net)
    ensures !IsAck(net[i]) ==> AckedIn(Without(net, i)) == AckedIn(net)
    ensures IsAck(net[i]) ==> AckedIn(Without(net, i)) + {net[i].version} == AckedIn(net)
  {
    forall m | m in Without(net, i) ensures m in net { WithoutMember(net, i, m); }
    forall v | v in AckedIn(net) && (IsAck(net[i]) ==> v != net[i].version) ensures v in AckedIn(Without(net, i)) {
      var m :| m in net && IsAck(m) && m.version == v;
      WithoutKeepsOthers(net, i, m);
    }
    if IsAck(net[i]) { assert net[i] in net; }
  }

  /** What a section emits towards the client. */
  lemma AckedByOut(cfg: Cfg, s: Lane, m: Item)
    requires CfgOk(cfg) && |s.cells| == cfg.n && ItemOk(cfg, s, m) && !Inert(m) && !m.ClientAck?
    ensures AckedIn(LocalEffect(cfg, s, m).out) ==
            if m.TailMarked? && m.req.client != "" then {m.version} else {}
  {
    var out := LocalEffect(cfg, s, m).out;
    if m.TailMarked? && m.req.client != "" {
      assert out[0] == ClientAck(m.version, m.req);
      assert out[0] in out;
    }
  }

  /** The tail's committed version moves only when a version is marked at the tail, to the maximum. */
  lemma TailCommitAfter(cfg: Cfg, s: Lane, i: nat, p: nat, e: Effect)
    requires CfgOk(cfg) && CellsOk(cfg, s) && Nested(cfg, s) && i < |s.net| && p < cfg.n
    requires Lawful(cfg, s, s.net[i], p, e)
    ensures var t := After(s, i, p, e);
            Tail(t).ks.commVersion ==
              if e.note.Cleaned? && p == cfg.n - 1 then Max(Tail(s).ks.commVersion, e.note.version)
              else Tail(s).ks.commVersion
    ensures e.note.Cleaned? ==> e.note.version <= |s.log|
  {
    if e.note.Cleaned? && p == cfg.n - 1 {
      var m := s.net[i];
      CommitKeepsCell(cfg.mode, s.log, s.cells[p], e.note.version, m.req.value);
    }
  }

  lemma AckedAfter(cfg: Cfg, s: Lane, i: nat)
    requires CfgOk(cfg) && |s.cells| == cfg.n && i < |s.net| && ItemOk(cfg, s, s.net[i])
    requires !Inert(s.net[i]) && !s.net[i].ClientAck?
    ensures var m := s.net[i];
            var t := After(s, i, At(m).value, LocalEffect(cfg, s, m));
            AckedIn(t.net) == AckedIn(s.net) + if m.TailMarked? && m.req.client != "" then {m.version} else {}
  {
    var out := LocalEffect(cfg, s, s.net[i]).out;
    AckedInParts(Without(s.net, i), out);
    AckedWithout(s.net, i);
    AckedByOut(cfg, s, s.net[i]);
  }

  lemma MarkedIsCommitted(cfg: Cfg, s: Lane, m: Item)
    requires CfgOk(cfg) && CellsOk(cfg, s) && ItemOk(cfg, s, m) && m.TailMarked?
    ensures 1 <= m.version <= Tail(s).ks.commVersion
  {
    assert CellOk(cfg.mode, s.log, Tail(s));
  }

  /** The abstract state after a section, field by field. */
  lemma AbsAfter(cfg: Cfg, s: Lane, i: nat)
    requires CfgOk(cfg) && CellsOk(cfg, s) && Nested(cfg, s) && i < |s.net| && ItemOk(cfg, s, s.net[i])
    requires !Inert(s.net[i]) && !s.net[i].ClientAck?
    ensures var m, a := s.net[i], Abs(s);
            var e := LocalEffect(cfg, s, m);
            var b := Abs(After(s, i, At(m).value, e));
            && b.invoked == LogAfter(a.invoked, m, e.note)
            && b.acked == a.acked + (if m.TailMarked? && m.req.client != "" then {m.version} else {})
            && (b.committed == a.committed || (e.note.Cleaned? && a.committed < b.committed <= |a.invoked|))
            && (m.TailMarked? ==> e.note == Quiet) && (e.note.Assigned? ==> m.WriteCall?)
  {
    var m := s.net[i];
    AckedAfter(cfg, s, i);
    SectionIsLawful(cfg, s, m);
    TailCommitAfter(cfg, s, i, At(m).value, LocalEffect(cfg, s, m));
  }

  lemma FireRefines(cfg: Cfg, s: Lane, i: nat)
    requires CfgOk(cfg) && CellsOk(cfg, s) && Nested(cfg, s) && i < |s.net| && ItemOk(cfg, s, s.net[i])
    requires !Inert(s.net[i]) && !s.net[i].ClientAck? && WellFormed(Abs(s))
    ensures Next(cfg.lossy, Abs(s), Abs(After(s, i, At(s.net[i]).value, LocalEffect(cfg, s, s.net[i]))))
  {
    var m, a := s.net[i], Abs(s);
    var e := LocalEffect(cfg, s, m);
    var b := Abs(After(s, i, At(m).value, e));
    AbsAfter(cfg, s, i);
    if m.TailMarked? { MarkedIsCommitted(cfg, s, m); }
    hide CellsOk, Nested, ItemOk, Abs, LocalEffect;
    if e.note.Assigned? {
      assert b == a.(invoked := a.invoked + [m.req]);
    } else if m.TailMarked? && m.req.client != "" {
      assert b == a.(acked := a.acked + {m.version});
    } else {
      assert b == a.(committed := b.committed);
    }
  }

  lemma DeliveryRefines(s: Lane, i: nat)
    requires i < |s.net| && s.net[i].ClientAck?
    ensures Abs(s.(net := Without(s.net, i) + [ClientAcked(s.net[i].version, s.net[i].req)])) == Abs(s)
  {
    var out := [ClientAcked(s.net[i].version, s.net[i].req)];
    assert out[0] in out;
    AckedInParts(Without(s.net, i), out);
    AckedWithout(s.net, i);
  }

  lemma NetRefines(s: Lane, extra: seq<Item>)
    requires forall m :: m in extra && IsAck(m) ==> m in s.net
    ensures AckedIn(s.net + extra) == AckedIn(s.net)
  {
    AckedInParts(s.net, extra);
  }

  /** Every step of the protocol is a step of the atomic log. */
  lemma StepRefinesAtomicLog(cfg: Cfg, s: Lane, step: Step)
    requires Inv(cfg, s) && Enabled(cfg, s, step)
    ensures Next(cfg.lossy, Abs(s), Abs(Apply(cfg, s, step)))
  {
    match step
    case Fire(i) =>
      if s.net[i].ClientAck? {
        DeliveryRefines(s, i);
      } else {
        AbsIsWellFormed(cfg, s);
        FireRefines(cfg, s, i);
      }
    case Lose(i) =>
      AckedWithout(s.net, i);
      assert DropAck(Abs(s), Abs(Apply(cfg, s, step)));
    case Duplicate(i) => NetRefines(s, [s.net[i]]);
    case CallWrite(at, req) => NetRefines(s, [WriteCall(at, req)]);
    case CallRead(at, rid) => NetRefines(s, [ReadCall(at, rid)]);
    case Idle(_) =>
  }

  /** CHAIN and CRAQ runs refine the atomic log, and every tail read returns its last entry. */
  lemma RunRefinesAtomicLog(cfg: Cfg, tr: seq<Lane>, steps: seq<Step>, k: nat)
    requires IsRun(cfg, tr, steps) && k < |tr|
    ensures WellFormed(Abs(tr[k]))
    ensures k == 0 ==> Abs(tr[k]) == Atomic([], 0, {})
    ensures k < |steps| ==> Next(cfg.lossy, Abs(tr[k]), Abs(tr[k+1]))
    ensures var a := Abs(tr[k]);
            ReadCommitted(Tail(tr[k]).ks) ==
            if a.committed == 0 then MISSING else Found(true, a.invoked[a.committed - 1].value, a.committed)
  {
    RunKeepsInv(cfg, tr, steps, k);
    AbsIsWellFormed(cfg, tr[k]);
    assert CellOk(cfg.mode, tr[k].log, Tail(tr[k]));
    if k < |steps| { StepRefinesAtomicLog(cfg, tr[k], steps[k]); }
  }
}
