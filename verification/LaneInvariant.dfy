/**
 What every reachable lane state satisfies, under any reordering, loss and duplication.
 */
module LaneInvariant {
  import opened Wrappers
  import opened KeyStates
  import opened Messages
  import opened Lanes

  /** The head numbered `req` as version v. */
  ghost predicate Logged(log: seq<Req>, v: nat, req: Req) {
    1 <= v <= |log| && log[v-1] == req
  }

  ghost predicate Written(log: seq<Req>, v: nat, value: string) {
    1 <= v <= |log| && log[v-1].value == value
  }

  /** What the store holds is determined by what was recorded and marked clean in it. */
  ghost predicate CellOk(mode: Mode, log: seq<Req>, c: Cell) {
    && c.ks.next <= |log|
    && c.cleaned <= c.recorded
    && (forall v :: v in c.recorded ==> 1 <= v <= |log| && v <= c.ks.seenVersion)
    && (c.ks.seenVersion != 0 ==> c.ks.seenVersion in c.recorded && Written(log, c.ks.seenVersion, c.ks.seenValue))
    && (forall v :: v in c.cleaned ==> v <= c.ks.commVersion)
    && (c.ks.commVersion != 0 ==> c.ks.commVersion in c.cleaned && Written(log, c.ks.commVersion, c.ks.commValue))
    && (forall v :: v in c.ks.pending ==> v in c.recorded && Written(log, v, c.ks.pending[v]))
    && (mode == CRAQ ==> forall v :: v in c.recorded ==> v <= c.ks.commVersion || v in c.ks.pending)
    && (mode == CHAIN ==> c.ks.pending == map[])
  }

  ghost predicate FoundOk(log: seq<Req>, c: Cell, f: Found) {
    && (f.found ==> f.version in c.cleaned && Written(log, f.version, f.value))
    && (!f.found ==> f.version == 0)
  }

  /** What an outstanding item implies about the positions. */
  ghost predicate ItemOk(cfg: Cfg, s: Lane, m: Item)
    requires |s.cells| == cfg.n && CfgOk(cfg)
  {
    match m
    case WriteCall(at, _) => at < cfg.n
    case WriteRejected(at, _) => true
    case WriteAssigned(at, v, req) => at == 0 && Logged(s.log, v, req)
    case WriteRecorded(at, v, req) => at == 0 && Logged(s.log, v, req) && v in s.cells[0].recorded
    case PropSent(at, v, req) => 1 <= at < cfg.n && Logged(s.log, v, req) && v in s.cells[at-1].recorded
    case PropRecorded(at, v, req) => 1 <= at < cfg.n && Logged(s.log, v, req) && v in s.cells[at].recorded
    case TailMarked(at, v, req) => at == cfg.n - 1 && Logged(s.log, v, req) && v in Tail(s).cleaned
    case PredAckDue(at, v, req) =>
      cfg.mode == CRAQ && at == cfg.n - 1 && at > 0 && Logged(s.log, v, req) && v in Tail(s).cleaned
    case ClientAck(v, req) => Logged(s.log, v, req) && v in Tail(s).cleaned
    case ClientAcked(v, req) => Logged(s.log, v, req) && v in Tail(s).cleaned
    case AckSent(at, v, req) =>
      cfg.mode == CRAQ && at + 1 < cfg.n && Logged(s.log, v, req) && v in s.cells[at+1].cleaned
    case AckMarked(at, v, req) =>
      cfg.mode == CRAQ && at + 1 < cfg.n && Logged(s.log, v, req) && v in s.cells[at].cleaned
    case ReadCall(at, rid) => at < cfg.n && rid < s.clock
    case ReadClean(at, rid, clean) =>
      cfg.mode == CRAQ && at + 1 < cfg.n && rid < s.clock && FoundOk(s.log, s.cells[at], clean)
    case QuerySent(at, home, rid, clean) =>
      cfg.mode == CRAQ && at < cfg.n && home + 1 < cfg.n && rid < s.clock && FoundOk(s.log, s.cells[home], clean)
    case QueryReply(home, rid, clean, q) =>
      && cfg.mode == CRAQ && home + 1 < cfg.n && rid < s.clock && FoundOk(s.log, s.cells[home], clean)
      && (q != 0 ==> q in Tail(s).cleaned)
    case ReadDone(at, rid, v, value) =>
      && at < cfg.n && rid < s.clock && v in Tail(s).cleaned && Written(s.log, v, value)
      && (cfg.mode == CHAIN ==> at == cfg.n - 1)
    case ReadFailed(at, rid, _) => at < cfg.n && rid < s.clock
  }

  ghost predicate CellsOk(cfg: Cfg, s: Lane) {
    && |s.cells| == cfg.n
    && (forall p :: 0 <= p < cfg.n ==> CellOk(cfg.mode, s.log, s.cells[p]))
    && (cfg.n > 0 ==> s.cells[0].ks.next == |s.log|)
  }

  /** Records flow down the chain; marks flow up it in CRAQ and stay at the tail in CHAIN. */
  ghost predicate Nested(cfg: Cfg, s: Lane) {
    && |s.cells| == cfg.n
    && (forall p, q {:trigger s.cells[p].recorded, s.cells[q].recorded} ::
          0 <= p <= q < cfg.n ==> s.cells[q].recorded <= s.cells[p].recorded)
    && (cfg.mode == CRAQ ==> forall p, q {:trigger s.cells[p].cleaned, s.cells[q].cleaned} ::
          0 <= p <= q < cfg.n ==> s.cells[p].cleaned <= s.cells[q].cleaned)
    && (cfg.mode == CHAIN ==> forall p :: 0 <= p < cfg.n - 1 ==> s.cells[p].cleaned == {})
  }

  ghost predicate ItemsOk(cfg: Cfg, s: Lane)
    requires |s.cells| == cfg.n && CfgOk(cfg)
  {
    forall m :: m in s.net ==> ItemOk(cfg, s, m)
  }

  ghost predicate Inv(cfg: Cfg, s: Lane) {
    CfgOk(cfg) && CellsOk(cfg, s) && Nested(cfg, s) && ItemsOk(cfg, s)
  }

  // ----- the store operations, seen through their history -----

  /** A recorded version becomes the latest seen exactly when it is the largest recorded. */
  lemma RecordKeepsCell(mode: Mode, log: seq<Req>, c: Cell, v: nat, value: string)
    requires mode != CROWN && CellOk(mode, log, c) && Written(log, v, value)
    ensures var ks := Record(mode, c.ks, value, v);
            CellOk(mode, log, Cell(ks, c.recorded + {v}, c.cleaned)) && ks.seenVersion == Max(c.ks.seenVersion, v)
  {
  }

  /**
   Marking a recorded version clean acts as committed := max(committed, version), with the
   value the head assigned, whatever was marked before it.
   */
  lemma CommitKeepsCell(mode: Mode, log: seq<Req>, c: Cell, v: nat, value: string)
    requires mode != CROWN && CellOk(mode, log, c) && v in c.recorded && Written(log, v, value)
    ensures var ks := Commit(mode, c.ks, value, v);
            && CellOk(mode, log, Cell(ks, c.recorded, c.cleaned + {v}))
            && ks.commVersion == Max(c.ks.commVersion, v)
            && Written(log, ks.commVersion, ks.commValue)
            && ks.seenVersion == c.ks.seenVersion
  {
  }

  lemma AssignKeepsCell(mode: Mode, log: seq<Req>, c: Cell, req: Req)
    requires CellOk(mode, log, c) && c.ks.next == |log|
    ensures CellOk(mode, log + [req], c.(ks := AssignNext(c.ks)))
  {
  }

  lemma LogGrowthKeepsCell(mode: Mode, log: seq<Req>, log': seq<Req>, c: Cell)
    requires CellOk(mode, log, c) && log <= log'
    ensures CellOk(mode, log', c)
  {
  }

  // ----- histories only grow -----

  ghost predicate Extends(s: Lane, t: Lane) {
    && |s.cells| == |t.cells|
    && s.log <= t.log
    && s.clock <= t.clock
    && (forall p :: 0 <= p < |s.cells| ==>
          && s.cells[p].recorded <= t.cells[p].recorded
          && s.cells[p].cleaned <= t.cells[p].cleaned)
  }

  lemma ExtensionKeepsItem(cfg: Cfg, s: Lane, t: Lane, m: Item)
    requires CfgOk(cfg) && |s.cells| == cfg.n && ItemOk(cfg, s, m) && Extends(s, t)
    ensures ItemOk(cfg, t, m)
  {
  }

  lemma WithoutMember<T>(s: seq<T>, i: nat, x: T)
    requires i < |s| && x in Without(s, i)
    ensures x in s
  {
  }

  /** The items of the next state are old ones or freshly emitted ones. */
  lemma ItemsCarryOver(cfg: Cfg, s: Lane, t: Lane, i: nat, out: seq<Item>)
    requires CfgOk(cfg) && |s.cells| == cfg.n && ItemsOk(cfg, s) && Extends(s, t)
    requires i < |s.net| && t.net == Without(s.net, i) + out
    requires forall m :: m in out ==> ItemOk(cfg, t, m)
    ensures ItemsOk(cfg, t)
  {
    forall m | m in t.net ensures ItemOk(cfg, t, m) {
      if m !in out {
        WithoutMember(s.net, i, m);
        ExtensionKeepsItem(cfg, s, t, m);
      }
    }
  }

  /** Where an item of the next state comes from. */
  lemma Provenance(cfg: Cfg, s: Lane, step: Step, x: Item)
    requires CfgOk(cfg) && Enabled(cfg, s, step) && x in Apply(cfg, s, step).net && x !in s.net
    ensures step.Fire? || step.CallWrite? || step.CallRead?
    ensures step.CallWrite? ==> x == WriteCall(step.at, step.req)
    ensures step.CallRead? ==> x == ReadCall(step.at, step.rid)
    ensures step.Fire? ==>
              var m := s.net[step.i];
              if m.ClientAck? then x == ClientAcked(m.version, m.req) else x in LocalEffect(cfg, s, m).out
  {
    match step
    case Fire(i) => if x in Without(s.net, i) { WithoutMember(s.net, i, x); }
    case Lose(i) => WithoutMember(s.net, i, x);
    case _ =>
  }

  // ----- one section at a time -----

  /**
   The four things a section can do to its store: nothing; number a write, at the head;
   record a version the position above has recorded; mark a version its own position has
   recorded, at the tail or after the position below.
   */
  ghost predicate Lawful(cfg: Cfg, s: Lane, m: Item, p: nat, e: Effect)
    requires CfgOk(cfg) && |s.cells| == cfg.n && p < cfg.n
  {
    match e.note
    case Quiet => e.ks == s.cells[p].ks
    case Assigned => p == 0 && m.WriteCall? && e.ks == AssignNext(s.cells[0].ks)
    case Recorded(v) =>
      && (m.WriteAssigned? || m.PropSent?) && m.version == v
      && Logged(s.log, v, m.req)
      && e.ks == Record(cfg.mode, s.cells[p].ks, m.req.value, v)
      && (p > 0 ==> v in s.cells[p-1].recorded)
    case Cleaned(v) =>
      && (m.WriteRecorded? || m.PropRecorded? || m.AckSent?) && m.version == v
      && Logged(s.log, v, m.req)
      && e.ks == Commit(cfg.mode, s.cells[p].ks, m.req.value, v)
      && (if p == cfg.n - 1 then v in s.cells[p].recorded
          else cfg.mode == CRAQ && v in s.cells[p+1].cleaned)
  }

  lemma SectionIsLawful(cfg: Cfg, s: Lane, m: Item)
    requires CfgOk(cfg) && |s.cells| == cfg.n && ItemOk(cfg, s, m) && !Inert(m) && !m.ClientAck?
    ensures Lawful(cfg, s, m, At(m).value, LocalEffect(cfg, s, m))
  {
  }

  /** A version to be marked clean at a position has been recorded there. */
  lemma CleanedWasRecorded(cfg: Cfg, s: Lane, m: Item, p: nat, e: Effect)
    requires CfgOk(cfg) && CellsOk(cfg, s) && Nested(cfg, s) && p < cfg.n && Lawful(cfg, s, m, p, e) && e.note.Cleaned?
    ensures e.note.version in s.cells[p].recorded
  {
    if p < cfg.n - 1 {
      assert CellOk(cfg.mode, s.log, s.cells[p+1]);
      assert s.cells[p+1].recorded <= s.cells[p].recorded;
    }
  }

  /** A lawful section keeps its cell determined by its history. */
  lemma LawfulKeepsCell(cfg: Cfg, s: Lane, m: Item, p: nat, e: Effect)
    requires CfgOk(cfg) && CellsOk(cfg, s) && Nested(cfg, s) && p < cfg.n && Lawful(cfg, s, m, p, e)
    ensures CellOk(cfg.mode, LogAfter(s.log, m, e.note), Witness(s.cells[p], e))
    ensures p == 0 ==> e.ks.next == |LogAfter(s.log, m, e.note)|
  {
    var c := s.cells[p];
    assert CellOk(cfg.mode, s.log, c);
    match e.note
    case Quiet =>
    case Assigned => AssignKeepsCell(cfg.mode, s.log, c, m.req);
    case Recorded(v) => RecordKeepsCell(cfg.mode, s.log, c, v, m.req.value);
    case Cleaned(v) =>
      CleanedWasRecorded(cfg, s, m, p, e);
      CommitKeepsCell(cfg.mode, s.log, c, v, m.req.value);
  }

  /** The state after a section of item i at position p. */
  function After(s: Lane, i: nat, p: nat, e: Effect): Lane
    requires i < |s.net| && p < |s.cells|
  {
    Lane(s.cells[p := Witness(s.cells[p], e)], Without(s.net, i) + e.out, LogAfter(s.log, s.net[i], e.note), s.clock)
  }

  lemma LawfulExtends(cfg: Cfg, s: Lane, i: nat, p: nat, e: Effect)
    requires CfgOk(cfg) && |s.cells| == cfg.n && p < cfg.n && i < |s.net|
    ensures Extends(s, After(s, i, p, e))
  {
  }

  lemma LawfulKeepsCells(cfg: Cfg, s: Lane, i: nat, p: nat, e: Effect)
    requires CfgOk(cfg) && CellsOk(cfg, s) && Nested(cfg, s) && i < |s.net|
    requires p < cfg.n && Lawful(cfg, s, s.net[i], p, e)
    ensures CellsOk(cfg, After(s, i, p, e))
  {
    var t := After(s, i, p, e);
    LawfulKeepsCell(cfg, s, s.net[i], p, e);
    forall q | 0 <= q < cfg.n ensures CellOk(cfg.mode, t.log, t.cells[q]) {
      if q != p { LogGrowthKeepsCell(cfg.mode, s.log, t.log, s.cells[q]); }
    }
  }

  /** The cell a lawful section changes still fits between all others. */
  lemma LawfulFits(cfg: Cfg, s: Lane, m: Item, p: nat, e: Effect, q: nat)
    requires CfgOk(cfg) && CellsOk(cfg, s) && Nested(cfg, s)
    requires p < cfg.n && q < cfg.n && q != p && Lawful(cfg, s, m, p, e)
    ensures var c := Witness(s.cells[p], e);
            && (q < p ==> c.recorded <= s.cells[q].recorded)
            && (q > p && cfg.mode == CRAQ ==> c.cleaned <= s.cells[q].cleaned)
            && (p < cfg.n - 1 && cfg.mode == CHAIN ==> c.cleaned == {})
  {
    hide CellOk, Record, Commit, Logged;
    if q < p { assert s.cells[p-1].recorded <= s.cells[q].recorded; }
    if q > p { assert cfg.mode == CRAQ ==> s.cells[p+1].cleaned <= s.cells[q].cleaned; }
  }

  lemma LawfulKeepsNested(cfg: Cfg, s: Lane, i: nat, p: nat, e: Effect)
    requires CfgOk(cfg) && CellsOk(cfg, s) && Nested(cfg, s) && i < |s.net|
    requires p < cfg.n && Lawful(cfg, s, s.net[i], p, e)
    ensures Nested(cfg, After(s, i, p, e))
  {
    var c := Witness(s.cells[p], e);
    var cells := s.cells[p := c];
    forall q, r | 0 <= q <= r < cfg.n
      ensures cells[r].recorded <= cells[q].recorded && (cfg.mode == CRAQ ==> cells[q].cleaned <= cells[r].cleaned)
    {
      assert s.cells[r].recorded <= s.cells[q].recorded;
      assert cfg.mode == CRAQ ==> s.cells[q].cleaned <= s.cells[r].cleaned;
      if q < p == r { LawfulFits(cfg, s, s.net[i], p, e, q); }
      if q == p < r { LawfulFits(cfg, s, s.net[i], p, e, r); }
    }
    if p < cfg.n - 1 { LawfulFits(cfg, s, s.net[i], p, e, p + 1); }
  }

  /** Whatever a section emits is justified by the state it leaves. */
  ghost predicate EmitsOk(cfg: Cfg, s: Lane, i: nat)
    requires CfgOk(cfg) && |s.cells| == cfg.n && i < |s.net|
    requires At(s.net[i]).Some? && At(s.net[i]).value < cfg.n
  {
    var e := LocalEffect(cfg, s, s.net[i]);
    forall x :: x in e.out ==> ItemOk(cfg, After(s, i, At(s.net[i]).value, e), x)
  }

  lemma WriteEmitsOk(cfg: Cfg, s: Lane, i: nat)
    requires CfgOk(cfg) && |s.cells| == cfg.n && i < |s.net| && ItemOk(cfg, s, s.net[i])
    requires s.net[i].WriteCall? || s.net[i].WriteAssigned? || s.net[i].WriteRecorded?
    requires s.cells[0].ks.next == |s.log|
    ensures EmitsOk(cfg, s, i)
  {
  }

  lemma PropagateEmitsOk(cfg: Cfg, s: Lane, i: nat)
    requires CfgOk(cfg) && |s.cells| == cfg.n && i < |s.net| && ItemOk(cfg, s, s.net[i])
    requires s.net[i].PropSent? || s.net[i].PropRecorded? || s.net[i].TailMarked?
    ensures EmitsOk(cfg, s, i)
  {
  }

  lemma AckEmitsOk(cfg: Cfg, s: Lane, i: nat)
    requires CfgOk(cfg) && |s.cells| == cfg.n && i < |s.net| && ItemOk(cfg, s, s.net[i])
    requires s.net[i].PredAckDue? || s.net[i].AckSent? || s.net[i].AckMarked?
    ensures EmitsOk(cfg, s, i)
  {
  }

  lemma CommittedIsFoundOk(cfg: Cfg, s: Lane, p: nat)
    requires CfgOk(cfg) && CellsOk(cfg, s) && p < cfg.n
    ensures FoundOk(s.log, s.cells[p], ReadCommitted(s.cells[p].ks))
  {
    assert CellOk(cfg.mode, s.log, s.cells[p]);
  }

  lemma ReadCallEmitsOk(cfg: Cfg, s: Lane, m: Item, p: nat)
    requires CfgOk(cfg) && |s.cells| == cfg.n && m.ReadCall? && p == m.at < cfg.n && m.rid < s.clock
    requires FoundOk(s.log, s.cells[p], ReadCommitted(s.cells[p].ks))
    ensures forall x :: x in LocalEffect(cfg, s, m).out ==> ItemOk(cfg, s, x)
  {
    var e := LocalEffect(cfg, s, m);
    assert |e.out| == 1;
    assert ItemOk(cfg, s, e.out[0]);
  }

  lemma ReadCleanEmitsOk(cfg: Cfg, s: Lane, m: Item, p: nat)
    requires CfgOk(cfg) && Nested(cfg, s) && ItemOk(cfg, s, m)
    requires m.ReadClean? && p == m.at
    ensures forall x :: x in LocalEffect(cfg, s, m).out ==> ItemOk(cfg, s, x)
  {
    CleanedReachesTail(cfg, s, p);
  }

  lemma QuerySentEmitsOk(cfg: Cfg, s: Lane, m: Item)
    requires CfgOk(cfg) && CellsOk(cfg, s) && ItemOk(cfg, s, m) && m.QuerySent?
    ensures forall x :: x in LocalEffect(cfg, s, m).out ==> ItemOk(cfg, s, x)
  {
    CommittedIsFoundOk(cfg, s, m.at);
  }

  lemma QueryReplyEmitsOk(cfg: Cfg, s: Lane, m: Item)
    requires CfgOk(cfg) && |s.cells| == cfg.n && ItemOk(cfg, s, m) && m.QueryReply?
    requires CellOk(cfg.mode, s.log, s.cells[m.home])
    requires s.cells[m.home].cleaned <= Tail(s).cleaned
    ensures forall x :: x in LocalEffect(cfg, s, m).out ==> ItemOk(cfg, s, x)
  {
    var e := LocalEffect(cfg, s, m);
    assert |e.out| == 1;
    assert ItemOk(cfg, s, e.out[0]);
  }

  lemma ReadEmitsOk(cfg: Cfg, s: Lane, i: nat)
    requires CfgOk(cfg) && CellsOk(cfg, s) && Nested(cfg, s) && i < |s.net| && ItemOk(cfg, s, s.net[i])
    requires s.net[i].ReadCall? || s.net[i].ReadClean? || s.net[i].QuerySent? || s.net[i].QueryReply?
    ensures EmitsOk(cfg, s, i)
  {
    var m := s.net[i];
    match m {
      case ReadCall(p, _) =>
        CommittedIsFoundOk(cfg, s, p);
        ReadCallEmitsOk(cfg, s, m, p);
      case ReadClean(p, _, _) => ReadCleanEmitsOk(cfg, s, m, p);
      case QuerySent(_, _, _, _) => QuerySentEmitsOk(cfg, s, m);
      case QueryReply(home, _, _, _) =>
        CleanedReachesTail(cfg, s, home);
        QueryReplyEmitsOk(cfg, s, m);
    }
    var e := LocalEffect(cfg, s, m);
    var t := After(s, i, At(m).value, e);
    LawfulExtends(cfg, s, i, At(m).value, e);
    forall x | x in e.out ensures ItemOk(cfg, t, x) {
      ExtensionKeepsItem(cfg, s, t, x);
    }
  }

  /** A version marked anywhere has been committed at the tail. */
  lemma CleanedReachesTail(cfg: Cfg, s: Lane, p: nat)
    requires CfgOk(cfg) && Nested(cfg, s) && p < cfg.n
    ensures s.cells[p].cleaned <= Tail(s).cleaned
  {
    assert cfg.mode == CRAQ ==> s.cells[p].cleaned <= s.cells[cfg.n - 1].cleaned;
  }

  lemma SectionEmitsOk(cfg: Cfg, s: Lane, i: nat)
    requires CfgOk(cfg) && CellsOk(cfg, s) && Nested(cfg, s) && i < |s.net| && ItemOk(cfg, s, s.net[i])
    requires !Inert(s.net[i]) && !s.net[i].ClientAck?
    ensures EmitsOk(cfg, s, i)
  {
    match s.net[i]
    case WriteCall(_, _) => WriteEmitsOk(cfg, s, i);
    case WriteAssigned(_, _, _) => WriteEmitsOk(cfg, s, i);
    case WriteRecorded(_, _, _) => WriteEmitsOk(cfg, s, i);
    case PropSent(_, _, _) => PropagateEmitsOk(cfg, s, i);
    case PropRecorded(_, _, _) => PropagateEmitsOk(cfg, s, i);
    case TailMarked(_, _, _) => PropagateEmitsOk(cfg, s, i);
    case PredAckDue(_, _, _) => AckEmitsOk(cfg, s, i);
    case AckSent(_, _, _) => AckEmitsOk(cfg, s, i);
    case AckMarked(_, _, _) => AckEmitsOk(cfg, s, i);
    case _ => ReadEmitsOk(cfg, s, i);
  }

  // ----- every step, every run -----

  lemma SectionKeepsInv(cfg: Cfg, s: Lane, i: nat)
    requires Inv(cfg, s) && i < |s.net| && ItemOk(cfg, s, s.net[i])
    requires !Inert(s.net[i]) && !s.net[i].ClientAck?
    ensures var t := After(s, i, At(s.net[i]).value, LocalEffect(cfg, s, s.net[i]));
            Inv(cfg, t) && Extends(s, t)
  {
    var p, e := At(s.net[i]).value, LocalEffect(cfg, s, s.net[i]);
    SectionIsLawful(cfg, s, s.net[i]);
    LawfulExtends(cfg, s, i, p, e);
    LawfulKeepsCells(cfg, s, i, p, e);
    LawfulKeepsNested(cfg, s, i, p, e);
    SectionEmitsOk(cfg, s, i);
    ItemsCarryOver(cfg, s, After(s, i, p, e), i, e.out);
  }

  lemma DeliveryIsOk(cfg: Cfg, s: Lane, m: Item, net: seq<Item>)
    requires CfgOk(cfg) && |s.cells| == cfg.n && m.ClientAck? && ItemOk(cfg, s, m)
    ensures ItemOk(cfg, s.(net := net), ClientAcked(m.version, m.req))
  {
  }

  lemma ClientAckKeepsInv(cfg: Cfg, s: Lane, i: nat)
    requires Inv(cfg, s) && Enabled(cfg, s, Fire(i)) && s.net[i].ClientAck?
    ensures Inv(cfg, FireItem(cfg, s, i)) && Extends(s, FireItem(cfg, s, i))
  {
    var m := s.net[i];
    var out := [ClientAcked(m.version, m.req)];
    var t := s.(net := Without(s.net, i) + out);
    DeliveryIsOk(cfg, s, m, t.net);
    ItemsCarryOver(cfg, s, t, i, out);
    assert CellsOk(cfg, t) && Nested(cfg, t);
  }

  lemma FireKeepsInv(cfg: Cfg, s: Lane, i: nat)
    requires Inv(cfg, s) && Enabled(cfg, s, Fire(i))
    ensures Inv(cfg, FireItem(cfg, s, i)) && Extends(s, FireItem(cfg, s, i))
  {
    if s.net[i].ClientAck? {
      ClientAckKeepsInv(cfg, s, i);
    } else {
      SectionKeepsInv(cfg, s, i);
    }
  }

  /** One step of any kind keeps the invariant, and histories only grow. */
  lemma StepKeepsInv(cfg: Cfg, s: Lane, step: Step)
    requires Inv(cfg, s) && Enabled(cfg, s, step)
    ensures Inv(cfg, Apply(cfg, s, step)) && Extends(s, Apply(cfg, s, step))
  {
    var t := Apply(cfg, s, step);
    match step
    case Fire(i) => FireKeepsInv(cfg, s, i);
    case Lose(i) => ItemsCarryOver(cfg, s, t, i, []);
    case _ =>
      forall m | m in t.net ensures ItemOk(cfg, t, m) {
        if m in s.net { ExtensionKeepsItem(cfg, s, t, m); }
      }
  }

  lemma InitSatisfiesInv(cfg: Cfg)
    requires CfgOk(cfg)
    ensures Inv(cfg, Init(cfg))
  {
  }

  /** The invariant holds in every state of every run. */
  lemma {:induction false} RunKeepsInv(cfg: Cfg, tr: seq<Lane>, steps: seq<Step>, k: nat)
    requires IsRun(cfg, tr, steps) && k < |tr|
    ensures Inv(cfg, tr[k])
  {
    if k == 0 {
      InitSatisfiesInv(cfg);
    } else {
      RunKeepsInv(cfg, tr, steps, k - 1);
      StepKeepsInv(cfg, tr[k-1], steps[k-1]);
    }
  }

  lemma ExtendsIsTransitive(s: Lane, t: Lane, u: Lane)
    requires Extends(s, t) && Extends(t, u)
    ensures Extends(s, u)
  {
    assert |s.log| <= |t.log|;
    forall p | 0 <= p < |s.cells|
      ensures s.cells[p].recorded <= u.cells[p].recorded && s.cells[p].cleaned <= u.cells[p].cleaned
    {
      assert s.cells[p].recorded <= t.cells[p].recorded && s.cells[p].cleaned <= t.cells[p].cleaned;
    }
  }

  lemma RunStepExtends(cfg: Cfg, tr: seq<Lane>, steps: seq<Step>, k: nat)
    requires IsRun(cfg, tr, steps) && k < |steps|
    ensures Extends(tr[k], tr[k+1])
  {
    RunKeepsInv(cfg, tr, steps, k);
    StepKeepsInv(cfg, tr[k], steps[k]);
  }

  lemma {:induction false} RunExtends(cfg: Cfg, tr: seq<Lane>, steps: seq<Step>, j: nat, k: nat)
    requires IsRun(cfg, tr, steps) && j <= k < |tr|
    ensures Extends(tr[j], tr[k])
    decreases k
  {
    if j < k {
      RunExtends(cfg, tr, steps, j, k - 1);
      RunStepExtends(cfg, tr, steps, k - 1);
      ExtendsIsTransitive(tr[j], tr[k-1], tr[k]);
    }
  }

  lemma RunCells(cfg: Cfg, tr: seq<Lane>, steps: seq<Step>, k: nat)
    requires IsRun(cfg, tr, steps) && k < |tr|
    ensures CellsOk(cfg, tr[k]) && Nested(cfg, tr[k])
  {
    RunKeepsInv(cfg, tr, steps, k);
  }

  lemma RunItem(cfg: Cfg, tr: seq<Lane>, steps: seq<Step>, k: nat, m: Item)
    requires IsRun(cfg, tr, steps) && k < |tr| && m in tr[k].net
    ensures |tr[k].cells| == cfg.n && ItemOk(cfg, tr[k], m)
  {
    RunKeepsInv(cfg, tr, steps, k);
  }

  /** Seen and committed versions only grow during a run. */
  lemma VersionsGrow(cfg: Cfg, tr: seq<Lane>, steps: seq<Step>, j: nat, k: nat, p: nat)
    requires IsRun(cfg, tr, steps) && j <= k < |tr| && p < cfg.n
    ensures |tr[j].cells| == |tr[k].cells| == cfg.n
    ensures tr[j].cells[p].ks.seenVersion <= tr[k].cells[p].ks.seenVersion
    ensures tr[j].cells[p].ks.commVersion <= tr[k].cells[p].ks.commVersion
  {
    RunCells(cfg, tr, steps, j);
    RunCells(cfg, tr, steps, k);
    RunExtends(cfg, tr, steps, j, k);
    assert CellOk(cfg.mode, tr[j].log, tr[j].cells[p]) && CellOk(cfg.mode, tr[k].log, tr[k].cells[p]);
  }

  // ----- the sandwich -----

  /**
   In every reachable state committed versions rise towards the tail, seen versions fall
   towards it, and the two orders meet at the tail and start at the head's counter.
   */
  lemma Sandwich(cfg: Cfg, s: Lane, p: nat, q: nat)
    requires CfgOk(cfg) && CellsOk(cfg, s) && Nested(cfg, s) && p <= q < cfg.n
    ensures s.cells[p].ks.commVersion <= s.cells[q].ks.commVersion
    ensures s.cells[q].ks.seenVersion <= s.cells[p].ks.seenVersion
    ensures Tail(s).ks.commVersion <= Tail(s).ks.seenVersion
    ensures s.cells[0].ks.seenVersion <= s.cells[0].ks.next == |s.log|
  {
    assert CellOk(cfg.mode, s.log, s.cells[p]) && CellOk(cfg.mode, s.log, s.cells[q]);
    assert CellOk(cfg.mode, s.log, Tail(s)) && CellOk(cfg.mode, s.log, s.cells[0]);
    HistoriesNest(cfg, s, p, q);
  }

  lemma HistoriesNest(cfg: Cfg, s: Lane, p: nat, q: nat)
    requires CfgOk(cfg) && Nested(cfg, s) && p <= q < cfg.n
    ensures s.cells[q].recorded <= s.cells[p].recorded && s.cells[p].cleaned <= s.cells[q].cleaned
  {
  }

  /** The sandwich holds in every state of every run. */
  lemma RunSandwich(cfg: Cfg, tr: seq<Lane>, steps: seq<Step>, k: nat, p: nat, q: nat)
    requires IsRun(cfg, tr, steps) && k < |tr| && p <= q < cfg.n
    ensures |tr[k].cells| == cfg.n
    ensures tr[k].cells[p].ks.commVersion <= tr[k].cells[q].ks.commVersion
    ensures tr[k].cells[q].ks.seenVersion <= tr[k].cells[p].ks.seenVersion
    ensures Tail(tr[k]).ks.commVersion <= Tail(tr[k]).ks.seenVersion
    ensures tr[k].cells[0].ks.seenVersion <= tr[k].cells[0].ks.next == |tr[k].log|
  {
    RunCells(cfg, tr, steps, k);
    Sandwich(cfg, tr[k], p, q);
  }

  /**
   In every reachable CRAQ state a recorded version is pending or covered by the local commit,
   so serving an ACK, whenever it arrives, sets committed to the maximum of itself and the
   acknowledged version, with the value the head numbered.
   */
  lemma AckCommitsMaximum(cfg: Cfg, tr: seq<Lane>, steps: seq<Step>, k: nat, m: Item)
    requires IsRun(cfg, tr, steps) && k < |tr| && m in tr[k].net && m.AckSent?
    ensures cfg.mode == CRAQ && m.at < cfg.n == |tr[k].cells|
    ensures forall v :: v in tr[k].cells[m.at].recorded ==>
              v in tr[k].cells[m.at].ks.pending || v <= tr[k].cells[m.at].ks.commVersion
    ensures var ks, ks' := tr[k].cells[m.at].ks, LocalEffect(cfg, tr[k], m).ks;
            && ks'.commVersion == Max(ks.commVersion, m.version)
            && Written(tr[k].log, ks'.commVersion, ks'.commValue)
  {
    RunCells(cfg, tr, steps, k);
    RunItem(cfg, tr, steps, k, m);
    var s := tr[k];
    var e := LocalEffect(cfg, s, m);
    SectionIsLawful(cfg, s, m);
    assert CellOk(cfg.mode, s.log, s.cells[m.at]);
    CleanedWasRecorded(cfg, s, m, m.at, e);
    CommitKeepsCell(cfg.mode, s.log, s.cells[m.at], m.version, m.req.value);
  }
}
