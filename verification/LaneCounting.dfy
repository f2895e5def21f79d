/**
 Counting arguments over the bag of outstanding items: every numbered write is carried by
 exactly one token until it is settled, so nothing is acknowledged twice, nothing marked
 clean becomes pending again, and the number of messages is known exactly.
 */
module LaneCounting {
  import opened Wrappers
  import opened Messages
  import opened Lanes
  import opened LaneInvariant
  import Sets

  datatype Weight =
    | WillClean(p: nat, v: nat)   // items that will mark v clean at position p
    | AckToken(v: nat)            // items that will be, or are, the client's ACK of v
    | PropsLeft                   // Propagate deliveries still to come
    | AcksLeft                    // predecessor Ack deliveries still to come
    | Effort                      // sections still to run, an upper bound

  /** Items between the numbering of a write and its commit at the tail. */
  predicate PreCommit(m: Item) {
    m.WriteAssigned? || m.WriteRecorded? || m.PropSent? || m.PropRecorded?
  }

  function One(b: bool): nat {
    if b then 1 else 0
  }

  function Minus(a: nat, b: nat): nat {
    if a < b then 0 else a - b
  }

  function W(cfg: Cfg, w: Weight, m: Item): nat {
    match w
    case WillClean(p, v) =>
      if PreCommit(m) then One(m.version == v)
      else if m.TailMarked? || m.PredAckDue? then One(m.version == v && p + 1 < cfg.n)
      else if m.AckSent? then One(m.version == v && p <= m.at)
      else if m.AckMarked? then One(m.version == v && p < m.at)
      else 0
    case AckToken(v) =>
      if PreCommit(m) || m.TailMarked? then One(m.version == v && m.req.client != "")
      else if m.ClientAck? || m.ClientAcked? then One(m.version == v)
      else 0
    case PropsLeft =>
      if m.WriteAssigned? || m.WriteRecorded? then Minus(cfg.n, 1)
      else if m.PropSent? then Minus(cfg.n, m.at)
      else if m.PropRecorded? then Minus(cfg.n, m.at + 1)
      else 0
    case AcksLeft =>
      if cfg.mode != CRAQ then 0
      else if PreCommit(m) || m.TailMarked? || m.PredAckDue? then Minus(cfg.n, 1)
      else if m.AckSent? then m.at + 1
      else if m.AckMarked? then m.at
      else 0
    case Effort =>
      match m {
        case WriteCall(_, _) => 4 * cfg.n + 2
        case WriteAssigned(_, _, _) => 4 * cfg.n + 1
        case WriteRecorded(_, _, _) => 4 * cfg.n
        case PropSent(at, _, _) => 2 * Minus(cfg.n, at) + 2 * cfg.n + 1
        case PropRecorded(at, _, _) => 2 * Minus(cfg.n, at) + 2 * cfg.n
        case TailMarked(_, _, _) => 2 * cfg.n + 1
        case PredAckDue(_, _, _) => 2 * Minus(cfg.n, 1) + 1
        case AckSent(at, _, _) => 2 * at + 2
        case AckMarked(at, _, _) => 2 * at + 1
        case ClientAck(_, _) => 1
        case ReadCall(_, _) => cfg.n + 4
        case ReadClean(_, _, _) => cfg.n + 3
        case QuerySent(at, _, _, _) => Minus(cfg.n, at) + 2
        case QueryReply(_, _, _, _) => 1
        case _ => 0
      }
  }

  function Sum(cfg: Cfg, w: Weight, net: seq<Item>): nat {
    if net == [] then 0 else W(cfg, w, net[0]) + Sum(cfg, w, net[1..])
  }

  lemma {:induction false} SumParts(cfg: Cfg, w: Weight, a: seq<Item>, b: seq<Item>)
    ensures Sum(cfg, w, a + b) == Sum(cfg, w, a) + Sum(cfg, w, b)
  {
    if a == [] {
      assert a + b == b;
    } else {
      assert (a + b)[1..] == a[1..] + b;
      SumParts(cfg, w, a[1..], b);
    }
  }

  lemma SumSplit(cfg: Cfg, w: Weight, net: seq<Item>, i: nat)
    requires i < |net|
    ensures Sum(cfg, w, net) == Sum(cfg, w, Without(net, i)) + W(cfg, w, net[i])
  {
    assert net == net[..i] + ([net[i]] + net[i+1..]);
    SumParts(cfg, w, net[..i], [net[i]] + net[i+1..]);
    assert ([net[i]] + net[i+1..])[1..] == net[i+1..];
    SumParts(cfg, w, net[..i], net[i+1..]);
  }

  lemma SumAtLeast(cfg: Cfg, w: Weight, net: seq<Item>, m: Item)
    requires m in net
    ensures W(cfg, w, m) <= Sum(cfg, w, net)
  {
    var i :| 0 <= i < |net| && net[i] == m;
    SumSplit(cfg, w, net, i);
  }

  lemma {:induction false} SumZero(cfg: Cfg, w: Weight, net: seq<Item>)
    requires forall m :: m in net ==> W(cfg, w, m) == 0
    ensures Sum(cfg, w, net) == 0
  {
    if net != [] {
      assert net[0] in net;
      forall m | m in net[1..] ensures W(cfg, w, m) == 0 { assert m in net; }
      SumZero(cfg, w, net[1..]);
    }
  }

  lemma SumOne(cfg: Cfg, w: Weight, m: Item)
    ensures Sum(cfg, w, [m]) == W(cfg, w, m)
  {
    assert [m][1..] == [];
  }

  lemma SumTwo(cfg: Cfg, w: Weight, m: Item, m': Item)
    ensures Sum(cfg, w, [m, m']) == W(cfg, w, m) + W(cfg, w, m')
  {
    assert [m, m'] == [m] + [m'];
    SumParts(cfg, w, [m], [m']);
    SumOne(cfg, w, m);
    SumOne(cfg, w, m');
  }

  // ----- tokens: one per numbered write -----

  /** The part of a token that the cells already hold. */
  function Settled(s: Lane, w: Weight): nat {
    match w
    case WillClean(p, v) => One(p < |s.cells| && v in s.cells[p].cleaned)
    case _ => 0
  }

  /** How many tokens version w.v is entitled to. */
  function Due(w: Weight, log: seq<Req>): nat {
    match w
    case WillClean(_, v) => One(1 <= v <= |log|)
    case AckToken(v) => One(1 <= v <= |log| && log[v-1].client != "")
    case _ => 0
  }

  /** Tokens of versions; in CHAIN only the tail marks versions clean. */
  predicate IsToken(cfg: Cfg, w: Weight) {
    match w
    case WillClean(p, _) => p < cfg.n && (cfg.mode == CRAQ || p == cfg.n - 1)
    case AckToken(_) => true
    case _ => false
  }

  function Tokens(cfg: Cfg, s: Lane, w: Weight): nat {
    Sum(cfg, w, s.net) + Settled(s, w)
  }

  lemma SumOut(cfg: Cfg, w: Weight, out: seq<Item>)
    requires |out| <= 2
    ensures Sum(cfg, w, out) ==
            if |out| == 0 then 0
            else if |out| == 1 then W(cfg, w, out[0])
            else W(cfg, w, out[0]) + W(cfg, w, out[1])
  {
    if |out| == 1 { SumOne(cfg, w, out[0]); assert out == [out[0]]; }
    if |out| == 2 { SumTwo(cfg, w, out[0], out[1]); assert out == [out[0], out[1]]; }
  }

  /** The balance of one section: what its item weighed, settled or was due, against what follows. */
  ghost predicate Balanced(cfg: Cfg, s: Lane, m: Item, w: Weight)
    requires CfgOk(cfg) && |s.cells| == cfg.n && At(m).Some? && At(m).value < cfg.n
  {
    var p := At(m).value;
    var e := LocalEffect(cfg, s, m);
    var t := Lane(s.cells[p := Witness(s.cells[p], e)], [], LogAfter(s.log, m, e.note), 0);
    W(cfg, w, m) + Settled(s, w) + Due(w, t.log) == Sum(cfg, w, e.out) + Settled(t, w) + Due(w, s.log)
  }

  lemma WriteBalanced(cfg: Cfg, s: Lane, m: Item, w: Weight)
    requires CfgOk(cfg) && |s.cells| == cfg.n && ItemOk(cfg, s, m) && IsToken(cfg, w)
    requires m.WriteCall? && s.cells[0].ks.next == |s.log|
    ensures Balanced(cfg, s, m, w)
  {
    SumOut(cfg, w, LocalEffect(cfg, s, m).out);
  }

  lemma HeadBalanced(cfg: Cfg, s: Lane, m: Item, w: Weight)
    requires CfgOk(cfg) && |s.cells| == cfg.n && ItemOk(cfg, s, m) && IsToken(cfg, w)
    requires m.WriteAssigned? || m.WriteRecorded?
    requires W(cfg, w, m) > 0 ==> Settled(s, w) == 0
    ensures Balanced(cfg, s, m, w)
  {
    SumOut(cfg, w, LocalEffect(cfg, s, m).out);
  }

  lemma PropagateBalanced(cfg: Cfg, s: Lane, m: Item, w: Weight)
    requires CfgOk(cfg) && |s.cells| == cfg.n && ItemOk(cfg, s, m) && IsToken(cfg, w)
    requires m.PropSent? || m.PropRecorded?
    requires W(cfg, w, m) > 0 ==> Settled(s, w) == 0
    ensures Balanced(cfg, s, m, w)
  {
    SumOut(cfg, w, LocalEffect(cfg, s, m).out);
  }

  lemma MarkedBalanced(cfg: Cfg, s: Lane, m: Item, w: Weight)
    requires CfgOk(cfg) && |s.cells| == cfg.n && ItemOk(cfg, s, m) && IsToken(cfg, w)
    requires m.TailMarked?
    ensures Balanced(cfg, s, m, w)
  {
    SumOut(cfg, w, LocalEffect(cfg, s, m).out);
  }

  lemma AckDueBalanced(cfg: Cfg, s: Lane, m: Item, w: Weight)
    requires CfgOk(cfg) && |s.cells| == cfg.n && ItemOk(cfg, s, m) && IsToken(cfg, w)
    requires m.PredAckDue?
    ensures Balanced(cfg, s, m, w)
  {
    SumOut(cfg, w, LocalEffect(cfg, s, m).out);
  }

  lemma AckBalanced(cfg: Cfg, s: Lane, m: Item, w: Weight)
    requires CfgOk(cfg) && |s.cells| == cfg.n && ItemOk(cfg, s, m) && IsToken(cfg, w)
    requires m.AckSent? || m.AckMarked?
    requires W(cfg, w, m) > 0 ==> Settled(s, w) == 0
    ensures Balanced(cfg, s, m, w)
  {
    SumOut(cfg, w, LocalEffect(cfg, s, m).out);
  }

  lemma ReadBalanced(cfg: Cfg, s: Lane, m: Item, w: Weight)
    requires CfgOk(cfg) && |s.cells| == cfg.n && ItemOk(cfg, s, m) && IsToken(cfg, w)
    requires m.ReadCall? || m.ReadClean?
    ensures Balanced(cfg, s, m, w)
  {
    SumOut(cfg, w, LocalEffect(cfg, s, m).out);
  }

  lemma QueryBalanced(cfg: Cfg, s: Lane, m: Item, w: Weight)
    requires CfgOk(cfg) && |s.cells| == cfg.n && ItemOk(cfg, s, m) && IsToken(cfg, w)
    requires m.QuerySent? || m.QueryReply?
    ensures Balanced(cfg, s, m, w)
  {
    SumOut(cfg, w, LocalEffect(cfg, s, m).out);
  }

  /** A section hands its item's token on to exactly one successor, or settles it. */
  lemma SectionMovesToken(cfg: Cfg, s: Lane, m: Item, w: Weight)
    requires CfgOk(cfg) && |s.cells| == cfg.n && ItemOk(cfg, s, m) && IsToken(cfg, w)
    requires !Inert(m) && !m.ClientAck? && s.cells[0].ks.next == |s.log|
    requires W(cfg, w, m) > 0 ==> Settled(s, w) == 0
    ensures Balanced(cfg, s, m, w)
  {
    match m
    case WriteCall(_, _) => WriteBalanced(cfg, s, m, w);
    case WriteAssigned(_, _, _) => HeadBalanced(cfg, s, m, w);
    case WriteRecorded(_, _, _) => HeadBalanced(cfg, s, m, w);
    case PropSent(_, _, _) => PropagateBalanced(cfg, s, m, w);
    case PropRecorded(_, _, _) => PropagateBalanced(cfg, s, m, w);
    case TailMarked(_, _, _) => MarkedBalanced(cfg, s, m, w);
    case PredAckDue(_, _, _) => AckDueBalanced(cfg, s, m, w);
    case AckSent(_, _, _) => AckBalanced(cfg, s, m, w);
    case AckMarked(_, _, _) => AckBalanced(cfg, s, m, w);
    case ReadCall(_, _) => ReadBalanced(cfg, s, m, w);
    case ReadClean(_, _, _) => ReadBalanced(cfg, s, m, w);
    case _ => QueryBalanced(cfg, s, m, w);
  }

  /** No version holds more tokens than it is due; without loss it holds exactly those. */
  ghost predicate Conserved(cfg: Cfg, s: Lane) {
    && (forall w :: IsToken(cfg, w) ==> Tokens(cfg, s, w) <= Due(w, s.log))
    && (!cfg.lossy ==> forall w :: IsToken(cfg, w) ==> Tokens(cfg, s, w) == Due(w, s.log))
  }

  lemma TokenOutstanding(cfg: Cfg, s: Lane, w: Weight, m: Item)
    requires Conserved(cfg, s) && IsToken(cfg, w) && m in s.net && W(cfg, w, m) > 0
    ensures Settled(s, w) == 0
  {
    SumAtLeast(cfg, w, s.net, m);
    assert Tokens(cfg, s, w) <= Due(w, s.log);
  }

  lemma SumReplace(cfg: Cfg, w: Weight, net: seq<Item>, i: nat, out: seq<Item>)
    requires i < |net|
    ensures Sum(cfg, w, Without(net, i) + out) + W(cfg, w, net[i]) == Sum(cfg, w, net) + Sum(cfg, w, out)
  {
    SumSplit(cfg, w, net, i);
    SumParts(cfg, w, Without(net, i), out);
  }

  lemma SumAppend(cfg: Cfg, w: Weight, net: seq<Item>, x: Item)
    ensures Sum(cfg, w, net + [x]) == Sum(cfg, w, net) + W(cfg, w, x)
  {
    SumParts(cfg, w, net, [x]);
    SumOne(cfg, w, x);
  }

  ghost predicate TokensMoved(cfg: Cfg, s: Lane, t: Lane, w: Weight) {
    Tokens(cfg, t, w) + Due(w, s.log) == Tokens(cfg, s, w) + Due(w, t.log)
  }

  lemma SectionMovesTokens(cfg: Cfg, s: Lane, i: nat, w: Weight)
    requires CfgOk(cfg) && |s.cells| == cfg.n && i < |s.net| && ItemOk(cfg, s, s.net[i]) && IsToken(cfg, w)
    requires !Inert(s.net[i]) && !s.net[i].ClientAck? && s.cells[0].ks.next == |s.log|
    requires W(cfg, w, s.net[i]) > 0 ==> Settled(s, w) == 0
    ensures TokensMoved(cfg, s, After(s, i, At(s.net[i]).value, LocalEffect(cfg, s, s.net[i])), w)
  {
    var m := s.net[i];
    var p, e := At(m).value, LocalEffect(cfg, s, m);
    SectionMovesToken(cfg, s, m, w);
    SumReplace(cfg, w, s.net, i, e.out);
    assert Settled(After(s, i, p, e), w)
        == Settled(Lane(s.cells[p := Witness(s.cells[p], e)], [], LogAfter(s.log, m, e.note), 0), w);
  }

  lemma DeliveryMovesTokens(cfg: Cfg, s: Lane, i: nat, w: Weight)
    requires i < |s.net| && s.net[i].ClientAck? && IsToken(cfg, w)
    ensures TokensMoved(cfg, s, s.(net := Without(s.net, i) + [ClientAcked(s.net[i].version, s.net[i].req)]), w)
  {
    var x := ClientAcked(s.net[i].version, s.net[i].req);
    SumReplace(cfg, w, s.net, i, [x]);
    SumOne(cfg, w, x);
  }

  lemma AppendMovesTokens(cfg: Cfg, s: Lane, x: Item, w: Weight, clock: nat)
    requires (x.WriteCall? || x.ReadCall?) && IsToken(cfg, w)
    ensures TokensMoved(cfg, s, s.(net := s.net + [x], clock := clock), w)
  {
    SumAppend(cfg, w, s.net, x);
  }

  lemma LossLosesTokens(cfg: Cfg, s: Lane, i: nat, w: Weight)
    requires i < |s.net|
    ensures Tokens(cfg, s.(net := Without(s.net, i)), w) <= Tokens(cfg, s, w)
  {
    SumSplit(cfg, w, s.net, i);
  }

  lemma StepMovesTokens(cfg: Cfg, s: Lane, step: Step, w: Weight)
    requires Inv(cfg, s) && Conserved(cfg, s) && Enabled(cfg, s, step) && IsToken(cfg, w)
    requires !step.Duplicate? && !step.Lose?
    ensures TokensMoved(cfg, s, Apply(cfg, s, step), w)
  {
    match step
    case Fire(i) =>
      var m := s.net[i];
      if m.ClientAck? {
        DeliveryMovesTokens(cfg, s, i, w);
      } else {
        if W(cfg, w, m) > 0 { TokenOutstanding(cfg, s, w, m); }
        SectionMovesTokens(cfg, s, i, w);
      }
    case CallWrite(at, req) => AppendMovesTokens(cfg, s, WriteCall(at, req), w, s.clock);
    case CallRead(at, rid) => AppendMovesTokens(cfg, s, ReadCall(at, rid), w, rid + 1);
    case Idle(_) =>
  }

  lemma StepConserves(cfg: Cfg, s: Lane, step: Step)
    requires Inv(cfg, s) && Conserved(cfg, s) && Enabled(cfg, s, step) && !cfg.duplicating
    ensures Conserved(cfg, Apply(cfg, s, step))
  {
    var t := Apply(cfg, s, step);
    forall w | IsToken(cfg, w)
      ensures Tokens(cfg, t, w) <= Due(w, t.log)
      ensures !cfg.lossy ==> Tokens(cfg, t, w) == Due(w, t.log)
    {
      assert Tokens(cfg, s, w) <= Due(w, s.log);
      if step.Lose? {
        LossLosesTokens(cfg, s, step.i, w);
      } else {
        StepMovesTokens(cfg, s, step, w);
      }
    }
  }

  lemma {:induction false} RunConserves(cfg: Cfg, tr: seq<Lane>, steps: seq<Step>, k: nat)
    requires IsRun(cfg, tr, steps) && k < |tr| && !cfg.duplicating
    ensures Conserved(cfg, tr[k])
  {
    if k > 0 {
      RunConserves(cfg, tr, steps, k - 1);
      RunKeepsInv(cfg, tr, steps, k - 1);
      StepConserves(cfg, tr[k-1], steps[k-1]);
    }
  }

  // ----- acknowledgements -----

  predicate AckOf(m: Item, v: nat) {
    (m.ClientAck? || m.ClientAcked?) && m.version == v
  }

  lemma TwoItemsWeigh(cfg: Cfg, w: Weight, net: seq<Item>, i: nat, j: nat)
    requires i < j < |net|
    ensures W(cfg, w, net[i]) + W(cfg, w, net[j]) <= Sum(cfg, w, net)
  {
    SumSplit(cfg, w, net, i);
    assert Without(net, i)[j-1] == net[j];
    SumAtLeast(cfg, w, Without(net, i), net[j]);
  }

  /** Without duplication no write is acknowledged to its client twice. */
  lemma AckedAtMostOnce(cfg: Cfg, tr: seq<Lane>, steps: seq<Step>, k: nat, v: nat, i: nat, j: nat)
    requires IsRun(cfg, tr, steps) && k < |tr| && !cfg.duplicating
    requires i < j < |tr[k].net|
    ensures !(AckOf(tr[k].net[i], v) && AckOf(tr[k].net[j], v))
  {
    RunConserves(cfg, tr, steps, k);
    TwoItemsWeigh(cfg, AckToken(v), tr[k].net, i, j);
    assert Tokens(cfg, tr[k], AckToken(v)) <= 1;
  }

  ghost predicate Quiescent(s: Lane) {
    forall m :: m in s.net ==> Inert(m)
  }

  /** With neither loss nor duplication, a quiescent system has acknowledged every write that asked for it. */
  lemma AckedExactlyOnce(cfg: Cfg, tr: seq<Lane>, steps: seq<Step>, k: nat, v: nat)
    requires IsRun(cfg, tr, steps) && k < |tr| && !cfg.duplicating && !cfg.lossy && Quiescent(tr[k])
    requires 1 <= v <= |tr[k].log|
    ensures tr[k].log[v-1].client != "" <==> exists m :: m in tr[k].net && m.ClientAcked? && m.version == v
  {
    RunConserves(cfg, tr, steps, k);
    var w := AckToken(v);
    assert Tokens(cfg, tr[k], w) == Due(w, tr[k].log);
    if forall m :: m in tr[k].net ==> W(cfg, w, m) == 0 {
      SumZero(cfg, w, tr[k].net);
    } else {
      var m :| m in tr[k].net && W(cfg, w, m) != 0;
      SumAtLeast(cfg, w, tr[k].net, m);
    }
    forall m | m in tr[k].net && m.ClientAcked? && m.version == v ensures tr[k].log[v-1].client != "" {
      SumAtLeast(cfg, w, tr[k].net, m);
    }
  }

  // ----- no pending leak -----

  ghost predicate NoLeak(s: Lane) {
    forall p, v :: 0 <= p < |s.cells| && v in s.cells[p].cleaned ==> v !in s.cells[p].ks.pending
  }

  /** A version about to be recorded anywhere has not been marked clean anywhere. */
  lemma RecordedNotYetCleaned(cfg: Cfg, s: Lane, m: Item, p: nat)
    requires CfgOk(cfg) && Nested(cfg, s) && Conserved(cfg, s) && m in s.net && PreCommit(m) && p < cfg.n
    ensures m.version !in s.cells[p].cleaned
  {
    TokenOutstanding(cfg, s, WillClean(cfg.n - 1, m.version), m);
    CleanedReachesTail(cfg, s, p);
  }

  lemma FireKeepsNoLeak(cfg: Cfg, s: Lane, i: nat, p: nat, e: Effect)
    requires CfgOk(cfg) && CellsOk(cfg, s) && Nested(cfg, s) && Conserved(cfg, s) && NoLeak(s) && i < |s.net|
    requires p < cfg.n && Lawful(cfg, s, s.net[i], p, e)
    ensures NoLeak(After(s, i, p, e))
  {
    var m := s.net[i];
    var c := Witness(s.cells[p], e);
    assert CellOk(cfg.mode, s.log, s.cells[p]);
    forall v | v in c.cleaned ensures v !in c.ks.pending {
      if e.note.Recorded? {
        RecordedNotYetCleaned(cfg, s, m, p);
      } else if e.note.Cleaned? {
        LawfulKeepsCell(cfg, s, m, p, e);
        assert CellOk(cfg.mode, s.log, c);
      }
    }
  }

  lemma StepKeepsNoLeak(cfg: Cfg, s: Lane, step: Step)
    requires Inv(cfg, s) && Conserved(cfg, s) && NoLeak(s) && Enabled(cfg, s, step)
    ensures NoLeak(Apply(cfg, s, step))
  {
    if step.Fire? && !s.net[step.i].ClientAck? {
      var m := s.net[step.i];
      SectionIsLawful(cfg, s, m);
      FireKeepsNoLeak(cfg, s, step.i, At(m).value, LocalEffect(cfg, s, m));
    }
  }

  /**
   No pending leak: without duplication, a version once marked clean at a position is never
   pending there again, however late it was recorded.
   */
  lemma {:induction false} RunHasNoLeak(cfg: Cfg, tr: seq<Lane>, steps: seq<Step>, k: nat)
    requires IsRun(cfg, tr, steps) && k < |tr| && !cfg.duplicating
    ensures NoLeak(tr[k])
  {
    if k > 0 {
      RunHasNoLeak(cfg, tr, steps, k - 1);
      RunConserves(cfg, tr, steps, k - 1);
      RunKeepsInv(cfg, tr, steps, k - 1);
      StepKeepsNoLeak(cfg, tr[k-1], steps[k-1]);
    }
  }

  /** So the pending versions are among the recorded ones not marked yet, and no more numerous. */
  lemma PendingBound(cfg: Cfg, tr: seq<Lane>, steps: seq<Step>, k: nat, p: nat)
    requires IsRun(cfg, tr, steps) && k < |tr| && !cfg.duplicating && p < cfg.n
    ensures |tr[k].cells| == cfg.n
    ensures var c := tr[k].cells[p];
            c.ks.pending.Keys <= c.recorded - c.cleaned && |c.ks.pending| <= |c.recorded - c.cleaned|
  {
    RunHasNoLeak(cfg, tr, steps, k);
    RunCells(cfg, tr, steps, k);
    var c := tr[k].cells[p];
    assert CellOk(cfg.mode, tr[k].log, c);
    Sets.SubsetSize(c.ks.pending.Keys, c.recorded - c.cleaned);
    assert |c.ks.pending| == |c.ks.pending.Keys|;
  }

  // ----- convergence -----

  /** The positions at which every numbered version ends up marked clean. */
  predicate Commits(cfg: Cfg, p: nat) {
    p < cfg.n && (cfg.mode == CRAQ || p == cfg.n - 1)
  }

  lemma QuiescentMeansCleaned(cfg: Cfg, s: Lane, p: nat, v: nat)
    requires |s.cells| == cfg.n && Conserved(cfg, s) && !cfg.lossy && Quiescent(s)
    requires Commits(cfg, p) && 1 <= v <= |s.log|
    ensures v in s.cells[p].cleaned
  {
    var w := WillClean(p, v);
    SumZero(cfg, w, s.net);
    assert Tokens(cfg, s, w) == Due(w, s.log);
  }

  lemma QuiescentCell(cfg: Cfg, s: Lane, p: nat)
    requires CellsOk(cfg, s) && Conserved(cfg, s) && NoLeak(s) && !cfg.lossy && Quiescent(s) && Commits(cfg, p)
    ensures var ks, log := s.cells[p].ks, s.log;
            && ks.commVersion == |log| && ks.seenVersion == |log|
            && (log != [] ==> ks.commValue == log[|log|-1].value)
            && ks.pending == map[]
  {
    var c, log := s.cells[p], s.log;
    assert CellOk(cfg.mode, log, c);
    if log != [] { QuiescentMeansCleaned(cfg, s, p, |log|); }
    forall v | v in c.ks.pending ensures false {
      QuiescentMeansCleaned(cfg, s, p, v);
    }
  }

  /**
   Convergence: once a run without loss and duplication is quiescent, every committing
   position (all of them in CRAQ, the tail in CHAIN) holds the head's last write as its
   committed and as its latest seen version, and has nothing pending.
   */
  lemma Convergence(cfg: Cfg, tr: seq<Lane>, steps: seq<Step>, k: nat, p: nat)
    requires IsRun(cfg, tr, steps) && k < |tr| && !cfg.duplicating && !cfg.lossy && Quiescent(tr[k])
    requires Commits(cfg, p)
    ensures |tr[k].cells| == cfg.n
    ensures var ks, log := tr[k].cells[p].ks, tr[k].log;
            && ks.commVersion == |log| && ks.seenVersion == |log|
            && (log != [] ==> ks.commValue == log[|log|-1].value)
            && ks.pending == map[]
  {
    RunCells(cfg, tr, steps, k);
    RunConserves(cfg, tr, steps, k);
    RunHasNoLeak(cfg, tr, steps, k);
    QuiescentCell(cfg, tr[k], p);
  }

  // ----- exact message counts and termination -----

  /** One section against the three counters. */
  ghost predicate Counted(cfg: Cfg, s: Lane, m: Item)
    requires CfgOk(cfg) && |s.cells| == cfg.n && At(m).Some? && At(m).value < cfg.n
  {
    var e := LocalEffect(cfg, s, m);
    var born := if e.note.Assigned? then cfg.n - 1 else 0;
    && W(cfg, PropsLeft, m) + born == Sum(cfg, PropsLeft, e.out) + One(m.PropSent?)
    && (cfg.mode == CRAQ ==> W(cfg, AcksLeft, m) + born == Sum(cfg, AcksLeft, e.out) + One(m.AckSent?))
    && Sum(cfg, Effort, e.out) < W(cfg, Effort, m)
    && (e.note.Assigned? ==> m.WriteCall?)
  }

  function SumShort(cfg: Cfg, w: Weight, out: seq<Item>): nat
    requires |out| <= 2
  {
    if |out| == 0 then 0 else if |out| == 1 then W(cfg, w, out[0]) else W(cfg, w, out[0]) + W(cfg, w, out[1])
  }

  lemma SumOuts(cfg: Cfg, out: seq<Item>)
    requires |out| <= 2
    ensures Sum(cfg, PropsLeft, out) == SumShort(cfg, PropsLeft, out)
    ensures Sum(cfg, AcksLeft, out) == SumShort(cfg, AcksLeft, out)
    ensures Sum(cfg, Effort, out) == SumShort(cfg, Effort, out)
  {
    SumOut(cfg, PropsLeft, out);
    SumOut(cfg, AcksLeft, out);
    SumOut(cfg, Effort, out);
  }

  lemma WriteCounted(cfg: Cfg, s: Lane, m: Item)
    requires CfgOk(cfg) && |s.cells| == cfg.n && ItemOk(cfg, s, m)
    requires m.WriteCall? || m.WriteAssigned? || m.WriteRecorded?
    ensures Counted(cfg, s, m)
  {
    SumOuts(cfg, LocalEffect(cfg, s, m).out);
  }

  lemma PropagateCounted(cfg: Cfg, s: Lane, m: Item)
    requires CfgOk(cfg) && |s.cells| == cfg.n && ItemOk(cfg, s, m)
    requires m.PropSent? || m.PropRecorded?
    ensures Counted(cfg, s, m)
  {
    SumOuts(cfg, LocalEffect(cfg, s, m).out);
  }

  lemma AckCounted(cfg: Cfg, s: Lane, m: Item)
    requires CfgOk(cfg) && |s.cells| == cfg.n && ItemOk(cfg, s, m)
    requires m.AckSent? || m.AckMarked?
    ensures Counted(cfg, s, m)
  {
    SumOuts(cfg, LocalEffect(cfg, s, m).out);
  }

  lemma ReadCallCounted(cfg: Cfg, s: Lane, m: Item)
    requires CfgOk(cfg) && |s.cells| == cfg.n && ItemOk(cfg, s, m)
    requires m.ReadCall?
    ensures Counted(cfg, s, m)
  {
    SumOuts(cfg, LocalEffect(cfg, s, m).out);
  }

  lemma ReadCleanCounted(cfg: Cfg, s: Lane, m: Item)
    requires CfgOk(cfg) && |s.cells| == cfg.n && ItemOk(cfg, s, m)
    requires m.ReadClean?
    ensures Counted(cfg, s, m)
  {
    SumOuts(cfg, LocalEffect(cfg, s, m).out);
  }

  lemma QueryCounted(cfg: Cfg, s: Lane, m: Item)
    requires CfgOk(cfg) && |s.cells| == cfg.n && ItemOk(cfg, s, m)
    requires m.QuerySent? || m.QueryReply?
    ensures Counted(cfg, s, m)
  {
    SumOuts(cfg, LocalEffect(cfg, s, m).out);
  }

  lemma MarkedCounted(cfg: Cfg, s: Lane, m: Item)
    requires CfgOk(cfg) && |s.cells| == cfg.n && ItemOk(cfg, s, m)
    requires m.TailMarked?
    ensures Counted(cfg, s, m)
  {
    SumOuts(cfg, LocalEffect(cfg, s, m).out);
  }

  lemma AckDueCounted(cfg: Cfg, s: Lane, m: Item)
    requires CfgOk(cfg) && |s.cells| == cfg.n && ItemOk(cfg, s, m)
    requires m.PredAckDue?
    ensures Counted(cfg, s, m)
  {
    SumOuts(cfg, LocalEffect(cfg, s, m).out);
  }

  lemma SectionCounted(cfg: Cfg, s: Lane, m: Item)
    requires CfgOk(cfg) && |s.cells| == cfg.n && ItemOk(cfg, s, m) && !Inert(m) && !m.ClientAck?
    ensures Counted(cfg, s, m)
  {
    match m
    case WriteCall(_, _) => WriteCounted(cfg, s, m);
    case WriteAssigned(_, _, _) => WriteCounted(cfg, s, m);
    case WriteRecorded(_, _, _) => WriteCounted(cfg, s, m);
    case PropSent(_, _, _) => PropagateCounted(cfg, s, m);
    case PropRecorded(_, _, _) => PropagateCounted(cfg, s, m);
    case TailMarked(_, _, _) => MarkedCounted(cfg, s, m);
    case PredAckDue(_, _, _) => AckDueCounted(cfg, s, m);
    case AckSent(_, _, _) => AckCounted(cfg, s, m);
    case AckMarked(_, _, _) => AckCounted(cfg, s, m);
    case ReadCall(_, _) => ReadCallCounted(cfg, s, m);
    case ReadClean(_, _, _) => ReadCleanCounted(cfg, s, m);
    case _ => QueryCounted(cfg, s, m);
  }

  predicate Delivers(s: Lane, step: Step, acks: bool) {
    step.Fire? && step.i < |s.net| && if acks then s.net[step.i].AckSent? else s.net[step.i].PropSent?
  }

  /** How many Propagate (or predecessor Ack) RPCs the first k steps delivered. */
  function Deliveries(tr: seq<Lane>, steps: seq<Step>, k: nat, acks: bool): nat
    requires k <= |steps| < |tr|
  {
    if k == 0 then 0 else Deliveries(tr, steps, k - 1, acks) + One(Delivers(tr[k-1], steps[k-1], acks))
  }

  /** One delivery against the three totals. */
  ghost predicate TotalsMoved(cfg: Cfg, s: Lane, m: Item, t: Lane) {
    var born := if |t.log| > |s.log| then cfg.n - 1 else 0;
    && Sum(cfg, PropsLeft, t.net) + One(m.PropSent?) == Sum(cfg, PropsLeft, s.net) + born
    && (cfg.mode == CRAQ ==> Sum(cfg, AcksLeft, t.net) + One(m.AckSent?) == Sum(cfg, AcksLeft, s.net) + born)
    && Sum(cfg, Effort, t.net) < Sum(cfg, Effort, s.net)
    && |s.log| <= |t.log| <= |s.log| + 1
  }

  lemma SectionMovesTotals(cfg: Cfg, s: Lane, i: nat)
    requires CfgOk(cfg) && |s.cells| == cfg.n && i < |s.net| && ItemOk(cfg, s, s.net[i])
    requires !Inert(s.net[i]) && !s.net[i].ClientAck?
    ensures TotalsMoved(cfg, s, s.net[i], After(s, i, At(s.net[i]).value, LocalEffect(cfg, s, s.net[i])))
  {
    var out := LocalEffect(cfg, s, s.net[i]).out;
    SectionCounted(cfg, s, s.net[i]);
    SumReplace(cfg, PropsLeft, s.net, i, out);
    SumReplace(cfg, AcksLeft, s.net, i, out);
    SumReplace(cfg, Effort, s.net, i, out);
  }

  lemma DeliveryMovesTotals(cfg: Cfg, s: Lane, i: nat)
    requires i < |s.net| && s.net[i].ClientAck?
    ensures TotalsMoved(cfg, s, s.net[i], s.(net := Without(s.net, i) + [ClientAcked(s.net[i].version, s.net[i].req)]))
  {
    var x := ClientAcked(s.net[i].version, s.net[i].req);
    SumOuts(cfg, [x]);
    SumReplace(cfg, PropsLeft, s.net, i, [x]);
    SumReplace(cfg, AcksLeft, s.net, i, [x]);
    SumReplace(cfg, Effort, s.net, i, [x]);
  }

  lemma FireMovesTotals(cfg: Cfg, s: Lane, i: nat)
    requires Inv(cfg, s) && Enabled(cfg, s, Fire(i))
    ensures TotalsMoved(cfg, s, s.net[i], FireItem(cfg, s, i))
  {
    if s.net[i].ClientAck? { DeliveryMovesTotals(cfg, s, i); } else { SectionMovesTotals(cfg, s, i); }
  }

  function Left(acks: bool): Weight {
    if acks then AcksLeft else PropsLeft
  }

  /** What is left to deliver plus what was delivered, for either kind of RPC. */
  ghost predicate DeliveryCounted(cfg: Cfg, s: Lane, t: Lane, acks: bool, delivered: bool) {
    && |s.log| <= |t.log| <= |s.log| + 1
    && Sum(cfg, Left(acks), t.net) + One(delivered)
       == Sum(cfg, Left(acks), s.net) + if |t.log| > |s.log| then Minus(cfg.n, 1) else 0
  }

  lemma AppendCounts(cfg: Cfg, s: Lane, x: Item, clock: nat, acks: bool)
    requires x.WriteCall? || x.ReadCall?
    ensures DeliveryCounted(cfg, s, s.(net := s.net + [x], clock := clock), acks, false)
  {
    SumAppend(cfg, Left(acks), s.net, x);
  }

  lemma StepCounts(cfg: Cfg, s: Lane, step: Step, acks: bool)
    requires Inv(cfg, s) && Enabled(cfg, s, step) && !step.Lose? && !step.Duplicate?
    requires acks ==> cfg.mode == CRAQ
    ensures DeliveryCounted(cfg, s, Apply(cfg, s, step), acks, Delivers(s, step, acks))
  {
    match step
    case Fire(i) => FireMovesTotals(cfg, s, i);
    case CallWrite(at, req) => AppendCounts(cfg, s, WriteCall(at, req), s.clock, acks);
    case CallRead(at, rid) => AppendCounts(cfg, s, ReadCall(at, rid), rid + 1, acks);
    case Idle(_) =>
  }

  lemma {:induction false} RunCounts(cfg: Cfg, tr: seq<Lane>, steps: seq<Step>, k: nat, acks: bool)
    requires IsRun(cfg, tr, steps) && k < |tr| && !cfg.duplicating && !cfg.lossy
    requires acks ==> cfg.mode == CRAQ
    ensures Deliveries(tr, steps, k, acks) + Sum(cfg, Left(acks), tr[k].net)
            == |tr[k].log| * (cfg.n - 1)
  {
    if k > 0 {
      RunCounts(cfg, tr, steps, k - 1, acks);
      RunKeepsInv(cfg, tr, steps, k - 1);
      StepCounts(cfg, tr[k-1], steps[k-1], acks);
      CountsAddUp(|tr[k-1].log|, |tr[k].log|, cfg.n - 1);
    }
  }

  lemma CountsAddUp(a: nat, b: nat, n: nat)
    requires a <= b <= a + 1
    ensures b * n == a * n + if b > a then n else 0
  {
  }

  lemma NothingLeft(cfg: Cfg, s: Lane, acks: bool)
    requires Quiescent(s)
    ensures Sum(cfg, Left(acks), s.net) == 0
  {
    SumZero(cfg, Left(acks), s.net);
  }

  /**
   Exact message counts: with neither loss nor duplication, W numbered writes on n positions
   become quiescent after exactly W*(n-1) Propagate deliveries, and in CRAQ W*(n-1)
   predecessor Ack deliveries.
   */
  lemma ExactMessageCounts(cfg: Cfg, tr: seq<Lane>, steps: seq<Step>, k: nat)
    requires IsRun(cfg, tr, steps) && k < |tr| && !cfg.duplicating && !cfg.lossy && Quiescent(tr[k])
    ensures Deliveries(tr, steps, k, false) == |tr[k].log| * (cfg.n - 1)
    ensures cfg.mode == CRAQ ==> Deliveries(tr, steps, k, true) == |tr[k].log| * (cfg.n - 1)
  {
    RunCounts(cfg, tr, steps, k, false);
    NothingLeft(cfg, tr[k], false);
    if cfg.mode == CRAQ {
      RunCounts(cfg, tr, steps, k, true);
      NothingLeft(cfg, tr[k], true);
    }
  }

  lemma WorkShrinks(cfg: Cfg, s: Lane, step: Step)
    requires Inv(cfg, s) && Enabled(cfg, s, step) && (step.Fire? || step.Lose?)
    ensures Sum(cfg, Effort, Apply(cfg, s, step).net) < Sum(cfg, Effort, s.net)
  {
    if step.Fire? {
      FireMovesTotals(cfg, s, step.i);
    } else {
      SumSplit(cfg, Effort, s.net, step.i);
    }
  }

  /** Termination: with no new calls, at most as many steps remain as the effort outstanding. */
  lemma {:induction false} WorkTerminates(cfg: Cfg, tr: seq<Lane>, steps: seq<Step>, j: nat, k: nat)
    requires IsRun(cfg, tr, steps) && j <= k < |tr|
    requires forall x :: j <= x < k ==> steps[x].Fire? || steps[x].Lose?
    ensures k - j + Sum(cfg, Effort, tr[k].net) <= Sum(cfg, Effort, tr[j].net)
    decreases k
  {
    if j < k {
      WorkTerminates(cfg, tr, steps, j, k - 1);
      RunKeepsInv(cfg, tr, steps, k - 1);
      WorkShrinks(cfg, tr[k-1], steps[k-1]);
    }
  }

  /** No deadlock: in every reachable state every item that is not a delivered reply can move. */
  lemma OutstandingCanMove(cfg: Cfg, tr: seq<Lane>, steps: seq<Step>, k: nat, i: nat)
    requires IsRun(cfg, tr, steps) && k < |tr| && i < |tr[k].net| && !Inert(tr[k].net[i])
    ensures Enabled(cfg, tr[k], Fire(i))
  {
    RunItem(cfg, tr, steps, k, tr[k].net[i]);
  }

  lemma RunGoesOn(cfg: Cfg, tr: seq<Lane>, steps: seq<Step>, step: Step)
    requires IsRun(cfg, tr, steps) && Enabled(cfg, tr[|steps|], step)
    ensures IsRun(cfg, tr + [Apply(cfg, tr[|steps|], step)], steps + [step])
  {
    var tr', steps' := tr + [Apply(cfg, tr[|steps|], step)], steps + [step];
    forall k | 0 <= k < |steps'|
      ensures Enabled(cfg, tr'[k], steps'[k]) && tr'[k+1] == Apply(cfg, tr'[k], steps'[k])
    {
      if k < |steps| { assert Enabled(cfg, tr[k], steps[k]) && tr[k+1] == Apply(cfg, tr[k], steps[k]); }
    }
  }

  /** The first n steps of a run go on to the whole of it by firing items only. */
  ghost predicate FiresOnly(steps: seq<Step>, n: nat) {
    forall x :: n <= x < |steps| ==> steps[x].Fire?
  }

  /**
   Every run can be driven to rest by moving what is outstanding, in no more steps than its
   effort; without loss and duplication the message counts are then exact.
   */
  lemma {:induction false} EveryRunComesToRest(cfg: Cfg, tr: seq<Lane>, steps: seq<Step>)
    returns (tr': seq<Lane>, steps': seq<Step>)
    requires IsRun(cfg, tr, steps)
    ensures IsRun(cfg, tr', steps') && tr <= tr' && steps <= steps' && FiresOnly(steps', |steps|)
    ensures Quiescent(tr'[|steps'|]) && |steps'| - |steps| <= Sum(cfg, Effort, tr[|steps|].net)
    ensures !cfg.duplicating && !cfg.lossy ==>
              && Deliveries(tr', steps', |steps'|, false) == |tr'[|steps'|].log| * (cfg.n - 1)
              && (cfg.mode == CRAQ ==> Deliveries(tr', steps', |steps'|, true) == |tr'[|steps'|].log| * (cfg.n - 1))
    decreases Sum(cfg, Effort, tr[|steps|].net)
  {
    var s := tr[|steps|];
    if Quiescent(s) {
      tr', steps' := tr, steps;
      if !cfg.duplicating && !cfg.lossy { ExactMessageCounts(cfg, tr, steps, |steps|); }
    } else {
      var m :| m in s.net && !Inert(m);
      var i :| 0 <= i < |s.net| && s.net[i] == m;
      OutstandingCanMove(cfg, tr, steps, |steps|, i);
      RunKeepsInv(cfg, tr, steps, |steps|);
      WorkShrinks(cfg, s, Fire(i));
      RunGoesOn(cfg, tr, steps, Fire(i));
      tr', steps' := EveryRunComesToRest(cfg, tr + [Apply(cfg, s, Fire(i))], steps + [Fire(i)]);
      assert steps'[|steps|] == Fire(i);
    }
  }
}
