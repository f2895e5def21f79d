/**
 When a CRAQ read succeeds: always, if nothing interleaves with it and the tail has committed
 something; otherwise exactly as long as the local commit has not overtaken the version the
 tail named.
 */
module CraqReads {
  import opened Wrappers
  import opened KeyStates
  import opened Messages
  import opened Lanes
  import opened LaneInvariant
  import opened LaneCounting
  import CraqReplication

  /** The item a read item turns into when its next section runs in state s. */
  function NextItem(cfg: Cfg, s: Lane, m: Item): Item
    requires cfg.mode == CRAQ && cfg.n > 0 && |s.cells| == cfg.n
    requires m.ReadCall? || m.ReadClean? || m.QuerySent? || m.QueryReply?
    requires At(m).value < cfg.n
  {
    CraqReplication.Section(LinearNode(cfg, At(m).value), "", s.cells[At(m).value].ks, m).out[0]
  }

  /** Follow a version query from node to node until it is answered. */
  function AnswerQuery(cfg: Cfg, s: Lane, m: Item): Item
    requires cfg.mode == CRAQ && cfg.n > 0 && |s.cells| == cfg.n
    requires m.QuerySent? && m.at < cfg.n
    decreases cfg.n - m.at
  {
    var x := NextItem(cfg, s, m);
    if x.QuerySent? then AnswerQuery(cfg, s, x) else x
  }

  /** The hop-by-hop query reaches the tail and brings back its committed version. */
  lemma {:induction false} QueryReachesTail(cfg: Cfg, s: Lane, m: Item)
    requires cfg.mode == CRAQ && cfg.n > 0 && |s.cells| == cfg.n && m.QuerySent? && m.at < cfg.n
    ensures AnswerQuery(cfg, s, m) == QueryReply(m.home, m.rid, m.clean, Tail(s).ks.commVersion)
    decreases cfg.n - m.at
  {
    if m.at < cfg.n - 1 { QueryReachesTail(cfg, s, NextItem(cfg, s, m)); }
  }

  /** All the sections of a read at position p, run one after the other in the same state. */
  function ReadAtOnce(cfg: Cfg, s: Lane, p: nat, rid: nat): Item
    requires cfg.mode == CRAQ && cfg.n > 0 && |s.cells| == cfg.n && p < cfg.n
  {
    var x := NextItem(cfg, s, ReadCall(p, rid));
    if Inert(x) then x
    else
      var y := NextItem(cfg, s, x);
      if Inert(y) then y
      else
        var z := AnswerQuery(cfg, s, y);
        if z.QueryReply? && z.home < cfg.n then NextItem(cfg, s, z) else z
  }

  lemma RecordedEverywhere(cfg: Cfg, s: Lane, p: nat)
    requires CfgOk(cfg) && CellsOk(cfg, s) && Nested(cfg, s) && p < cfg.n && Tail(s).ks.commVersion > 0
    ensures Tail(s).ks.commVersion in s.cells[p].recorded
    ensures Written(s.log, Tail(s).ks.commVersion, Tail(s).ks.commValue)
  {
    assert CellOk(cfg.mode, s.log, Tail(s));
    HistoriesNest(cfg, s, p, cfg.n - 1);
  }

  lemma HeldLocally(log: seq<Req>, c: Cell, v: nat, value: string)
    requires CellOk(CRAQ, log, c) && v in c.recorded && c.ks.commVersion <= v && Written(log, v, value)
    ensures ValueAt(c.ks, v) == Some(value)
  {
  }

  /** Every position holds the tail's committed version, as its own committed one or as pending. */
  lemma TailVersionIsHeld(cfg: Cfg, s: Lane, p: nat)
    requires CfgOk(cfg) && CellsOk(cfg, s) && Nested(cfg, s) && cfg.mode == CRAQ && p < cfg.n
    requires Tail(s).ks.commVersion > 0
    ensures ValueAt(s.cells[p].ks, Tail(s).ks.commVersion) == Some(Tail(s).ks.commValue)
  {
    RecordedEverywhere(cfg, s, p);
    Sandwich(cfg, s, p, cfg.n - 1);
    HeldLocally(s.log, s.cells[p], Tail(s).ks.commVersion, Tail(s).ks.commValue);
  }

  lemma NextOfCall(cfg: Cfg, s: Lane, p: nat, rid: nat)
    requires cfg.mode == CRAQ && cfg.n > 0 && |s.cells| == cfg.n && p < cfg.n
    ensures var clean := ReadCommitted(s.cells[p].ks);
            NextItem(cfg, s, ReadCall(p, rid)) ==
              if p == cfg.n - 1 then ReadReply(p, rid, clean) else ReadClean(p, rid, clean)
  {
  }

  lemma NextOfClean(cfg: Cfg, s: Lane, p: nat, rid: nat, clean: Found)
    requires cfg.mode == CRAQ && cfg.n > 0 && |s.cells| == cfg.n && p < cfg.n
    ensures NextItem(cfg, s, ReadClean(p, rid, clean)) ==
            CraqReplication.AfterSeen(p, rid, clean, ReadSeen(s.cells[p].ks))
  {
  }

  lemma NextOfReply(cfg: Cfg, s: Lane, p: nat, rid: nat, clean: Found, q: nat)
    requires cfg.mode == CRAQ && cfg.n > 0 && |s.cells| == cfg.n && p < cfg.n
    ensures NextItem(cfg, s, QueryReply(p, rid, clean, q)) == CraqReplication.Resolve(p, rid, clean, q, s.cells[p].ks)
  {
  }

  /** What a read at once returns, given the local cell and the tail's committed version. */
  lemma ReadAtOnceCases(cfg: Cfg, s: Lane, p: nat, rid: nat)
    requires cfg.mode == CRAQ && cfg.n > 0 && |s.cells| == cfg.n && p < cfg.n
    ensures var ks := s.cells[p].ks;
            var clean := ReadCommitted(ks);
            ReadAtOnce(cfg, s, p, rid) ==
              if p < cfg.n - 1 && CraqReplication.Dirty(clean, ReadSeen(ks))
              then CraqReplication.Resolve(p, rid, clean, Tail(s).ks.commVersion, ks)
              else ReadReply(p, rid, clean)
  {
    var clean := ReadCommitted(s.cells[p].ks);
    NextOfCall(cfg, s, p, rid);
    if p < cfg.n - 1 {
      NextOfClean(cfg, s, p, rid, clean);
      hide NextItem;
      if CraqReplication.Dirty(clean, ReadSeen(s.cells[p].ks)) {
        QueryReachesTail(cfg, s, QuerySent(p, p, rid, clean));
        NextOfReply(cfg, s, p, rid, clean, Tail(s).ks.commVersion);
      }
    }
  }

  /**
   A read that nothing interleaves with returns the tail's committed version and value from
   any position. It fails only when the tail has committed nothing: the position then says
   that the tail knows no version if it has seen a write itself, and that there is no such key
   if it has not.
   */
  lemma ReadAtOnceIsExact(cfg: Cfg, s: Lane, p: nat, rid: nat)
    requires CfgOk(cfg) && CellsOk(cfg, s) && Nested(cfg, s) && cfg.mode == CRAQ && p < cfg.n
    ensures var v := Tail(s).ks.commVersion;
            if v > 0 then ReadAtOnce(cfg, s, p, rid) == ReadDone(p, rid, v, Tail(s).ks.commValue)
            else ReadAtOnce(cfg, s, p, rid) ==
                 ReadFailed(p, rid,
                            if p < cfg.n - 1 && s.cells[p].ks.seenVersion != 0 then NotCommittedAtTail else NotFound)
  {
    ReadAtOnceCases(cfg, s, p, rid);
    Sandwich(cfg, s, p, cfg.n - 1);
    if Tail(s).ks.commVersion > 0 { TailVersionIsHeld(cfg, s, p); }
  }

  /** In every reachable state: a read nothing interleaves with is exact, at every position. */
  lemma RunReadAtOnceIsExact(cfg: Cfg, tr: seq<Lane>, steps: seq<Step>, k: nat, p: nat, rid: nat)
    requires IsRun(cfg, tr, steps) && k < |tr| && cfg.mode == CRAQ && p < cfg.n
    ensures |tr[k].cells| == cfg.n
    ensures var v := Tail(tr[k]).ks.commVersion;
            if v > 0 then
              && ReadAtOnce(cfg, tr[k], p, rid) == ReadDone(p, rid, v, Tail(tr[k]).ks.commValue)
              && ValueAt(tr[k].cells[p].ks, v) == Some(Tail(tr[k]).ks.commValue)
            else
              ReadAtOnce(cfg, tr[k], p, rid) ==
              ReadFailed(p, rid,
                         if p < cfg.n - 1 && tr[k].cells[p].ks.seenVersion != 0 then NotCommittedAtTail else NotFound)
  {
    RunCells(cfg, tr, steps, k);
    ReadAtOnceIsExact(cfg, tr[k], p, rid);
    if Tail(tr[k]).ks.commVersion > 0 { TailVersionIsHeld(cfg, tr[k], p); }
  }

  // ----- the same read, interleaved -----

  /** A version named by the tail is no longer pending where the local commit has passed it. */
  ghost predicate OvertakenAt(s: Lane, x: Item) {
    x.QueryReply? && x.tailVersion != 0 && x.home < |s.cells| && x.tailVersion < s.cells[x.home].ks.commVersion
    ==> x.tailVersion !in s.cells[x.home].ks.pending
  }

  ghost predicate Overtaken(s: Lane) {
    forall x :: x in s.net && x.QueryReply? ==> OvertakenAt(s, x)
  }

  lemma MarkingClears(ks: KeyState, v: nat, q: nat)
    requires q < ks.commVersion ==> q !in ks.pending
    ensures q < MarkClean(ks, v).commVersion ==> q !in MarkClean(ks, v).pending
  {
  }

  lemma CommitOvertakes(cfg: Cfg, s: Lane, m: Item, p: nat, e: Effect, q: nat)
    requires CfgOk(cfg) && |s.cells| == cfg.n && Nested(cfg, s) && Conserved(cfg, s) && cfg.mode == CRAQ && m in s.net
    requires p < cfg.n && Lawful(cfg, s, m, p, e) && q in Tail(s).cleaned
    requires q < s.cells[p].ks.commVersion ==> q !in s.cells[p].ks.pending
    ensures q < e.ks.commVersion ==> q !in e.ks.pending
  {
    match e.note
    case Recorded(v) => RecordedNotYetCleaned(cfg, s, m, cfg.n - 1);
    case Cleaned(v) => MarkingClears(s.cells[p].ks, v, q);
    case _ =>
  }

  lemma OldReplyStaysOvertaken(cfg: Cfg, s: Lane, i: nat, x: Item)
    requires CfgOk(cfg) && CellsOk(cfg, s) && Nested(cfg, s) && Conserved(cfg, s) && cfg.mode == CRAQ
    requires i < |s.net| && !Inert(s.net[i]) && !s.net[i].ClientAck? && ItemOk(cfg, s, s.net[i])
    requires x.QueryReply? && ItemOk(cfg, s, x) && OvertakenAt(s, x)
    ensures OvertakenAt(After(s, i, At(s.net[i]).value, LocalEffect(cfg, s, s.net[i])), x)
  {
    var m := s.net[i];
    var p, e := At(m).value, LocalEffect(cfg, s, m);
    SectionIsLawful(cfg, s, m);
    if x.home == p && x.tailVersion != 0 { CommitOvertakes(cfg, s, m, p, e, x.tailVersion); }
  }

  lemma NewReplyIsNotOvertaken(cfg: Cfg, s: Lane, i: nat, x: Item)
    requires CfgOk(cfg) && CellsOk(cfg, s) && Nested(cfg, s) && cfg.mode == CRAQ
    requires i < |s.net| && !Inert(s.net[i]) && !s.net[i].ClientAck? && ItemOk(cfg, s, s.net[i])
    requires x.QueryReply? && x in LocalEffect(cfg, s, s.net[i]).out
    ensures OvertakenAt(After(s, i, At(s.net[i]).value, LocalEffect(cfg, s, s.net[i])), x)
  {
    FreshReply(cfg, s, s.net[i], x);
    Sandwich(cfg, s, x.home, cfg.n - 1);
  }

  lemma FireKeepsOvertaken(cfg: Cfg, s: Lane, i: nat)
    requires Inv(cfg, s) && Conserved(cfg, s) && cfg.mode == CRAQ && Overtaken(s)
    requires i < |s.net| && !Inert(s.net[i]) && !s.net[i].ClientAck? && ItemOk(cfg, s, s.net[i])
    ensures Overtaken(After(s, i, At(s.net[i]).value, LocalEffect(cfg, s, s.net[i])))
  {
    var e := LocalEffect(cfg, s, s.net[i]);
    var t := After(s, i, At(s.net[i]).value, e);
    forall x | x in t.net && x.QueryReply? ensures OvertakenAt(t, x) {
      if x in e.out {
        NewReplyIsNotOvertaken(cfg, s, i, x);
      } else {
        WithoutMember(s.net, i, x);
        OldReplyStaysOvertaken(cfg, s, i, x);
      }
    }
  }

  /** A fresh reply carries the tail's committed version of that instant. */
  lemma FreshReply(cfg: Cfg, s: Lane, m: Item, x: Item)
    requires CfgOk(cfg) && |s.cells| == cfg.n && cfg.mode == CRAQ && ItemOk(cfg, s, m) && !Inert(m) && !m.ClientAck?
    requires x in LocalEffect(cfg, s, m).out && x.QueryReply?
    ensures x.tailVersion == Tail(s).ks.commVersion && LocalEffect(cfg, s, m).note == Quiet
    ensures LocalEffect(cfg, s, m).ks == s.cells[At(m).value].ks && x.home < cfg.n
  {
  }

  lemma StepKeepsOvertaken(cfg: Cfg, s: Lane, step: Step)
    requires Inv(cfg, s) && Conserved(cfg, s) && cfg.mode == CRAQ && Overtaken(s) && Enabled(cfg, s, step)
    ensures Overtaken(Apply(cfg, s, step))
  {
    if step.Fire? && !s.net[step.i].ClientAck? {
      FireKeepsOvertaken(cfg, s, step.i);
    } else {
      var t := Apply(cfg, s, step);
      forall x | x in t.net && x.QueryReply? ensures x in s.net {
        if x !in s.net { Provenance(cfg, s, step, x); }
      }
    }
  }

  lemma {:induction false} RunKeepsOvertaken(cfg: Cfg, tr: seq<Lane>, steps: seq<Step>, k: nat)
    requires IsRun(cfg, tr, steps) && k < |tr| && !cfg.duplicating && cfg.mode == CRAQ
    ensures Overtaken(tr[k])
  {
    if k > 0 {
      RunKeepsOvertaken(cfg, tr, steps, k - 1);
      RunConserves(cfg, tr, steps, k - 1);
      RunKeepsInv(cfg, tr, steps, k - 1);
      StepKeepsOvertaken(cfg, tr[k-1], steps[k-1]);
    }
  }

  lemma ReplyIsHeldBelow(cfg: Cfg, s: Lane, m: Item)
    requires CfgOk(cfg) && CellsOk(cfg, s) && Nested(cfg, s) && ItemOk(cfg, s, m) && m.QueryReply?
    requires m.tailVersion != 0 && s.cells[m.home].ks.commVersion <= m.tailVersion
    ensures ValueAt(s.cells[m.home].ks, m.tailVersion).Some?
  {
    assert CellOk(cfg.mode, s.log, Tail(s)) && CellOk(cfg.mode, s.log, s.cells[m.home]);
    HistoriesNest(cfg, s, m.home, cfg.n - 1);
  }

  /**
   The last section of a dirty read returns the value if and only if the clean version read
   at the start is the one the tail named, or the local committed version has not passed it
   in the meantime.
   */
  lemma DirtyReadSucceedsIff(cfg: Cfg, tr: seq<Lane>, steps: seq<Step>, k: nat, m: Item)
    requires IsRun(cfg, tr, steps) && k < |tr| && !cfg.duplicating && cfg.mode == CRAQ
    requires m in tr[k].net && m.QueryReply? && m.tailVersion != 0
    ensures |tr[k].cells| == cfg.n && m.home < cfg.n
    ensures CraqReplication.Resolve(m.home, m.rid, m.clean, m.tailVersion, tr[k].cells[m.home].ks).ReadDone?
       <==> (m.clean.found && m.clean.version == m.tailVersion)
            || tr[k].cells[m.home].ks.commVersion <= m.tailVersion
  {
    RunCells(cfg, tr, steps, k);
    RunItem(cfg, tr, steps, k, m);
    RunKeepsOvertaken(cfg, tr, steps, k);
    if tr[k].cells[m.home].ks.commVersion <= m.tailVersion {
      ReplyIsHeldBelow(cfg, tr[k], m);
    }
  }

  // ----- quiescence -----

  /** At lossless quiescence every position answers reads from its own clean state. */
  lemma QuiescentReadsAreLocal(cfg: Cfg, tr: seq<Lane>, steps: seq<Step>, k: nat, p: nat, rid: nat)
    requires IsRun(cfg, tr, steps) && k < |tr| && !cfg.duplicating && !cfg.lossy && Quiescent(tr[k])
    requires cfg.mode == CRAQ && p < cfg.n
    ensures |tr[k].cells| == cfg.n
    ensures var ks, log := tr[k].cells[p].ks, tr[k].log;
            && !CraqReplication.Dirty(ReadCommitted(ks), ReadSeen(ks))
            && CraqReplication.AfterSeen(p, rid, ReadCommitted(ks), ReadSeen(ks)) ==
               if log == [] then ReadFailed(p, rid, NotFound) else ReadDone(p, rid, |log|, log[|log|-1].value)
  {
    Convergence(cfg, tr, steps, k, p);
  }

  // ----- a run in which a dirty read fails -----

  ghost predicate Reaches(cfg: Cfg, s: Lane) {
    exists tr, steps :: IsRun(cfg, tr, steps) && tr[|tr|-1] == s
  }

  lemma Reach(cfg: Cfg, s: Lane, step: Step)
    requires CfgOk(cfg) && Reaches(cfg, s) && Enabled(cfg, s, step)
    ensures Reaches(cfg, Apply(cfg, s, step))
  {
    var tr, steps :| IsRun(cfg, tr, steps) && tr[|tr|-1] == s;
    var tr', steps' := tr + [Apply(cfg, s, step)], steps + [step];
    forall k | 0 <= k < |steps'|
      ensures Enabled(cfg, tr'[k], steps'[k]) && tr'[k+1] == Apply(cfg, tr'[k], steps'[k])
    {
      if k < |steps| { assert Enabled(cfg, tr[k], steps[k]) && tr[k+1] == Apply(cfg, tr[k], steps[k]); }
    }
    assert IsRun(cfg, tr', steps');
  }

  const PAIR := Cfg(CRAQ, 2, false, false, false)
  const A := Req("a", "", 1)
  const B := Req("b", "", 2)

  /** Two nodes, any outstanding items but one. */
  function Two(head: Cell, tail: Cell, pre: seq<Item>, m: Item, log: seq<Req>, clock: nat): Lane {
    Lane([head, tail], pre + [m], log, clock)
  }

  ghost predicate Moves(head: Cell, tail: Cell, m: Item, log: seq<Req>, head': Cell, tail': Cell, m': Item,
                        log': seq<Req>)
  {
    && !Inert(m) && At(m).Some? && At(m).value < 2
    && var p := At(m).value;
       var e := CraqReplication.Section(LinearNode(PAIR, p), "", (if p == 0 then head else tail).ks, m);
       && e.out == [m'] && log' == LogAfter(log, m, e.note)
       && head' == (if p == 0 then Witness(head, e) else head)
       && tail' == (if p == 0 then tail else Witness(tail, e))
  }

  lemma Fired(head: Cell, tail: Cell, pre: seq<Item>, m: Item, log: seq<Req>, clock: nat,
              head': Cell, tail': Cell, m': Item, log': seq<Req>)
    requires Reaches(PAIR, Two(head, tail, pre, m, log, clock))
    requires Moves(head, tail, m, log, head', tail', m', log')
    ensures Reaches(PAIR, Two(head', tail', pre, m', log', clock))
  {
    var s := Two(head, tail, pre, m, log, clock);
    var i := |pre|;
    Reach(PAIR, s, Fire(i));
    assert Without(s.net, i) == pre;
    assert Apply(PAIR, s, Fire(i)) == Two(head', tail', pre, m', log', clock);
  }

  lemma Called(head: Cell, tail: Cell, net: seq<Item>, log: seq<Req>, clock: nat, m: Item)
    requires Reaches(PAIR, Lane([head, tail], net, log, clock))
    requires (m.WriteCall? && m.at == 0) || (m.ReadCall? && m.at == 0 && m.rid == clock)
    ensures Reaches(PAIR, Two(head, tail, net, m, log, if m.ReadCall? then clock + 1 else clock))
  {
    Reach(PAIR, Lane([head, tail], net, log, clock), if m.WriteCall? then CallWrite(0, m.req) else CallRead(0, m.rid));
  }

  const NEW := EMPTY_CELL
  const NUMBERED := Cell(KeyState(1, 0, "", 0, "", map[]), {}, {})
  const DIRTY1 := Cell(KeyState(1, 1, "a", 0, "", map[1 := "a"]), {1}, {})
  const CLEAN1 := Cell(KeyState(1, 1, "a", 1, "a", map[]), {1}, {1})
  const NUMBERED2 := Cell(KeyState(2, 1, "a", 0, "", map[1 := "a"]), {1}, {})
  const DIRTY12 := Cell(KeyState(2, 2, "b", 0, "", map[1 := "a", 2 := "b"]), {1, 2}, {})
  const DIRTY2 := Cell(KeyState(2, 2, "b", 1, "a", map[2 := "b"]), {1, 2}, {1})
  const CLEAN12 := Cell(KeyState(2, 2, "b", 2, "b", map[]), {1, 2}, {1, 2})
  const CLEAN2 := Cell(KeyState(2, 2, "b", 2, "b", map[]), {1, 2}, {2})

  const ACK1 := TailMarked(1, 1, A)
  const QUERY := QueryReply(0, 0, MISSING, 1)

  lemma FirstWriteNumbered()
    ensures Reaches(PAIR, Two(NUMBERED, NEW, [], WriteAssigned(0, 1, A), [A], 0))
  {
    var s0 := Init(PAIR);
    assert s0 == Lane([NEW, NEW], [], [], 0);
    assert IsRun(PAIR, [s0], []) && [s0][|[s0]|-1] == s0;
    Called(NEW, NEW, [], [], 0, WriteCall(0, A));
    Fired(NEW, NEW, [], WriteCall(0, A), [], 0, NUMBERED, NEW, WriteAssigned(0, 1, A), [A]);
  }

  /** The tail has committed write 1; its ACK has not reached the head. */
  lemma FirstWrite()
    ensures Reaches(PAIR, Two(DIRTY1, CLEAN1, [], ACK1, [A], 0))
  {
    FirstWriteNumbered();
    Fired(NUMBERED, NEW, [], WriteAssigned(0, 1, A), [A], 0, DIRTY1, NEW, WriteRecorded(0, 1, A), [A]);
    Fired(DIRTY1, NEW, [], WriteRecorded(0, 1, A), [A], 0, DIRTY1, NEW, PropSent(1, 1, A), [A]);
    Fired(DIRTY1, NEW, [], PropSent(1, 1, A), [A], 0, DIRTY1, DIRTY1, PropRecorded(1, 1, A), [A]);
    Fired(DIRTY1, DIRTY1, [], PropRecorded(1, 1, A), [A], 0, DIRTY1, CLEAN1, ACK1, [A]);
  }

  lemma DirtyReadAsks()
    ensures Reaches(PAIR, Two(DIRTY1, CLEAN1, [ACK1], QuerySent(0, 0, 0, MISSING), [A], 1))
  {
    FirstWrite();
    assert [] + [ACK1] == [ACK1];
    Called(DIRTY1, CLEAN1, [ACK1], [A], 0, ReadCall(0, 0));
    var pre, log := [ACK1], [A];
    Fired(DIRTY1, CLEAN1, pre, ReadCall(0, 0), log, 1, DIRTY1, CLEAN1, ReadClean(0, 0, MISSING), log);
    Fired(DIRTY1, CLEAN1, pre, ReadClean(0, 0, MISSING), log, 1, DIRTY1, CLEAN1, QuerySent(0, 0, 0, MISSING), log);
  }

  /** A read at the head finds version 1 dirty, and the tail names it. */
  lemma DirtyRead()
    ensures Reaches(PAIR, Two(DIRTY1, CLEAN1, [ACK1], QUERY, [A], 1))
  {
    DirtyReadAsks();
    var pre, log := [ACK1], [A];
    Fired(DIRTY1, CLEAN1, pre, QuerySent(0, 0, 0, MISSING), log, 1, DIRTY1, CLEAN1, QuerySent(1, 0, 0, MISSING), log);
    Fired(DIRTY1, CLEAN1, pre, QuerySent(1, 0, 0, MISSING), log, 1, DIRTY1, CLEAN1, QUERY, log);
  }

  lemma SecondWriteSent()
    ensures Reaches(PAIR, Two(DIRTY12, CLEAN1, [ACK1, QUERY], PropSent(1, 2, B), [A, B], 1))
  {
    DirtyRead();
    assert [ACK1] + [QUERY] == [ACK1, QUERY];
    var pre, log := [ACK1, QUERY], [A, B];
    Called(DIRTY1, CLEAN1, pre, [A], 1, WriteCall(0, B));
    Fired(DIRTY1, CLEAN1, pre, WriteCall(0, B), [A], 1, NUMBERED2, CLEAN1, WriteAssigned(0, 2, B), log);
    Fired(NUMBERED2, CLEAN1, pre, WriteAssigned(0, 2, B), log, 1, DIRTY12, CLEAN1, WriteRecorded(0, 2, B), log);
    Fired(DIRTY12, CLEAN1, pre, WriteRecorded(0, 2, B), log, 1, DIRTY12, CLEAN1, PropSent(1, 2, B), log);
  }

  lemma SecondWriteCommitted()
    ensures Reaches(PAIR, Two(DIRTY12, CLEAN12, [ACK1, QUERY], TailMarked(1, 2, B), [A, B], 1))
  {
    SecondWriteSent();
    var pre, log := [ACK1, QUERY], [A, B];
    Fired(DIRTY12, CLEAN1, pre, PropSent(1, 2, B), log, 1, DIRTY12, DIRTY2, PropRecorded(1, 2, B), log);
    Fired(DIRTY12, DIRTY2, pre, PropRecorded(1, 2, B), log, 1, DIRTY12, CLEAN12, TailMarked(1, 2, B), log);
  }

  /** Before the read goes on, the ACK of write 2 reaches the head. */
  lemma SecondWriteOvertakes()
    ensures Reaches(PAIR, Two(CLEAN2, CLEAN12, [ACK1, QUERY], AckMarked(0, 2, B), [A, B], 1))
  {
    SecondWriteCommitted();
    var pre, log := [ACK1, QUERY], [A, B];
    Fired(DIRTY12, CLEAN12, pre, TailMarked(1, 2, B), log, 1, DIRTY12, CLEAN12, PredAckDue(1, 2, B), log);
    Fired(DIRTY12, CLEAN12, pre, PredAckDue(1, 2, B), log, 1, DIRTY12, CLEAN12, AckSent(0, 2, B), log);
    Fired(DIRTY12, CLEAN12, pre, AckSent(0, 2, B), log, 1, CLEAN2, CLEAN12, AckMarked(0, 2, B), log);
  }

  /**
   Interleaved, a dirty read can fail: without loss or duplication a state is reachable in
   which the tail has committed, and the next section of a read at the head reports that it
   cannot materialize the version the tail named.
   */
  lemma DirtyReadCanFail()
    ensures exists s, i: nat ::
      && Reaches(PAIR, s) && Enabled(PAIR, s, Fire(i)) && s.net[i].QueryReply? && s.net[i].tailVersion > 0
      && ReadFailed(s.net[i].home, s.net[i].rid, CannotMaterialize) in Apply(PAIR, s, Fire(i)).net
  {
    SecondWriteOvertakes();
    var s := Two(CLEAN2, CLEAN12, [ACK1, QUERY], AckMarked(0, 2, B), [A, B], 1);
    assert s.net[1] == QUERY;
    assert LocalEffect(PAIR, s, QUERY).out == [ReadFailed(0, 0, CannotMaterialize)];
    assert ReadFailed(0, 0, CannotMaterialize) in LocalEffect(PAIR, s, QUERY).out;
    assert Enabled(PAIR, s, Fire(1)) && ReadFailed(0, 0, CannotMaterialize) in Apply(PAIR, s, Fire(1)).net;
  }
}
