/**
 The life of one key along a chain of n positions, position 0 being the head and n-1 the
 tail. The network is a bag of outstanding items written as a sequence: a step may pick any
 of them, so deliveries are reordered without restriction. Every critical section is a step
 of its own.
 */
module Lanes {
  import opened Wrappers
  import opened KeyStates
  import opened Messages
  import ChainReplication
  import CraqReplication

  datatype Cfg = Cfg(
    mode: Mode, n: nat,
    direct: bool,        // nodes hold a stub to the tail for version queries
    lossy: bool,         // an RPC in transit may be lost
    duplicating: bool)   // an RPC in transit may be delivered twice

  ghost predicate CfgOk(cfg: Cfg) {
    cfg.n > 0 && cfg.mode != CROWN
  }

  /** A key's state at one position, with the history of what was done to it there. */
  datatype Cell = Cell(ks: KeyState, recorded: set<nat>, cleaned: set<nat>)

  /** `log` is the history of the writes numbered by the head; `clock` grows with every read. */
  datatype Lane = Lane(cells: seq<Cell>, net: seq<Item>, log: seq<Req>, clock: nat)

  const EMPTY_CELL := Cell(FRESH, {}, {})

  function LinearNode(cfg: Cfg, p: nat): NodeCfg
    requires cfg.n > 0
  {
    NodeCfg("", p, p == 0, p == cfg.n - 1,
            if p == 0 then None else Some(p - 1),
            if p == cfg.n - 1 then None else Some(p + 1),
            if cfg.direct then Some((cfg.n - 1) as nat) else None,
            0)
  }

  function Section(mode: Mode, node: NodeCfg, origin: string, ks: KeyState, m: Item): Effect
    requires mode != CROWN
  {
    if mode == CHAIN then ChainReplication.Section(node, origin, ks, m)
    else CraqReplication.Section(node, origin, ks, m)
  }

  function Witness(cell: Cell, e: Effect): Cell {
    match e.note
    case Recorded(v) => Cell(e.ks, cell.recorded + {v}, cell.cleaned)
    case Cleaned(v) => Cell(e.ks, cell.recorded, cell.cleaned + {v})
    case _ => cell.(ks := e.ks)
  }

  function Without<T>(s: seq<T>, i: nat): seq<T>
    requires i < |s|
  {
    s[..i] + s[i+1..]
  }

  datatype Step =
    | Fire(i: nat)                    // run the next section of item i
    | CallWrite(at: nat, req: Req)
    | CallRead(at: nat, rid: nat)
    | Lose(i: nat)
    | Duplicate(i: nat)
    | Idle(clock: nat)

  function Init(cfg: Cfg): Lane {
    Lane(seq(cfg.n, p => EMPTY_CELL), [], [], 0)
  }

  predicate Enabled(cfg: Cfg, s: Lane, step: Step) {
    match step
    case Fire(i) =>
      i < |s.net| && !Inert(s.net[i]) && (At(s.net[i]).Some? ==> At(s.net[i]).value < |s.cells|)
    case CallWrite(at, _) => at < |s.cells|
    case CallRead(at, rid) => at < |s.cells| && s.clock <= rid
    case Lose(i) => cfg.lossy && i < |s.net| && InTransit(s.net[i])
    case Duplicate(i) => cfg.duplicating && i < |s.net| && InTransit(s.net[i])
    case Idle(clock) => s.clock <= clock
  }

  function LocalEffect(cfg: Cfg, s: Lane, m: Item): Effect
    requires CfgOk(cfg) && At(m).Some? && At(m).value < |s.cells|
  {
    Section(cfg.mode, LinearNode(cfg, At(m).value), "", s.cells[At(m).value].ks, m)
  }

  function LogAfter(log: seq<Req>, m: Item, note: Note): seq<Req> {
    if note.Assigned? && m.WriteCall? then log + [m.req] else log
  }

  function FireItem(cfg: Cfg, s: Lane, i: nat): Lane
    requires CfgOk(cfg) && Enabled(cfg, s, Fire(i))
  {
    var m := s.net[i];
    if m.ClientAck? then s.(net := Without(s.net, i) + [ClientAcked(m.version, m.req)])
    else
      var p := At(m).value;
      var e := LocalEffect(cfg, s, m);
      Lane(s.cells[p := Witness(s.cells[p], e)], Without(s.net, i) + e.out, LogAfter(s.log, m, e.note), s.clock)
  }

  function Apply(cfg: Cfg, s: Lane, step: Step): Lane
    requires CfgOk(cfg) && Enabled(cfg, s, step)
  {
    match step
    case Fire(i) => FireItem(cfg, s, i)
    case CallWrite(at, req) => s.(net := s.net + [WriteCall(at, req)])
    case CallRead(at, rid) => s.(net := s.net + [ReadCall(at, rid)], clock := rid + 1)
    case Lose(i) => s.(net := Without(s.net, i))
    case Duplicate(i) => s.(net := s.net + [s.net[i]])
    case Idle(clock) => s.(clock := clock)
  }

  /** A run: the states tr[0], tr[1], ... reached by the steps from the initial state. */
  ghost predicate IsRun(cfg: Cfg, tr: seq<Lane>, steps: seq<Step>) {
    && CfgOk(cfg)
    && |tr| == |steps| + 1
    && tr[0] == Init(cfg)
    && forall k :: 0 <= k < |steps| ==> Enabled(cfg, tr[k], steps[k]) && tr[k+1] == Apply(cfg, tr[k], steps[k])
  }

  function Tail(s: Lane): Cell {
    if s.cells == [] then EMPTY_CELL else s.cells[|s.cells| - 1]
  }
}
