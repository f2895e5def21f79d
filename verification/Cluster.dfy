/**
 The whole system: real nodes, each with one store for all keys, and one bag of outstanding
 work for all keys. Every design runs its own handler sections on its own configuration.
 */
module Clusters {
  import opened Wrappers
  import opened KeyStates
  import opened Messages
  import L = Lanes
  import ChainReplication
  import CraqReplication
  import CrownReplication

  /** An item with the key and origin id its request carries; positions in it are node numbers. */
  datatype Env = Env(key: string, origin: string, item: Item)

  datatype Config = Config(mode: Mode, nodes: seq<NodeCfg>, lossy: bool, duplicating: bool)

  datatype Cluster = Cluster(
    stores: seq<map<string, L.Cell>>, net: seq<Env>, logs: map<string, seq<Req>>, clock: nat)

  datatype Step =
    | Fire(i: nat)
    | CallWrite(key: string, at: nat, req: Req)
    | CallRead(key: string, at: nat, rid: nat)
    | Lose(i: nat)
    | Duplicate(i: nat)

  function CellOf(store: map<string, L.Cell>, key: string): L.Cell {
    if key in store then store[key] else L.EMPTY_CELL
  }

  function LogOf(logs: map<string, seq<Req>>, key: string): seq<Req> {
    if key in logs then logs[key] else []
  }

  function Section(mode: Mode, node: NodeCfg, origin: string, ks: KeyState, m: Item): Effect {
    match mode
    case CHAIN => ChainReplication.Section(node, origin, ks, m)
    case CRAQ => CraqReplication.Section(node, origin, ks, m)
    case CROWN => CrownReplication.Section(node, origin, ks, m)
  }

  function Init(cfg: Config): Cluster {
    Cluster(seq(|cfg.nodes|, i => map[]), [], map[], 0)
  }

  predicate Enabled(cfg: Config, c: Cluster, step: Step) {
    match step
    case Fire(i) =>
      i < |c.net| && !Inert(c.net[i].item)
      && (At(c.net[i].item).Some? ==> At(c.net[i].item).value < |cfg.nodes|)
    case CallWrite(_, at, _) => at < |cfg.nodes|
    case CallRead(_, at, rid) => at < |cfg.nodes| && c.clock <= rid
    case Lose(i) => cfg.lossy && i < |c.net| && InTransit(c.net[i].item)
    case Duplicate(i) => cfg.duplicating && i < |c.net| && InTransit(c.net[i].item)
  }

  function Addressed(key: string, origin: string, out: seq<Item>): seq<Env> {
    seq(|out|, i requires 0 <= i < |out| => Env(key, origin, out[i]))
  }

  function EffectOf(cfg: Config, c: Cluster, env: Env): Effect
    requires |c.stores| == |cfg.nodes| && At(env.item).Some? && At(env.item).value < |cfg.nodes|
  {
    var x := At(env.item).value;
    Section(cfg.mode, cfg.nodes[x], env.origin, CellOf(c.stores[x], env.key).ks, env.item)
  }

  function Apply(cfg: Config, c: Cluster, step: Step): Cluster
    requires |c.stores| == |cfg.nodes| && Enabled(cfg, c, step)
  {
    match step
    case Fire(i) =>
      var env := c.net[i];
      if env.item.ClientAck? then
        c.(net := L.Without(c.net, i) + [Env(env.key, env.origin, ClientAcked(env.item.version, env.item.req))])
      else
        var x := At(env.item).value;
        var e := EffectOf(cfg, c, env);
        var cell := L.Witness(CellOf(c.stores[x], env.key), e);
        Cluster(c.stores[x := c.stores[x][env.key := cell]],
                L.Without(c.net, i) + Addressed(env.key, e.origin, e.out),
                c.logs[env.key := L.LogAfter(LogOf(c.logs, env.key), env.item, e.note)],
                c.clock)
    case CallWrite(key, at, req) => c.(net := c.net + [Env(key, "", WriteCall(at, req))])
    case CallRead(key, at, rid) => c.(net := c.net + [Env(key, "", ReadCall(at, rid))], clock := rid + 1)
    case Lose(i) => c.(net := L.Without(c.net, i))
    case Duplicate(i) => c.(net := c.net + [c.net[i]])
  }

  ghost predicate IsRun(cfg: Config, tr: seq<Cluster>, steps: seq<Step>) {
    && |tr| == |steps| + 1
    && tr[0] == Init(cfg)
    && (forall k :: 0 <= k < |tr| ==> |tr[k].stores| == |cfg.nodes|)
    && forall k :: 0 <= k < |steps| ==> Enabled(cfg, tr[k], steps[k]) && tr[k+1] == Apply(cfg, tr[k], steps[k])
  }
}
