/** A CHAIN or CRAQ system none of whose nodes is a head: it accepts no write and answers no read. */
module HeadlessClusters {
  import opened KeyStates
  import opened Messages
  import opened Clusters
  import L = Lanes

  ghost predicate Headless(cfg: Config) {
    cfg.mode != CROWN && forall x :: 0 <= x < |cfg.nodes| ==> !cfg.nodes[x].isHead
  }

  /** The only items such a system ever has: calls, refusals, and reads that find nothing. */
  predicate Idle(m: Item) {
    m.WriteCall? || m.WriteRejected? || m.ReadCall? || m.ReadFailed? || (m.ReadClean? && m.clean == MISSING)
  }

  ghost predicate Barren(c: Cluster) {
    && (forall env :: env in c.net ==> Idle(env.item))
    && (forall x, k :: 0 <= x < |c.stores| ==> CellOf(c.stores[x], k) == L.EMPTY_CELL)
  }

  lemma SectionStaysIdle(cfg: Config, c: Cluster, env: Env)
    requires Headless(cfg) && |c.stores| == |cfg.nodes| && Barren(c) && env in c.net
    requires At(env.item).Some? && At(env.item).value < |cfg.nodes| && !Inert(env.item)
    ensures var e := EffectOf(cfg, c, env);
            e.ks == FRESH && e.note == Quiet && forall m :: m in e.out ==> Idle(m)
  {
    assert CellOf(c.stores[At(env.item).value], env.key) == L.EMPTY_CELL;
    assert Idle(env.item);
  }

  lemma StepStaysBarren(cfg: Config, c: Cluster, step: Step)
    requires Headless(cfg) && |c.stores| == |cfg.nodes| && Barren(c) && Enabled(cfg, c, step)
    ensures Barren(Apply(cfg, c, step))
  {
    var c' := Apply(cfg, c, step);
    if step.Fire? {
      var env := c.net[step.i];
      assert env in c.net && Idle(env.item);
      SectionStaysIdle(cfg, c, env);
      var e := EffectOf(cfg, c, env);
      forall x | x in c'.net ensures Idle(x.item) {
        if x in Addressed(env.key, e.origin, e.out) {
          var k :| 0 <= k < |e.out| && x == Env(env.key, e.origin, e.out[k]);
          assert e.out[k] in e.out;
        }
      }
      forall x, k | 0 <= x < |c'.stores| ensures CellOf(c'.stores[x], k) == L.EMPTY_CELL {
        assert CellOf(c.stores[x], k) == L.EMPTY_CELL;
      }
    }
  }

  /** In every run of a system without a head no read succeeds and no write is acknowledged. */
  lemma {:induction false} NoHeadRun(cfg: Config, tr: seq<Cluster>, steps: seq<Step>, j: nat)
    requires Headless(cfg) && IsRun(cfg, tr, steps) && j < |tr|
    ensures Barren(tr[j])
  {
    if j > 0 {
      NoHeadRun(cfg, tr, steps, j - 1);
      StepStaysBarren(cfg, tr[j-1], steps[j-1]);
    }
  }

  lemma NoHeadNoRead(cfg: Config, tr: seq<Cluster>, steps: seq<Step>, j: nat, env: Env)
    requires Headless(cfg) && IsRun(cfg, tr, steps) && j < |tr| && env in tr[j].net
    ensures !env.item.ReadDone? && !env.item.ClientAck? && !env.item.ClientAcked?
  {
    NoHeadRun(cfg, tr, steps, j);
    assert Idle(env.item);
  }
}
