/**
 The benchmark's planned operations: the clients stride through the operation numbers, and of
 every hundred numbers the first `hotPct` go to hot keys.
 */
module Benchmarks {
  import opened Wrappers
  import opened Messages
  import CrownReplication
  import Text

  /** What the argument parser accepts. */
  datatype Config = Config(total: nat, numClients: nat, client: nat, hotPct: nat)

  ghost predicate Accepted(cfg: Config) {
    cfg.total > 0 && cfg.client < cfg.numClients && cfg.hotPct <= 100
  }

  /** The number of this client's k-th operation among all clients' operations. */
  function OpAt(cfg: Config, k: nat): nat {
    cfg.client + cfg.numClients * k
  }

  predicate WantHot(hotPct: nat, op: nat) {
    hotPct >= 100 || op % 100 < hotPct
  }

  /** How many of this client's first k operations ask for a hot key. */
  function HotBefore(cfg: Config, k: nat): (h: nat)
    ensures h <= k
  {
    if k == 0 then 0 else HotBefore(cfg, k - 1) + if WantHot(cfg.hotPct, OpAt(cfg, k - 1)) then 1 else 0
  }

  /** Hot operations go round the hot keys, the others round the cold keys, if there are any. */
  function Choice(hot: seq<nat>, cold: seq<nat>, wantHot: bool, hotCursor: nat, coldCursor: nat): nat
    requires hot != []
  {
    if wantHot || cold == [] then hot[hotCursor % |hot|] else cold[coldCursor % |cold|]
  }

  function PlannedKey(cfg: Config, hot: seq<nat>, cold: seq<nat>, k: nat): nat
    requires hot != []
  {
    var h := if cold == [] then k else HotBefore(cfg, k);
    Choice(hot, cold, WantHot(cfg.hotPct, OpAt(cfg, k)), h, k - h)
  }

  /** The key of the k-th operation: from the mix, or in rotation when no hot keys are asked for. */
  function KeyOf(cfg: Config, hot: seq<nat>, cold: seq<nat>, keyCount: nat, k: nat): nat
    requires keyCount > 0
  {
    if hot != [] then PlannedKey(cfg, hot, cold, k) else OpAt(cfg, k) % keyCount
  }

  /** How many of the first k operations go to hot keys. */
  function HotCount(cfg: Config, hot: seq<nat>, cold: seq<nat>, k: nat): nat {
    if hot == [] then 0 else if cold == [] then k else HotBefore(cfg, k)
  }

  lemma {:induction false} Multiples(n: nat, a: nat, b: nat)
    requires a < b
    ensures n * a + n <= n * b
  {
    assert n * b == n * (b - 1) + n;
    if a + 1 < b { Multiples(n, a, b - 1); }
  }

  lemma OpNext(cfg: Config, k: nat)
    ensures OpAt(cfg, k + 1) == OpAt(cfg, k) + cfg.numClients
  {
  }

  lemma PlanEnds(cfg: Config, n: nat)
    requires Accepted(cfg) && OpAt(cfg, n) >= cfg.total && forall k: nat :: k < n ==> OpAt(cfg, k) < cfg.total
    ensures forall k: nat :: k < n <==> OpAt(cfg, k) < cfg.total
  {
    forall k: nat | k >= n ensures OpAt(cfg, k) >= cfg.total {
      if k > n { Multiples(cfg.numClients, n, k); }
    }
  }

  /** Key indices split by whether the first key's head owns the key, each part in order. */
  ghost predicate Split(heads: seq<nat>, hot: seq<nat>, cold: seq<nat>)
    requires heads != []
  {
    && (forall i: nat :: i in hot <==> i < |heads| && heads[i] == heads[0])
    && (forall i: nat :: i in cold <==> i < |heads| && heads[i] != heads[0])
    && (forall a, b :: 0 <= a < b < |hot| ==> hot[a] < hot[b])
    && (forall a, b :: 0 <= a < b < |cold| ==> cold[a] < cold[b])
  }

  /** CROWN write batch: `heads` are the heads of the keys; hot keys share the first key's head. */
  method SplitKeys(heads: seq<nat>) returns (hot: seq<nat>, cold: seq<nat>)
    requires heads != []
    ensures Split(heads, hot, cold) && hot != []
  {
    hot, cold := [], [];
    for i := 0 to |heads|
      invariant forall j: nat :: j in hot <==> j < i && heads[j] == heads[0]
      invariant forall j: nat :: j in cold <==> j < i && heads[j] != heads[0]
      invariant forall a, b :: 0 <= a < b < |hot| ==> hot[a] < hot[b]
      invariant forall a, b :: 0 <= a < b < |cold| ==> cold[a] < cold[b]
    {
      if heads[i] == heads[0] {
        assert forall a :: 0 <= a < |hot| ==> hot[a] in hot;
        hot := hot + [i];
      } else {
        assert forall a :: 0 <= a < |cold| ==> cold[a] in cold;
        cold := cold + [i];
      }
    }
    assert 0 in hot;
  }

  // ----- the mix, on the keys alone -----

  ghost predicate KeysExist(keys: seq<nat>, keyCount: nat) {
    forall i :: 0 <= i < |keys| ==> keys[i] < keyCount
  }

  /** How often key i is used. */
  function Uses(keys: seq<nat>, i: nat): nat {
    if keys == [] then 0 else Uses(keys[..|keys|-1], i) + if keys[|keys|-1] == i then 1 else 0
  }

  /** How many of the keys have the first key's head. */
  function HotUses(heads: seq<nat>, keys: seq<nat>): nat
    requires heads != [] && KeysExist(keys, |heads|)
  {
    if keys == [] then 0
    else
      assert KeysExist(keys[..|keys|-1], |heads|);
      HotUses(heads, keys[..|keys|-1]) + if heads[keys[|keys|-1]] == heads[0] then 1 else 0
  }

  /** At every moment, keys of one group have been used equally often, give or take one. */
  ghost predicate EvenUse(keys: seq<nat>, group: seq<nat>) {
    forall n, a, b :: 0 <= n <= |keys| && 0 <= a < |group| && 0 <= b < |group| ==>
      Uses(keys[..n], group[a]) <= Uses(keys[..n], group[b]) + 1
  }

  ghost predicate Groups(hot: seq<nat>, cold: seq<nat>) {
    && hot != []
    && (forall a, b :: 0 <= a < b < |hot| ==> hot[a] != hot[b])
    && (forall a, b :: 0 <= a < b < |cold| ==> cold[a] != cold[b])
    && (forall a, b :: 0 <= a < |hot| && 0 <= b < |cold| ==> hot[a] != cold[b])
  }

  ghost predicate Mixed(cfg: Config, hot: seq<nat>, cold: seq<nat>, keys: seq<nat>)
    requires hot != []
  {
    forall k: nat :: k < |keys| ==> keys[k] == PlannedKey(cfg, hot, cold, k)
  }

  /** How often place a is reached in h steps round m places. */
  function Turns(h: nat, m: nat, a: nat): nat
    requires m > 0
  {
    h / m + if a < h % m then 1 else 0
  }

  lemma TurnNext(h: nat, m: nat, a: nat)
    requires a < m
    ensures Turns(h + 1, m, a) == Turns(h, m, a) + if h % m == a then 1 else 0
  {
    var q, r := h / m, h % m;
    assert h == m * q + r;
    if r + 1 < m {
      DivModUnique(h + 1, m, r + 1, q);
    } else {
      assert h + 1 == m * (q + 1) + 0;
      DivModUnique(h + 1, m, 0, q + 1);
    }
  }

  lemma HotCountStarts(cfg: Config)
    ensures forall hot: seq<nat>, cold: seq<nat>, k: nat ::
              k == 0 || hot == [] ==> HotCount(cfg, hot, cold, k) == 0
  {
  }

  lemma HotCountNext(cfg: Config, hot: seq<nat>, cold: seq<nat>, k: nat)
    requires hot != []
    ensures HotCount(cfg, hot, cold, k) <= k
    ensures HotCount(cfg, hot, cold, k + 1) == HotCount(cfg, hot, cold, k)
              + if cold == [] || WantHot(cfg.hotPct, OpAt(cfg, k)) then 1 else 0
  {
  }

  lemma {:induction false} HotTurns(cfg: Config, hot: seq<nat>, cold: seq<nat>, keys: seq<nat>, a: nat)
    requires Groups(hot, cold) && Mixed(cfg, hot, cold, keys) && a < |hot|
    ensures Uses(keys, hot[a]) == Turns(HotCount(cfg, hot, cold, |keys|), |hot|, a)
  {
    if keys == [] {
      SmallMod(0, |hot|);
    } else {
      var k := |keys| - 1;
      HotTurns(cfg, hot, cold, keys[..k], a);
      HotCountNext(cfg, hot, cold, k);
      TurnNext(HotCount(cfg, hot, cold, k), |hot|, a);
    }
  }

  lemma {:induction false} ColdTurns(cfg: Config, hot: seq<nat>, cold: seq<nat>, keys: seq<nat>, b: nat)
    requires Groups(hot, cold) && Mixed(cfg, hot, cold, keys) && b < |cold|
    ensures HotCount(cfg, hot, cold, |keys|) <= |keys|
    ensures Uses(keys, cold[b]) == Turns(|keys| - HotCount(cfg, hot, cold, |keys|), |cold|, b)
  {
    if keys == [] {
      SmallMod(0, |cold|);
    } else {
      var k := |keys| - 1;
      ColdTurns(cfg, hot, cold, keys[..k], b);
      HotCountNext(cfg, hot, cold, k);
      TurnNext(k - HotCount(cfg, hot, cold, k), |cold|, b);
    }
  }

  /** Each group of the mix is gone round evenly. */
  lemma MixIsEven(cfg: Config, hot: seq<nat>, cold: seq<nat>, keys: seq<nat>)
    requires Groups(hot, cold) && Mixed(cfg, hot, cold, keys)
    ensures EvenUse(keys, hot) && EvenUse(keys, cold)
  {
    forall n, a, b | 0 <= n <= |keys| && 0 <= a < |hot| && 0 <= b < |hot|
      ensures Uses(keys[..n], hot[a]) <= Uses(keys[..n], hot[b]) + 1
    {
      HotTurns(cfg, hot, cold, keys[..n], a);
      HotTurns(cfg, hot, cold, keys[..n], b);
    }
    forall n, a, b | 0 <= n <= |keys| && 0 <= a < |cold| && 0 <= b < |cold|
      ensures Uses(keys[..n], cold[a]) <= Uses(keys[..n], cold[b]) + 1
    {
      ColdTurns(cfg, hot, cold, keys[..n], a);
      ColdTurns(cfg, hot, cold, keys[..n], b);
    }
  }

  /** The mix takes a key of the hot group exactly when the operation is hot or no key is cold. */
  lemma MixIsHotIff(cfg: Config, hot: seq<nat>, cold: seq<nat>, k: nat)
    requires Groups(hot, cold)
    ensures PlannedKey(cfg, hot, cold, k) in hot <==> cold == [] || WantHot(cfg.hotPct, OpAt(cfg, k))
    ensures PlannedKey(cfg, hot, cold, k) in hot || PlannedKey(cfg, hot, cold, k) in cold
  {
  }

  lemma {:induction false} HotUsesAreCounted(cfg: Config, heads: seq<nat>, hot: seq<nat>, cold: seq<nat>,
                                             keys: seq<nat>)
    requires heads != [] && Split(heads, hot, cold) && Groups(hot, cold) && Mixed(cfg, hot, cold, keys)
    requires KeysExist(keys, |heads|)
    ensures HotUses(heads, keys) == HotCount(cfg, hot, cold, |keys|)
  {
    if keys != [] {
      var k := |keys| - 1;
      HotUsesAreCounted(cfg, heads, hot, cold, keys[..k]);
      HotCountNext(cfg, hot, cold, k);
      MixIsHotIff(cfg, hot, cold, k);
    }
  }

  lemma SplitGroups(heads: seq<nat>, hot: seq<nat>, cold: seq<nat>)
    requires heads != [] && Split(heads, hot, cold) && hot != []
    ensures Groups(hot, cold)
  {
    assert forall a :: 0 <= a < |hot| ==> hot[a] in hot;
    assert forall b :: 0 <= b < |cold| ==> cold[b] in cold;
  }

  // ----- the write batch -----

  /** Keys are given by index and nodes by position. */
  datatype Write = Write(target: nat, key: nat, value: string)

  function WriteValue(cfg: Config, prefix: string, k: nat): string {
    prefix + Text.ToString(cfg.client) + "-" + Text.ToString(k)
  }

  /**
   The k-th write of a client: to the key's head in CROWN, whose heads are `heads`, and to the
   chain's head otherwise.
   */
  ghost predicate PlannedAt(cfg: Config, mode: Mode, heads: seq<nat>, hot: seq<nat>, cold: seq<nat>, chainHead: nat,
                            prefix: string, k: nat, w: Write)
    requires heads != []
  {
    && w.key == KeyOf(cfg, hot, cold, |heads|, k) < |heads|
    && w.target == (if mode == CROWN then heads[w.key] else chainHead)
    && w.value == WriteValue(cfg, prefix, k)
  }

  lemma KeyExists(cfg: Config, hot: seq<nat>, cold: seq<nat>, keyCount: nat, k: nat)
    requires keyCount > 0 && KeysExist(hot, keyCount) && KeysExist(cold, keyCount)
    ensures KeyOf(cfg, hot, cold, keyCount, k) < keyCount
  {
  }

  /** The key choice inside the loop, from the cursors of the mix. */
  method NextKey(cfg: Config, hot: seq<nat>, cold: seq<nat>, keyCount: nat, op: nat, hotCursor: nat, coldCursor: nat)
    returns (key: nat, isHot: bool)
    requires keyCount > 0
    requires hot != [] ==> hotCursor == HotCount(cfg, hot, cold, op) && coldCursor == op - hotCursor
    ensures key == KeyOf(cfg, hot, cold, keyCount, op)
    ensures hot != [] ==> HotCount(cfg, hot, cold, op + 1) == HotCount(cfg, hot, cold, op) + if isHot then 1 else 0
  {
    var globalOp := OpAt(cfg, op);
    if hot == [] { return globalOp % keyCount, false; }
    var wantHot := cfg.hotPct >= 100 || globalOp % 100 < cfg.hotPct;
    if wantHot || cold == [] { return hot[hotCursor % |hot|], true; }
    return cold[coldCursor % |cold|], false;
  }

  function WrittenKeys(writes: seq<Write>): (keys: seq<nat>)
    ensures |keys| == |writes| && forall k :: 0 <= k < |keys| ==> keys[k] == writes[k].key
  {
    seq(|writes|, k requires 0 <= k < |writes| => writes[k].key)
  }

  /**
   With a mix, what the plan comes to: write k goes to the first key's head exactly when its
   number asks for it, unless that head has all the keys; so many writes go there as planned;
   and the keys of each group take turns.
   */
  lemma WritesFollowMix(cfg: Config, heads: seq<nat>, hot: seq<nat>, cold: seq<nat>, writes: seq<Write>)
    requires heads != [] && hot != [] && Split(heads, hot, cold) && KeysExist(WrittenKeys(writes), |heads|)
    requires forall k: nat :: k < |writes| ==> writes[k].key == KeyOf(cfg, hot, cold, |heads|, k)
    ensures forall k: nat :: k < |writes| ==>
              (heads[writes[k].key] == heads[0] <==>
               (forall i :: 0 <= i < |heads| ==> heads[i] == heads[0])
               || cfg.hotPct >= 100 || OpAt(cfg, k) % 100 < cfg.hotPct)
    ensures HotUses(heads, WrittenKeys(writes)) == HotCount(cfg, hot, cold, |writes|)
    ensures EvenUse(WrittenKeys(writes), hot) && EvenUse(WrittenKeys(writes), cold)
  {
    SplitGroups(heads, hot, cold);
    var keys := WrittenKeys(writes);
    assert Mixed(cfg, hot, cold, keys);
    HotUsesAreCounted(cfg, heads, hot, cold, keys);
    MixIsEven(cfg, hot, cold, keys);
    NoneColdIff(heads, hot, cold);
    forall k: nat | k < |writes|
      ensures heads[writes[k].key] == heads[0] <==>
              (forall i :: 0 <= i < |heads| ==> heads[i] == heads[0])
              || cfg.hotPct >= 100 || OpAt(cfg, k) % 100 < cfg.hotPct
    {
      MixIsHotIff(cfg, hot, cold, k);
      assert keys[k] == writes[k].key;
    }
  }

  lemma NoneColdIff(heads: seq<nat>, hot: seq<nat>, cold: seq<nat>)
    requires heads != [] && Split(heads, hot, cold)
    ensures cold == [] <==> forall i :: 0 <= i < |heads| ==> heads[i] == heads[0]
  {
    if cold != [] { assert cold[0] in cold; }
  }

  lemma GroupsExist(heads: seq<nat>, hot: seq<nat>, cold: seq<nat>)
    requires heads != [] && (hot == cold == [] || Split(heads, hot, cold))
    ensures KeysExist(hot, |heads|) && KeysExist(cold, |heads|)
  {
    assert forall i :: 0 <= i < |hot| ==> hot[i] in hot;
    assert forall i :: 0 <= i < |cold| ==> cold[i] in cold;
  }

  lemma WriteIsPlanned(cfg: Config, mode: Mode, heads: seq<nat>, hot: seq<nat>, cold: seq<nat>, chainHead: nat,
                       prefix: string, k: nat, w: Write)
    requires heads != [] && w.key == KeyOf(cfg, hot, cold, |heads|, k) < |heads|
    requires w.target == if mode == CROWN then heads[w.key] else chainHead
    requires w.value == WriteValue(cfg, prefix, k)
    ensures PlannedAt(cfg, mode, heads, hot, cold, chainHead, prefix, k, w)
  {
  }

  lemma WritePlan(cfg: Config, mode: Mode, heads: seq<nat>, hot: seq<nat>, cold: seq<nat>, chainHead: nat,
                  prefix: string, writes: seq<Write>)
    requires heads != [] && (hot == cold == [] || (hot != [] && Split(heads, hot, cold)))
    requires forall k: nat :: k < |writes| ==> PlannedAt(cfg, mode, heads, hot, cold, chainHead, prefix, k, writes[k])
    ensures forall k: nat :: k < |writes| ==>
              && writes[k].key < |heads|
              && writes[k].value == prefix + Text.ToString(cfg.client) + "-" + Text.ToString(k)
              && writes[k].target == if mode == CROWN then heads[writes[k].key] else chainHead
    ensures KeysExist(WrittenKeys(writes), |heads|)
    ensures HotCount(cfg, hot, cold, |writes|) == if hot == [] then 0 else HotUses(heads, WrittenKeys(writes))
    ensures hot == [] ==> forall k: nat :: k < |writes| ==> writes[k].key == OpAt(cfg, k) % |heads|
    ensures hot != [] ==> EvenUse(WrittenKeys(writes), hot) && EvenUse(WrittenKeys(writes), cold)
    ensures hot != [] ==>
              forall k: nat :: k < |writes| ==>
                (heads[writes[k].key] == heads[0] <==>
                 (forall i :: 0 <= i < |heads| ==> heads[i] == heads[0])
                 || cfg.hotPct >= 100 || OpAt(cfg, k) % 100 < cfg.hotPct)
  {
    hide OpAt, HotUses, EvenUse, HotBefore, PlannedKey, Split, Text.ToString;
    if hot != [] { WritesFollowMix(cfg, heads, hot, cold, writes); }
  }

  /**
   One write for each of the client's numbers below the total, each with its own value. It
   fails only when there is something to write and no head to write to.
   */
  method PrepareWrites(cfg: Config, mode: Mode, heads: seq<nat>, chainHead: Option<nat>, prefix: string)
    returns (r: Option<seq<Write>>, plannedHot: nat, hot: seq<nat>, cold: seq<nat>)
    requires Accepted(cfg) && heads != []
    ensures if mode == CROWN && cfg.hotPct > 0 then hot != [] && Split(heads, hot, cold) else hot == cold == []
    ensures r.None? <==> mode != CROWN && chainHead.None? && OpAt(cfg, 0) < cfg.total
    ensures r.Some? ==>
              && (forall k: nat :: k < |r.value| <==> OpAt(cfg, k) < cfg.total)
              && forall k: nat :: k < |r.value| ==>
                   && r.value[k].key < |heads|
                   && r.value[k].value == prefix + Text.ToString(cfg.client) + "-" + Text.ToString(k)
                   && Some(r.value[k].target) == if mode == CROWN then Some(heads[r.value[k].key]) else chainHead
    ensures r.Some? ==> KeysExist(WrittenKeys(r.value), |heads|)
    ensures r.Some? ==> plannedHot == if hot == [] then 0 else HotUses(heads, WrittenKeys(r.value))
    ensures r.Some? && hot == [] ==> forall k: nat :: k < |r.value| ==> r.value[k].key == OpAt(cfg, k) % |heads|
    ensures r.Some? && hot != [] ==> EvenUse(WrittenKeys(r.value), hot) && EvenUse(WrittenKeys(r.value), cold)
    ensures r.Some? && hot != [] ==>
              forall k: nat :: k < |r.value| ==>
                (heads[r.value[k].key] == heads[0] <==>
                 (forall i :: 0 <= i < |heads| ==> heads[i] == heads[0])
                 || cfg.hotPct >= 100 || OpAt(cfg, k) % 100 < cfg.hotPct)
    ensures r.Some? ==> plannedHot == HotCount(cfg, hot, cold, |r.value|)
    ensures r.Some? ==>
              forall k: nat :: k < |r.value| ==>
                PlannedAt(cfg, mode, heads, hot, cold, if chainHead.Some? then chainHead.value else 0, prefix, k,
                          r.value[k])
  {
    hide Split, KeysExist, WriteValue, KeyOf, EvenUse, HotUses, WrittenKeys, OpAt, HotBefore, HotCount, PlannedAt;
    hide Text.ToString;
    HotCountStarts(cfg);
    hot, cold, plannedHot := [], [], 0;
    var hotspot := mode == CROWN && cfg.hotPct > 0;
    if hotspot { hot, cold := SplitKeys(heads); }
    GroupsExist(heads, hot, cold);
    var head := if chainHead.Some? then chainHead.value else 0;
    var hotCursor, coldCursor, op, globalOp := 0, 0, 0, OpAt(cfg, 0);
    var prepared: seq<Write> := [];
    while globalOp < cfg.total
      invariant |prepared| == op && globalOp == OpAt(cfg, op)
      invariant forall k: nat :: k < op ==> OpAt(cfg, k) < cfg.total
      invariant forall k: nat :: k < op ==> PlannedAt(cfg, mode, heads, hot, cold, head, prefix, k, prepared[k])
      invariant plannedHot == HotCount(cfg, hot, cold, op)
      invariant hotspot ==> hotCursor == plannedHot && coldCursor == op - hotCursor
      invariant op > 0 ==> mode == CROWN || chainHead.Some?
      decreases cfg.total - globalOp
    {
      KeyExists(cfg, hot, cold, |heads|, op);
      var key, isHot := NextKey(cfg, hot, cold, |heads|, op, hotCursor, coldCursor);
      if hotspot {
        if isHot {
          hotCursor, plannedHot := hotCursor + 1, plannedHot + 1;
        } else {
          coldCursor := coldCursor + 1;
        }
      }
      if mode != CROWN && chainHead.None? { return None, plannedHot, hot, cold; }
      var target := if mode == CROWN then heads[key] else chainHead.value;
      WriteIsPlanned(cfg, mode, heads, hot, cold, head, prefix, op, Write(target, key, WriteValue(cfg, prefix, op)));
      prepared := prepared + [Write(target, key, WriteValue(cfg, prefix, op))];
      OpNext(cfg, op);
      op := op + 1;
      globalOp := OpAt(cfg, op);
    }
    PlanEnds(cfg, op);
    WritePlan(cfg, mode, heads, hot, cold, head, prefix, prepared);
    r := Some(prepared);
  }

  lemma SameFront(a: string, b: string, c: string)
    requires a + b == a + c
    ensures b == c
  {
    assert b == (a + b)[|a|..] && c == (a + c)[|a|..];
  }

  /** Digits up to the first dash tell two texts apart. */
  lemma DashSplits(a: string, x: string, b: string, y: string)
    requires forall i :: 0 <= i < |a| ==> Text.IsDigit(a[i])
    requires forall i :: 0 <= i < |b| ==> Text.IsDigit(b[i])
    requires a + "-" + x == b + "-" + y
    ensures a == b && x == y
  {
    var s, t := a + "-" + x, b + "-" + y;
    assert s[|a|] == '-' && t[|b|] == '-';
    assert (forall i :: 0 <= i < |a| ==> s[i] == a[i]) && (forall i :: 0 <= i < |b| ==> t[i] == b[i]);
    assert |a| == |b|;
    assert a == s[..|a|] && b == t[..|b|] && x == s[|a| + 1..] && y == t[|b| + 1..];
  }

  /** No two planned writes of a benchmark, by the same client or by two, have the same value. */
  lemma ValuesDiffer(cfg: Config, other: Config, prefix: string, j: nat, k: nat)
    requires WriteValue(cfg, prefix, j) == WriteValue(other, prefix, k)
    ensures cfg.client == other.client && j == k
  {
    var a, b := Text.Digits(cfg.client), Text.Digits(other.client);
    var x, y := Text.Digits(j), Text.Digits(k);
    assert WriteValue(cfg, prefix, j) == prefix + (a + "-" + x);
    assert WriteValue(other, prefix, k) == prefix + (b + "-" + y);
    SameFront(prefix, a + "-" + x, b + "-" + y);
    Text.DigitsAreDigits(cfg.client);
    Text.DigitsAreDigits(other.client);
    DashSplits(a, x, b, y);
    Text.DigitsInjective(cfg.client, other.client);
    Text.DigitsInjective(j, k);
  }

  // ----- the read batch -----

  datatype Read = Read(target: nat, key: nat)

  /** What reads are resolved with: the nodes' ids, the chain's tail, and a random pick for each operation. */
  datatype Readers = Readers(mode: Mode, ids: seq<int>, tail: Option<nat>, preferred: int, random: nat -> nat)

  /** The first node with this id. */
  method FindNode(ids: seq<int>, id: int) returns (r: Option<nat>)
    ensures r.Some? ==> r.value < |ids| && ids[r.value] == id && forall i :: 0 <= i < r.value ==> ids[i] != id
    ensures r.None? <==> id !in ids
  {
    for i := 0 to |ids|
      invariant forall j :: 0 <= j < i ==> ids[j] != id
    {
      if ids[i] == id { return Some(i); }
    }
    return None;
  }

  /** CRAQ: the preferred node if there is one of that id, or the nodes in rotation; -1 for no choice. */
  function CraqNodeId(t: Readers, op: nat): int {
    if t.mode != CRAQ || t.ids == [] then -1
    else if t.preferred != -1 then (if t.preferred in t.ids then t.preferred else -1)
    else t.ids[op % |t.ids|]
  }

  /** The node that operation `op` reads a key of head `head` from. */
  ghost predicate IsReadTarget(t: Readers, head: nat, op: nat, target: Option<nat>) {
    match t.mode
    case CROWN => target == if t.ids == [] then None else Some(CrownReplication.TailIndex(head, |t.ids|))
    case CHAIN => target == t.tail
    case CRAQ =>
      var id := CraqNodeId(t, op);
      if id == -1 then target == if t.ids == [] then None else Some(t.random(op) % |t.ids|)
      else target.Some? && target.value < |t.ids| && t.ids[target.value] == id
           && forall i :: 0 <= i < target.value ==> t.ids[i] != id
  }

  ghost predicate IsFirst(ids: seq<int>, id: int, target: Option<nat>) {
    && target.Some? && target.value < |ids| && ids[target.value] == id
    && forall i :: 0 <= i < target.value ==> ids[i] != id
  }

  /** The target, design by design; a preferred node that exists is the one read from. */
  lemma ReadTargetCases(t: Readers, head: nat, op: nat, target: Option<nat>)
    requires IsReadTarget(t, head, op, target)
    ensures t.mode == CHAIN ==> target == t.tail
    ensures t.mode != CHAIN && t.ids == [] ==> target == None
    ensures t.mode == CROWN && t.ids != [] ==> target == Some((head + |t.ids| - 1) % |t.ids|)
    ensures t.mode == CRAQ && t.preferred != -1 && t.preferred in t.ids ==> IsFirst(t.ids, t.preferred, target)
    ensures t.mode == CRAQ && t.preferred != -1 && t.preferred !in t.ids && t.ids != [] ==>
              target == Some(t.random(op) % |t.ids|)
    ensures t.mode == CRAQ && t.preferred == -1 && t.ids != [] && t.ids[op % |t.ids|] != -1 ==>
              IsFirst(t.ids, t.ids[op % |t.ids|], target)
    ensures target == None <==> if t.mode == CHAIN then t.tail == None else t.ids == []
  {
  }

  method ResolveReadTarget(t: Readers, head: nat, op: nat) returns (target: Option<nat>)
    ensures t.mode == CHAIN ==> target == t.tail
    ensures t.mode != CHAIN && t.ids == [] ==> target == None
    ensures t.mode == CROWN && t.ids != [] ==> target == Some((head + |t.ids| - 1) % |t.ids|)
    ensures t.mode == CRAQ && t.preferred != -1 && t.preferred in t.ids ==> IsFirst(t.ids, t.preferred, target)
    ensures t.mode == CRAQ && t.preferred != -1 && t.preferred !in t.ids && t.ids != [] ==>
              target == Some(t.random(op) % |t.ids|)
    ensures t.mode == CRAQ && t.preferred == -1 && t.ids != [] && t.ids[op % |t.ids|] != -1 ==>
              IsFirst(t.ids, t.ids[op % |t.ids|], target)
    ensures IsReadTarget(t, head, op, target)
  {
    if t.mode == CROWN {
      return if t.ids == [] then None else Some(CrownReplication.TailIndex(head, |t.ids|));
    }
    if t.mode == CHAIN { return t.tail; }
    var id := CraqNodeId(t, op);
    if id != -1 {
      target := FindNode(t.ids, id);
      return;
    }
    return if t.ids == [] then None else Some(t.random(op) % |t.ids|);
  }

  /** With distinct ids, none of them -1, and no preferred node, CRAQ reads go round the nodes. */
  lemma CraqReadsRotate(t: Readers, head: nat, op: nat, target: Option<nat>)
    requires t.mode == CRAQ && t.preferred == -1 && t.ids != [] && -1 !in t.ids
    requires forall i, j :: 0 <= i < j < |t.ids| ==> t.ids[i] != t.ids[j]
    requires IsReadTarget(t, head, op, target)
    ensures target == Some(op % |t.ids|)
  {
    assert t.ids[op % |t.ids|] in t.ids;
  }

  /** The read batch's mix: the only hot key is the first one. */
  method ReadKeys(keyCount: nat, hotPct: nat) returns (hot: seq<nat>, cold: seq<nat>)
    requires keyCount > 0
    ensures if hotPct > 0 then hot == [0] && cold == seq(keyCount - 1, i requires 0 <= i => i + 1)
            else hot == cold == []
    ensures KeysExist(hot, keyCount) && KeysExist(cold, keyCount)
  {
    hot, cold := [], [];
    if hotPct > 0 {
      hot := [0];
      for i := 0 to keyCount
        invariant |cold| == if i == 0 then 0 else i - 1
        invariant forall a :: 0 <= a < |cold| ==> cold[a] == a + 1
      {
        if i != 0 { cold := cold + [i]; }
      }
      assert cold == seq(keyCount - 1, i requires 0 <= i => i + 1);
    }
  }

  /** The k-th read of a client. */
  ghost predicate ReadPlannedAt(cfg: Config, t: Readers, heads: seq<nat>, hot: seq<nat>, cold: seq<nat>, k: nat,
                                r: Read)
    requires heads != []
  {
    && r.key == KeyOf(cfg, hot, cold, |heads|, k) < |heads|
    && IsReadTarget(t, heads[r.key], OpAt(cfg, k), Some(r.target))
  }

  function ReadKeysOf(batch: seq<Read>): (keys: seq<nat>)
    ensures |keys| == |batch| && forall k :: 0 <= k < |keys| ==> keys[k] == batch[k].key
  {
    seq(|batch|, k requires 0 <= k < |batch| => batch[k].key)
  }

  /**
   With a mix, what the plan comes to: read k is of the first key exactly when its number asks
   for it, unless there is no other key; so many reads are of that key as planned; and the
   other keys take turns.
   */
  lemma ReadsFollowMix(cfg: Config, keyCount: nat, hot: seq<nat>, cold: seq<nat>, batch: seq<Read>)
    requires keyCount > 0 && hot == [0] && cold == seq(keyCount - 1, i requires 0 <= i => i + 1)
    requires forall k: nat :: k < |batch| ==> batch[k].key == KeyOf(cfg, hot, cold, keyCount, k)
    ensures forall k: nat :: k < |batch| ==>
              (batch[k].key == 0 <==> keyCount == 1 || cfg.hotPct >= 100 || OpAt(cfg, k) % 100 < cfg.hotPct)
    ensures Uses(ReadKeysOf(batch), 0) == HotCount(cfg, hot, cold, |batch|)
    ensures EvenUse(ReadKeysOf(batch), cold)
  {
    var keys := ReadKeysOf(batch);
    assert Mixed(cfg, hot, cold, keys);
    HotTurns(cfg, hot, cold, keys, 0);
    assert Turns(HotCount(cfg, hot, cold, |batch|), 1, 0) == HotCount(cfg, hot, cold, |batch|);
    MixIsEven(cfg, hot, cold, keys);
    assert cold == [] <==> keyCount == 1;
    forall k: nat | k < |batch|
      ensures batch[k].key == 0 <==> keyCount == 1 || cfg.hotPct >= 100 || OpAt(cfg, k) % 100 < cfg.hotPct
    {
      MixIsHotIff(cfg, hot, cold, k);
      assert keys[k] == batch[k].key;
    }
  }

  lemma ReadIsPlanned(cfg: Config, t: Readers, heads: seq<nat>, hot: seq<nat>, cold: seq<nat>, k: nat, r: Read)
    requires heads != [] && r.key == KeyOf(cfg, hot, cold, |heads|, k) < |heads|
    requires IsReadTarget(t, heads[r.key], OpAt(cfg, k), Some(r.target))
    ensures ReadPlannedAt(cfg, t, heads, hot, cold, k, r)
  {
  }

  lemma ReadPlan(cfg: Config, t: Readers, heads: seq<nat>, hot: seq<nat>, cold: seq<nat>, batch: seq<Read>)
    requires heads != []
    requires if cfg.hotPct > 0 then hot == [0] && cold == seq(|heads| - 1, i requires 0 <= i => i + 1)
             else hot == cold == []
    requires forall k: nat :: k < |batch| ==> ReadPlannedAt(cfg, t, heads, hot, cold, k, batch[k])
    ensures forall k: nat :: k < |batch| ==>
              batch[k].key < |heads| && IsReadTarget(t, heads[batch[k].key], OpAt(cfg, k), Some(batch[k].target))
    ensures HotCount(cfg, hot, cold, |batch|) == if cfg.hotPct == 0 then 0 else Uses(ReadKeysOf(batch), 0)
    ensures cfg.hotPct == 0 ==> forall k: nat :: k < |batch| ==> batch[k].key == OpAt(cfg, k) % |heads|
    ensures cfg.hotPct > 0 ==> EvenUse(ReadKeysOf(batch), cold)
    ensures cfg.hotPct > 0 ==>
              forall k: nat :: k < |batch| ==>
                (batch[k].key == 0 <==> |heads| == 1 || cfg.hotPct >= 100 || OpAt(cfg, k) % 100 < cfg.hotPct)
  {
    hide OpAt, IsReadTarget, Uses, EvenUse, ReadKeysOf, HotBefore, PlannedKey;
    if hot != [] { ReadsFollowMix(cfg, |heads|, hot, cold, batch); }
  }

  /** One read for each of the client's numbers below the total; it fails when one has no node to go to. */
  method PrepareReads(cfg: Config, t: Readers, heads: seq<nat>)
    returns (r: Option<seq<Read>>, plannedHot: nat, hot: seq<nat>, cold: seq<nat>)
    requires Accepted(cfg) && heads != []
    ensures if cfg.hotPct > 0 then hot == [0] && cold == seq(|heads| - 1, i requires 0 <= i => i + 1)
            else hot == cold == []
    ensures r.None? <==> OpAt(cfg, 0) < cfg.total && if t.mode == CHAIN then t.tail == None else t.ids == []
    ensures r.Some? ==>
              && (forall k: nat :: k < |r.value| <==> OpAt(cfg, k) < cfg.total)
              && forall k: nat :: k < |r.value| ==>
                   && r.value[k].key < |heads|
                   && IsReadTarget(t, heads[r.value[k].key], OpAt(cfg, k), Some(r.value[k].target))
    ensures r.Some? ==> plannedHot == if cfg.hotPct == 0 then 0 else Uses(ReadKeysOf(r.value), 0)
    ensures r.Some? && cfg.hotPct == 0 ==>
              forall k: nat :: k < |r.value| ==> r.value[k].key == OpAt(cfg, k) % |heads|
    ensures r.Some? && cfg.hotPct > 0 ==> EvenUse(ReadKeysOf(r.value), cold)
    ensures r.Some? && cfg.hotPct > 0 ==>
              forall k: nat :: k < |r.value| ==>
                (r.value[k].key == 0 <==> |heads| == 1 || cfg.hotPct >= 100 || OpAt(cfg, k) % 100 < cfg.hotPct)
    ensures r.Some? ==> plannedHot == HotCount(cfg, hot, cold, |r.value|)
    ensures r.Some? ==>
              forall k: nat :: k < |r.value| ==> ReadPlannedAt(cfg, t, heads, hot, cold, k, r.value[k])
  {
    hide KeysExist, IsReadTarget, IsFirst, KeyOf, EvenUse, Uses, ReadKeysOf, OpAt, HotBefore, HotCount, ReadPlannedAt;
    HotCountStarts(cfg);
    plannedHot := 0;
    hot, cold := ReadKeys(|heads|, cfg.hotPct);
    var op, globalOp := 0, OpAt(cfg, 0);
    var prepared: seq<Read> := [];
    while globalOp < cfg.total
      invariant |prepared| == op && globalOp == OpAt(cfg, op)
      invariant forall k: nat :: k < op ==> OpAt(cfg, k) < cfg.total
      invariant forall k: nat :: k < op ==> ReadPlannedAt(cfg, t, heads, hot, cold, k, prepared[k])
      invariant plannedHot == HotCount(cfg, hot, cold, op) <= op
      invariant op > 0 ==> if t.mode == CHAIN then t.tail.Some? else t.ids != []
      decreases cfg.total - globalOp
    {
      KeyExists(cfg, hot, cold, |heads|, op);
      var key, isHot := NextKey(cfg, hot, cold, |heads|, op, plannedHot, op - plannedHot);
      if hot != [] && isHot { plannedHot := plannedHot + 1; }
      var target := ResolveReadTarget(t, heads[key], globalOp);
      ReadTargetCases(t, heads[key], globalOp, target);
      if target.None? { return None, plannedHot, hot, cold; }
      assert ReadPlannedAt(cfg, t, heads, hot, cold, op, Read(target.value, key)) by {
        ReadIsPlanned(cfg, t, heads, hot, cold, op, Read(target.value, key));
      }
      prepared := prepared + [Read(target.value, key)];
      OpNext(cfg, op);
      op := op + 1;
      globalOp := OpAt(cfg, op);
    }
    PlanEnds(cfg, op);
    ReadPlan(cfg, t, heads, hot, cold, prepared);
    r := Some(prepared);
  }

  // ----- all clients together -----

  /** Every operation number below the total is exactly one client's, at exactly one place. */
  lemma BatchesPartition(total: nat, numClients: nat, hotPct: nat, op: nat, c: nat, k: nat)
    requires numClients > 0 && c < numClients
    ensures OpAt(Config(total, numClients, c, hotPct), k) == op <==> c == op % numClients && k == op / numClients
  {
    DivModUnique(op, numClients, c, k);
  }

  lemma DivModUnique(op: nat, n: nat, c: nat, k: nat)
    requires c < n
    ensures c + n * k == op <==> c == op % n && k == op / n
  {
    var q, r := op / n, op % n;
    assert op == n * q + r;
    if c + n * k == op {
      if k < q { Multiples(n, k, q); }
      if q < k { Multiples(n, q, k); }
    }
  }

  /** A batch is never longer than the space reserved for it, ceil(total / clients). */
  lemma BatchFits(cfg: Config, n: nat)
    requires Accepted(cfg) && forall k: nat :: k < n <==> OpAt(cfg, k) < cfg.total
    ensures n <= (cfg.total + cfg.numClients - 1) / cfg.numClients
  {
    var size := cfg.total + cfg.numClients - 1;
    var q := size / cfg.numClients;
    assert size == cfg.numClients * q + size % cfg.numClients;
    assert OpAt(cfg, q) >= cfg.total;
  }

  /** The hot operations among the numbers below t that satisfy the stride of client c. */
  function HotOf(c: nat, numClients: nat, hotPct: nat, t: nat): nat
    requires numClients > 0
  {
    if t == 0 then 0
    else HotOf(c, numClients, hotPct, t - 1) + if (t - 1) % numClients == c && WantHot(hotPct, t - 1) then 1 else 0
  }

  function HotTotal(hotPct: nat, t: nat): nat {
    if t == 0 then 0 else HotTotal(hotPct, t - 1) + if WantHot(hotPct, t - 1) then 1 else 0
  }

  function HotOfFirst(clients: nat, numClients: nat, hotPct: nat, t: nat): nat
    requires numClients > 0
  {
    if clients == 0 then 0
    else HotOfFirst(clients - 1, numClients, hotPct, t) + HotOf(clients - 1, numClients, hotPct, t)
  }

  lemma {:induction false} OneOwner(clients: nat, numClients: nat, hotPct: nat, t: nat)
    requires numClients > 0
    ensures HotOfFirst(clients, numClients, hotPct, t + 1) == HotOfFirst(clients, numClients, hotPct, t)
              + if t % numClients < clients && WantHot(hotPct, t) then 1 else 0
  {
    if clients > 0 { OneOwner(clients - 1, numClients, hotPct, t); }
  }

  lemma {:induction false} HotSumsUp(numClients: nat, hotPct: nat, t: nat)
    requires numClients > 0
    ensures HotOfFirst(numClients, numClients, hotPct, t) == HotTotal(hotPct, t)
  {
    if t == 0 {
      NoneOfNothing(numClients, numClients, hotPct);
    } else {
      HotSumsUp(numClients, hotPct, t - 1);
      OneOwner(numClients, numClients, hotPct, t - 1);
    }
  }

  lemma {:induction false} NoneOfNothing(clients: nat, numClients: nat, hotPct: nat)
    requires numClients > 0
    ensures HotOfFirst(clients, numClients, hotPct, 0) == 0
  {
    if clients > 0 { NoneOfNothing(clients - 1, numClients, hotPct); }
  }

  lemma NextHundred(q: nat, hotPct: nat)
    ensures (q + 1) * hotPct == q * hotPct + hotPct
  {
  }

  lemma {:induction false} HotTotalClosed(hotPct: nat, t: nat)
    requires hotPct <= 100
    ensures HotTotal(hotPct, t) == t / 100 * hotPct + if t % 100 < hotPct then t % 100 else hotPct
  {
    if t > 0 {
      HotTotalClosed(hotPct, t - 1);
      HundredStep(hotPct, t - 1);
    }
  }

  lemma HundredStep(hotPct: nat, t: nat)
    requires hotPct <= 100
    ensures (t + 1) / 100 * hotPct + (if (t + 1) % 100 < hotPct then (t + 1) % 100 else hotPct) ==
            t / 100 * hotPct + (if t % 100 < hotPct then t % 100 else hotPct) + (if WantHot(hotPct, t) then 1 else 0)
  {
    var q, r := t / 100, t % 100;
    if r < 99 {
      assert (t + 1) / 100 == q && (t + 1) % 100 == r + 1;
    } else {
      assert (t + 1) / 100 == q + 1 && (t + 1) % 100 == 0;
      NextHundred(q, hotPct);
    }
  }

  /** Between two of its numbers a client has no other. */
  lemma {:induction false} StrideGap(c: nat, numClients: nat, hotPct: nat, op: nat, d: nat)
    requires c < numClients && op % numClients == c && 1 <= d <= numClients
    ensures HotOf(c, numClients, hotPct, op + d) ==
            HotOf(c, numClients, hotPct, op) + if WantHot(hotPct, op) then 1 else 0
  {
    if d > 1 {
      StrideGap(c, numClients, hotPct, op, d - 1);
      NotInBetween(op, numClients, d - 1);
    }
  }

  lemma NotInBetween(op: nat, n: nat, d: nat)
    requires 0 < d < n
    ensures (op + d) % n != op % n
  {
    if (op + d) % n == op % n {
      var p, q := (op + d) / n, op / n;
      assert op + d == n * p + op % n && op == n * q + op % n;
      if q < p { Multiples(n, q, p); }
      if p < q { Multiples(n, p, q); }
      assert false;
    }
  }

  lemma SmallMod(a: nat, n: nat)
    requires a < n
    ensures a % n == a
  {
  }

  lemma {:induction false} NoneBelow(c: nat, numClients: nat, hotPct: nat, t: nat)
    requires t <= c < numClients
    ensures HotOf(c, numClients, hotPct, t) == 0
  {
    if t > 0 {
      NoneBelow(c, numClients, hotPct, t - 1);
      SmallMod(t - 1, numClients);
    }
  }

  /** The client's own count of hot operations is its share of all numbers up to there. */
  lemma {:induction false} HotBeforeIsShare(cfg: Config, k: nat)
    requires cfg.client < cfg.numClients
    ensures HotBefore(cfg, k) == HotOf(cfg.client, cfg.numClients, cfg.hotPct, OpAt(cfg, k))
  {
    if k == 0 {
      NoneBelow(cfg.client, cfg.numClients, cfg.hotPct, cfg.client);
    } else {
      HotBeforeIsShare(cfg, k - 1);
      DivModUnique(OpAt(cfg, k - 1), cfg.numClients, cfg.client, k - 1);
      StrideGap(cfg.client, cfg.numClients, cfg.hotPct, OpAt(cfg, k - 1), cfg.numClients);
      assert OpAt(cfg, k) == OpAt(cfg, k - 1) + cfg.numClients;
    }
  }

  lemma LastOp(cfg: Config, n: nat)
    requires Accepted(cfg) && n > 0 && OpAt(cfg, n - 1) < cfg.total <= OpAt(cfg, n)
    ensures OpAt(cfg, n - 1) % cfg.numClients == cfg.client
    ensures OpAt(cfg, n) == OpAt(cfg, n - 1) + cfg.numClients
  {
    OpNext(cfg, n - 1);
    DivModUnique(OpAt(cfg, n - 1), cfg.numClients, cfg.client, n - 1);
  }

  lemma NoOps(cfg: Config)
    requires Accepted(cfg) && OpAt(cfg, 0) >= cfg.total
    ensures HotOf(cfg.client, cfg.numClients, cfg.hotPct, cfg.total) == 0
  {
    NoneBelow(cfg.client, cfg.numClients, cfg.hotPct, cfg.total);
  }

  /** A plan of the whole batch counts the client's share of all hot operations. */
  lemma PlannedShare(cfg: Config, n: nat)
    requires Accepted(cfg) && OpAt(cfg, n) >= cfg.total && (n > 0 ==> OpAt(cfg, n - 1) < cfg.total)
    ensures HotBefore(cfg, n) == HotOf(cfg.client, cfg.numClients, cfg.hotPct, cfg.total)
  {
    if n == 0 {
      NoOps(cfg);
    } else {
      HotBeforeIsShare(cfg, n);
      LastOp(cfg, n);
      ShareUpTo(cfg, OpAt(cfg, n - 1));
    }
  }

  /** From one of the client's numbers to the next, its share does not change. */
  lemma ShareUpTo(cfg: Config, op: nat)
    requires Accepted(cfg) && op % cfg.numClients == cfg.client && op < cfg.total <= op + cfg.numClients
    ensures HotOf(cfg.client, cfg.numClients, cfg.hotPct, op + cfg.numClients) ==
            HotOf(cfg.client, cfg.numClients, cfg.hotPct, cfg.total)
  {
    StrideGap(cfg.client, cfg.numClients, cfg.hotPct, op, cfg.numClients);
    StrideGap(cfg.client, cfg.numClients, cfg.hotPct, op, cfg.total - op);
  }

  /** What client c plans as hot, with at least one cold key. */
  function Planned(total: nat, numClients: nat, hotPct: nat, c: nat, sizes: seq<nat>): nat
    requires c < numClients == |sizes|
  {
    HotBefore(Config(total, numClients, c, hotPct), sizes[c])
  }

  function PlannedByFirst(total: nat, numClients: nat, hotPct: nat, clients: nat, sizes: seq<nat>): nat
    requires clients <= numClients == |sizes|
  {
    if clients == 0 then 0
    else
      PlannedByFirst(total, numClients, hotPct, clients - 1, sizes)
      + Planned(total, numClients, hotPct, clients - 1, sizes)
  }

  lemma {:induction false} PlannedIsShares(total: nat, numClients: nat, hotPct: nat, clients: nat, sizes: seq<nat>)
    requires total > 0 && hotPct <= 100 && clients <= numClients == |sizes| && numClients > 0
    requires forall c, k: nat :: 0 <= c < numClients ==>
               (k < sizes[c] <==> OpAt(Config(total, numClients, c, hotPct), k) < total)
    ensures PlannedByFirst(total, numClients, hotPct, clients, sizes) == HotOfFirst(clients, numClients, hotPct, total)
  {
    if clients > 0 {
      PlannedIsShares(total, numClients, hotPct, clients - 1, sizes);
      PlannedShare(Config(total, numClients, clients - 1, hotPct), sizes[clients-1]);
    }
  }

  /** Over all clients the planned hot operations are exactly the requested percentage. */
  lemma HotOperationsAreExact(total: nat, numClients: nat, hotPct: nat, sizes: seq<nat>)
    requires total > 0 && hotPct <= 100 && numClients == |sizes| && numClients > 0
    requires forall c, k: nat :: 0 <= c < numClients ==>
               (k < sizes[c] <==> OpAt(Config(total, numClients, c, hotPct), k) < total)
    ensures PlannedByFirst(total, numClients, hotPct, numClients, sizes) ==
            total / 100 * hotPct + if total % 100 < hotPct then total % 100 else hotPct
  {
    PlannedIsShares(total, numClients, hotPct, numClients, sizes);
    HotSumsUp(numClients, hotPct, total);
    HotTotalClosed(hotPct, total);
  }
}
