/**
 Which node owns a key in CROWN: the FNV-1a hash of the key modulo the number of nodes. The
 servers and the client each have their own copy of the hash.
 */
module KeyRouting {
  import opened Wrappers
  import opened Messages
  import CrownReplication

  const OFFSET_BASIS: bv64 := 14695981039346656037
  const PRIME: bv64 := 1099511628211

  /** Strings are byte strings: a character stands for its low byte. */
  function Fold(hash: bv64, c: char): bv64 {
    hash ^ ((c as int % 256) as bv64)
  }

  function Times(hash: bv64): bv64 {
    hash * PRIME
  }

  function Fnv1a(key: string): bv64 {
    if key == "" then OFFSET_BASIS else Times(Fold(Fnv1a(key[..|key|-1]), key[|key|-1]))
  }

  /** The fold from a running hash, first byte first. */
  function FoldFrom(hash: bv64, key: string): bv64
    decreases |key|
  {
    if key == "" then hash else FoldFrom(Times(Fold(hash, key[0])), key[1..])
  }

  /** Reading the key on from any point: the hash of the whole is the fold of the rest from the hash so far. */
  lemma {:induction false} FoldsFromTheFront(key: string, rest: string)
    ensures Fnv1a(key + rest) == FoldFrom(Fnv1a(key), rest)
    decreases |rest|
  {
    hide Fold, Times;
    if rest == "" {
      assert key + rest == key;
    } else {
      var next := key + [rest[0]];
      assert next[..|next|-1] == key;
      assert next + rest[1..] == key + rest;
      FoldsFromTheFront(next, rest[1..]);
    }
  }

  /** Hence the hash is the fold of all bytes in order, from the offset basis. */
  lemma HashFoldsInOrder(key: string)
    ensures Fnv1a(key) == FoldFrom(OFFSET_BASIS, key)
  {
    FoldsFromTheFront("", key);
    assert "" + key == key;
  }

  /** The servers' copy. */
  method Fnv1a64(key: string) returns (hash: bv64)
    ensures hash == Fnv1a(key) == FoldFrom(OFFSET_BASIS, key)
  {
    hide Fold, Times, FoldFrom;
    hash := OFFSET_BASIS;
    var i := 0;
    while i < |key|
      invariant 0 <= i <= |key| && hash == Fnv1a(key[..i])
    {
      assert key[..i+1][..i] == key[..i];
      hash := Fold(hash, key[i]);
      hash := Times(hash);
      i := i + 1;
    }
    assert key[..|key|] == key;
    HashFoldsInOrder(key);
  }

  /** The client's copy. */
  method HashKey(key: string) returns (h: bv64)
    ensures h == Fnv1a(key) == FoldFrom(OFFSET_BASIS, key)
  {
    hide Fold, Times, FoldFrom;
    h := OFFSET_BASIS;
    for i := 0 to |key|
      invariant h == Fnv1a(key[..i])
    {
      assert key[..i+1][..i] == key[..i];
      h := Times(Fold(h, key[i]));
    }
    assert key[..|key|] == key;
    HashFoldsInOrder(key);
  }

  function HashNumber(key: string): nat {
    Fnv1a(key) as nat
  }

  function HeadIndex(key: string, n: nat): (h: nat)
    requires n > 0
    ensures h < n
  {
    HashNumber(key) % n
  }

  /** Node::is_head_for and Node::is_tail_for. */
  function IsHeadFor(mode: Mode, node: NodeCfg, key: string): bool {
    if mode != CROWN then node.isHead
    else if node.ringSize <= 0 || node.index < 0 || node.index >= node.ringSize then false
    else node.index == HeadIndex(key, node.ringSize)
  }

  function IsTailFor(mode: Mode, node: NodeCfg, key: string): bool {
    if mode != CROWN then node.isTail
    else if node.ringSize <= 0 || node.index < 0 || node.index >= node.ringSize then false
    else node.index == CrownReplication.TailIndex(HeadIndex(key, node.ringSize), node.ringSize)
  }

  lemma HeadOfHash(key: string, hash: bv64, n: nat)
    requires n > 0 && hash == Fnv1a(key)
    ensures HeadIndex(key, n) == (hash as nat) % n
  {
  }

  /** The client's write and read targets: entries of its id-indexed node table. */
  method CrownHeadFor<T>(byIndex: seq<T>, key: string) returns (target: Option<T>)
    ensures target == if byIndex == [] then None else Some(byIndex[HeadIndex(key, |byIndex|)])
  {
    if byIndex == [] { return None; }
    hide HashNumber, FoldFrom, Fnv1a, HeadIndex;
    var hash := HashKey(key);
    HeadOfHash(key, hash, |byIndex|);
    target := Some(byIndex[(hash as nat) % |byIndex|]);
  }

  method CrownTailFor<T>(byIndex: seq<T>, key: string) returns (target: Option<T>)
    ensures target == if byIndex == [] then None
                      else Some(byIndex[CrownReplication.TailIndex(HeadIndex(key, |byIndex|), |byIndex|)])
  {
    if byIndex == [] { return None; }
    hide HashNumber, FoldFrom, Fnv1a, HeadIndex;
    var hash := HashKey(key);
    HeadOfHash(key, hash, |byIndex|);
    var n, head := |byIndex|, (hash as nat) % |byIndex|;
    hide *;
    CrownReplication.TailBefore(head, n);
    CrownReplication.TailIs(head, n);
    var tail := (head + n - 1) % n;
    target := Some(byIndex[tail]);
  }

  /**
   On a ring of n consistently configured nodes exactly one node is a key's head and exactly
   one its tail, and those are the nodes the client sends the key's writes and reads to.
   */
  lemma ServersAgreeWithClient(nodes: seq<NodeCfg>, key: string, x: nat)
    requires x < |nodes| && forall i :: 0 <= i < |nodes| ==> nodes[i].index == i && nodes[i].ringSize == |nodes|
    ensures IsHeadFor(CROWN, nodes[x], key) <==> x == HeadIndex(key, |nodes|)
    ensures IsTailFor(CROWN, nodes[x], key) <==> x == CrownReplication.TailIndex(HeadIndex(key, |nodes|), |nodes|)
    ensures IsHeadFor(CROWN, nodes[x], key) && IsTailFor(CROWN, nodes[x], key) <==> |nodes| == 1
  {
    CrownReplication.TailBefore(HeadIndex(key, |nodes|), |nodes|);
  }

  /** The head is the hash's remainder by the number of nodes. */
  lemma HeadIsRemainder(key: string, n: nat)
    requires n > 0
    ensures HeadIndex(key, n) == FoldFrom(OFFSET_BASIS, key) as nat % n
  {
    hide HashNumber, FoldFrom;
    HashNumberFolds(key);
  }

  lemma HashNumberFolds(key: string)
    ensures HashNumber(key) == FoldFrom(OFFSET_BASIS, key) as nat
  {
    hide FoldFrom, Fnv1a;
    HashFoldsInOrder(key);
  }

  /** A node's roles: its flags outside CROWN; there none without a place on a ring, else by the hash. */
  lemma RolesOf(mode: Mode, node: NodeCfg, key: string)
    ensures mode != CROWN ==> IsHeadFor(mode, node, key) == node.isHead && IsTailFor(mode, node, key) == node.isTail
    ensures mode == CROWN && !(0 <= node.index < node.ringSize) ==>
              !IsHeadFor(mode, node, key) && !IsTailFor(mode, node, key)
    ensures mode == CROWN && 0 <= node.index < node.ringSize ==>
              (IsHeadFor(mode, node, key) <==> HashNumber(key) % node.ringSize == node.index)
    ensures mode == CROWN && 0 <= node.index < node.ringSize ==>
              (IsTailFor(mode, node, key) <==>
               HashNumber(key) % node.ringSize == (node.index + 1) % node.ringSize)
  {
    hide HashNumber;
    if 0 <= node.index < node.ringSize {
      CrownReplication.TailIffNext(HeadIndex(key, node.ringSize), node.ringSize, node.index);
    }
    hide CrownReplication.TailIndex;
  }

  lemma FirstFold()
    ensures Fold(OFFSET_BASIS, 'a') == 14695981039346656068
  {
    assert (97 as bv64) == 97;
  }

  lemma FirstTimes()
    ensures Times(14695981039346656068) == 12638187200555641996
  {
  }

  lemma HashOfA()
    ensures Fnv1a("a") == 12638187200555641996
  {
    assert "a"[..0] == "";
    assert Fnv1a("") == OFFSET_BASIS;
    FirstFold();
    FirstTimes();
    hide Times, Fold;
  }

  lemma SecondFold()
    ensures Fold(12638187200555641996, 'b') == 12638187200555642094
  {
    assert (98 as bv64) == 98;
  }

  lemma SecondTimes()
    ensures Times(12638187200555642094) == 620445648566982762
  {
  }

  /** The published value for the two bytes "ab": the first byte goes in first. */
  lemma HashOfAb()
    ensures Fnv1a("ab") == 620445648566982762
  {
    HashOfA();
    assert "ab"[..1] == "a";
    SecondFold();
    SecondTimes();
    hide Times, Fold;
  }

  /** The key "a" has head 0 on a ring of two nodes. */
  lemma HeadOfA()
    ensures HeadIndex("a", 2) == 0
  {
    HashOfA();
    hide Fnv1a;
    assert (12638187200555641996 as bv64) as nat == 12638187200555641996;
  }
}
