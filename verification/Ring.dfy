/** Walking a successor map on 0..n-1. */
module Ring {
  import Sets

  ghost predicate Closed(succ: seq<nat>) {
    forall i :: 0 <= i < |succ| ==> succ[i] < |succ|
  }

  /** Where t steps from i lead. */
  function Walk(succ: seq<nat>, i: nat, t: nat): (r: nat)
    requires Closed(succ) && i < |succ|
    ensures r < |succ|
  {
    if t == 0 then i else succ[Walk(succ, i, t - 1)]
  }

  predicate Meets(succ: seq<nat>, i: nat, t: nat, j: nat)
    requires Closed(succ) && i < |succ|
  {
    Walk(succ, i, t) == j
  }

  ghost predicate Reaches(succ: seq<nat>, i: nat, j: nat)
    requires Closed(succ) && i < |succ|
  {
    exists t: nat :: Meets(succ, i, t, j)
  }

  ghost predicate Injective(succ: seq<nat>) {
    forall i, j :: 0 <= i < |succ| && 0 <= j < |succ| && succ[i] == succ[j] ==> i == j
  }

  /** The first k nodes of the walk from i. */
  function Visited(succ: seq<nat>, i: nat, k: nat): set<nat>
    requires Closed(succ) && i < |succ|
  {
    if k == 0 then {} else Visited(succ, i, k - 1) + {Walk(succ, i, k - 1)}
  }

  /** The first k nodes of the walk from i are different. */
  ghost predicate DistinctWalk(succ: seq<nat>, i: nat, k: nat)
    requires Closed(succ) && i < |succ|
  {
    forall a: nat, b: nat :: a < b < k ==> Walk(succ, i, a) != Walk(succ, i, b)
  }

  lemma {:induction false} VisitedMembers(succ: seq<nat>, i: nat, k: nat, x: nat)
    requires Closed(succ) && i < |succ|
    ensures x in Visited(succ, i, k) <==> exists t: nat :: t < k && Meets(succ, i, t, x)
  {
    if k > 0 {
      VisitedMembers(succ, i, k - 1, x);
      var last: nat := k - 1;
      if x == Walk(succ, i, last) {
        assert Meets(succ, i, last, x);
      } else if t: nat :| t < k && Meets(succ, i, t, x) {
        assert t != last;
        assert t < k - 1;
      }
    }
  }

  lemma {:induction false} VisitedSize(succ: seq<nat>, i: nat, k: nat)
    requires Closed(succ) && i < |succ|
    ensures |Visited(succ, i, k)| <= k && Visited(succ, i, k) <= Sets.Below(|succ|)
    ensures DistinctWalk(succ, i, k) ==> |Visited(succ, i, k)| == k
  {
    if k > 0 {
      VisitedSize(succ, i, k - 1);
      if DistinctWalk(succ, i, k) {
        assert DistinctWalk(succ, i, k - 1);
        VisitedMembers(succ, i, k - 1, Walk(succ, i, k - 1));
      }
    }
  }

  /** n different nodes of n are all the nodes. */
  lemma DistinctWalkOn(succ: seq<nat>, i: nat, k: nat)
    requires Closed(succ) && i < |succ| && DistinctWalk(succ, i, k) && Walk(succ, i, k) !in Visited(succ, i, k)
    ensures DistinctWalk(succ, i, k + 1)
  {
    forall a: nat, b: nat | a < b < k + 1 ensures Walk(succ, i, a) != Walk(succ, i, b) {
      if b == k && Walk(succ, i, a) == Walk(succ, i, k) {
        assert Meets(succ, i, a, Walk(succ, i, k));
        VisitedMembers(succ, i, k, Walk(succ, i, k));
        assert false;
      }
    }
  }

  lemma DistinctWalkCovers(succ: seq<nat>, i: nat, j: nat)
    requires Closed(succ) && i < |succ| && j < |succ| && DistinctWalk(succ, i, |succ|)
    ensures exists t: nat :: t < |succ| && Meets(succ, i, t, j)
  {
    VisitedSize(succ, i, |succ|);
    Sets.SubsetSize(Visited(succ, i, |succ|), Sets.Below(|succ|));
    VisitedMembers(succ, i, |succ|, j);
  }

  /** A walk of different nodes is no longer than the ring. */
  lemma DistinctWalkFits(succ: seq<nat>, i: nat, k: nat)
    requires Closed(succ) && i < |succ| && DistinctWalk(succ, i, k)
    ensures k <= |succ|
  {
    VisitedSize(succ, i, k);
    Sets.SubsetSize(Visited(succ, i, k), Sets.Below(|succ|));
  }

  lemma {:induction false} WalkOn(succ: seq<nat>, i: nat, a: nat, b: nat, d: nat)
    requires Closed(succ) && i < |succ| && Walk(succ, i, a) == Walk(succ, i, b)
    ensures Walk(succ, i, a + d) == Walk(succ, i, b + d)
  {
    if d > 0 { WalkOn(succ, i, a, b, d - 1); }
  }

  /** Once the walk repeats a node, it stays among the nodes it has seen. */
  lemma {:induction false} RepeatStays(succ: seq<nat>, i: nat, a: nat, b: nat, t: nat)
    requires Closed(succ) && i < |succ| && a < b && Walk(succ, i, a) == Walk(succ, i, b)
    ensures exists u: nat :: u < b && Meets(succ, i, u, Walk(succ, i, t))
    decreases t
  {
    if t < b {
      assert Meets(succ, i, t, Walk(succ, i, t));
    } else {
      WalkOn(succ, i, a, b, t - b);
      RepeatStays(succ, i, a, b, t - b + a);
    }
  }

  lemma RepeatBoundsReach(succ: seq<nat>, i: nat, a: nat, b: nat)
    requires Closed(succ) && i < |succ| && a < b && Walk(succ, i, a) == Walk(succ, i, b)
    requires forall j: nat :: j < |succ| ==> Reaches(succ, i, j)
    ensures |succ| <= b
  {
    forall j: nat | j in Sets.Below(|succ|) ensures j in Visited(succ, i, b) {
      assert Reaches(succ, i, j);
      var t: nat :| Meets(succ, i, t, j);
      RepeatStays(succ, i, a, b, t);
      VisitedMembers(succ, i, b, j);
    }
    VisitedSize(succ, i, b);
    Sets.SubsetSize(Sets.Below(|succ|), Visited(succ, i, b));
  }

  /** A walk that repeats before n steps leaves some node out. */
  lemma RepeatLeavesOut(succ: seq<nat>, i: nat, a: nat, b: nat)
    requires Closed(succ) && i < |succ| && a < b < |succ| && Walk(succ, i, a) == Walk(succ, i, b)
    ensures exists j: nat :: j < |succ| && !Reaches(succ, i, j)
  {
    if forall j: nat :: j < |succ| ==> Reaches(succ, i, j) {
      RepeatBoundsReach(succ, i, a, b);
      assert false;
    }
  }

  lemma ClosesOrRepeats(succ: seq<nat>, i: nat, t: nat, n: nat)
    requires Closed(succ) && Injective(succ) && i < |succ| && t < n && Walk(succ, i, t) == Walk(succ, i, n)
    ensures Walk(succ, i, n) == i || (t > 0 && Walk(succ, i, t - 1) == Walk(succ, i, n - 1))
  {
  }

  /** On a one-cycle ring with injective successors, n steps lead back to the start. */
  lemma WalkCloses(succ: seq<nat>, i: nat)
    requires Closed(succ) && Injective(succ) && i < |succ| && DistinctWalk(succ, i, |succ|)
    ensures Walk(succ, i, |succ|) == i
  {
    var n := |succ|;
    DistinctWalkCovers(succ, i, Walk(succ, i, n));
    var t: nat :| t < n && Meets(succ, i, t, Walk(succ, i, n));
    ClosesOrRepeats(succ, i, t, n);
  }

  /** One cycle over all nodes: every node is reached from every node. */
  ghost predicate OneCycle(succ: seq<nat>) {
    Closed(succ) && forall i: nat, j: nat :: i < |succ| && j < |succ| ==> Reaches(succ, i, j)
  }

  lemma {:induction false} WalkShift(succ: seq<nat>, i: nat, a: nat, b: nat)
    requires Closed(succ) && i < |succ|
    ensures Walk(succ, i, a + b) == Walk(succ, Walk(succ, i, a), b)
  {
    if b > 0 { WalkShift(succ, i, a, b - 1); }
  }

  /** Reaching every node from one start suffices when successors are injective. */
  lemma OneStartSuffices(succ: seq<nat>, s: nat)
    requires Closed(succ) && Injective(succ) && s < |succ|
    requires forall j: nat :: j < |succ| ==> Reaches(succ, s, j)
    ensures OneCycle(succ) && DistinctWalk(succ, s, |succ|)
  {
    forall a: nat, b: nat | a < b < |succ| ensures Walk(succ, s, a) != Walk(succ, s, b) {
      if Walk(succ, s, a) == Walk(succ, s, b) { RepeatLeavesOut(succ, s, a, b); }
    }
    WalkCloses(succ, s);
    forall i: nat, j: nat | i < |succ| && j < |succ| ensures Reaches(succ, i, j) {
      DistinctWalkCovers(succ, s, i);
      DistinctWalkCovers(succ, s, j);
      var a: nat :| a < |succ| && Meets(succ, s, a, i);
      var b: nat :| b < |succ| && Meets(succ, s, b, j);
      WalkShift(succ, s, a, |succ| - a);
      WalkShift(succ, i, |succ| - a, b);
      assert Meets(succ, i, |succ| - a + b, j);
    }
  }

  // ----- routes -----

  /** The first time the walk from h meets x. */
  ghost function Hops(succ: seq<nat>, h: nat, x: nat, t: nat): (k: nat)
    requires Closed(succ) && h < |succ| && Walk(succ, h, t) == x
    ensures k <= t && Walk(succ, h, k) == x && forall u: nat :: u < k ==> !Meets(succ, h, u, x)
  {
    if u: nat :| u < t && Meets(succ, h, u, x) then Hops(succ, h, x, u) else t
  }

  ghost function HopsTo(succ: seq<nat>, h: nat, x: nat): (k: nat)
    requires OneCycle(succ) && h < |succ| && x < |succ|
    ensures Walk(succ, h, k) == x && forall u: nat :: u < k ==> !Meets(succ, h, u, x)
  {
    assert Reaches(succ, h, x);
    var t: nat :| Meets(succ, h, t, x);
    Hops(succ, h, x, t)
  }

  /** The nodes visited from h until x is met, both included. */
  ghost function Route(succ: seq<nat>, h: nat, x: nat): (r: seq<nat>)
    requires OneCycle(succ) && h < |succ| && x < |succ|
    ensures |r| == HopsTo(succ, h, x) + 1 && forall j: nat :: j < |r| ==> r[j] == Walk(succ, h, j)
  {
    seq(HopsTo(succ, h, x) + 1, j requires 0 <= j => Walk(succ, h, j))
  }

  lemma RepeatHitsEarlier(succ: seq<nat>, h: nat, a: nat, b: nat, d: nat)
    requires Closed(succ) && h < |succ| && a < b && Walk(succ, h, a) == Walk(succ, h, b)
    ensures Meets(succ, h, a + d, Walk(succ, h, b + d))
  {
    WalkOn(succ, h, a, b, d);
  }

  /** The route meets no node twice, so it has at most n - 1 hops. */
  lemma RouteIsSimple(succ: seq<nat>, h: nat, x: nat)
    requires OneCycle(succ) && h < |succ| && x < |succ|
    ensures DistinctWalk(succ, h, HopsTo(succ, h, x) + 1)
    ensures |Route(succ, h, x)| <= |succ|
  {
    var k := HopsTo(succ, h, x);
    forall a: nat, b: nat | a < b < k + 1 ensures Walk(succ, h, a) != Walk(succ, h, b) {
      if Walk(succ, h, a) == Walk(succ, h, b) {
        RepeatHitsEarlier(succ, h, a, b, k - b);
        assert false;
      }
    }
    DistinctWalkFits(succ, h, k + 1);
  }

  /** The route covers the whole ring exactly when its last node is the one before its first. */
  lemma RouteCoversIff(succ: seq<nat>, h: nat, x: nat)
    requires OneCycle(succ) && Injective(succ) && h < |succ| && x < |succ|
    ensures |Route(succ, h, x)| == |succ| <==> succ[x] == h
  {
    var k := HopsTo(succ, h, x);
    RouteIsSimple(succ, h, x);
    if succ[x] == h {
      assert Walk(succ, h, 0) == Walk(succ, h, k + 1);
      if k + 1 < |succ| {
        RepeatLeavesOut(succ, h, 0, k + 1);
        assert false;
      }
    }
    if k + 1 == |succ| { WalkCloses(succ, h); }
  }

  /** Renaming the nodes of a ring renames its walks. */
  lemma {:induction false} WalkImage(succ: seq<nat>, next: seq<nat>, name: seq<nat>, i: nat, t: nat)
    requires Closed(succ) && Closed(next) && |next| == |succ| == |name| && i < |succ|
    requires forall j :: 0 <= j < |name| ==> name[j] < |next| && next[name[j]] == name[succ[j]]
    ensures Walk(next, name[i], t) == name[Walk(succ, i, t)]
  {
    if t > 0 { WalkImage(succ, next, name, i, t - 1); }
  }
}
