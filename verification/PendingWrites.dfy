/**
 The client's table of writes awaiting their ACK. Request ids are taken from a counter, the
 ACK listener removes acknowledged writes, and a failed Write RPC removes its write; the three
 can happen in any order, and an ACK can arrive twice, late, or for an unknown id.
 */
module PendingWrites {
  datatype PendingWrite = PendingWrite(id: nat, key: string, value: string)

  datatype Event =
    | Issue(key: string, value: string)
    | Ack(id: nat)
    | Fail(id: nat)

  /** `acked` and `failed` are the writes removed by an ACK and by a failed call. */
  datatype Table = Table(
    nextId: nat, pending: map<nat, PendingWrite>, issued: map<nat, PendingWrite>, acked: set<nat>, failed: set<nat>)

  function Next(t: Table, e: Event): Table {
    match e
    case Issue(key, value) =>
      var w := PendingWrite(t.nextId, key, value);
      t.(nextId := t.nextId + 1, pending := t.pending[t.nextId := w], issued := t.issued[t.nextId := w])
    case Ack(id) =>
      if id in t.pending then t.(pending := t.pending - {id}, acked := t.acked + {id}) else t
    case Fail(id) =>
      if id in t.pending then t.(pending := t.pending - {id}, failed := t.failed + {id}) else t
  }

  function Run(events: seq<Event>): Table {
    if events == [] then Table(1, map[], map[], {}, {})
    else Next(Run(events[..|events|-1]), events[|events|-1])
  }

  ghost predicate Consistent(t: Table) {
    && t.nextId >= 1
    && (forall id :: id in t.issued <==> 1 <= id < t.nextId)
    && (forall id :: id in t.pending ==> id in t.issued && t.pending[id] == t.issued[id])
    && (forall id :: id in t.issued ==> t.issued[id].id == id)
    && t.acked !! t.failed && t.acked <= t.issued.Keys && t.failed <= t.issued.Keys
    && t.pending.Keys == t.issued.Keys - t.acked - t.failed
  }

  /** The table is always issued minus acknowledged minus failed. */
  lemma {:induction false} PendingIsIssuedMinusResolved(events: seq<Event>)
    ensures Consistent(Run(events))
  {
    if events != [] {
      PendingIsIssuedMinusResolved(events[..|events|-1]);
    }
  }

  /** Event i issues the write that gets this id. */
  ghost predicate IssuesAt(events: seq<Event>, i: nat, id: nat) {
    i < |events| && events[i].Issue? && Run(events[..i]).nextId == id
  }

  ghost predicate ResolvedAfter(events: seq<Event>, i: nat, id: nat) {
    exists j :: i < j < |events| && (events[j] == Ack(id) || events[j] == Fail(id))
  }

  ghost predicate Outstanding(events: seq<Event>, id: nat) {
    exists i :: IssuesAt(events, i, id) && !ResolvedAfter(events, i, id)
  }

  lemma OutstandingStep(events: seq<Event>, id: nat)
    requires events != []
    ensures var before, e := events[..|events|-1], events[|events|-1];
            Outstanding(events, id) <==>
              (e.Issue? && Run(before).nextId == id) || (Outstanding(before, id) && e != Ack(id) && e != Fail(id))
  {
    var n := |events| - 1;
    var before, e := events[..n], events[n];
    forall i | 0 <= i < n ensures IssuesAt(events, i, id) <==> IssuesAt(before, i, id) {
      assert events[..i] == before[..i];
    }
    forall i | 0 <= i < n
      ensures ResolvedAfter(events, i, id) <==> ResolvedAfter(before, i, id) || e == Ack(id) || e == Fail(id)
    {
      if ResolvedAfter(before, i, id) {
        var j :| i < j < n && (before[j] == Ack(id) || before[j] == Fail(id));
        assert events[j] == before[j];
      }
      if e == Ack(id) || e == Fail(id) { assert events[n] == e; }
    }
    if e.Issue? && Run(before).nextId == id {
      assert IssuesAt(events, n, id) && !ResolvedAfter(events, n, id);
    } else if Outstanding(before, id) && e != Ack(id) && e != Fail(id) {
      var i :| IssuesAt(before, i, id) && !ResolvedAfter(before, i, id);
      assert IssuesAt(events, i, id) && !ResolvedAfter(events, i, id);
    }
  }

  /**
   A write is in the table exactly when it was issued and neither its ACK nor the failure of
   its call came after that; whatever came before it was issued does not matter.
   */
  lemma {:induction false} PendingIffUnresolved(events: seq<Event>, id: nat)
    ensures id in Run(events).pending <==> Outstanding(events, id)
  {
    if events != [] {
      PendingIffUnresolved(events[..|events|-1], id);
      OutstandingStep(events, id);
    }
  }

  /** How many of the events issue a write. */
  function Issues(events: seq<Event>): nat {
    if events == [] then 0
    else Issues(events[..|events|-1]) + if events[|events|-1].Issue? then 1 else 0
  }

  /** Ids are handed out in order, from one. */
  lemma {:induction false} IdsCountUp(events: seq<Event>)
    ensures Run(events).nextId == Issues(events) + 1
  {
    if events != [] { IdsCountUp(events[..|events|-1]); }
  }

  lemma {:induction false} IdsGrow(events: seq<Event>, i: nat)
    requires i <= |events|
    ensures Run(events[..i]).nextId <= Run(events).nextId
    ensures i < |events| && events[i].Issue? ==> Run(events[..i]).nextId < Run(events).nextId
    decreases |events|
  {
    if i == |events| {
      assert events[..i] == events;
    } else {
      var before := events[..|events|-1];
      assert before[..i] == events[..i];
      IdsGrow(before, i);
    }
  }

  /** The write issued at event i is kept under its id with that event's key and value. */
  lemma {:induction false} IssuedRecord(events: seq<Event>, i: nat, id: nat)
    requires IssuesAt(events, i, id)
    ensures var t := Run(events);
            && id in t.issued
            && t.issued[id].id == id && t.issued[id].key == events[i].key && t.issued[id].value == events[i].value
            && (id in t.pending ==> t.pending[id] == t.issued[id])
    decreases |events|
  {
    var n := |events| - 1;
    var before := events[..n];
    PendingIsIssuedMinusResolved(events);
    if i < n {
      assert before[..i] == events[..i];
      IssuedRecord(before, i, id);
      IdsGrow(before, i);
    }
  }

  /** Event j is the first to resolve the write issued at event i. */
  ghost predicate ResolvedFirstAt(events: seq<Event>, i: nat, j: nat, id: nat) {
    && i < j < |events| && (events[j] == Ack(id) || events[j] == Fail(id))
    && forall x :: i < x < j ==> events[x] != Ack(id) && events[x] != Fail(id)
  }

  /** A write counts as acknowledged, or as failed, by what resolved it first. */
  ghost predicate ResolvedBy(events: seq<Event>, id: nat, e: Event) {
    exists i: nat, j: nat ::
      IssuesAt(events, i, id) && ResolvedFirstAt(events, i, j, id) && j < |events| && events[j] == e
  }

  lemma ShorterRun(events: seq<Event>, i: nat, id: nat)
    requires i < |events| - 1
    ensures IssuesAt(events, i, id) <==> IssuesAt(events[..|events|-1], i, id)
  {
    assert events[..i] == events[..|events|-1][..i];
  }

  lemma ShorterResolution(events: seq<Event>, i: nat, j: nat, id: nat)
    requires i < j < |events| - 1
    ensures ResolvedFirstAt(events, i, j, id) <==> ResolvedFirstAt(events[..|events|-1], i, j, id)
  {
    var before := events[..|events|-1];
    forall x | i < x <= j ensures events[x] == before[x] {}
  }

  /** The last event resolves a write first exactly when the write was outstanding before it. */
  lemma LastResolution(events: seq<Event>, i: nat, id: nat)
    requires i < |events| - 1
    ensures var n := |events| - 1;
            ResolvedFirstAt(events, i, n, id) <==>
              !ResolvedAfter(events[..n], i, id) && (events[n] == Ack(id) || events[n] == Fail(id))
  {
    var n := |events| - 1;
    forall x | i < x < n ensures events[x] == events[..n][x] {}
  }

  lemma ResolvedByLater(events: seq<Event>, id: nat, e: Event)
    requires events != [] && (e == Ack(id) || e == Fail(id))
    ensures var before, last := events[..|events|-1], events[|events|-1];
            ResolvedBy(before, id, e) || (Outstanding(before, id) && last == e) ==> ResolvedBy(events, id, e)
  {
    hide IssuesAt, ResolvedFirstAt, ResolvedAfter;
    var n := |events| - 1;
    var before, last := events[..n], events[n];
    if ResolvedBy(before, id, e) {
      var i: nat, j: nat :| IssuesAt(before, i, id) && ResolvedFirstAt(before, i, j, id) && j < n && before[j] == e;
      FirstIsInside(before, i, j, id);
      ShorterRun(events, i, id);
      ShorterResolution(events, i, j, id);
    } else if Outstanding(before, id) && last == e {
      var i: nat :| IssuesAt(before, i, id) && !ResolvedAfter(before, i, id);
      IssueIsInside(before, i, id);
      ShorterRun(events, i, id);
      LastResolution(events, i, id);
    }
  }

  lemma FirstIsInside(events: seq<Event>, i: nat, j: nat, id: nat)
    requires ResolvedFirstAt(events, i, j, id)
    ensures i < j < |events|
  {
  }

  lemma IssueIsInside(events: seq<Event>, i: nat, id: nat)
    requires IssuesAt(events, i, id)
    ensures i < |events|
  {
  }

  lemma ResolvedByEarlier(events: seq<Event>, id: nat, e: Event)
    requires events != [] && ResolvedBy(events, id, e)
    ensures var before, last := events[..|events|-1], events[|events|-1];
            ResolvedBy(before, id, e) || (Outstanding(before, id) && last == e)
  {
    hide IssuesAt, ResolvedFirstAt, ResolvedAfter;
    var n := |events| - 1;
    var i: nat, j: nat :|
      IssuesAt(events, i, id) && ResolvedFirstAt(events, i, j, id) && j < |events| && events[j] == e;
    FirstIsInside(events, i, j, id);
    ShorterRun(events, i, id);
    if j < n {
      ShorterResolution(events, i, j, id);
      assert events[..n][j] == e;
    } else {
      LastResolution(events, i, id);
    }
  }

  /** The acknowledged writes are those an ACK resolved first, the failed ones those a failure did. */
  lemma {:induction false} ResolvedIff(events: seq<Event>, id: nat)
    ensures id in Run(events).acked <==> ResolvedBy(events, id, Ack(id))
    ensures id in Run(events).failed <==> ResolvedBy(events, id, Fail(id))
  {
    if events != [] {
      var before := events[..|events|-1];
      ResolvedIff(before, id);
      PendingIffUnresolved(before, id);
      forall e | e == Ack(id) || e == Fail(id)
        ensures ResolvedBy(events, id, e) <==>
                ResolvedBy(before, id, e) || (Outstanding(before, id) && events[|events|-1] == e)
      {
        ResolvedByLater(events, id, e);
        if ResolvedBy(events, id, e) { ResolvedByEarlier(events, id, e); }
      }
    }
  }

  class PendingTable {
    var nextId: nat
    var pending: map<nat, PendingWrite>
    ghost var issued: map<nat, PendingWrite>
    ghost var acked: set<nat>
    ghost var failed: set<nat>

    ghost function State(): Table
      reads this
    {
      Table(nextId, pending, issued, acked, failed)
    }

    constructor ()
      ensures State() == Run([]) && nextId == 1 && pending == map[]
    {
      nextId, pending := 1, map[];
      issued, acked, failed := map[], {}, {};
    }

    method AddPending(key: string, value: string) returns (id: nat)
      modifies this
      ensures State() == Next(old(State()), Issue(key, value)) && id == old(nextId)
      ensures old(Consistent(State())) ==> id !in old(issued)
      ensures pending.Keys == old(pending.Keys) + {id} && nextId == id + 1
      ensures pending[id].id == id && pending[id].key == key && pending[id].value == value
      ensures forall other :: other in old(pending) && other != id ==> pending[other] == old(pending)[other]
    {
      id := nextId;
      nextId := nextId + 1;
      pending := pending[id := PendingWrite(id, key, value)];
      issued := issued[id := PendingWrite(id, key, value)];
    }

    /** An ACK for an id that is not pending is ignored. */
    method AckPending(id: nat) returns (found: bool)
      modifies this
      ensures State() == Next(old(State()), Ack(id)) && found == (id in old(pending))
      ensures pending == old(pending) - {id} && nextId == old(nextId)
    {
      if id !in pending { return false; }
      pending := pending - {id};
      acked := acked + {id};
      return true;
    }

    method RemovePendingRequest(id: nat) returns (erased: bool)
      modifies this
      ensures State() == Next(old(State()), Fail(id)) && erased == (id in old(pending))
      ensures pending == old(pending) - {id} && nextId == old(nextId)
    {
      if id !in pending { return false; }
      pending := pending - {id};
      failed := failed + {id};
      return true;
    }
  }
}
