/**
 The class every design delegates to: one node's versioned store for all keys, updated in
 place, the queue of ACKs owed to the predecessor, and the ACK RPCs made to clients.
 */
module ReplicationSupports {
  import opened Wrappers
  import opened KeyStates
  import opened Messages

  datatype AckRequest = AckRequest(key: string, version: nat, req: Req)

  // ----- the predecessor-ACK queue and its worker -----

  /** `queued` lists every ACK ever enqueued and `taken` those the worker has taken. */
  datatype AckQueue = AckQueue(queue: seq<AckRequest>, running: bool, queued: seq<AckRequest>, taken: seq<AckRequest>)

  datatype AckEvent =
    | EnqueueAck(ack: AckRequest)
    | Round           // the worker re-checks its condition and takes the front ACK if it may
    | StartWorker
    | StopWorker

  function AckNext(q: AckQueue, e: AckEvent): AckQueue {
    match e
    case EnqueueAck(a) => q.(queue := q.queue + [a], queued := q.queued + [a])
    case Round =>
      if q.running && q.queue != [] then q.(queue := q.queue[1..], taken := q.taken + [q.queue[0]]) else q
    case StartWorker => q.(running := true)
    case StopWorker => q.(running := false)
  }

  function AckRun(events: seq<AckEvent>): AckQueue {
    if events == [] then AckQueue([], false, [], [])
    else AckNext(AckRun(events[..|events|-1]), events[|events|-1])
  }

  /** The ACKs enqueued by a sequence of events, in order. */
  function Enqueued(events: seq<AckEvent>): seq<AckRequest> {
    if events == [] then []
    else Enqueued(events[..|events|-1])
         + if events[|events|-1].EnqueueAck? then [events[|events|-1].ack] else []
  }

  /** The worker takes exactly a prefix of what was enqueued, across any stops and restarts. */
  lemma {:induction false} AcksLeaveInOrder(events: seq<AckEvent>)
    ensures AckRun(events).taken + AckRun(events).queue == AckRun(events).queued == Enqueued(events)
  {
    if events != [] {
      var before, e := events[..|events|-1], events[|events|-1];
      AcksLeaveInOrder(before);
      var q := AckRun(before);
      if e.EnqueueAck? {
        assert q.taken + (q.queue + [e.ack]) == q.queued + [e.ack];
      } else if e.Round? && q.running && q.queue != [] {
        assert q.taken + [q.queue[0]] + q.queue[1..] == q.taken + q.queue;
      }
    }
  }

  /** A stopped worker takes nothing until it is started again. */
  lemma {:induction false} StoppedWorkerTakesNothing(events: seq<AckEvent>, more: seq<AckEvent>)
    requires !AckRun(events).running && StartWorker !in more
    ensures AckRun(events + more).taken == AckRun(events).taken && !AckRun(events + more).running
  {
    if more == [] {
      assert events + more == events;
    } else {
      var before, e := more[..|more|-1], more[|more|-1];
      assert events + more == (events + before) + [e];
      assert (events + more)[..|events + more| - 1] == events + before;
      StoppedWorkerTakesNothing(events, before);
      assert e in more;
    }
  }

  /** A stop holds the queue back until the next start, whatever else happens in between. */
  lemma StopHoldsTheQueue(events: seq<AckEvent>, more: seq<AckEvent>)
    requires StartWorker !in more
    ensures AckRun(events + [StopWorker] + more).taken == AckRun(events).taken
    ensures !AckRun(events + [StopWorker] + more).running
  {
    var stopped := events + [StopWorker];
    assert stopped[..|stopped|-1] == events;
    StoppedWorkerTakesNothing(stopped, more);
  }

  /** Event i started the worker and nothing has stopped it since. */
  ghost predicate StartedAt(events: seq<AckEvent>, i: nat) {
    i < |events| && events[i] == StartWorker && forall j :: i < j < |events| ==> events[j] != StopWorker
  }

  /** The worker runs exactly from a start to the next stop. */
  lemma {:induction false} RunningIffStarted(events: seq<AckEvent>)
    ensures AckRun(events).running <==> exists i :: StartedAt(events, i)
  {
    if events != [] {
      var n := |events| - 1;
      var before, e := events[..n], events[n];
      RunningIffStarted(before);
      if e == StartWorker {
        assert StartedAt(events, n);
      } else if e != StopWorker {
        if i :| StartedAt(before, i) { assert StartedAt(events, i); }
        if i :| StartedAt(events, i) { assert StartedAt(before, i); }
      } else {
        assert events[n] == StopWorker;
      }
    }
  }

  function Rounds(k: nat): (events: seq<AckEvent>)
    ensures |events| == k && forall i :: 0 <= i < k ==> events[i] == Round
  {
    seq(k, _ => Round)
  }

  lemma FrontAfter<T>(s: seq<T>, m: nat)
    requires m < |s|
    ensures s[m..] != [] && s[..m] + [s[m..][0]] == s[..m + 1] && s[m..][1..] == s[m + 1..]
  {
  }

  lemma RoundTakes(events: seq<AckEvent>)
    requires AckRun(events).running
    ensures var q := AckRun(events);
            AckRun(events + [Round]) ==
            if q.queue == [] then q else q.(queue := q.queue[1..], taken := q.taken + [q.queue[0]])
  {
    var after := events + [Round];
    assert after[..|after|-1] == events;
  }

  /** k rounds of a running worker take the k front ACKs, or all if there are fewer. */
  lemma {:induction false} RunningWorkerTakes(events: seq<AckEvent>, k: nat)
    requires AckRun(events).running
    ensures var q, q' := AckRun(events), AckRun(events + Rounds(k));
            var m := if k < |q.queue| then k else |q.queue|;
            && q'.taken == q.taken + q.queue[..m]
            && q'.queue == q.queue[m..]
            && q'.running
  {
    hide AckRun, Rounds;
    if k == 0 {
      assert events + Rounds(0) == events;
    } else {
      assert events + Rounds(k) == events + Rounds(k - 1) + [Round];
      RunningWorkerTakes(events, k - 1);
      RoundTakes(events + Rounds(k - 1));
      var q := AckRun(events);
      if k <= |q.queue| { FrontAfter(q.queue, k - 1); }
    }
  }

  /**
   After a start the worker delivers: k rounds take the k front ACKs, and as many rounds as
   there are ACKs queued leave the queue empty with every ACK ever enqueued taken.
   */
  lemma StartedWorkerTakes(events: seq<AckEvent>, k: nat)
    ensures var q, q' := AckRun(events), AckRun(events + [StartWorker] + Rounds(k));
            && q'.taken == q.taken + q.queue[..if k < |q.queue| then k else |q.queue|]
            && (k >= |q.queue| ==> q'.queue == [] && q'.taken == Enqueued(events))
  {
    var started := events + [StartWorker];
    assert started[..|started|-1] == events;
    RunningWorkerTakes(started, k);
    AcksLeaveInOrder(events);
  }

  class ReplicationSupport {
    var byKey: map<string, KeyState>
    var predAckQueue: seq<AckRequest>
    var workerRunning: bool
    var clientAcks: seq<AckRequest>     // Ack RPCs made to clients
    ghost var queuedAcks: seq<AckRequest>
    ghost var takenAcks: seq<AckRequest>

    ghost function Acks(): AckQueue
      reads this
    {
      AckQueue(predAckQueue, workerRunning, queuedAcks, takenAcks)
    }

    constructor ()
      ensures byKey == map[] && clientAcks == [] && predAckQueue == [] && !workerRunning && Acks() == AckRun([])
    {
      byKey, predAckQueue, workerRunning, clientAcks := map[], [], false, [];
      queuedAcks, takenAcks := [], [];
    }

    method AssignNextVersion(key: string) returns (version: nat)
      modifies this`byKey
      ensures byKey == old(byKey)[key := AssignNext(StateOf(old(byKey), key))]
      ensures version == byKey[key].next
      ensures version == if key in old(byKey) then old(byKey)[key].next + 1 else 1
      ensures key in old(byKey) ==> byKey[key] == old(byKey)[key].(next := version)
    {
      var state := StateOf(byKey, key);
      state := state.(next := state.next + 1);
      byKey := byKey[key := state];
      return state.next;
    }

    method RecordLocalWrite(key: string, value: string, version: nat)
      modifies this`byKey
      ensures byKey == old(byKey)[key := RecordWrite(StateOf(old(byKey), key), value, version)]
      ensures var s, t := StateOf(old(byKey), key), byKey[key];
              && t.next == (if version > s.next then version else s.next)
              && t.pending == s.pending[version := value]
              && (if version >= s.seenVersion then t.seenVersion == version && t.seenValue == value
                  else t.seenVersion == s.seenVersion && t.seenValue == s.seenValue)
              && t.commVersion == s.commVersion && t.commValue == s.commValue
    {
      var state := StateOf(byKey, key);
      if version > state.next { state := state.(next := version); }
      state := state.(pending := state.pending[version := value]);
      if version >= state.seenVersion {
        state := state.(seenVersion := version);
        state := state.(seenValue := value);
      }
      byKey := byKey[key := state];
    }

    method RecordLocalWriteIfNewer(key: string, value: string, version: nat)
      modifies this`byKey
      ensures byKey == old(byKey)[key := RecordIfNewer(StateOf(old(byKey), key), value, version)]
      ensures var s, t := StateOf(old(byKey), key), byKey[key];
              && t.next == (if version > s.next then version else s.next)
              && (if version > s.seenVersion then t.seenVersion == version && t.seenValue == value
                  else t.seenVersion == s.seenVersion && t.seenValue == s.seenValue)
              && t.commVersion == s.commVersion && t.commValue == s.commValue && t.pending == s.pending
    {
      var state := StateOf(byKey, key);
      if version > state.next { state := state.(next := version); }
      if version > state.seenVersion {
        state := state.(seenVersion := version);
        state := state.(seenValue := value);
      }
      byKey := byKey[key := state];
    }

    /** The erase loop: every pending version not above `floor` is removed, one at a time. */
    static method EraseCovered(pending: map<nat, string>, floor: nat) returns (kept: map<nat, string>)
      ensures forall v :: v in kept <==> v in pending && floor < v
      ensures forall v :: v in kept ==> kept[v] == pending[v]
    {
      kept := pending;
      var todo := pending.Keys;
      while todo != {}
        invariant todo <= kept.Keys <= pending.Keys
        invariant forall v :: v in pending && v !in todo ==> (v in kept <==> floor < v)
        invariant forall v :: v in kept ==> kept[v] == pending[v]
        decreases |todo|
      {
        var v :| v in todo;
        if v <= floor { kept := kept - {v}; }
        todo := todo - {v};
      }
    }

    method MarkVersionClean(key: string, version: nat)
      modifies this`byKey
      ensures byKey == old(byKey)[key := MarkClean(StateOf(old(byKey), key), version)]
      ensures var s, t := StateOf(old(byKey), key), byKey[key];
              && t.next == (if version > s.next then version else s.next)
              && t.seenVersion == s.seenVersion && t.seenValue == s.seenValue
              && (if version in s.pending && version >= s.commVersion
                  then t.commVersion == version && t.commValue == s.pending[version]
                  else t.commVersion == s.commVersion && t.commValue == s.commValue)
              && (forall v :: v in t.pending <==> v in s.pending && (v > t.commVersion || t.commVersion == 0))
              && (forall v :: v in t.pending ==> t.pending[v] == s.pending[v])
    {
      var state := StateOf(byKey, key);
      if version > state.next { state := state.(next := version); }
      if version in state.pending && version >= state.commVersion {
        state := state.(commVersion := version);
        state := state.(commValue := state.pending[version]);
      }
      if state.commVersion == 0 {
        byKey := byKey[key := state];
        return;
      }
      var kept := EraseCovered(state.pending, state.commVersion);
      assert kept == KeepAbove(state.pending, state.commVersion);
      byKey := byKey[key := state.(pending := kept)];
    }

    method MarkVersionCommittedIfNewer(key: string, value: string, version: nat)
      modifies this`byKey
      ensures byKey == old(byKey)[key := CommitIfNewer(StateOf(old(byKey), key), value, version)]
      ensures var s, t := StateOf(old(byKey), key), byKey[key];
              && t.next == (if version > s.next then version else s.next)
              && (if version > s.seenVersion then t.seenVersion == version && t.seenValue == value
                  else t.seenVersion == s.seenVersion && t.seenValue == s.seenValue)
              && (if version > s.commVersion then t.commVersion == version && t.commValue == value
                  else t.commVersion == s.commVersion && t.commValue == s.commValue)
              && (forall v :: v in t.pending <==> v in s.pending && v > t.commVersion)
              && (forall v :: v in t.pending ==> t.pending[v] == s.pending[v])
    {
      var state := StateOf(byKey, key);
      if version > state.next { state := state.(next := version); }
      if version > state.commVersion {
        state := state.(commVersion := version);
        state := state.(commValue := value);
      }
      if version > state.seenVersion {
        state := state.(seenVersion := version);
        state := state.(seenValue := value);
      }
      var kept := EraseCovered(state.pending, state.commVersion);
      assert kept == KeepAbove(state.pending, state.commVersion);
      byKey := byKey[key := state.(pending := kept)];
    }

    /** read_clean and read_committed. */
    method ReadCommittedValue(key: string) returns (found: Found)
      ensures found == ReadCommitted(StateOf(byKey, key))
      ensures found.found <==> key in byKey && byKey[key].commVersion != 0
      ensures found.found ==> found.value == byKey[key].commValue && found.version == byKey[key].commVersion
      ensures !found.found ==> found.value == "" && found.version == 0
    {
      if key !in byKey || byKey[key].commVersion == 0 { return MISSING; }
      return Found(true, byKey[key].commValue, byKey[key].commVersion);
    }

    method ReadLatestSeen(key: string) returns (found: Found)
      ensures found == ReadSeen(StateOf(byKey, key))
      ensures found.found <==> key in byKey && byKey[key].seenVersion != 0
      ensures found.found ==> found.value == byKey[key].seenValue && found.version == byKey[key].seenVersion
      ensures !found.found ==> found.value == "" && found.version == 0
    {
      if key !in byKey || byKey[key].seenVersion == 0 { return MISSING; }
      return Found(true, byKey[key].seenValue, byKey[key].seenVersion);
    }

    method ReadValueAtVersion(key: string, version: nat) returns (value: Option<string>)
      ensures value == ValueAt(StateOf(byKey, key), version)
      ensures value.Some? <==>
                key in byKey && version != 0 && (version == byKey[key].commVersion || version in byKey[key].pending)
      ensures value.Some? && version == byKey[key].commVersion ==> value.value == byKey[key].commValue
      ensures value.Some? && version != byKey[key].commVersion ==> value.value == byKey[key].pending[version]
    {
      if key !in byKey || version == 0 { return None; }
      var state := byKey[key];
      if state.commVersion == version { return Some(state.commValue); }
      if version !in state.pending { return None; }
      return Some(state.pending[version]);
    }

    method SendClientAck(ack: AckRequest)
      modifies this`clientAcks
      ensures clientAcks == old(clientAcks) + if ack.req.client == "" then [] else [ack]
    {
      if ack.req.client == "" { return; }
      clientAcks := clientAcks + [ack];
    }

    method EnqueuePredecessorAck(ack: AckRequest)
      modifies this`predAckQueue, this`queuedAcks
      ensures Acks() == AckNext(old(Acks()), EnqueueAck(ack))
      ensures predAckQueue == old(predAckQueue) + [ack]
    {
      predAckQueue := predAckQueue + [ack];
      queuedAcks := queuedAcks + [ack];
    }

    method StartAckWorkers()
      modifies this`workerRunning
      ensures Acks() == AckNext(AckNext(old(Acks()), StopWorker), StartWorker)
      ensures workerRunning
    {
      StopAckWorkers();
      workerRunning := true;
    }

    method StopAckWorkers()
      modifies this`workerRunning
      ensures Acks() == AckNext(old(Acks()), StopWorker)
      ensures !workerRunning
    {
      workerRunning := false;
    }

    /** One round of the worker loop; the ACK it takes is sent only if there is a predecessor. */
    method AckWorkerRound(predecessor: Option<nat>) returns (sent: Option<Item>)
      modifies this`predAckQueue, this`takenAcks
      ensures Acks() == AckNext(old(Acks()), Round)
      ensures if workerRunning && old(predAckQueue) != []
              then predAckQueue == old(predAckQueue)[1..] && takenAcks == old(takenAcks) + [old(predAckQueue)[0]]
              else predAckQueue == old(predAckQueue) && takenAcks == old(takenAcks)
      ensures sent.Some? <==> workerRunning && old(predAckQueue) != [] && predecessor.Some?
      ensures sent.Some? ==>
                sent.value == AckSent(predecessor.value, old(predAckQueue)[0].version, old(predAckQueue)[0].req)
    {
      if !workerRunning || predAckQueue == [] { return None; }
      var ack := predAckQueue[0];
      predAckQueue := predAckQueue[1..];
      takenAcks := takenAcks + [ack];
      if predecessor.None? { return None; }
      return Some(AckSent(predecessor.value, ack.version, ack.req));
    }
  }
}
