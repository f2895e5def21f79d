/**
 Client requests, node configuration, and the units of work that can be outstanding:
 an RPC in flight, or an RPC handler suspended between two critical sections.
 */
module Messages {
  import opened Wrappers
  import opened KeyStates

  /** A client write. An empty client address asks for no acknowledgement. */
  datatype Req = Req(value: string, client: string, id: nat)

  datatype Mode = CHAIN | CRAQ | CROWN

  /** How a design records a version locally. */
  function Record(mode: Mode, ks: KeyState, value: string, v: nat): KeyState {
    if mode == CRAQ then RecordWrite(ks, value, v) else RecordIfNewer(ks, value, v)
  }

  /** How a design commits a version locally. */
  function Commit(mode: Mode, ks: KeyState, value: string, v: nat): KeyState {
    if mode == CRAQ then MarkClean(ks, v) else CommitIfNewer(ks, value, v)
  }

  /** One node's configuration; neighbours are node positions in place of addresses. */
  datatype NodeCfg = NodeCfg(
    id: string, index: int, isHead: bool, isTail: bool,
    pred: Option<nat>, succ: Option<nat>, tailStub: Option<nat>, ringSize: int)

  datatype ReadError =
    | NotTail              // CHAIN read sent to a node that is not the tail
    | NotFound             // nothing committed here
    | NoRoute              // version query with neither tail nor successor stub
    | NotCommittedAtTail   // the tail reports no committed version
    | CannotMaterialize    // the version named by the tail is not held locally any more

  datatype Item =
    | WriteCall(at: nat, req: Req)                        // Write RPC to node `at`
    | WriteAssigned(at: nat, version: nat, req: Req)      // handle_write after assign_next_version
    | WriteRecorded(at: nat, version: nat, req: Req)      // handle_write after the local record
    | WriteRejected(at: nat, req: Req)                    // error reply
    | PropSent(at: nat, version: nat, req: Req)           // Propagate RPC queued for or sent to `at`
    | PropRecorded(at: nat, version: nat, req: Req)       // handle_propagate after the local record
    | TailMarked(at: nat, version: nat, req: Req)         // committed at the tail, client ACK due
    | PredAckDue(at: nat, version: nat, req: Req)         // client ACK sent, predecessor ACK due
    | ClientAck(version: nat, req: Req)                   // Ack RPC to the client
    | ClientAcked(version: nat, req: Req)                 // Ack received by the client
    | AckSent(at: nat, version: nat, req: Req)            // Ack RPC queued for or sent to `at`
    | AckMarked(at: nat, version: nat, req: Req)          // handle_ack after the local mark
    | ReadCall(at: nat, rid: nat)                         // Read RPC to node `at`
    | ReadClean(at: nat, rid: nat, clean: Found)          // handle_read after read_clean
    | QuerySent(at: nat, home: nat, rid: nat, clean: Found)            // VersionQuery at `at`
    | QueryReply(home: nat, rid: nat, clean: Found, tailVersion: nat)  // its answer, back at `home`
    | ReadDone(at: nat, rid: nat, version: nat, value: string)         // successful reply
    | ReadFailed(at: nat, rid: nat, error: ReadError)                  // error reply

  /** The node that works on the item next; the client for ClientAck and ClientAcked. */
  function At(m: Item): Option<nat> {
    match m
    case ClientAck(_, _) => None
    case ClientAcked(_, _) => None
    case QueryReply(home, _, _, _) => Some(home)
    case _ => Some(m.at)
  }

  /** Replies already delivered: nothing remains to be done for them. */
  predicate Inert(m: Item) {
    m.WriteRejected? || m.ClientAcked? || m.ReadDone? || m.ReadFailed?
  }

  /** RPCs on the wire (or queued to be sent), which a failed call can lose. */
  predicate InTransit(m: Item) {
    m.WriteCall? || m.PropSent? || m.AckSent? || m.ClientAck? || m.ReadCall? || m.QuerySent? || m.QueryReply?
  }

  /** What a critical section did to the versions of its key. */
  datatype Note = Quiet | Assigned | Recorded(version: nat) | Cleaned(version: nat)

  /** The result of one critical section and the code that follows it up to the next one. */
  datatype Effect = Effect(ks: KeyState, note: Note, out: seq<Item>, origin: string)

  /** send_client_ack does nothing for an empty client address. */
  function ClientNotice(version: nat, req: Req): seq<Item> {
    if req.client == "" then [] else [ClientAck(version, req)]
  }

  /** The dispatcher drops a propagate that has no successor stub. */
  function Forward(node: NodeCfg, version: nat, req: Req): seq<Item> {
    if node.succ.Some? then [PropSent(node.succ.value, version, req)] else []
  }

  function ReadReply(at: nat, rid: nat, found: Found): Item {
    if found.found then ReadDone(at, rid, found.version, found.value) else ReadFailed(at, rid, NotFound)
  }
}
