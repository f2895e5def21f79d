/**
 CROWN: a ring on which every key has its own head, and the node just before that head is
 the key's tail. Neither role is checked by the write and read handlers; a propagate carries
 its origin, from which each node decides whether it is the tail.
 */
module CrownReplication {
  import opened Wrappers
  import opened KeyStates
  import opened Messages
  import Text

  datatype OriginError = Missing | NotNumeric | OutOfRange | OutsideRing

  /** The origin index carried by a propagate. */
  function ParseOrigin(origin: string, ringSize: int): (r: Result<int, OriginError>)
    ensures r.Ok? ==> 0 <= r.value < ringSize
  {
    if origin == "" then Err(Missing)
    else
      var parsed := Text.Stoll(origin);
      if parsed.None? || parsed.value.consumed != |origin| then Err(NotNumeric)
      else if parsed.value.value < 0 || parsed.value.value > Text.INT_MAX then Err(OutOfRange)
      else if parsed.value.value >= ringSize then Err(OutsideRing)
      else Ok(parsed.value.value)
  }

  function TailIndex(head: int, ringSize: int): int
    requires ringSize > 0
  {
    (head + ringSize - 1) % ringSize
  }

  /** The tail is the node numbered just before the head. */
  lemma TailBefore(head: nat, ringSize: nat)
    requires head < ringSize
    ensures TailIndex(head, ringSize) == if head == 0 then ringSize - 1 else head - 1
  {
    if head > 0 { assert (head + ringSize - 1) % ringSize == head - 1; }
  }

  lemma TailIs(head: nat, ringSize: nat)
    requires ringSize > 0
    ensures TailIndex(head, ringSize) == (head + ringSize - 1) % ringSize
  {
  }

  /** So the head is the node numbered just after the tail, round the ring. */
  lemma TailIffNext(head: nat, ringSize: nat, tail: nat)
    requires head < ringSize && tail < ringSize
    ensures TailIndex(head, ringSize) == tail <==> head == (tail + 1) % ringSize
  {
    TailBefore(head, ringSize);
    if tail + 1 < ringSize { assert (tail + 1) % ringSize == tail + 1; }
  }

  /** Whether this node is where the propagate ends. */
  function IsRequestTail(node: NodeCfg, origin: string): Result<bool, OriginError> {
    if node.ringSize <= 1 then Ok(true)
    else
      match ParseOrigin(origin, node.ringSize)
      case Err(e) => Err(e)
      case Ok(head) => Ok(node.index == TailIndex(head, node.ringSize))
  }

  /** One critical section of a CROWN handler at `node`. */
  function Section(node: NodeCfg, origin: string, ks: KeyState, m: Item): Effect {
    match m
    case WriteCall(at, req) =>
      var ks1 := AssignNext(ks);
      Effect(ks1, Assigned, [WriteAssigned(at, ks1.next, req)], origin)
    case WriteAssigned(at, v, req) =>
      Effect(RecordIfNewer(ks, req.value, v), Recorded(v), [WriteRecorded(at, v, req)], origin)
    case WriteRecorded(at, v, req) =>
      if node.ringSize <= 1 then Effect(CommitIfNewer(ks, req.value, v), Cleaned(v), [TailMarked(at, v, req)], origin)
      else Effect(ks, Quiet, Forward(node, v, req), Text.ToString(node.index))
    case PropSent(at, v, req) =>
      if v == 0 then Effect(ks, Quiet, [], origin)
      else Effect(RecordIfNewer(ks, req.value, v), Recorded(v), [PropRecorded(at, v, req)], origin)
    case PropRecorded(at, v, req) =>
      var isTail := IsRequestTail(node, origin);
      if isTail.Err? then Effect(ks, Quiet, [], origin)
      else if isTail.value then Effect(CommitIfNewer(ks, req.value, v), Cleaned(v), [TailMarked(at, v, req)], origin)
      else Effect(ks, Quiet, Forward(node, v, req), origin)
    case TailMarked(at, v, req) =>
      Effect(ks, Quiet, ClientNotice(v, req), origin)
    case ReadCall(at, rid) =>
      Effect(ks, Quiet, [ReadReply(at, rid, ReadCommitted(ks))], origin)
    case _ =>
      Effect(ks, Quiet, [], origin)   // the Ack and VersionQuery RPCs are refused
  }

  /** Every ring index survives being written as an origin id and read back. */
  lemma OriginRoundTrip(head: nat, ringSize: int)
    requires head < ringSize <= Text.INT_MAX
    ensures ParseOrigin(Text.ToString(head), ringSize) == Ok(head)
  {
    Text.DigitsAreDigits(head);
    Text.DigitsParseBack(head, Text.LLONG_MIN, Text.LLONG_MAX);
  }

  /**
   A lone node is always the tail; on a larger ring the propagate that came in at `head` ends at
   the node numbered just before it, and an origin that is no ring index is an error.
   */
  lemma RequestTailIff(node: NodeCfg, origin: string, head: nat)
    requires head < node.ringSize <= Text.INT_MAX
    ensures IsRequestTail(node, Text.ToString(head)) ==
            Ok(node.ringSize == 1 || node.index == if head == 0 then node.ringSize - 1 else head - 1)
    ensures node.ringSize > 1 ==> (IsRequestTail(node, origin).Err? <==> ParseOrigin(origin, node.ringSize).Err?)
  {
    OriginRoundTrip(head, node.ringSize);
    TailBefore(head, node.ringSize);
    hide ParseOrigin;
  }

  /** What becomes of an origin id that is a numeral. */
  lemma OriginNumeral(origin: string, spaces: string, sign: string, digits: string, ringSize: int)
    requires Text.IsNumeral(origin, spaces, sign, digits)
    ensures var v := Text.SignedValue(sign, digits);
            ParseOrigin(origin, ringSize) ==
              if v < Text.LLONG_MIN || v > Text.LLONG_MAX then Err(NotNumeric)
              else if v < 0 || v > Text.INT_MAX then Err(OutOfRange)
              else if v >= ringSize then Err(OutsideRing)
              else Ok(v)
  {
    Text.NumeralIsRead(origin, spaces, sign, digits, "", Text.LLONG_MIN, Text.LLONG_MAX);
    assert origin + "" == origin;
    hide Text.ParsePrefix;
  }

  /** Of all other texts the empty one is missing and the rest are not numeric. */
  lemma OriginNotNumeral(origin: string, ringSize: int)
    requires !exists spaces, sign, digits :: Text.IsNumeral(origin, spaces, sign, digits)
    ensures ParseOrigin(origin, ringSize) == Err(if origin == "" then Missing else NotNumeric)
  {
    var parsed := Text.Stoll(origin);
    assert origin[..|origin|] == origin;
    if parsed.Some? && parsed.value.consumed == |origin| {
      var spaces, sign, digits := Text.ReadIsNumeral(origin, Text.LLONG_MIN, Text.LLONG_MAX);
      assert false;
    }
  }
}
