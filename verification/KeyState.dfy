/**
 The versioned state one node keeps for one key, and the operations the replication
 support class performs on it, each inside one critical section of its state mutex.
 Versions are natural numbers; version 0 means "none".
 */
module KeyStates {
  import opened Wrappers

  /** What a store read returns: the value and version, or not found. */
  datatype Found = Found(found: bool, value: string, version: nat)

  const MISSING := Found(false, "", 0)

  datatype KeyState = KeyState(
    next: nat,
    seenVersion: nat, seenValue: string,
    commVersion: nat, commValue: string,
    pending: map<nat, string>)

  /** The entry a key gets the first time it is touched. */
  const FRESH := KeyState(0, 0, "", 0, "", map[])

  function Max(a: nat, b: nat): nat {
    if a < b then b else a
  }

  /** The entries of `pending` above `floor`. */
  function KeepAbove(pending: map<nat, string>, floor: nat): map<nat, string> {
    map v | v in pending && floor < v :: pending[v]
  }

  function AssignNext(ks: KeyState): KeyState {
    ks.(next := ks.next + 1)
  }

  /** CRAQ: remember the version as pending; it becomes the latest seen if at least as new. */
  function RecordWrite(ks: KeyState, value: string, version: nat): KeyState {
    var ks1 := ks.(next := Max(ks.next, version), pending := ks.pending[version := value]);
    if version >= ks.seenVersion then ks1.(seenVersion := version, seenValue := value) else ks1
  }

  /** CHAIN and CROWN: only the newest version seen is kept. */
  function RecordIfNewer(ks: KeyState, value: string, version: nat): KeyState {
    var ks1 := ks.(next := Max(ks.next, version));
    if version > ks.seenVersion then ks1.(seenVersion := version, seenValue := value) else ks1
  }

  /** CRAQ: commit a pending version, then forget every pending version now covered. */
  function MarkClean(ks: KeyState, version: nat): KeyState {
    var ks1 := ks.(next := Max(ks.next, version));
    var ks2 := if version in ks1.pending && version >= ks1.commVersion
               then ks1.(commVersion := version, commValue := ks1.pending[version])
               else ks1;
    if ks2.commVersion == 0 then ks2 else ks2.(pending := KeepAbove(ks2.pending, ks2.commVersion))
  }

  /** CHAIN and CROWN: commit the carried value if it is newer than the committed one. */
  function CommitIfNewer(ks: KeyState, value: string, version: nat): KeyState {
    var ks1 := ks.(next := Max(ks.next, version));
    var ks2 := if version > ks1.commVersion then ks1.(commVersion := version, commValue := value) else ks1;
    var ks3 := if version > ks2.seenVersion then ks2.(seenVersion := version, seenValue := value) else ks2;
    ks3.(pending := KeepAbove(ks3.pending, ks3.commVersion))
  }

  /** The version assigned after a record or a mark is above the one given and all those known before. */
  lemma NextIsFresh(ks: KeyState, value: string, version: nat)
    ensures AssignNext(ks).next > ks.next
    ensures AssignNext(RecordWrite(ks, value, version)).next > Max(ks.next, version)
    ensures AssignNext(RecordIfNewer(ks, value, version)).next > Max(ks.next, version)
    ensures AssignNext(MarkClean(ks, version)).next > Max(ks.next, version)
    ensures AssignNext(CommitIfNewer(ks, value, version)).next > Max(ks.next, version)
  {
  }

  function ReadCommitted(ks: KeyState): Found {
    if ks.commVersion == 0 then MISSING else Found(true, ks.commValue, ks.commVersion)
  }

  function ReadSeen(ks: KeyState): Found {
    if ks.seenVersion == 0 then MISSING else Found(true, ks.seenValue, ks.seenVersion)
  }

  function ValueAt(ks: KeyState, version: nat): Option<string> {
    if version == 0 then None
    else if ks.commVersion == version then Some(ks.commValue)
    else if version in ks.pending then Some(ks.pending[version])
    else None
  }

  function StateOf(m: map<string, KeyState>, key: string): KeyState {
    if key in m then m[key] else FRESH
  }
}
