# Verified model of the CHAIN, CRAQ and CROWN replication designs

This project models the replication logic of a small key-value store and proves what its three
designs promise: CHAIN (a linear chain, read at the tail), CRAQ (the same chain, read at any node)
and CROWN (a ring on which every key has its own head and tail).

    dafny verify dfyconfig.toml

## How it is built

**Sections.** A handler takes the state mutex several separate times. Each mutex section, with the
code that follows it up to the next one, is one function of the node's configuration, the key's
state and the work item it serves (`ChainReplication.Section`, `CraqReplication.Section`,
`CrownReplication.Section`). An item is an RPC in flight or a handler between two sections.

**Lanes.** `Lanes` is the life of one key along a chain of n positions. Outstanding items form a bag:
any of them may move next, so RPCs on one link and one key are reordered without restriction; RPCs may
also be lost, and (more than the code can do) delivered twice. On it stand the invariant
(`LaneInvariant`), linearizability of reads (`LaneReads`), the refinement of an atomic log
(`AtomicLog`), acknowledgements, leaks, convergence, message counts and termination
(`LaneCounting`), and the fate of CRAQ's dirty reads (`CraqReads`).

**Clusters.** `Clusters` is the whole system: real nodes, all keys, one network. `ClusterProjection`
proves that a cluster run, seen through any one key along that key's route, is a lane run; CROWN
becomes CHAIN. `ClusterTheorems` and `ClusterDelivery` restate the lane results for the cluster.

**Configurations.** `Ring`, `CrownTopology` and `CrownRoutes` cover the validator's graph algorithm and
the routes of accepted rings; `KeyRouting` the hash ownership; `ConfigGenerator` and `GeneratedConfigs`
the generator, and the end-to-end theorems on what it generates; `GlobalRoles` the search for a head
and a tail. `HeadlessClusters` is what a chain deployed on one shared endpoint comes to.

**Code that changes state.** `ReplicationSupport.dfy`, `PropagateDispatcher.dfy`,
`HandlerClasses.dfy`, `PendingWrites.dfy` and `Benchmarks.dfy` follow the source's classes and loops.
The handler methods are proved to do what their design's sections do one after the other
(`Handlers.RunAlone`), and `HandlerRuns` proves that this is a stretch of a cluster run, so that the
theorems above speak about the methods; the store methods are proved to compute the functions of
`KeyStates` on which the invariants are proved.

## Where code and documentation differ

- The repository's README (lines 181-182) promises that CROWN refuses calls to the wrong node. The
  handlers check nothing. `ClusterTheorems.WriteRefusedIff` and `ReadRefusedIff` say exactly which
  designs refuse. `MisroutedWrites.AckedWritesAreReadableIff` says exactly when acknowledged writes
  can be read: on every accepted ring, if and only if the key's writes enter at its head;
  `MisroutedWriteIsInvisible` is a run in which they do not. The other CROWN theorems therefore
  assume the client's routing, and only that.
- README line 229 makes the key's tail the head's predecessor on the configured ring; the code takes
  the node numbered one below the head. The validator accepts rings on which the two differ, and then
  a key misses nodes: `CrownRoutes.FullReplicationIffIdOrder` and
  `GeneratedConfigs.AcceptedRingCanSkipNode`. Generated rings are in id order.
- README line 12 says there are no mutexes. The code locks every store operation, and the sections
  follow the locks.
- CRAQ's "cannot materialize" error cannot occur when nothing interleaves with the read
  (`CraqReads.RunReadAtOnceIsExact`), but it can when something does: `CraqReads.DirtyReadCanFail` gives
  the run and `CraqReads.DirtyReadSucceedsIff` the exact condition.

## Model

| member | source | states |
|---|---|---|
| LaneInvariant.RecordKeepsCell | src/replication/common/chain_style_replication_support.cpp:18-44 | recording a version, in either form, makes seen = max(seen, version) with the head-assigned value, whatever the arrival order |
| LaneInvariant.CommitKeepsCell | src/replication/common/chain_style_replication_support.cpp:115-163 | marking a recorded version acts as committed = max(committed, version) with the head-assigned value; in CRAQ every recorded version stays pending or covered |
| LaneInvariant.SectionIsLawful | src/replication/craq/craq_replication.cpp:128-282 | whatever a mutex section of CHAIN or CRAQ does to its store is one of four lawful things, each with its precondition on the neighbouring position |
| LaneInvariant.StepKeepsInv | src/replication/craq/craq_replication.cpp:128-317 | every step (section, call, loss, duplication) keeps the invariant on all stores and all outstanding items |
| LaneInvariant.RunKeepsInv | src/replication/chain/chain_replication.cpp:118-212 | the invariant holds in every state of every CHAIN or CRAQ run |
| LaneInvariant.RunSandwich | src/replication/craq/craq_replication.cpp:229-282 | committed versions rise towards the tail, seen versions fall towards it, tail committed <= tail seen, head seen <= head counter, in every state of every run |
| LaneInvariant.AckCommitsMaximum | src/replication/common/chain_style_replication_support.cpp:115-138 | in every reachable CRAQ state a recorded version is pending or covered, and serving an ACK sets committed to the maximum with the head-assigned value |
| LaneInvariant.VersionsGrow | src/replication/common/chain_style_replication_support.h:89-98 | seen and committed versions of a node never go back during a run |
| KeyStates.NextIsFresh | src/replication/common/chain_style_replication_support.cpp:11-44 | after recording or marking a version, in either form, the next version assigned is above it and above every counter value before |
| LaneReads.CleanReadIsTailRead | src/replication/craq/craq_replication.cpp:173-200 | if nothing newer than the clean version is seen after read_clean, that version was the tail's committed one when read_clean ran: the order of the two local reads is what makes it exact |
| LaneReads.ReadsAreLinearizable | src/replication/craq/craq_replication.cpp:173-227 | a finished read, anywhere, returned the version and value committed at the tail at an instant within the read |
| LaneReads.ReadsRespectRealTime | src/replication/craq/craq_replication.cpp:173-227 | a read invoked after an instant returns no less than every write acknowledged and every read answered by then |
| LaneReads.AckMeansCommitted | src/replication/chain/chain_replication.cpp:190-203 | a client ACK for version v implies tail committed >= v from then on |
| LaneReads.AckNamesItsWrite | src/replication/chain/chain_replication.cpp:196-201 | an ACK carries the client and request the head numbered with its version |
| AtomicLog.StepRefinesAtomicLog | src/replication/chain/chain_replication.cpp:118-212 | each step is a step of one atomic log: number a write, commit a longer prefix of numbered unacknowledged writes, acknowledge a committed one, or nothing; ACKs vanish only by loss |
| AtomicLog.RunRefinesAtomicLog | src/replication/chain/chain_replication.cpp:118-212 | every run refines the atomic log from its empty state, and the tail's committed read is always its last committed entry |
| LaneCounting.RunConserves | src/replication/craq/craq_replication.cpp:229-282 | for every numbered version, outstanding plus settled tokens never exceed what is due, and equal it when nothing is lost |
| LaneCounting.AckedAtMostOnce | src/replication/common/chain_style_replication_support.cpp:230-250 | without duplication a write is acknowledged to its client at most once |
| LaneCounting.AckedExactlyOnce | src/replication/common/chain_style_replication_support.cpp:230-250 | at lossless quiescence a write has its ACK if and only if it named a client |
| LaneCounting.RunHasNoLeak | src/replication/common/chain_style_replication_support.cpp:115-138 | a version once marked clean at a node is never pending there again, even if recorded late |
| LaneCounting.PendingBound | src/replication/common/chain_style_replication_support.cpp:115-138 | pending versions are among the recorded and unmarked ones, in number too |
| LaneCounting.Convergence | src/replication/craq/craq_replication.cpp:229-282 | at lossless quiescence every committing node holds the head's last write as committed and seen, and nothing pending |
| LaneCounting.ExactMessageCounts | src/replication/craq/craq_replication.cpp:229-282 | W writes on n nodes quiesce after exactly W*(n-1) propagates, and in CRAQ W*(n-1) predecessor ACKs |
| LaneCounting.WorkTerminates | src/replication/craq/craq_replication.cpp:75-95 | with no new calls, at most as many steps remain as the outstanding effort, which every step lowers |
| LaneCounting.OutstandingCanMove | src/replication/craq/craq_replication.cpp:75-95 | no deadlock: in every reachable state every RPC and every suspended handler can move |
| LaneCounting.EveryRunComesToRest | src/replication/craq/craq_replication.cpp:229-282 | every run can be driven to quiescence within its outstanding effort, and without loss the message counts are then exact |
| CraqReads.QueryReachesTail | src/replication/craq/craq_replication.cpp:284-317 | a version query, hop by hop or direct, ends at the tail with its committed version |
| CraqReads.TailVersionIsHeld | src/replication/common/chain_style_replication_support.cpp:91-113 | every node can materialize the tail's committed version, with the tail's value |
| CraqReads.RunReadAtOnceIsExact | src/replication/craq/craq_replication.cpp:173-227 | in every reachable state a read nothing interleaves with returns the tail's committed version and value at any node; it fails only if the tail has committed nothing, with the tail's "no version" error exactly at a node before the tail that has seen a write, and as not found elsewhere |
| CraqReads.DirtyReadSucceedsIff | src/replication/craq/craq_replication.cpp:202-227 | the end of an interleaved dirty read succeeds iff the clean version is the one named or the local commit has not passed it |
| CraqReads.DirtyReadCanFail | src/replication/craq/craq_replication.cpp:218-221 | a run without loss or duplication in which a dirty read ends in "cannot materialize" |
| CraqReads.QuiescentReadsAreLocal | src/replication/craq/craq_replication.cpp:187-200 | at lossless quiescence every node answers reads from its own clean state with the last write |
| ClusterProjection.OtherKeyFire | src/replication/crown/crown_replication.cpp:157-262 | a section serving another key leaves this key's projection unchanged |
| ClusterProjection.TailByOrigin | src/replication/crown/crown_replication.cpp:138-147 | from the origin id alone a node finds itself the tail exactly when it ends the key's route |
| ClusterProjection.StepSimulates | src/replication/crown/crown_replication.cpp:157-262 | every cluster step is a step of the key's lane or leaves the lane as it is |
| ClusterProjection.ClusterRefinesLane | src/replication/crown/crown_replication.cpp:138-262 | a cluster run seen through one key along its route is a lane run; correctly routed CROWN refines CHAIN |
| ClusterTheorems.ClusterReadsAreLinearizable | src/replication/craq/craq_replication.cpp:173-227 | for all three designs, all keys and any node: finished reads return what was committed at the key's tail within the read |
| ClusterTheorems.ClusterReadsRespectRealTime | src/replication/craq/craq_replication.cpp:173-227 | the same real-time order for the whole system |
| ClusterTheorems.ClusterAckMeansCommitted | src/replication/common/chain_style_replication_support.cpp:230-250 | in every design an acknowledged version is covered at the key's tail from then on |
| ClusterTheorems.CrownCommitLocality | src/replication/crown/crown_replication.cpp:206-262 | in CROWN only the key's tail ever commits the key; a read at any other node fails rather than returning stale data |
| ClusterTheorems.CrownReadsAtTail | src/replication/crown/crown_replication.cpp:206-224 | every successful CROWN read was served by the key's tail |
| ClusterTheorems.WriteRefusedIff | src/replication/crown/crown_replication.cpp:157-163 | a write is refused for its destination exactly by a CHAIN or CRAQ node that is not the head |
| ClusterTheorems.ReadRefusedIff | src/replication/chain/chain_replication.cpp:165-168 | a read is refused for its destination exactly by a CHAIN node that is not the tail |
| ClusterDelivery.ClusterAckedAtMostOnce | src/replication/common/chain_style_replication_support.cpp:230-250 | in every design, without duplication, no write is acknowledged twice |
| ClusterDelivery.ClusterAckedExactlyOnce | src/replication/common/chain_style_replication_support.cpp:230-250 | once a key has settled without loss, exactly the writes that named a client have their ACK |
| ClusterDelivery.ClusterConverges | src/replication/craq/craq_replication.cpp:229-282 | once a key has settled without loss, its tail (in CRAQ every node) holds the last numbered write |
| ClusterDelivery.ClusterMessageCounts | src/replication/crown/crown_replication.cpp:226-262 | once a key with W writes has settled without loss, its route of r nodes saw exactly W*(r-1) propagates, in CRAQ as many predecessor ACKs |
| MisroutedWrites.AckedWritesAreReadableIff | src/replication/crown/crown_replication.cpp:157-262 | on every accepted ring, when a key's writes all enter at one node, each acknowledged version is covered at the node the client reads from iff that node is the key's head; otherwise every read there answers not found |
| MisroutedWrites.MisroutedWriteIsInvisible | src/replication/crown/crown_replication.cpp:157-204 | the failing case occurs: a write of a key with head 0 sent to node 1 is acknowledged, and the key's read target still answers not found |
| MisroutedWrites.RingIsGenerated | setup/generate_mode_configs.py:46-76 | the two-node ring of that case is generated and accepted |
| KeyRouting.HeadOfA | src/node/token_hash.h:11-21 | the key "a" has head 0 on two nodes, so the case has a key |
| KeyRouting.HashFoldsInOrder | src/node/token_hash.h:15-20 | the hash is the fold of the bytes from the offset basis, first byte first |
| KeyRouting.HashOfAb | src/node/token_hash.h:11-21 | the published hash value of the two-byte key "ab" |
| KeyRouting.HeadIsRemainder | src/client/client.cpp:837-841 | the head index is the remainder of the folded hash by the number of nodes |
| KeyRouting.RolesOf | src/node/node.cpp:61-88 | outside CROWN the configured flags decide; in CROWN a node without a place on the ring is neither head nor tail, the others are head of the hashes that leave their own index and tail of those that leave the next |
| CrownReplication.OriginNumeral | src/replication/crown/crown_replication.cpp:111-136 | an origin of white space, sign and digits is accepted exactly when its value is a ring index; otherwise its size decides the error |
| CrownReplication.OriginNotNumeral | src/replication/crown/crown_replication.cpp:111-136 | every other origin is refused, as missing if empty and as not numeric if not |
| CrownReplication.OriginRoundTrip | src/replication/crown/crown_replication.cpp:194-194 | every ring index survives being sent as an origin id and parsed back |
| CrownReplication.TailBefore | src/replication/crown/crown_replication.cpp:144-146 | the tail index is the head's minus one, wrapping at zero |
| CrownReplication.RequestTailIff | src/replication/crown/crown_replication.cpp:138-147 | a propagate from head h ends at the node numbered before h, a lone node always ends it, and on larger rings it is refused exactly when its origin is |
| HandlerRuns.TrailIsRunAlone | src/replication/craq/craq_replication.cpp:128-282 | a handler run in one piece hands over one list of RPCs and replies; sorted into queues it is what the handler classes are proved to produce |
| HandlerRuns.HandlersAreRuns | src/replication/craq/craq_replication.cpp:128-282 | serving a waiting RPC in one piece is a stretch of a cluster run: same new state, same RPCs, nothing else changed, so what holds of all runs holds of the handler methods |
| HandlerOutcomes.WriteAlone | src/replication/craq/craq_replication.cpp:128-171 | the sections of a write in all: the next version is recorded, and committed and acknowledged here or sent on with the right origin |
| HandlerOutcomes.PropagateAlone | src/replication/crown/crown_replication.cpp:226-262 | the sections of a propagate in all, for each design, including a bad origin noticed after the record |
| HandlerOutcomes.AckAlone | src/replication/craq/craq_replication.cpp:266-282 | the sections of an ACK in all: mark clean, and owe the predecessor an ACK unless head |
| HandlerOutcomes.ReadAlone | src/replication/craq/craq_replication.cpp:173-200 | the local part of a read in all, for each design |
| HandlerClasses.ChainReplica.HandleWrite | src/replication/chain/chain_replication.cpp:118-163 | a node that is not the head refuses and changes nothing; the head records the next version, and as tail commits and acknowledges it, else queues one propagate with its own id as origin; the whole is what the write's sections do, and other keys are untouched |
| HandlerClasses.ChainReplica.HandlePropagate | src/replication/chain/chain_replication.cpp:185-212 | records; the tail commits and acknowledges, any other node queues one propagate with the same origin; as the sections do |
| HandlerClasses.ChainReplica.HandleRead | src/replication/chain/chain_replication.cpp:165-183 | the committed value at the tail, not found if there is none, refused elsewhere; as the section does |
| HandlerClasses.ChainReplica.HandleAck | src/replication/chain/chain_replication.cpp:214-218 | refuses the RPC and changes nothing, as its section does |
| HandlerClasses.CrownReplica.HandleWrite | src/replication/crown/crown_replication.cpp:157-204 | at any node: a lone node commits and acknowledges, any other queues one propagate with its own index as origin; as the sections do |
| HandlerClasses.CrownReplica.HandlePropagate | src/replication/crown/crown_replication.cpp:226-262 | as the sections do: commit and acknowledge at the end of the route, else queue one propagate with the same origin; the error tells version 0 and each kind of bad origin apart, and neither queues nor acknowledges |
| HandlerClasses.CrownReplica.HandleRead | src/replication/crown/crown_replication.cpp:206-224 | the committed value, or not found, at any node; as the section does |
| HandlerClasses.CrownReplica.HandleAck | src/replication/crown/crown_replication.cpp:264-268 | refuses the RPC and changes nothing, as its section does |
| HandlerClasses.CraqReplica.HandleWrite | src/replication/craq/craq_replication.cpp:128-171 | as CHAIN's, with the version recorded as pending and marked clean by a head that is also the tail; no predecessor ACK is queued |
| HandlerClasses.CraqReplica.HandlePropagate | src/replication/craq/craq_replication.cpp:229-264 | as CHAIN's, and a tail that is not the head queues one predecessor ACK |
| HandlerClasses.CraqReplica.HandleAck | src/replication/craq/craq_replication.cpp:266-282 | marks the version clean and queues one predecessor ACK unless it is the head; as the sections do |
| HandlerClasses.CraqReplica.HandleVersionQuery | src/replication/craq/craq_replication.cpp:284-317 | the tail's committed version at the tail, else what the tail answers if there is a stub to it, else what the successor answers, else no route; a failed call is an error |
| HandlerClasses.CraqReplica.HandleRead | src/replication/craq/craq_replication.cpp:173-227 | local when clean or at the tail; when dirty, by what the queried node returns: its failure, no version, the value held at the version it names, or the materialization error; as the read's sections do |
| HandledReads.AnswerIsTails | src/replication/craq/craq_replication.cpp:284-317 | the query handlers of the nodes compose to the tail's committed version, from any node |
| HandledReads.HandledReadIsExact | src/replication/craq/craq_replication.cpp:173-227 | in every reachable state a read served by the handlers, query included, returns the tail's committed version and value, or the one error that fits when there is none |
| ReplicationSupports.ReplicationSupport.AssignNextVersion | src/replication/common/chain_style_replication_support.cpp:11-16 | only this key's counter moves, by one, to the version returned |
| ReplicationSupports.ReplicationSupport.RecordLocalWrite | src/replication/common/chain_style_replication_support.cpp:18-31 | the key's new state is the recording on which the invariant is proved; other keys keep theirs |
| ReplicationSupports.ReplicationSupport.RecordLocalWriteIfNewer | src/replication/common/chain_style_replication_support.cpp:33-44 | the same for the if-newer form |
| ReplicationSupports.ReplicationSupport.EraseCovered | src/replication/common/chain_style_replication_support.cpp:131-137 | the erase loop leaves exactly the pending versions above the committed one, with their values |
| ReplicationSupports.ReplicationSupport.MarkVersionClean | src/replication/common/chain_style_replication_support.cpp:115-138 | the key's new state is the marking on which the invariant is proved |
| ReplicationSupports.ReplicationSupport.MarkVersionCommittedIfNewer | src/replication/common/chain_style_replication_support.cpp:140-163 | the same for the if-newer form |
| ReplicationSupports.ReplicationSupport.ReadValueAtVersion | src/replication/common/chain_style_replication_support.cpp:91-113 | finds the value of a committed or pending version, and of no other |
| ReplicationSupports.ReplicationSupport.EnqueuePredecessorAck | src/replication/common/chain_style_replication_support.cpp:252-258 | appends to the queue, running or not |
| ReplicationSupports.ReplicationSupport.StartAckWorkers | src/replication/common/chain_style_replication_support.cpp:260-275 | the flag is set and the queue is kept |
| ReplicationSupports.ReplicationSupport.StopAckWorkers | src/replication/common/chain_style_replication_support.cpp:260-275 | the flag is cleared and the queue is kept |
| ReplicationSupports.ReplicationSupport.AckWorkerRound | src/replication/common/chain_style_replication_support.cpp:276-307 | takes the front ACK only while running, and sends it if there is a predecessor |
| ReplicationSupports.AcksLeaveInOrder | src/replication/common/chain_style_replication_support.cpp:252-308 | across any stops and restarts the worker takes exactly a prefix of what was enqueued, in order |
| ReplicationSupports.StoppedWorkerTakesNothing | src/replication/common/chain_style_replication_support.cpp:260-286 | a worker that is not running takes nothing until the next start |
| ReplicationSupports.StopHoldsTheQueue | src/replication/common/chain_style_replication_support.cpp:260-286 | whatever happened before, after a stop nothing is taken until the next start |
| ReplicationSupports.RunningIffStarted | src/replication/common/chain_style_replication_support.cpp:260-286 | the worker runs iff some start has no stop after it |
| ReplicationSupports.StartedWorkerTakes | src/replication/common/chain_style_replication_support.cpp:276-307 | after a start, k rounds take exactly the k front ACKs, or all; as many rounds as there are ACKs queued leave none behind |
| PropagateDispatchers.PropagateDispatcher.constructor | src/replication/chain/chain_replication.cpp:35-45 | starts min(8, processors) waiting workers, four if the count is unknown |
| PropagateDispatchers.PropagateDispatcher.EnqueueTask | src/replication/chain/chain_replication.cpp:58-72 | accepts the task unless there is no successor |
| PropagateDispatchers.PropagateDispatcher.Wake | src/replication/chain/chain_replication.cpp:75-84 | takes the front task, also after a stop; with the queue empty it exits if stopped and waits if not; nothing else changes |
| PropagateDispatchers.RunConserves | src/replication/chain/chain_replication.cpp:33-103 | for any number of workers and any interleaving: tasks are taken in the order accepted, and taken = attempted + in call, task by task |
| PropagateDispatchers.ShutdownDrains | src/replication/chain/chain_replication.cpp:47-84 | when all workers have exited the queue holds exactly what was queued after the last exit, and every other accepted task was attempted exactly once |
| PropagateDispatchers.LateIff | src/replication/chain/chain_replication.cpp:58-72 | there are no late tasks exactly when nothing was queued after a stop |
| PropagateDispatchers.AcceptedAreQueued | src/replication/chain/chain_replication.cpp:58-72 | the accepted tasks are exactly those queued, in order |
| PropagateDispatchers.ShutdownCompletes | src/replication/chain/chain_replication.cpp:47-56 | from every reachable state with the stop flag raised, the workers' own events bring every worker to its exit, within two for each queued task and each call being made and one for each waiting worker |
| PropagateDispatchers.ShutdownBound | src/replication/chain/chain_replication.cpp:47-103 | in any order, each worker event lowers that number by exactly one, so no run of them is longer |
| CrownTopology.ValidateCrownTopology | src/client/client.cpp:729-789 | accepts exactly the valid rings, and each error is that of the first faulty node of the first check that fails; the last error of the source, an open ring, is never given |
| CrownTopology.IndexNodes | src/client/client.cpp:734-759 | builds exact endpoint and id indexes, or reports the first check failed by the first faulty node |
| CrownTopology.FaultCases | src/client/client.cpp:734-759 | a node's fault is a repeated endpoint, else a repeated id, else a missing neighbour |
| CrownTopology.CheckLinks | src/client/client.cpp:729-789 | accepts iff successors and predecessors are mutual inverses; otherwise reports the first node at fault: unknown predecessor, else unknown successor, else inconsistent |
| CrownTopology.CheckLink | src/client/client.cpp:764-778 | one node: predecessor unknown iff it is no endpoint, successor unknown iff only the predecessor is one, inconsistent iff both are and do not point back |
| CrownTopology.CheckCycle | src/client/client.cpp:729-789 | the walk from the first node accepts iff the successors form one cycle over all nodes; otherwise it meets a node twice, and never ends open |
| CrownTopology.BuildById | src/client/kv_client.cpp:106-125 | indexing by id succeeds iff the ids are a permutation of 0..n-1, which every accepted ring's are |
| CrownTopology.InRangeIffPermutation | src/client/client.cpp:1100-1112 | distinct ids are all below n iff none below n is missing |
| Ring.RouteIsSimple | src/replication/crown/crown_replication.cpp:226-262 | on one cycle the walk from a head to the key's tail meets no node twice and has at most n nodes |
| Ring.RouteCoversIff | src/replication/crown/crown_replication.cpp:226-262 | that walk covers the ring iff the tail's successor is the head |
| CrownRoutes.AcceptedRingHasRoutes | src/client/client.cpp:729-789 | on every accepted ring a write from any head reaches the node the client reads from within n-1 hops, before returning to the head |
| CrownRoutes.RouteCoversRingIff | src/replication/crown/crown_replication.cpp:138-147 | a head's keys reach all nodes iff that head follows, on the ring, the node numbered before it |
| CrownRoutes.FullReplicationIffIdOrder | src/client/client.cpp:729-789 | every key is fully replicated iff ring order is id order, which the validator does not check |
| CrownRoutes.CrownServiceIsLinearizable | src/client/client.cpp:837-849 | end to end on any accepted ring with client routing: successful reads come from the key's tail and are linearizable |
| KeyRouting.Fnv1a64 | src/node/token_hash.h:11-21 | the servers' hash loop computes FNV-1a |
| KeyRouting.HashKey | src/client/client.cpp:827-834 | the client's copy computes the same function |
| KeyRouting.CrownHeadFor | src/client/client.cpp:837-841 | the write target is the table entry of the head index |
| KeyRouting.CrownTailFor | src/client/client.cpp:844-849 | the read target is the table entry of the tail index |
| KeyRouting.ServersAgreeWithClient | src/node/node.cpp:61-88 | exactly the nodes the client writes to and reads from consider themselves the key's head and tail; they coincide only on one node |
| ConfigGenerator.AddrRoundTrip | src/client/client.cpp:657-665 | host:port parses back for any host, even one with colons |
| ConfigGenerator.ParseAddrIff | src/client/client.cpp:657-665 | an address is accepted, as its host and port, iff it is a host, a colon and a numeral in int range, followed by anything without a colon that does not start with a digit |
| ConfigGenerator.NoColonIff | src/client/client.cpp:657-665 | the missing colon is reported iff there is none |
| ConfigGenerator.BuildCrownConfig | setup/generate_mode_configs.py:46-76 | node i has id i, port base + i in dev and base otherwise, the override as host if there is a non-empty one, else 127.0.0.1 in dev, else the machine numbered 1201 + i; its neighbours are the endpoints of nodes i - 1 and i + 1 round the ring; no node is marked head or tail |
| ConfigGenerator.BuildLinearConfig | setup/generate_mode_configs.py:79-110 | the same ids, hosts and ports; neighbours without wrapping, the first node marked head and the last tail |
| ConfigGenerator.EndpointsUniqueIff | setup/generate_mode_configs.py:32-43 | generated endpoints are distinct iff at most one node, dev, or no host override |
| GeneratedConfigs.GeneratedRingAcceptedIff | setup/generate_mode_configs.py:46-76 | the validator accepts a generated ring iff one node, dev, or no host override |
| GeneratedConfigs.GeneratedRingReplicatesFully | setup/generate_mode_configs.py:57-71 | an accepted generated ring is in id order, so every key reaches all nodes |
| GeneratedConfigs.GeneratedAddressesParse | setup/generate_mode_configs.py:22-23 | the neighbour addresses written parse back to the neighbours' hosts and ports |
| GeneratedConfigs.AcceptedRingCanSkipNode | src/client/client.cpp:729-789 | an accepted three-node ring on which a key never reaches the third node |
| GeneratedConfigs.GeneratedChainHasRoute | setup/generate_mode_configs.py:79-110 | a generated chain with distinct endpoints is one route from head to tail through all nodes |
| GeneratedConfigs.LinearServiceIsLinearizable | src/client/client.cpp:1575-1594 | end to end on every generated chain, as the client's pushes deploy it: successful CHAIN and CRAQ reads are linearizable, with no assumption on the client |
| GeneratedConfigs.OverriddenChainNeverAnswers | setup/generate_mode_configs.py:32-43 | a production chain with one host for all its nodes is one process without a head: it answers no read and acknowledges no write |
| HeadlessClusters.NoHeadNoRead | src/replication/chain/chain_replication.cpp:118-121 | a CHAIN or CRAQ system none of whose nodes is a head never answers a read nor acknowledges a write |
| GlobalRoles.FindGlobalRole | src/client/kv_client.cpp:82-104 | succeeds iff exactly one node is marked; otherwise names the first two, or that there is none |
| GlobalRoles.GeneratedRolesAreUnique | setup/generate_mode_configs.py:79-110 | a generated chain has one head, the first node, and one tail, the last |
| PendingWrites.PendingTable.AddPending | src/client/client.cpp:574-579 | the id is new, one above the last, and the table gains that id's record with the given key and value |
| PendingWrites.PendingTable.AckPending | src/client/client.cpp:582-608 | removes the write if it is pending, and ignores any other ACK |
| PendingWrites.PendingTable.RemovePendingRequest | src/client/client.cpp:368-371 | removes the write of a failed call if it is still pending |
| PendingWrites.PendingIsIssuedMinusResolved | src/client/client.cpp:574-608 | after any sequence of events the table is issued minus acked minus failed, the latter two disjoint |
| PendingWrites.PendingIffUnresolved | src/client/client.cpp:574-608 | a write is pending iff it was issued and no ACK or failure for its id came after that |
| PendingWrites.IdsCountUp | src/client/client.cpp:574-579 | ids are handed out in order, from one |
| PendingWrites.IssuedRecord | src/client/client.cpp:574-579 | a write issued is kept under its id with its own key and value, pending or not |
| PendingWrites.ResolvedIff | src/client/client.cpp:368-371 | a write counts as acknowledged iff an ACK resolved it first, and as failed iff a failure did |
| Benchmarks.SplitKeys | src/client/client.cpp:887-899 | splits the keys, in order, by whether the first key's head owns them |
| Benchmarks.PrepareWrites | src/client/client.cpp:863-957 | write k of the batch has the client's k-th number, its own value, and goes to its key's head or the chain's; with a mix its key has the first key's head iff its number mod 100 is below the percentage (or no other head has a key), the hot count is the number of such writes, and each group's keys are used equally often give or take one; without a mix its key is its number modulo the keys; it fails only with something to write and no head |
| Benchmarks.MixIsEven | src/client/client.cpp:915-930 | at every moment the keys of one group of the mix have been used equally often, give or take one |
| Benchmarks.ValuesDiffer | src/client/client.cpp:941-941 | no two planned writes of a benchmark have the same value |
| Benchmarks.PrepareReads | src/client/client.cpp:999-1059 | the same for reads, the first key being the only hot one, each sent to the node reads of its key go to; it fails exactly with something to read and no node to read from |
| Benchmarks.ResolveReadTarget | src/client/client.cpp:1210-1262 | CROWN: the node numbered before the key's head; CHAIN: the tail; CRAQ: the preferred node if there is one of that id, in rotation if none is preferred, else the random pick |
| Benchmarks.ReadTargetCases | src/client/client.cpp:979-992 | the rule case by case: a preferred id that exists is the id of the node read from, and there is no target exactly when there is nothing to choose from |
| Benchmarks.CraqReadsRotate | src/client/client.cpp:979-992 | with distinct ids and no preferred node, CRAQ reads go round the nodes |
| Benchmarks.BatchesPartition | src/client/client.cpp:909-911 | every operation number is exactly one client's, at exactly one place |
| Benchmarks.BatchFits | src/client/client.cpp:902-905 | no batch exceeds the space reserved for it |
| Benchmarks.HotOperationsAreExact | src/client/client.cpp:915-930 | with a cold key, all clients together plan floor(total/100)*pct + min(total mod 100, pct) hot operations |

## Left out

- gRPC channels, stubs and their caches, protobuf encoding, server wrappers, console output and logging: an RPC is a message delivered, lost, or (beyond the code) duplicated.
- Server argument parsing, mode switching and reconfiguration: one fixed configuration per run.
- JSON parsing, the command line and the interactive loop: the model starts from parsed node records, and a missing neighbour field counts as null.
- Throughput and latency metrics (floating point), CSV aggregation, shell and SSH scripts.
- `parse_token`, `token_in_range` and key ranges, which the routing no longer uses; hash quality.
- 64-bit wrap-around of versions: versions are natural numbers.
- Characters beyond bytes: a string is a sequence of bytes.
- The stop of the ACK worker clears its flag outside the queue mutex, so its join may wait; only the queue's contents and order are modelled.
- The ACK queue of a node sends in order; the step systems let its messages overtake each other, and let a tail owe its predecessor an ACK before the client's ACK RPC has returned. Both allow more runs than the code has.
- A version query whose RPC fails ends its read with an error; in the step systems such a read is simply never answered.
- The model allows nodes to hold a stub to the tail, as the query handler does; the client at this commit never sends a tail address (src/client/client.cpp:1581).
- ReplicationSupports.ReplicationSupport.EraseCovered: visits the pending versions in no particular order, where the source visits them in ascending order.
- PropagateDispatchers.PropagateDispatcher.Wake: one pass of a worker that holds the lock; blocking on the condition variable is left to the event sequences.
- HandlerClasses.CraqReplica.HandleRead: takes what each node would return to a version query as an argument, because the answer comes from another node; HandledReads supplies the other nodes' handlers, and the interleaved read is the subject of LaneReads and CraqReads.
- Benchmarks.PrepareReads: the random node CRAQ falls back on is a given pick for each operation; keys are indices and nodes positions.
