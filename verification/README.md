# The tree write path, its stores, and four smaller cores, in Dafny

A distributor network is kept three times: as an event stream, as an adjacency store of rows, and as a tree in an engine worker. `TreeWriter` appends tree events, projects each into the store and the engine, rebuilds the engine from a snapshot and the rest of the stream, redelivers the last event after a crash, and lets an operator reject an event that cannot apply. Any step can fail, before or after it took effect.

The project models that path twice and ties the two together. `protocol.dfy` gives it as steps over what outlives a process (stream, store, snapshot) with one inductive invariant. `tree_writer.dfy`, `tree_consumer.dfy` and `replay_stream.dfy` give it as the operations themselves, with failures chosen freely at every call; each operation is proved to be a run of protocol steps. From this follow the laws of `protocol_laws.dfy` and, in `recovery.dfy`, that the protocol never wedges.

| file | what it holds |
|---|---|
| `tree_types.dfy`, `engine_tree.dfy`, `replay.dfy` | events, rows, the engine's unilevel and binary trees, and what a stream builds |
| `tree_store.dfy`, `tree_store_memory.dfy`, `store_laws.dfy`, `relocation_laws.dfy`, `removal_rows.dfy` | the adjacency store: its writes as functions, the in-place store that carries them out, and its laws |
| `agreement.dfy`, `stored_rows.dfy`, `tree_membership.dfy` | when rows and engine describe one tree, and the comparison that checks it |
| `loader_rules.dfy`, `loader.dfy`, `loader_order.dfy` | validating rows, ordering them for replay, and finding a cycle |
| `protocol.dfy`, `protocol_laws.dfy` | the protocol's steps, its invariant, and the laws over every run |
| `engine_worker.dfy`, `replay_stream.dfy`, `tree_consumer.dfy`, `delivery.dfy` | calls that can be lost, paged replay, the event handlers, and what a delivery means |
| `building.dfy`, `writer_facts.dfy`, `tree_writer.dfy`, `recovery.dfy`, `deep_chain.dfy` | loading, writing, rejecting, recovering, and the one state that does not recover |
| `event_store.dfy` | streams, the global log and the id index |
| `commission_runs.dfy`, `commission_laws.dfy` | the commission run lifecycle, one call and any sequence of calls |
| `calendar.dfy`, `period.dfy`, `period_labels.dfy` | commission periods and their labels |
| `yaml_meaning.dfy`, `yaml_converter.dfy` | what a YAML graph means as JSON, and the budgeted converter |

How things are modelled:

- Ids are canonical UUIDs, zero being the nil UUID. Times are nanoseconds; payloads are decoded values, with one case for bytes that do not decode.
- A read, a store write, an engine call or an append can fail at will when a writer is `faulty`; a failed write or call may have taken effect. Clauses under `!faulty` say what happens when nothing fails. The clock is any value.
- One tree is followed at a time. Its lock makes its writer the only one, so the expected version of an append is the stream's length.
- The engine tree is the sequence of its nodes in the order they were added. `check_mutation` answers as the mutation would, or fails; the protocol's laws do not rest on it.
- An id a caller generates is a parameter. Commission runs take one not used before; an event whose id is in the stream already is refused.

Where the code and what is said about it differ:

- The rule that a tree keeps one active root does not hold of every sequence of store writes: a relocation to depth 0 breaks it (`StoreLaws.RelocationMayAddARoot`). A removal keeps it if and only if its relocations to depth 0, and a root it neither removes nor relocates, number at most one (`RelocationLaws.RemovalKeepsOneRoot`).
- A placement whose depth does not fit the store's 32-bit column, once appended, can be neither projected nor rejected: the store refuses it with an error that does not count as evidence. This is the one state a load or a rejection cannot recover (`Recovery.Recover`), and a chain of placements reaches it (`DeepChain.TooDeepIsReachable`).
- A `root_added` found diverged after its own insert leaves the projected version at its own version minus one. That is the version before the delivery only when the store was level with the event before it (`StoreLaws.UndoneRootLeavesNothing`). The writer never gets there: in a reachable state no `root_added` or `node_placed` finds the engine diverged (`Delivery.RootDelivery`, `Delivery.PlacedDelivery`). A `node_removed` does find its removal not projected after a `remove_node` whose reply was lost, and only then (`Delivery.RemovedDelivery`).
- `unusableReason` looks for a rejection that names the snapshot's version. No stored snapshot of a reachable state has one after it (`Building.NextAfterSnapshot`). Were there one, the replay of the tail would stop at it rather than rebuild another tree (`ProtocolLaws.RejectionStopsTheTail`).
- The day count of weekly periods does not overflow some 292 years from the plan's start, as its comment says: it stays at its last value. A day past that is filed under the last week in reach, and tiling and labels hold exactly within reach (`Period.PeriodsTile`, `Period.FarWeekIsMisfiled`, `PeriodLabels.LabelsSortInTime`).

## Model

| member | source | states |
|---|---|---|
| `ProtocolLaws.StoreKeepsUp` | internal/networkengine/tree_writer.go:402-456 | in every state a run from the empty tree reaches, projected <= last <= projected + 2, and the gap is 2 only when the stream ends with a rejection |
| `ProtocolLaws.StoreIsTheReplayedTree` | internal/networkengine/tree_membership.go:24-69 | in every reachable state whose stream replays through the projected version, the active rows are exactly the replayed tree (users, parents, sponsors, positions, depths, enrolment seconds, order of arrival), so the load's comparison passes in whatever order the rows are read |
| `ProtocolLaws.RejectionUndoesWhole` | internal/networkengine/tree_writer_reject.go:105-180 | no reachable rejection names a removal that stamped a row, and once a rejection is projected no active row carries the rejected event's id |
| `ProtocolLaws.RejectionRestoresTree` | internal/networkengine/tree_store_memory.go:534-562 | after a projected rejection the active rows are the tree before the rejected event |
| `ProtocolLaws.SnapshotIsAsGoodAsTheStream` | internal/networkengine/tree_writer.go:673-730 | every stored snapshot of a reachable state is accepted, and restoring it and replaying the tail equals replaying the whole stream |
| `ProtocolLaws.RejectionStopsTheTail` | internal/networkengine/tree_replay.go:117-136 | from a tree a version replays to, the tail after it can be replayed if and only if the stream replays to the end of the tail and the tail does not start with a rejection, and then it gives the same tree |
| `ProtocolLaws.PreflightFindsStuckRows` | internal/networkengine/tree_writer_reject.go:140-167 | on the rows of a reachable state, preflight passes if and only if the stream replays through the projected version |
| `Recovery.Recover` | internal/networkengine/tree_writer_reject.go:218-307 | with nothing failing, one load or else one rejection brings the store of every reachable state level with a stream that replays; the only exception, both ways, is a placement too deep for the store's depth column |
| `DeepChain.TooDeepIsReachable` | internal/networkengine/tree_store_memory.go:252-278 | that exception occurs: some run from an empty tree ends with a placement one level below the deepest the column holds |
| `Protocol.StepKeepsInv` | internal/networkengine/tree_writer.go:402-456 | every step of the protocol (append, landing, rejection, its projection, snapshot put and delete) keeps the invariant that ties stream, rows, projected version and snapshot |
| `Protocol.ReachableInv` | internal/networkengine/tree_writer.go:402-456 | the invariant holds in every state of every run from an empty tree |
| `Protocol.RunKeepsInv` | internal/networkengine/tree_writer.go:402-456 | the invariant holds at the end of any run that starts with it |
| `Protocol.AppendKeepsInv` | internal/networkengine/tree_writer.go:942-976 | appending a tree event to a level stream that replays keeps the invariant |
| `Protocol.AppendRejectionKeepsInv` | internal/networkengine/tree_writer_reject.go:291-300 | appending a rejection of a last event the stream cannot be replayed through keeps the invariant |
| `Protocol.LandInsertKeepsInv` | internal/networkengine/tree_consumer.go:93-292 | landing a root's or a placement's row keeps the invariant, whether or not the engine will take the placement |
| `Protocol.LandRemovalKeepsInv` | internal/networkengine/tree_consumer.go:294-386 | landing a removal keeps the invariant and stamps the removed row |
| `Protocol.ProjectRejectionKeepsInv` | internal/networkengine/tree_store_memory.go:534-562 | projecting a pending rejection keeps the invariant |
| `Protocol.RejectionRestores` | internal/networkengine/tree_store_memory.go:534-562 | whether the rejected event's row had landed or not, retiring its id leaves the rows of the tree before it |
| `Protocol.ThroughRejection` | internal/networkengine/tree_replay.go:117-136 | a rejection takes the replayed tree back to before the event it names |
| `Replay.EffectiveSplits` | internal/networkengine/tree_writer.go:686-700 | the effective events of a stream are those of its two parts put together if and only if the second part does not start with a rejection |
| `Replay.ReplayConcat` | internal/networkengine/tree_replay.go:22-57 | replaying two runs of events in turn is replaying them together |
| `Replay.ReplayKeepsShape` | internal/networkengine/tree_replay.go:93-114 | a replay from a well-formed tree leaves a well-formed tree of the same kind |
| `Replay.RootAfterMutation` | internal/networkengine/tree_replay.go:106-111 | only a root_added sets the root and only the root's own removal clears it |
| `Replay.MalformedIs` | internal/networkengine/tree_replay.go:140-202 | a payload is refused before any call exactly when it is unreadable, of another tree or kind, or lacks an id or the position its kind asks for |
| `ReplayStream.Replayer.Flush` | internal/networkengine/tree_replay.go:93-114 | the held event is checked and its call made once, or not at all when its payload does not pass; the engine, reached and root then say what the effective events so far build; a refused call proves the events cannot be replayed |
| `ReplayStream.Replayer.Accept` | internal/networkengine/tree_replay.go:70-90 | takes one event in version order, holding it back or dropping the held one when a rejection names it; a failure leaves reached where it was; a rejection is taken exactly when it names the held event's id, version and type |
| `ReplayStream.TakePage` | internal/networkengine/tree_replay.go:31-47 | takes one page in event by event |
| `ReplayStream.FinishReplay` | internal/networkengine/tree_replay.go:48-56 | flushes the event still held at the end of the range, with the same outcome |
| `ReplayStream.ReplayRange` | internal/networkengine/tree_replay.go:22-57 | success means reached is the upper bound, the calls made are those of the range's effective events, each once and in order, and the engine is their replay; a failure leaves exactly the effective events up to reached, asked for once and in order, and then at most the one failing call of the next event, whose reply may be lost after it took effect; with no failed reads or calls it succeeds whenever the range can be replayed, wherever the pages end |
| `ReplayStream.StopIsFinal` | internal/networkengine/tree_replay.go:70-90 | a replay stopped at an event that does not fit or cannot apply rules out replaying the whole range |
| `EngineTree.AddRootKeepsShape` | engine/network-engine/src/tree/unilevel.rs:41-71 | an accepted root goes into an empty tree and leaves a well-formed one; a non-empty tree has a root |
| `EngineTree.AddNodeKeepsShape` | engine/network-engine/src/tree/unilevel.rs:79-131 | an accepted placement leaves a well-formed tree |
| `EngineTree.RemoveNodeKeepsShape` | engine/network-engine/src/tree/unilevel.rs:134-179 | on a well-formed tree a removal is refused only for an absent user or one with children, and leaves a well-formed tree |
| `EngineTree.RemovalHandsOn` | engine/network-engine/src/tree/unilevel.rs:151-179 | a removal takes out the user and nobody else: each recruit, and only a recruit, moves to the removed user's sponsor, the reply names exactly those moves, and every other node is unchanged |
| `EngineTree.SponsorsComeFirst` | engine/network-engine/src/tree/unilevel.rs:151-179 | a node's sponsor was added before it and is never one of its recruits, so re-sponsoring makes no cycle |
| `EngineTree.ChildlessRootIsAlone` | engine/network-engine/src/tree/unilevel.rs:134-149 | a root without children is the only node |
| `EngineWorker.DownlineOfRoot` | internal/networkengine/tree_membership.go:35-47 | the root and its downline are the whole tree |
| `EngineWorker.Worker.Apply` | internal/networkengine/tree_engine_calls.go:17-81 | a mutation's reply is the tree's answer, or is lost before or after the mutation took effect; the call is recorded either way |
| `EngineWorker.Worker.CheckMutation` | engine/network-engine-worker/src/handlers/tree.rs:179-206 | passes only what the engine would take, exactly so when the call does not fail, and changes nothing |
| `EngineWorker.Worker.Restore` | internal/networkengine/tree_writer.go:708-711 | a restore puts the snapshot's tree in an empty engine, refuses a held structure or bad data, or is lost |
| `EngineWorker.Worker.DropStructure` | internal/networkengine/tree_writer.go:758-768 | a drop empties the engine and reports whether it held a structure |
| `TreeTypes.TruncationKeepsTheSecond` | internal/networkengine/tree_store_memory.go:42-42 | truncating an enrolment to the microsecond keeps its Unix second, the part the engine compares |
| `TreeTypes.TrimmedIs` | internal/networkengine/tree_writer_reject.go:229-233 | trimming takes away white space, from the two ends alone |
| `TreeTypes.TrimmedText` | internal/networkengine/tree_writer_reject.go:229-233 | what is left is empty exactly when the reason holds no text |
| `TreeStore.FirstActive` | internal/networkengine/tree_store_memory.go:113-125 | the first active row of the user in the tree, and -1 exactly when there is none |
| `TreeStore.FirstConflict` | internal/networkengine/tree_store_memory.go:56-82 | a conflict is found exactly when some active row breaks a uniqueness rule against the new one |
| `TreeStore.SlotHolder` | internal/networkengine/tree_store_memory.go:389-404 | a slot has a holder exactly when an active row claims it, and the holder is that row's user |
| `TreeStore.Retired` | internal/networkengine/tree_store_memory.go:551-557 | exactly the active rows of the tree with the id are tombstoned, in place, without a removal stamp |
| `TreeStore.ByDepthIsOrdered` | internal/networkengine/tree_store_memory.go:210-228 | the depth-ordered read is sorted by depth, then by enrolment |
| `TreeStore.BestIsLatest` | internal/networkengine/tree_store_memory.go:127-170 | a user's tombstone is read when there is one, and it is the one removed last, of the same time the one with the highest id |
| `StoreLaws.StoreStaysSane` | internal/networkengine/tree_store_memory.go:252-379 | after every sequence of writes, refused ones included, row ids are unique and each tree has one active row per user and per slot, and one active root when no relocation goes to depth 0 |
| `StoreLaws.RelocationMayAddARoot` | internal/networkengine/tree_store_memory.go:362-379 | a sequence of writes from an empty store whose last, a removal with a relocation to depth 0, gives a tree with one active root a second |
| `StoreLaws.WriteKeepsRows` | internal/networkengine/tree_store_memory.go:252-379 | one accepted write keeps those rules |
| `StoreLaws.WriteMovesVersions` | internal/networkengine/tree_store_memory.go:564-626 | no accepted write lowers a projected version, except undoing a root, which lowers its own tree's by one |
| `StoreLaws.DeadStaysDead` | internal/networkengine/tree_store_memory.go:36-50 | a tombstone stays a tombstone and its id is never taken again, over every sequence of writes |
| `StoreLaws.UndoneRootLeavesNothing` | internal/networkengine/tree_store_memory.go:564-602 | undoing a delivery's own root leaves the active rows as before; the projected version is the one before exactly when that was the event's version minus one |
| `StoreLaws.UndoneRootIsRefused` | internal/networkengine/tree_consumer.go:63-79 | once a root_added's row is a tombstone, no later delivery gets past the insert, whatever was written since |
| `RelocationLaws.RelocationsInAnyOrder` | internal/networkengine/tree_store_memory.go:359-377 | relocations with free targets and a slot-distinct end pass only through slot-distinct rows in any order, and every order ends in the same rows |
| `RelocationLaws.AcceptedMovesInAnyOrder` | internal/networkengine/tree_store_memory.go:321-379 | the same for every removal the store accepts, ending in the rows it staged |
| `RelocationLaws.RelocateRowwise` | internal/networkengine/tree_store_memory.go:362-373 | each active row is moved by its own user's relocation and by no other |
| `RelocationLaws.RemovalKeepsOneRoot` | internal/networkengine/tree_store_memory.go:321-379 | for a removal accepted on rows that keep the rules with one root per tree, one root per tree is kept if and only if the relocations to depth 0, and a root neither removed nor relocated, number at most one |
| `RelocationLaws.StagedRowwise` | internal/networkengine/tree_store_memory.go:321-379 | row by row: an accepted removal tombstones exactly the named users' active rows, then moves each survivor by its own relocation, and every relocation names one active row |
| `RemovalRows.RemovalRowByRow` | internal/networkengine/tree_store_memory.go:321-379 | field by field, what an accepted removal leaves: a removed user's row tombstoned and stamped; a relocated row with exactly the parent, position and depth given; a re-sponsored row with exactly the sponsor given; every other field, and every other row, as it was; each user named once in its list |
| `RemovalRows.RemovalAccepted` | internal/networkengine/tree_store_memory.go:321-411 | on rows that keep the store's rules a removal is accepted if and only if each user is named once and has its row, removed or surviving, every relocation goes to a slot no other survivor stands in, and no two survivors end in one slot |
| `Agreement.RemovalStages` | internal/networkengine/tree_consumer.go:294-386 | a removal the engine ran is one the store accepts whole, and the rows then describe the engine's tree after it |
| `Agreement.HeldLookup` | internal/networkengine/tree_store_memory.go:113-125 | when no user has two active rows, the tree the rows describe holds a user exactly when the user has an active row, and the node is that row's |
| `MemoryStore.FindActive` | internal/networkengine/tree_store_memory.go:324-331 | finds the user's first active row |
| `MemoryStore.Tombstones` | internal/networkengine/tree_store_memory.go:333-344 | tombstones and stamps each named user's row, and hits as many rows as users exactly when each had an active row in turn |
| `MemoryStore.Repoints` | internal/networkengine/tree_store_memory.go:346-357 | re-sponsors each named recruit's active row in turn and counts the rows hit |
| `MemoryStore.Relocates` | internal/networkengine/tree_store_memory.go:362-373 | moves each named survivor's active row in turn and counts the rows hit; the rows moved are as RemovalRows.RemovalRowByRow says |
| `MemoryStore.IndexSlots` | internal/networkengine/tree_store_memory.go:389-399 | indexes who is active and who holds each slot |
| `MemoryStore.CheckRelocationTargets` | internal/networkengine/tree_store_memory.go:384-411 | passes exactly when every relocation moves its row nowhere or to a slot nobody else holds before any of them runs |
| `MemoryStore.CheckActiveSlots` | internal/networkengine/tree_store_memory.go:514-532 | passes exactly when no two active rows of the tree claim one slot |
| `MemoryStore.MemoryTreeStore.InsertNode` | internal/networkengine/tree_store_memory.go:36-84 | stores one row exactly when its id is new and it breaks no rule, in the order the two passes check them; the row is stored field by field, active and enrolled to the microsecond, exactly when every other row leaves it its id, user, root and slot |
| `MemoryStore.MemoryTreeStore.ProjectInsert` | internal/networkengine/tree_store_memory.go:252-278 | carries out the insert in place, or refuses and changes nothing; the row stored is the one given, field by field |
| `MemoryStore.MemoryTreeStore.StageRemoval` | internal/networkengine/tree_store_memory.go:321-379 | stages the removal without touching the store, exactly as RemovalRows.RemovalAccepted and RemovalRows.RemovalRowByRow say |
| `MemoryStore.MemoryTreeStore.ProjectRemoval` | internal/networkengine/tree_store_memory.go:280-317 | carries out the removal whole, or refuses and changes nothing; on rows that keep the rules it is accepted if and only if it is well named and well placed, at a version that is not below, with numbers that fit, and then every row is, field by field, as the removal says |
| `MemoryStore.MemoryTreeStore.ProjectRejection` | internal/networkengine/tree_store_memory.go:534-562 | tombstones the rejected event's rows and advances, or refuses and changes nothing; field by field, only the removal time of those rows changes |
| `MemoryStore.MemoryTreeStore.UndoRootProjection` | internal/networkengine/tree_store_memory.go:564-602 | tombstones the root's row and steps the projected version back by one, or refuses and changes nothing; only the removal time of that row changes |
| `MemoryStore.MemoryTreeStore.CheckNotBelow` | internal/networkengine/tree_store_memory.go:607-615 | passes exactly a version of at least 1 and at least the projected one; a refusal says which failed, with the projected version |
| `MemoryStore.MemoryTreeStore.Advance` | internal/networkengine/tree_store_memory.go:619-626 | the tree's version becomes the greater of the two, and no other tree's changes |
| `LoaderRules.ValidIsOneTree` | internal/networkengine/tree_loader.go:321-364 | on accepted rows depths are not negative and every row's parent chain reaches the one root in exactly its depth's steps |
| `LoaderRules.OrderIgnoresListing` | internal/networkengine/tree_loader.go:412-436 | two listings of one set of rows have the same least-first replay order |
| `LoaderRules.RootComesFirst` | internal/networkengine/tree_loader.go:449-525 | in any order of accepted rows that puts dependencies first, the root is first and nothing else is at depth 0 |
| `LoaderRules.OrderedIsAcyclic` | internal/networkengine/tree_loader.go:449-525 | rows that can be listed with dependencies first have no cycle |
| `LoaderRules.LoadableIgnoresListing` | internal/networkengine/tree_loader.go:527-538 | preflight's verdict is the same however the rows are listed |
| `TreeLoader.IndexNodes` | internal/networkengine/tree_loader.go:239-265 | indexes distinct non-nil users and at most one depth-0 row, or names what is wrong |
| `TreeLoader.CheckRoot` | internal/networkengine/tree_loader.go:266-287 | passes a present root with neither parent nor position, or names what is wrong |
| `TreeLoader.CheckChild` | internal/networkengine/tree_loader.go:326-388 | passes a row exactly when its references resolve, its depth follows its parent's and its position fits the slot rule |
| `TreeLoader.CheckChildren` | internal/networkengine/tree_loader.go:321-398 | passes the rows below the root when each is well placed and no two claim one slot |
| `TreeLoader.ValidateNodes` | internal/networkengine/tree_loader.go:232-399 | accepts exactly the valid sets of rows; a refusal names a real fault |
| `ReplayOrder.Edges` | internal/networkengine/tree_loader.go:471-497 | a row's dependencies, each once, without itself; the root's sponsor is not one: the parent and the sponsor of a row that has a parent |
| `ReplayOrder.BuildGraph` | internal/networkengine/tree_loader.go:457-498 | counts each row's dependencies and lists who waits on whom |
| `ReplayOrder.CountDown` | internal/networkengine/tree_loader.go:513-518 | one replayed row counts down its dependents and makes ready exactly those with nothing left to wait for |
| `ReplayOrder.OrderForReplay` | internal/networkengine/tree_loader.go:449-525 | succeeds exactly when no chain of parent or sponsor fields of rows that are not roots comes round; the order is then a permutation in which every row with a parent comes after the rows of its parent and its sponsor, and each place is taken by the shallowest, then earliest enrolled, then least by id of the rows that may come there; otherwise it names a real closed walk among the users no dependency order ever reaches, counts exactly those users, and the walk is no longer than their count plus one |
| `LoaderRules.DepsFirstMeans` | internal/networkengine/tree_loader.go:471-473 | dependencies come first exactly when parents and sponsors do |
| `LoaderRules.LeastFirstMeans` | internal/networkengine/tree_loader.go:412-436 | taking the least ready row each time is taking the shallowest, then earliest enrolled, then least by id |
| `ReplayOrder.FindCycle` | internal/networkengine/tree_loader.go:554-615 | walks from the least stuck user, each time to the unmet parent or else the sponsor, until a user comes round again; what it returns is the closed end of that walk, real references between unreplayed rows, within one more step than there are stuck rows |
| `ReplayOrder.StuckNeverReplays` | internal/networkengine/tree_loader.go:554-568 | the rows left over when nothing is ready are exactly those that no dependency order of the rows reaches |
| `ReplayOrder.Preflight` | internal/networkengine/tree_loader.go:527-538 | passes exactly an empty set or a valid one in which no chain of parents and sponsors comes round; a refusal names a real fault |
| `StoredRows.WellFormedLoads` | internal/networkengine/tree_loader.go:527-538 | rows that describe a well-formed tree pass preflight |
| `StoredRows.StuckFailsPreflight` | internal/networkengine/tree_writer_reject.go:147-167 | a store whose last placement can never run fails preflight, and passes without that placement's row |
| `StoredRows.PreflightMatchesReplay` | internal/networkengine/tree_writer_reject.go:140-167 | on a state that keeps the protocol's invariant, preflight passes exactly when the stream replays through the projected version |
| `TreeMembership.IndexRows` | internal/networkengine/tree_membership.go:25-34 | indexes the rows by user and finds the depth-0 user |
| `TreeMembership.IndexNodes` | internal/networkengine/tree_membership.go:43-48 | indexes the engine's root and downline by user |
| `TreeMembership.Unmatched` | internal/networkengine/tree_membership.go:50-63 | lists exactly the users one side lacks and those the two sides hold differently |
| `TreeMembership.CheckMembership` | internal/networkengine/tree_membership.go:24-69 | agrees exactly when the engine's root and downline are the rows' users at the same depths and enrolment seconds; a difference lists who is where; on agreement every row has a node of its user, depth and second, and every node a row |
| `TreeMembership.MembersIgnoreListing` | internal/networkengine/tree_membership.go:25-34 | who the rows say is in the tree does not depend on their order |
| `TreeMembership.AgreementIsMembership` | internal/networkengine/tree_membership.go:24-69 | rows that describe the engine's tree, in any order, make the comparison agree |
| `TreeConsumer.StoreLink.Commit` | internal/networkengine/tree_store.go:99-117 | a store write answers with its outcome, or fails before or after it committed |
| `TreeConsumer.StoreLink.ProjectedRows` | internal/networkengine/tree_store_memory.go:239-250 | one read of the projected version and the active rows in depth order |
| `TreeConsumer.MutateTwice` | internal/networkengine/tree_consumer.go:428-447 | a mutation that took effect is refused the second time with the code reconcile looks for |
| `TreeConsumer.Consumer.InsertRow` | internal/networkengine/tree_consumer.go:63-79 | the insert landed, or was there already as this event's own active row, or is turned away with the reason |
| `TreeConsumer.Consumer.ReconcileRoot` | internal/networkengine/tree_consumer.go:126-176 | a refused add_root converges exactly on a held depth-0 root with the event's second; otherwise this delivery's own row is undone and no other |
| `TreeConsumer.Consumer.RetryRoot` | internal/networkengine/tree_consumer.go:551-613 | up to three attempts leave the engine as it was or with the root added once; success means the engine holds the event's root; the calls made are the event's, one to three of them, exactly three when the engine is reported as failed |
| `TreeConsumer.Consumer.HandleRootAdded` | internal/networkengine/tree_consumer.go:93-203 | success means the row stands and the engine holds the root; a failure leaves the store alone, with the row landed, or with it undone; with nothing failing, a delivery found diverged leaves the active rows as before, its own row taken back; evidence means the insert phase turned the event away; the row that lands is the event's, field by field; a malformed payload changes nothing and makes no call; the engine is reported as failed only after three calls |
| `TreeConsumer.Consumer.ReconcilePlaced` | internal/networkengine/tree_consumer.go:257-285 | a held user converges exactly when the engine's node agrees with the active row |
| `TreeConsumer.Consumer.RetryPlaced` | internal/networkengine/tree_consumer.go:287-291 | up to three attempts add the node at most once; a refusal code reported at the end is the engine's own answer; diverged means the engine holds the user and not as the row says; the calls made are the event's, one to three of them, exactly three when the engine is reported as failed |
| `TreeConsumer.Consumer.HandleNodePlaced` | internal/networkengine/tree_consumer.go:205-292 | success means the row stands and the engine took the node or already agrees with it; a failure leaves the store alone or with the row landed; diverged means the engine holds the user and not as its row says; the row that lands is the event's, field by field, one level below its parent's; a malformed payload changes nothing and makes no call; the engine is reported as failed only after three calls |
| `TreeConsumer.Consumer.ReconcileRemoved` | internal/networkengine/tree_consumer.go:325-366 | an absent user was removed by this event exactly when a row carries its stamp; otherwise the removal is not projected or not projectable, by whether the user still has an active row |
| `TreeConsumer.Consumer.RetryRemoved` | internal/networkengine/tree_consumer.go:314-374 | up to three attempts remove the node at most once; not projected means the engine no longer holds a user whose row is active; the calls made are the event's, one to three of them, exactly three when the engine is reported as failed |
| `TreeConsumer.Consumer.HandleNodeRemoved` | internal/networkengine/tree_consumer.go:294-386 | success means the removal landed whole or had landed before; a failure leaves the store alone or with it landed whole; not projected means the engine no longer holds a user whose row is active; a malformed payload changes nothing and makes no call; the engine is reported as failed only after three calls |
| `TreeConsumer.Consumer.HandleEventRejected` | internal/networkengine/tree_consumer.go:389-426 | projects a readable rejection or leaves the store alone, and its failure is never evidence; one that lacks its tree, reason, target version or type is refused unread |
| `TreeConsumer.InsertCanBeTakenBack` | internal/networkengine/tree_store_memory.go:564-602 | a root just inserted can always be undone, leaving the rows before it, one tombstone and the version before the event's |
| `TreeConsumer.RootRowIs` | internal/networkengine/tree_consumer.go:106-113 | the row an accepted root_added leaves, field by field: no parent, the payload's sponsor, depth 0, enrolment to the microsecond |
| `TreeConsumer.PlacedRowIs` | internal/networkengine/tree_consumer.go:224-242 | the row an accepted node_placed leaves, field by field, one level below its parent's active row |
| `Delivery.RootDelivery` | internal/networkengine/tree_consumer.go:93-203 | delivering the last root_added of a reachable state lands it or changes nothing, succeeds only level with a stream that replays, is evidence only when it cannot apply, and never finds the engine diverged |
| `Delivery.PlacedDelivery` | internal/networkengine/tree_consumer.go:205-292 | the same for a node_placed, which never finds the engine diverged either |
| `Delivery.RemovedDelivery` | internal/networkengine/tree_consumer.go:294-386 | delivering the last node_removed of a reachable state lands it whole or changes nothing, succeeds only level with a stream that replays, is evidence only when it cannot apply, and reports the removal as not projected only when it applies and this delivery's own remove_node had taken effect with its reply lost |
| `Delivery.TurnedAwayCannotApply` | internal/networkengine/tree_writer_reject.go:97-135 | an event the insert phase turns away with one of the accepted errors cannot be replayed |
| `Delivery.ConflictCannotApply` | internal/networkengine/tree_writer_reject.go:97-101 | a row the store refuses for its user, root or slot is one the engine refuses too |
| `Delivery.RootDecided` | internal/networkengine/tree_consumer.go:93-203 | with nothing failing, a root_added is refused only when it cannot apply, and the refusal is evidence |
| `Delivery.PlacedDecided` | internal/networkengine/tree_consumer.go:205-292 | with nothing failing, a node_placed is refused only when it cannot apply, with evidence, or when its depth does not fit the store |
| `Delivery.RemovedDecided` | internal/networkengine/tree_consumer.go:294-386 | with nothing failing, a node_removed is refused only when it cannot apply, and the refusal is evidence |
| `Delivery.DeepIsNotEvidence` | internal/networkengine/tree_writer_reject.go:83-101 | the refusal of a placement too deep to store is not evidence |
| `Delivery.RemovalLands` | internal/networkengine/tree_consumer.go:371-385 | a removal that applies is one the store takes whole |
| `Building.SnapshotAndTail` | internal/networkengine/tree_writer.go:703-730 | restoring the stored snapshot and replaying what follows gives the replay of the whole stream, and works exactly when that does |
| `Building.NextAfterSnapshot` | internal/networkengine/tree_writer.go:689-699 | the event after a stored snapshot is never a rejection |
| `Building.RowsMatchTarget` | internal/networkengine/tree_writer.go:809-843 | the rows of a reachable state are the replayed tree's members under its root |
| `Building.WithinOneOrPending` | internal/networkengine/tree_writer_reject.go:22-45 | a store not within one event of its stream is exactly one that waits for a rejection to be projected |
| `Building.RejectionSettled` | internal/networkengine/tree_consumer.go:389-426 | projecting again the rejection a level store ends with changes nothing |
| `WriterFacts.StoredSnapshotIsUsable` | internal/networkengine/tree_writer.go:672-701 | no stored snapshot of a reachable state is found unusable |
| `WriterFacts.TargetMatches` | internal/networkengine/tree_writer.go:809-843 | the check after a full replay passes in every reachable state |
| `WriterFacts.StuckRowFound` | internal/networkengine/tree_writer_reject.go:147-167 | in a stuck state the last event's row is active and the others load without it |
| `WriterFacts.SoundReaches` | internal/networkengine/tree_writer.go:920-939 | a sound delivery is one landing step or none |
| `WriterFacts.RejectionStep` | internal/networkengine/tree_writer_reject.go:343-357 | projecting a pending rejection is one step, is never refused, and leaves a stream that replays |
| `WriterFacts.AppendStep` | internal/networkengine/tree_writer.go:942-976 | a confirmed append to a level stream is one step and leaves the engine built through the projected version |
| `WriterFacts.AppendRejectionStep` | internal/networkengine/tree_writer_reject.go:291-300 | a confirmed rejection of an event that cannot apply is one step |
| `WriterFacts.CheckedApplies` | internal/networkengine/tree_writer.go:232-268 | what the engine would take of the writer's own events also passes every check on their payloads, so it applies |
| `WriterFacts.Projects` | internal/networkengine/tree_writer.go:978-1005 | an event one past a store that is built can be projected exactly when it applies and its depth fits |
| `TreeWriting.TreeWriter.constructor` | internal/networkengine/tree_writer.go:124-146 | a writer starts on an empty stream, store and engine |
| `TreeWriting.TreeWriter.ReadShape` | internal/networkengine/tree_writer.go:373-387 | the kind version 1 records, none for an empty stream |
| `TreeWriting.TreeWriter.CheckReplayed` | internal/networkengine/tree_writer.go:809-843 | passes exactly when root, users, depths and enrolment seconds of engine and rows agree |
| `TreeWriting.TreeWriter.BuildFromStream` | internal/networkengine/tree_writer.go:783-799 | success leaves the engine with the replay of the stream through the projected version; a refused call names an event the stream cannot be replayed through |
| `TreeWriting.TreeWriter.BuildFromSnapshot` | internal/networkengine/tree_writer.go:703-730 | success leaves the same tree as replaying the whole stream |
| `TreeWriting.TreeWriter.UsableSnapshot` | internal/networkengine/tree_writer.go:647-670 | keeps the stored snapshot in place in every reachable state, and with nothing failing hands it out |
| `TreeWriting.TreeWriter.DiscardSnapshot` | internal/networkengine/tree_writer.go:771-781 | deletes the snapshot, always when nothing fails, or leaves it |
| `TreeWriting.TreeWriter.DropBuilt` | internal/networkengine/tree_writer.go:750-769 | success leaves the engine empty |
| `TreeWriting.TreeWriter.Build` | internal/networkengine/tree_writer.go:618-645 | success leaves the engine with the tree through the projected version, by either way of building; with nothing failing it succeeds exactly when the stream replays that far, and otherwise reports the rows; it says the version of the snapshot it kept, or 0, and with nothing failing keeps the stored one exactly when the tree has active rows; a failed snapshot build ends the load only for want of an answer or because a structure was held |
| `TreeWriting.TreeWriter.CheckRejectionTarget` | internal/networkengine/tree_writer_reject.go:47-79 | in a reachable stream every rejection names the event before it |
| `TreeWriting.TreeWriter.CheckStream` | internal/networkengine/tree_writer.go:591-608 | passes exactly a store within one event of its stream |
| `TreeWriting.TreeWriter.Prepare` | internal/networkengine/tree_writer.go:559-589 | goes ahead only with the engine built and the store within one event; with nothing failing it does so exactly when the stream replays through the projected version; it hands on the version of the snapshot kept |
| `TreeWriting.TreeWriter.Deliver` | internal/networkengine/tree_consumer.go:36-50 | delivering the last event lands it or changes nothing, succeeds only level, is evidence only of an event that cannot apply, never finds a root or a placement diverged, and with nothing failing decides |
| `TreeWriting.TreeWriter.CatchUp` | internal/networkengine/tree_writer.go:920-939 | redelivering the last event keeps the protocol; redelivering one already projected changes neither store nor engine and succeeds |
| `TreeWriting.TreeWriter.Append` | internal/networkengine/tree_writer.go:941-976 | a confirmed append extends the stream by the event; a denied one leaves it; only a failed read-back leaves the outcome unknown; with nothing failing a new id is appended and a used one denied |
| `TreeWriting.TreeWriter.Project` | internal/networkengine/tree_writer.go:978-1005 | projects the stream's last event; success means the store is level and the stream replays; with nothing failing only an event that cannot apply or does not fit fails |
| `TreeWriting.TreeWriter.TakeSnapshot` | internal/networkengine/tree_writer.go:845-869 | stores the engine's tree at the version just written, always when nothing fails, and never over a snapshot of that version or later |
| `TreeWriting.TreeWriter.Write` | internal/networkengine/tree_writer.go:401-456 | one write is a run of protocol steps: nothing, or exactly the one event appended to a stream that replayed, projected or not; only an event the engine would take is appended; with nothing failing it is appended exactly when the store loads, the engine would take it and its id is new, and projected exactly when it also applies and its depth fits the store; with nothing failing, a projected write stores the engine's tree as the snapshot at its version exactly when the stream is then 1000 events or more past the snapshot the load left, and otherwise leaves that one |
| `TreeWriting.TreeWriter.AppendAndProject` | internal/networkengine/tree_writer.go:442-455 | the append, the projection and the snapshot that may follow are protocol steps; with nothing failing the append goes in exactly under a new id, and the projection succeeds exactly for an event that applies and fits; a new snapshot is stored only by a projected write 1000 events or more past the one kept, and always then when nothing fails |
| `TreeWriting.TreeWriter.AddRoot` | internal/networkengine/tree_writer.go:148-216 | appends exactly a root_added of the recorded kind that the engine would take, or nothing; with nothing failing it is appended and projected exactly when the kind fits, the store loads, the engine would take it and its id is new; the snapshot then follows as for any write |
| `TreeWriting.TreeWriter.Place` | internal/networkengine/tree_writer.go:218-268 | appends exactly a node_placed of the recorded kind with a position that fits it and that the engine would take, or nothing; with nothing failing it is appended exactly when the store loads, the engine would take it and its id is new, and projected exactly when its depth fits the store; the snapshot then follows as for any write |
| `TreeWriting.TreeWriter.Remove` | internal/networkengine/tree_writer.go:282-316 | appends exactly a node_removed the engine would take, or nothing; with nothing failing it is appended and projected exactly when the store loads, the engine would take it and its id is new; the snapshot then follows as for any write |
| `TreeWriting.TreeWriter.Load` | internal/networkengine/tree_writer.go:458-513 | success leaves store, stream and engine level; with nothing failing it succeeds exactly when the stream replays, no rejection is pending and the last event fits the store; the snapshot is then the one stored, or none for a tree without rows |
| `TreeWriting.TreeWriter.Retry` | internal/networkengine/tree_writer_reject.go:309-324 | a retry that succeeds shows the stream replays; a failed one keeps the facts its evidence rests on |
| `TreeWriting.TreeWriter.LeaveOut` | internal/networkengine/tree_writer_reject.go:154-162 | the rows without one event's row, and whether it was there |
| `TreeWriting.TreeWriter.StuckRowStopsTheLoad` | internal/networkengine/tree_writer_reject.go:147-167 | true exactly when an active row carries the id and the other rows pass preflight |
| `TreeWriting.TreeWriter.RejectionEvidence` | internal/networkengine/tree_writer_reject.go:103-145 | evidence is found only when the stream cannot be replayed through its last event, and with nothing failing whenever the retry showed so |
| `TreeWriting.TreeWriter.ResumeRejection` | internal/networkengine/tree_writer_reject.go:326-362 | a rejection already in the stream is projected, or found applied |
| `TreeWriting.TreeWriter.Reject` | internal/networkengine/tree_writer_reject.go:216-307 | a rejection is appended only of a last event the stream cannot be replayed through, and names its id, version and type and the operator's reason, trimmed; with nothing failing it is appended exactly then, unless the event does not fit the store |
| `EventStore.CategoryCuts` | internal/platform/eventstore_memory.go:213-218 | the category is what comes before the first hyphen |
| `EventStore.MemoryEventStore.ReadIds` | internal/platform/eventstore_memory.go:101-116 | accepts a batch exactly when every id parses, is new to the store and is new to the batch |
| `EventStore.MemoryEventStore.CheckRequest` | internal/platform/eventstore_memory.go:76-86 | passes a valid stream name and a non-empty batch of complete events, or names the first fault |
| `EventStore.MemoryEventStore.AppendBatch` | internal/platform/eventstore_memory.go:118-134 | puts the batch into stream, log and id index together, numbered on from both |
| `EventStore.MemoryEventStore.Append` | internal/platform/eventstore_memory.go:74-137 | succeeds exactly when the append is well formed, at the expected version and with new ids; then the log is the log before followed by the batch, event i with the given id, type, payload and metadata, the stream's next version and the log's next position, and the stream grows by exactly those; refused, nothing changes; every stream stays the ordered, densely numbered part of the log and the index agrees |
| `EventStore.BatchIsAppended` | internal/platform/eventstore_memory.go:118-134 | the batch put in is the events given, field by field, numbered on from stream and log |
| `EventStore.MemoryEventStore.ReadStream` | internal/platform/eventstore_memory.go:139-164 | the stream's page from a version on |
| `EventStore.MemoryEventStore.ReadLastEvent` | internal/platform/eventstore_memory.go:166-183 | the stream's last event, if it has one |
| `EventStore.MemoryEventStore.ReadCategory` | internal/platform/eventstore_memory.go:185-203 | the events past a position whose streams are of the category, in log order, up to the limit |
| `EventStore.PagesCoverTheStream` | internal/platform/eventstore_memory.go:139-164 | the pages of a stream, of whatever size, put together are the stream |
| `EventStore.CategoryResumes` | internal/platform/eventstore_memory.go:185-203 | reading a category on from the last position read gives exactly what was not read yet |
| `EventStore.CategoryMembers` | internal/platform/eventstore_memory.go:185-203 | the events read are exactly those past the position in streams of the category |
| `EventStore.CategoryInOrder` | internal/platform/eventstore_memory.go:185-203 | they are in the order of the log |
| `CommissionRuns.MemoryCommissionRunStore.ActiveRun` | internal/networkengine/commission_run_store_memory.go:41-49 | finds the period's live run, of which there is at most one |
| `CommissionRuns.MemoryCommissionRunStore.OpenRun` | internal/networkengine/commission_run_store_memory.go:60-75 | opens a run exactly when the period has no live one |
| `CommissionRuns.MemoryCommissionRunStore.CreateRun` | internal/networkengine/commission_run_store_memory.go:51-58 | creates a run exactly for valid input and a free period, and changes nothing else; the new run is running, with the period and plan hash given and nothing else |
| `CommissionRuns.MemoryCommissionRunStore.CompleteRun` | internal/networkengine/commission_run_store_memory.go:77-100 | completes exactly a running run with an object or no carry-forward; it keeps its period and plan, and gains the carry-forward given and its time |
| `CommissionRuns.MemoryCommissionRunStore.VoidRun` | internal/networkengine/commission_run_store_memory.go:108-123 | voids a known run and leaves one already voided as it is; only its status and its time change |
| `CommissionRuns.MemoryCommissionRunStore.ReplaceRun` | internal/networkengine/commission_run_store_memory.go:125-180 | replaces exactly a live run: voided, linked to a new running run of its period; refused, nothing changes; the new run has the plan hash given |
| `CommissionRuns.MemoryCommissionRunStore.SaveResults` | internal/networkengine/commission_run_store_memory.go:231-280 | replaces exactly one structure's rows of a running run, under new ascending ids, and no other row; refused for a nil earner, an amount that does not parse or a detail that is no object; the rows of other structures stay and the new ones follow, each as given |
| `CommissionRuns.MemoryCommissionRunStore.GetResults` | internal/networkengine/commission_run_store_memory.go:282-292 | a known run's rows in ascending id, whatever its status |
| `CommissionRuns.MemoryCommissionRunStore.GetLiveResults` | internal/networkengine/commission_run_store_memory.go:315-327 | the rows of the period's one complete run, in ascending id, and none when there is no such run |
| `CommissionRuns.ChainsMoveForward` | internal/networkengine/commission_run_store_memory.go:174-178 | following replacement links stays in one period and only reaches later runs, so links form no cycle |
| `CommissionRuns.ReplacedRowsOk` | internal/networkengine/commission_run_store_memory.go:252-277 | the kept and the new rows together are in ascending id |
| `CommissionRuns.LinkedOk` | internal/networkengine/commission_run_store_memory.go:174-178 | linking a replacement keeps links in one period, forward and injective |
| `CommissionLaws.CallKeepsRules` | internal/networkengine/commission_run_store_memory.go:51-280 | one call keeps one live run per period, forward links and ascending rows, and takes back nothing that was final |
| `CommissionLaws.StoreStaysGood` | internal/networkengine/commission_run_store_memory.go:51-280 | those rules hold after every sequence of calls, refused ones included |
| `CommissionLaws.FinalStaysFinal` | internal/networkengine/commission_run_store_memory.go:77-123 | over every sequence of calls, a run seen after the first k of them keeps its period and plan, its status never falls, and its finished fields, its link and, once it is no longer running, its rows stay |
| `CommissionLaws.ChainsEnd` | internal/networkengine/commission_run_store_memory.go:174-178 | after every sequence of calls each period has one live run and no replacement chain comes back |
| `Period.StartIsNumbered` | internal/period/period.go:51-77 | periodStart is the start of the day's numbered period, floor division included, before the anchor too; a week out of reach of the day count folds onto the last one in reach, and only such a week |
| `Period.DayIsNumbered` | internal/period/period.go:51-77 | every day lies in the period its number names, by exact calendar arithmetic |
| `Period.DaysAreClamped` | internal/period/period.go:65-69 | the day count through a 64-bit duration is exact up to 106751 days and stays there |
| `Period.AdvanceCounts` | internal/period/period.go:79-108 | advancing a period's start by n gives the start of the period n later, for every cadence and sign |
| `Period.AdvanceIsAddition` | internal/period/period.go:79-108 | advance acts on period starts as addition on integers, and in order; what it reaches is a period start to periodStart exactly when in reach of the day count |
| `Period.PeriodsTile` | internal/period/period.go:51-108 | periodStart(t) <= t < advance(periodStart(t), 1) if and only if t is in reach: always, but for a weekly plan and a day more than 106757 days before or 106756 after its start; no other period start does so |
| `Period.FarWeekIsMisfiled` | internal/period/period.go:65-74 | a weekly plan that starts on 1 January 1700 files 1 January 2025 under a week of 1992 |
| `Period.BeforeStart` | internal/period/period.go:166-169 | a day's period is before the plan's first exactly when the day is before that period's first day |
| `Period.PeriodStartsInRange` | internal/period/period.go:148-164 | the consecutive period starts from the one containing the first day to the one containing the last; none exactly for an inverted range |
| `Period.RangeIsTiled` | internal/period/period.go:148-164 | the listed starts are period starts in order; every day of the range has its period listed, and lies in a listed period exactly when in reach of the day count |
| `PeriodLabels.LabelsSortInTime` | internal/period/period.go:110-131 | for years of up to four digits, labels sort as text in the order of the periods, and two days share a label exactly when they share a period or are weekly days past the same end of the day count |
| `PeriodLabels.LabelSays` | internal/period/period.go:110-131 | for years of up to four digits, a label's digits read back as the ISO year and week, or the year and the month, quarter or half, of its period's first day |
| `PeriodLabels.PriorLabels` | internal/period/period.go:133-146 | the labels of the n periods before, most recent first, in descending text order, equal only for weeks past the end of the day count |
| `Calendar.IsoWeeksIncrease` | internal/period/period.go:126-128 | days whole weeks apart have ISO week dates in the same order |
| `Calendar.EpochIsThursday` | internal/period/period.go:126-128 | 1 January 1970 has its day number and is a Thursday, which fixes the weekday count the ISO weeks rest on |
| `Calendar.IsoWeekIs` | internal/period/period.go:126-128 | the ISO year runs from the Monday of the week that holds 4 January to that of the next, and its weeks are counted from 1 |
| `Calendar.WeekdaysFollow` | internal/period/period.go:126-128 | weekdays follow each other from the Thursday of 1 January 1970 |
| `Calendar.CivilRoundTrip` | internal/period/period.go:44-49 | a day's year, month and day give the day back |
| `Calendar.MonthsAbut` | internal/period/period.go:79-108 | each month starts where the one before ends |
| `YamlConversion.Convert` | internal/config/schema.go:160-171 | for every document graph, alias cycles included, conversion ends within the step and depth budgets with at most 101 errors; it reports none exactly when the document is readable within the depth limit and its nodes, pairs and merges, counted each time an alias leads to them, number at most the budget; then the steps taken are that count, and the result is what its kind reads as: a list of its items' values, an object in which each key has what its lookup finds, a scalar's value, or the value of what it leads to |
| `YamlConversion.YamlConverter.Record` | internal/config/schema.go:173-189 | each error is added until the cap, then the cap's own, and errors stop there |
| `YamlConversion.YamlConverter.Fail` | internal/config/schema.go:191-198 | adds one error, or none for a node that has failed before or once the walk has stopped, and marks the node |
| `YamlConversion.YamlConverter.Spend` | internal/config/schema.go:200-212 | counts one step, unless the walk has stopped, and lets it go on exactly within the budget; a step past it stops the walk with one error |
| `YamlConversion.YamlConverter.Descend` | internal/config/schema.go:214-225 | going down is allowed exactly within the depth limit |
| `YamlConversion.YamlConverter.Key` | internal/config/schema.go:394-426 | a key reads as its node, or its alias's target, reads, however often it is asked for |
| `YamlConversion.YamlConverter.ReadScalar` | internal/config/schema.go:427-464 | a scalar's value, the same however often it is asked for |
| `YamlConversion.YamlConverter.Node` | internal/config/schema.go:242-274 | without errors the value is the node's meaning within the depth left and the steps taken are its count; never more steps; a meaningful node reports nothing but an exhausted budget |
| `YamlConversion.YamlConverter.Items` | internal/config/schema.go:257-265 | without errors the list of the items' meanings, in order |
| `YamlConversion.YamlConverter.Follow` | internal/config/schema.go:231-240 | without errors the value is the target's meaning; an alias to a target with a meaning is never refused as a cycle |
| `YamlConversion.YamlConverter.Fill` | internal/config/schema.go:286-322 | without errors the mapping's fields, by the merge rule, under the keys already there |
| `YamlConversion.YamlConverter.FillOwn` | internal/config/schema.go:289-318 | the mapping's own keys, each once, and what its one merge key names |
| `YamlConversion.YamlConverter.Merge` | internal/config/schema.go:356-364 | one merged mapping, or a list of them with the first winning |
| `YamlConversion.YamlConverter.MergeOne` | internal/config/schema.go:366-392 | merges a mapping or an alias to one, and refuses any other node |
| `YamlMeaning.KeyWins` | internal/config/schema.go:286-364 | a mapping with a meaning holds exactly the keys found by looking them up from the top: its own pairs first, then what its merge names, in the order written and each the same way |
| `YamlMeaning.ValueReads` | internal/config/schema.go:242-322 | a node has a value exactly when its parts read: every item, or every own key and value, no key twice, and at most one merge of mappings that read; the value is then, kind by kind and key by key, what those parts read as |
| `YamlMeaning.FlatSteps` | internal/config/schema.go:200-212 | a scalar takes one step, a flat list one more than its items, a flat mapping one more than two for each pair, merged as well, and an alias one more than its target |
| `YamlMeaning.ValueStays` | internal/config/schema.go:214-225 | a node that has a meaning within one depth has the same meaning within any greater one |

## Left out

- Matrix trees: their placement, spillover, pruning and holding tank in the engine. The store's removal with several users and relocations, as matrix pruning reports them, is modelled; the engine that reports them is not.
- Postgres stores, SQL, isolation levels and migrations: the in-memory stores are modelled, each write atomic.
- The lock: acquiring it, waiting for it, losing it, reading version 1 once before and once after taking it, and writers of the same tree in other processes.
- Other trees in the protocol's store: `protocol.dfy` follows one tree's rows. The store laws range over all trees.
- Subprocess transport, NDJSON, JSON and UUID text, and contexts, timeouts and retry delays: a cancelled or late call is one that failed.
- The text of errors, warnings, results and observations, and which of several errors wraps which, beyond what rejection evidence tells apart.
- The snapshot store on its own: `Put`, which never lowers a version, and `Delete` appear as the writer uses them.
- The library heap of the loader: the queue is held to returning its least element.
- `TreeLoader.LoadTree` and the commands that call the writer.
- When a commission run was started. Reading one commission run or a period's active run; commission calculators, carry-forward contents, which amounts parse, which is given with each, and copying of returned rows, which are values here.
- Copying of event bytes on append and read, which are values here.
- The exact text of labels for years outside 0 to 9999.
- Reading YAML scalars: which text is a number, a merge key, a valid key or a decodable value is given with each scalar. Paths and messages of conversion errors.
- Schema validation, plan rules, and every other bounded context.
- TreeConsumer.StoreLink.Commit: says what a store write may answer and leave behind, not how a connection fails.
- EngineWorker.Worker.Apply: says what a call may answer and leave behind, not how a worker fails.
- ReplayOrder.OrderForReplay: asks for rows whose references resolve and whose users are distinct, as its source does; its stop on other rows is not modelled.
- CommissionRuns.MemoryCommissionRunStore.SaveResults: the final sort is not modelled, because the rows are proved to be in ascending id already.
