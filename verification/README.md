# Verified models of ream's stateful cores

This project models, in Dafny, the parts of the ream Ethereum client whose correctness depends on
more than one function at a time: Merkle multiproofs, the data column fetch scheduler, the ENR
save-before-publish protocol, the state snapshot writer queue, partial column assembly, scrypt and
PBKDF2, the two vote pools, batched KZG verification, the data availability checker and the pruned
list of seen bitfields. `dafny verify dfyconfig.toml` checks everything.

Hash functions, Salsa20/8, the keyed hash of PBKDF2, BLS aggregation, the KZG batch verifier and the
root of attestation data are parameters. Identifiers (roots, peers, cells, signers) are numbers.
Time is a number of milliseconds. Every region that holds a lock is one atomic step, except that an
admission to the snapshot queue holds its mutex over three steps. What the environment decides (whether
a save fails, which thread runs, what a hash map iterates first) is left open, so each result holds for
every choice.

## How the parts fit together

- `Bits`, `Bytes`, `Sets`, `Wrappers`, `LruCache` hold shared definitions: bit operations defined bit
  by bit, byte strings cut in equal slots, set sizes, `Option`/`Result`, and the bounded cache.
- `GeneralizedIndex`, `MerkleTree`, `Multiproof`: the array tree against a halving definition of the
  root; branches and multiproofs proved complete and binding. The worklist loop is proved equal, on
  every input, to a recursive reading of the sparse node map.
- `FetchTracker` has the scheduler's class and its steps on values; `FetchRuns` proves what holds over
  every run of those steps.
- `EnrStore` has the protocol's steps and run theorems; `Discovery` the object whose methods take them.
- `SnapshotQueue`, `PartialColumns`, `SyncPool`, `AttestationPool`, `Availability`, `SeenBits`,
  `KzgBatch`, `Pbkdf2`, `Scrypt` each hold one component: methods proved against functions, and the
  theorems about those functions.

Binding results do not assume a collision-free hash. They say that the claimed values are the tree's,
or that the two computations hash different pairs to one value at a named node. Only the two
if-and-only-if statements about multiproof leaves assume an injective hash.

## Where the code does not meet the expectation

- A verified multiproof does not bind its leaves in general: the code compares only the number of
  proof nodes with the number of helper indices, and keys can be any numbers, as a multiproof may have
  been deserialized. `Multiproof.CountCheckIsNotEnough` and `Multiproof.KeyZeroIsNotBound` give two families
  of inputs, and `Multiproof.LeafBoundExactly` the exact condition, for every multiproof that verifies: the
  leaf's key is not 0, it is not also a proof key, and no given key lies strictly above it.
  `Multiproof.HelperShapeBinding` shows that the shape `generate` produces meets it.
- Records that discv5 changes by itself are served before they are saved, as the code's own comment
  says. `EnrStore.SocketChangeIsUnsafe` shows on any machine with two numbers left how one such change, a crash and a restart
  serve one number with two records. `EnrStore.CrashSafeExactly` gives the exact condition: a crash is
  harmless if and only if the file, as seen now and as it survives a power loss, covers the record served
  now. Without such changes every crash is harmless (`EnrStore.SaveBeforePublish`).
- Producers waiting for a slot of the snapshot queue are not always served. A task that fails keeps its
  slot for good, and a task that panics ends the worker. While a producer sleeps the worker can go on if
  and only if it has not panicked and fewer than three tasks have failed
  (`SnapshotQueue.SleepersAreServedExactly`). Once it has panicked, or three have failed, no sleeper is
  ever admitted (`SnapshotQueue.SleeperNeverAdmitted`), and a single panic is enough
  (`SnapshotQueue.OnePanicStrandsSleepers`). Otherwise no producer sleeps through more than nineteen steps
  of the worker (`SnapshotQueue.SleepIsBounded`).
- The root of a queued snapshot task is not always in the overlay: if the same state object is enqueued
  twice, the first write clears it (`SnapshotQueue.RepeatedStateClearedEarly`). The invariant of
  `SnapshotQueue.StepKeepsInv` says exactly which roots are there, and `SnapshotQueue.ReadableUntilWritten`
  that the latest state of a root is there or has been written.
- The comment above scrypt's parameter checks says they rule out every later error. They do not: a block
  size of zero divides by zero in the second check (`Scrypt.ZeroBlockSizePanics`). `Scrypt.PanicsExactly`
  gives the exact condition, for builds with overflow checks, where a block size of 2^62 or more panics,
  and for builds without, where it wraps. There the check also accepts huge block sizes that look small
  (`Scrypt.AcceptsExactly`); the call then fails because its threads read past their chunk
  (`Scrypt.LooksSmallRunsPastTheEnd`).
- Nor does the check bound the cost: every cost of 2^56 or more passes it (`Scrypt.HugeCostPassesCheck`, and
  `Scrypt.CostOf57PassesCheck` for one input), and each thread then panics over its table, because the
  size overflows, wraps or exceeds one allocation. `Scrypt.TableFillsExactly` gives the exact condition in
  either build, `n * 128 * r <= 2^63 - 1`. The call yields a key if and only if the parameters are good and
  the table fits (`Scrypt.DeriveScrypt`).
- The columns of a block without blobs have no cells, are complete from the start and are never reported;
  every other column is reported exactly once when it is complete (`PartialColumns.ReportedExactlyOnce`).

## Model

| member | source | states |
|---|---|---|
| GeneralizedIndex.IndexOperationsAreBitwise | crates/crypto/merkle/src/index.rs:3-9 | sibling, right node of a pair and bit test are the source's `^ 1`, `\| 1` and `& (1 << position)` |
| GeneralizedIndex.GetBranchIndices | crates/crypto/merkle/src/index.rs:30-39 | the loop collects the siblings of the path, bottom up, for every index including 0 and 1 |
| GeneralizedIndex.GetPathIndices | crates/crypto/merkle/src/index.rs:43-52 | the loop collects the path without the root |
| GeneralizedIndex.PathMembership | crates/crypto/merkle/src/index.rs:41-52 | the path holds exactly the nodes above the index other than the root |
| GeneralizedIndex.BranchMembership | crates/crypto/merkle/src/index.rs:28-39 | a node is in the branch exactly when its sibling is in the path |
| GeneralizedIndex.IndicesInOrder | crates/crypto/merkle/src/index.rs:28-52 | bottom up, node i of the path is the index shifted by i, and node i of the branch its sibling |
| Multiproof.GetHelperIndices | crates/crypto/merkle/src/index.rs:54-75 | the result lists, strictly descending, exactly the branch nodes that are on no path |
| MerkleTree.BuildTree | crates/crypto/merkle/src/lib.rs:14-33 | succeeds exactly when the leaves fit; places and pads the leaves; every inner node is the hash of its children |
| MerkleTree.NodeIsHalvingRoot | crates/crypto/merkle/src/lib.rs:26-30 | every node of the array is the root, by recursive halving, of the leaves below it |
| MerkleTree.RootOfLeaves | crates/crypto/merkle/src/lib.rs:14-33 | node 1 is the halving root of the padded leaves |
| MerkleTree.GenerateProof | crates/crypto/merkle/src/lib.rs:35-63 | succeeds exactly for an index in range; the i-th node is the sibling of the leaf's i-th ancestor |
| MerkleTree.RootFromBranch | crates/crypto/merkle/src/lib.rs:78-88 | the loop computes the recursive fold of the branch |
| MerkleTree.IsValidBranch | crates/crypto/merkle/src/lib.rs:65-76 | true exactly when the length is the depth and the fold is the root |
| MerkleTree.IsValidNormalizedBranch | crates/crypto/merkle/src/lib.rs:90-108 | true exactly when the extra leading nodes are zero and the rest is a valid branch of the subtree index |
| MerkleTree.NormalizedIsPadded | crates/crypto/merkle/src/lib.rs:90-108 | the normalized form accepts exactly the zero-padded valid branches, whatever the padding |
| MerkleTree.BranchComplete | crates/crypto/merkle/src/lib.rs:35-88 | for every tree, depth and index, the generated proof folds back to the tree's root |
| MerkleTree.BranchBinding | crates/crypto/merkle/src/lib.rs:78-88 | two branches with one root are equal, leaf included, or the folds collide at some level |
| MerkleTree.BranchSound | crates/crypto/merkle/src/lib.rs:65-88 | a branch valid for the tree's root is the tree's own proof of the tree's own leaf, or collides with the tree |
| Multiproof.WorklistRebuilds | crates/crypto/merkle/src/multiproof.rs:71-113 | what the loop leaves stored is exactly what the recursive reading of the given nodes determines |
| Multiproof.FillIn | crates/crypto/merkle/src/multiproof.rs:71-107 | the worklist loop terminates on every node map and stores a root exactly when the map determines one, and that one |
| Multiproof.CalculateRoot | crates/crypto/merkle/src/multiproof.rs:59-113 | for every multiproof, honest or not: an error exactly if the number of proof nodes is not that of the helper indices or no root is determined, else the root that leaves and proof nodes determine |
| Multiproof.Verify | crates/crypto/merkle/src/multiproof.rs:115-123 | accepts exactly when the numbers agree and the determined root is the expected one |
| Multiproof.SurplusProofRefused | crates/crypto/merkle/src/multiproof.rs:64-69 | with one leaf at node 2, any number of proof nodes other than one is refused |
| Multiproof.Generate | crates/crypto/merkle/src/multiproof.rs:32-57 | succeeds exactly for non-empty in-range indices, repeats allowed; leaf i is at 2^depth + i, and leaves and helper nodes carry the tree's values |
| Multiproof.RebuildReaches | crates/crypto/merkle/src/multiproof.rs:81-107 | with the helper nodes given, every ancestor of every proved node is determined |
| Multiproof.HonestRebuild | crates/crypto/merkle/src/multiproof.rs:81-112 | the proved nodes and their helper nodes of a tree determine exactly the tree's root |
| Multiproof.MultiproofComplete | crates/crypto/merkle/src/multiproof.rs:32-113 | the generated multiproof of any non-empty set of nodes yields exactly the tree's root |
| Multiproof.MultiproofBinding | crates/crypto/merkle/src/multiproof.rs:59-123 | a verifying multiproof carries the tree's value at every node with no given node above it, or collides with the tree |
| Multiproof.ShieldedLeafUnread | crates/crypto/merkle/src/multiproof.rs:71-107 | the value of a leaf at key 0, of one that is also a proof key, or of one below a given key never reaches the root |
| Multiproof.ShieldedLeafUnbound | crates/crypto/merkle/src/multiproof.rs:64-75 | such a leaf can take any value without changing the outcome of the whole check |
| Multiproof.LeafAgreement | crates/crypto/merkle/src/multiproof.rs:59-123 | two multiproofs with the same keys, whatever these are, and one root agree on every other leaf, or collide at some node |
| Multiproof.LeafBoundExactly | crates/crypto/merkle/src/multiproof.rs:59-123 | with an injective hash, every multiproof that verifies binds a leaf, over all with the same keys, if and only if it is none of those three |
| Multiproof.LeafBoundToTree | crates/crypto/merkle/src/multiproof.rs:59-123 | the same against a tree's root, for a leaf at any of the tree's nodes: what it is bound to is the tree's value |
| Multiproof.HelperShapeBinding | crates/crypto/merkle/src/multiproof.rs:59-123 | with all leaves at one depth and exactly their helper nodes, every leaf and proof node is the tree's, or there is a collision |
| Multiproof.CountCheckIsNotEnough | crates/crypto/merkle/src/multiproof.rs:64-69 | a multiproof whose one proof node is the root verifies with any leaf |
| Multiproof.KeyZeroIsNotBound | crates/crypto/merkle/src/multiproof.rs:59-113 | beside any pair of nodes a leaf at key 0 verifies with any value, though it is no proof key and nothing lies above it |
| Multiproof.OneIndexIsProof | crates/crypto/merkle/src/index.rs:54-75 | the helper nodes of one leaf in descending order are its ordinary proof |
| FetchTracker.ColumnFetchTracker.EnqueueRoot | crates/networking/manager/src/data_availability_fetch.rs:83-98 | adds a fresh queued entry at the back exactly when the root is not tracked |
| FetchTracker.ColumnFetchTracker.FetchNext | crates/networking/manager/src/data_availability_fetch.rs:100-132 | refreshes, then issues nothing at the cap, else pops the queue to the first live root with an untried connected peer |
| FetchTracker.ColumnFetchTracker.FinishFetch | crates/networking/manager/src/data_availability_fetch.rs:134-168 | acts only on the matching fetch in flight: a complete one drops the entry, an incomplete one waits since now, a retryable one also counts the failure |
| FetchTracker.ColumnFetchTracker.RefreshOne | crates/networking/manager/src/data_availability_fetch.rs:174-206 | the effect on one entry, and whether it joins the queue |
| FetchTracker.ColumnFetchTracker.RefreshConnectedPeers | crates/networking/manager/src/data_availability_fetch.rs:170-208 | every entry refreshed; woken roots join the queue once each, in whatever order the map iterates |
| FetchTracker.ColumnFetchTracker.RemoveRoot | crates/networking/manager/src/data_availability_fetch.rs:210-212 | drops the entry and leaves the queue, which may become stale |
| FetchTracker.ColumnFetchTracker.ForgetPeer | crates/networking/manager/src/data_availability_fetch.rs:214-219 | the peer counts as neither tried nor retryable in any entry |
| FetchTracker.ColumnFetchTracker.RetainRoots | crates/networking/manager/src/data_availability_fetch.rs:221-227 | keeps pending entries and the queue items that still have one |
| FetchTracker.FirstUntried | crates/networking/manager/src/data_availability_fetch.rs:118-125 | none exactly when every connected peer was tried, else the first untried one |
| FetchRuns.StepKeepsInv | crates/networking/manager/src/data_availability_fetch.rs:83-227 | every call keeps every queued entry in the queue and at most 32 fetches in flight |
| FetchRuns.RunSafe | crates/networking/manager/src/data_availability_fetch.rs:83-227 | in every state of every run no queued root is lost and the cap holds |
| FetchRuns.ScanOutcome | crates/networking/manager/src/data_availability_fetch.rs:110-131 | what the scan does to each entry; if it issues nothing, no queued entry is left |
| FetchRuns.WithheldOnlyIfNothingToDo | crates/networking/manager/src/data_availability_fetch.rs:101-132 | nothing is issued only at the cap or when every entry not in flight has tried every connected peer |
| FetchRuns.FetchIssuedWhenPossible | crates/networking/manager/src/data_availability_fetch.rs:101-132 | below the cap, one entry not in flight with an untried connected peer suffices for a fetch to be issued |
| FetchRuns.WakesExactly | crates/networking/manager/src/data_availability_fetch.rs:179-206 | an entry is put back in the queue exactly when a connected peer is untried or, after the timeout, failed only transiently |
| FetchRuns.RetriedExactly | crates/networking/manager/src/data_availability_fetch.rs:179-204 | a tried connected peer may be tried again exactly after a transient failure, the timeout, and all others tried first |
| FetchRuns.RefreshExactly | crates/networking/manager/src/data_availability_fetch.rs:170-206 | what a refresh does to every peer's record and to the entry's state, when it parks included |
| FetchRuns.TransientFailureRecoversExactly | crates/networking/manager/src/data_availability_fetch.rs:159-204 | after a transient failure, the timeout and all others tried, the peer may be tried again exactly up to its second failure |
| FetchRuns.ScanServesFirst | crates/networking/manager/src/data_availability_fetch.rs:110-130 | the issued root is the first queue item that is live and has an untried connected peer, and the queue continues after it |
| FetchRuns.ServedInTurn | crates/networking/manager/src/data_availability_fetch.rs:83-227 | over every run, a queued root at place b with an untried peer that stays connected is handed out within b + 1 calls below the cap, whatever else happens |
| FetchRuns.BoundedRetries | crates/networking/manager/src/data_availability_fetch.rs:101-219 | over any run, while the entry lives, a peer is handed out for the root at most three times plus once per time the tracker lost sight of it |
| FetchRuns.OneFetchAtATime | crates/networking/manager/src/data_availability_fetch.rs:110-168 | between two hand-outs of a root, the first was finished or the entry removed |
| FetchRuns.LeavesExactly | crates/networking/manager/src/data_availability_fetch.rs:134-227 | a tracked root stops being tracked exactly by its removal, a retain without it, or its complete fetch |
| FetchRuns.StaysTracked | crates/networking/manager/src/data_availability_fetch.rs:83-227 | over every run a tracked root stays tracked until one of those |
| FetchRuns.EnqueuedStaysTracked | crates/networking/manager/src/data_availability_fetch.rs:83-98 | the same from its enqueue on |
| FetchRuns.OtherwiseUntouched | crates/networking/manager/src/data_availability_fetch.rs:134-227 | other calls leave an entry as it is; a matching finish leaves it waiting since then with the same peers tried |
| FetchRuns.ReconnectedPeerServes | crates/networking/manager/src/data_availability_fetch.rs:214-219 | after a disconnect and its return, a peer is handed the first queued root, whatever it was asked before |
| EnrStore.StepKeepsInv | crates/networking/discv5/src/discovery.rs:116-234 | start, update, persist, discv5's own learned and dropped sockets, and a safe crash keep the protocol's invariant; all but discv5's changes keep crash safety |
| EnrStore.SaveBeforePublish | crates/networking/discv5/src/discovery.rs:361-380 | from any disk, over every run of updates, failed saves, crashes and restarts the disk is never behind, numbers never decrease and none is served with two records |
| EnrStore.SafeRun | crates/networking/discv5/src/discovery.rs:217-234 | with discv5's own changes the same ordering holds, from any disk, for every run whose crashes find all served records on disk |
| EnrStore.CrashSafeExactly | crates/networking/discv5/src/discovery.rs:217-234 | a crash can never lead to a reused number if and only if the file, now and after a power loss, covers the record served now |
| EnrStore.SocketChangeIsUnsafe | crates/networking/discv5/src/discovery.rs:217-219 | from any disk with two numbers left a start and one change of discv5's own reach an unsafe state, from which a crash and restart reuse a number |
| EnrStore.StartKeepsInv | crates/networking/discv5/src/persisted_enr.rs:55-75 | a restart continues after every record served before, reusing the saved record only unchanged |
| EnrStore.StartServesExactly | crates/networking/discv5/src/persisted_enr.rs:55-75 | what a start serves: number 1, the unchanged saved record, the next number, or nothing at the last number |
| EnrStore.UpdateKeepsInv | crates/networking/discv5/src/discovery.rs:365-380 | an update saves before it serves; a failed one serves nothing and loses no crash safety |
| EnrStore.UpdateServesExactly | crates/networking/discv5/src/discovery.rs:361-380 | what an update serves and saves, and that a failed one changes nothing served |
| EnrStore.InsertAllExactly | crates/networking/discv5/src/discovery.rs:365-373 | after the inserts each entry has the last value given for it, or what it had |
| EnrStore.SocketChangeExactly | crates/networking/discv5/src/discovery.rs:217-219 | what discv5's own change does to each entry, without a save |
| EnrStore.PersistKeepsInv | crates/networking/discv5/src/discovery.rs:220-234 | a successful persist makes the state crash safe again |
| EnrStore.NoMixedForkPair | crates/networking/discv5/src/discovery.rs:343-350 | over every run each served record advertises fork entries that were set together |
| Discovery.Discovery.Init | crates/networking/discv5/src/discovery.rs:132-214 | loads, continues the sequence, saves, and serves only if the save succeeded |
| Discovery.Discovery.Save | crates/networking/discv5/src/persisted_enr.rs:77-100 | a failed save leaves the old file or, after the rename, the new one |
| Discovery.Discovery.UpdateLocalEnr | crates/networking/discv5/src/discovery.rs:361-380 | the inserts go to a copy that is saved, then published; nothing is published on overflow or a failed save |
| Discovery.Discovery.PersistLocalEnr | crates/networking/discv5/src/discovery.rs:217-234 | saves when the number changed or the last save failed, and tells whether it changed |
| Discovery.Discovery.SetEntry | crates/networking/discv5/src/discovery.rs:245-271 | an advertised value is left alone, number included; otherwise one update; on success the value is advertised |
| Discovery.Discovery.SetAttestationSubnets | crates/networking/discv5/src/discovery.rs:273-290 | unchanged subnets only persist; the remembered subnets stay those the record advertises |
| Discovery.Discovery.SetForkEnr | crates/networking/discv5/src/discovery.rs:324-359 | both entries change in one published record, or nothing changes |
| SnapshotQueue.StateSnapshotQueue.TryEnqueue | crates/storage/src/cache.rs:146-175 | one pass of the producer's loop: blocked, refused, or the state published and the task pushed |
| SnapshotQueue.StateSnapshotQueue.TryNext | crates/storage/src/cache.rs:177-189 | one pass of the worker's loop: nothing yet, closed, or the oldest task |
| SnapshotQueue.PendingStates.Clear | crates/storage/src/tables/beacon/beacon_state.rs:582-592 | removes the root's entry exactly if it is still the written state |
| SnapshotQueue.StepKeepsInv | crates/storage/src/cache.rs:134-208 | every step of every thread keeps count, mutual exclusion, order, the exact contents of the overlay and the absence of lost wake-ups |
| SnapshotQueue.RunSafe | crates/storage/src/cache.rs:134-208 | in every interleaving the count is queued + running + failed and at most three; tasks are published, admitted and popped in one order, each once |
| SnapshotQueue.PublishKeepsExact | crates/storage/src/cache.rs:168-173 | publishing makes the task's state the latest of its root and leaves other roots as they were |
| SnapshotQueue.ClearKeepsExact | crates/storage/src/tables/beacon/beacon_state.rs:582-592 | a root leaves the overlay exactly when its latest published state is the one written |
| SnapshotQueue.ReadableUntilWritten | crates/storage/src/tables/beacon/beacon_state.rs:622-664 | the latest state published for a root is in the overlay, or that very state has been written |
| SnapshotQueue.WaitingIsReadable | crates/storage/src/tables/beacon/beacon_state.rs:622-664 | if no state object is published twice, a root is readable exactly until its latest task clears it, so every queued or running task's is |
| SnapshotQueue.RepeatedStateClearedEarly | crates/storage/src/tables/beacon/beacon_state.rs:582-592 | a run in which a task is queued and its root is not in the overlay |
| SnapshotQueue.OverlayBounded | crates/storage/src/cache.rs:155-173 | the overlay never holds more states than tasks queued, running, failed or being pushed, and never more than three |
| SnapshotQueue.CompleteNeverUnderflows | crates/storage/src/cache.rs:191-198 | a worker about to complete finds a positive count, and can once the mutex is free |
| SnapshotQueue.SleepersAreServedExactly | crates/storage/src/cache.rs:155-160 | while a producer sleeps, the worker has a step to take that is not going to sleep if and only if it has not panicked and fewer than three tasks failed |
| SnapshotQueue.SleepIsBounded | crates/storage/src/cache.rs:155-198 | over every run, until three tasks have failed, a producer sleeps through at most nineteen worker steps, failures included |
| SnapshotQueue.StoppedForGood | crates/storage/src/cache.rs:440-446 | over every run, after a panic or three failures nothing completes and only the slots still free are ever filled |
| SnapshotQueue.SleeperNeverAdmitted | crates/storage/src/cache.rs:440-446 | over every run, a producer asleep when the worker has panicked or three tasks have failed is never admitted |
| SnapshotQueue.OnePanicStrandsSleepers | crates/storage/src/cache.rs:440-446 | a run in which one task panics and a producer sleeps |
| SnapshotQueue.ClosedQueueDrains | crates/storage/src/cache.rs:182-207 | after close no thread adds work and every worker step shrinks what remains |
| SnapshotQueue.ClosedForGood | crates/storage/src/cache.rs:200-207 | over every run nothing is published or admitted after a close |
| SnapshotQueue.DrainIsBounded | crates/storage/src/cache.rs:200-207 | over every run, from a closed state the worker takes a bounded number of further steps, whatever the others do |
| SnapshotQueue.WorkerLeavesOnlyDrained | crates/storage/src/cache.rs:437-447 | once no worker step is left, the worker panicked or left with every published task popped and in the overlay only roots whose latest task failed |
| PartialColumns.AddCells | crates/common/consensus/beacon/src/partial_data_column_sidecar.rs:247-257 | held cells stay, each empty position takes the cell given first for it, and the additions are counted |
| PartialColumns.InsertCellsExtends | crates/common/consensus/beacon/src/partial_data_column_sidecar.rs:247-257 | held cells stay; the result holds exactly the old positions and the given ones in range |
| PartialColumns.InsertedAt | crates/common/consensus/beacon/src/partial_data_column_sidecar.rs:247-257 | position by position: the held cell, or the cell given first for it |
| PartialColumns.Assembler.MergeInto | crates/networking/manager/src/partial_columns.rs:456-488 | fills the column's empty positions from the cells, advertises exactly when one was new, and reports completion exactly when that completed it |
| PartialColumns.Assembler.OnFullColumns | crates/networking/manager/src/partial_columns.rs:280-313 | completes the incomplete sampled columns and returns how many it reported |
| PartialColumns.Assembler.AddValidatedHeader | crates/networking/manager/src/partial_columns.rs:338-359 | lowers the pending flag of a known block, else evicts, inserts, and asks for a fetch exactly if the block is not in the cache |
| PartialColumns.Assembler.EvictOldest | crates/networking/manager/src/partial_columns.rs:592-604 | at 32 assemblies drops one of the lowest slot, else nothing |
| PartialColumns.StepKeepsInv | crates/networking/manager/src/partial_columns.rs:282-413 | every locked step keeps the bound and the reports sound, and surviving assemblies live on |
| PartialColumns.RunSafe | crates/networking/manager/src/partial_columns.rs:282-488 | under every interleaving at most 32 assemblies exist and no column of one assembly is reported complete twice |
| PartialColumns.ReportedExactlyOnce | crates/networking/manager/src/partial_columns.rs:282-488 | under every interleaving a column of a living assembly was reported once if its block has blobs and it is complete, else never; without blobs it is complete from the start |
| PartialColumns.AssemblyLivesOn | crates/networking/manager/src/partial_columns.rs:324-343 | while an assembly lives its parent never becomes pending again and complete columns never change |
| PartialColumns.HeldCellsOnlyGrow | crates/networking/manager/src/partial_columns.rs:456-488 | with validated full columns the cells held in a column only grow while its assembly lives |
| PartialColumns.CellsWereGiven | crates/networking/manager/src/partial_columns.rs:282-488 | under every interleaving, every cell held was brought for that block, column and position by an event of the run |
| PartialColumns.FullCompletes | crates/networking/manager/src/partial_columns.rs:290-303 | a full column completes its column if it is sampled |
| PartialColumns.FlagsExactly | crates/networking/manager/src/partial_columns.rs:324-413 | the parent is pending as long as every header said so, and the local fetch settled once that was reported |
| PartialColumns.FlagsRemembered | crates/networking/manager/src/partial_columns.rs:324-413 | over every run both are remembered while the assembly lives |
| PartialColumns.EndsOnlyByEviction | crates/networking/manager/src/partial_columns.rs:592-604 | an assembly ends only when a new block comes at 32, and is then of the lowest slot |
| PartialColumns.RefetchOnlyAfterManyOthers | crates/networking/manager/src/partial_columns.rs:338-365 | a block is fetched from the execution client again only after at least 64 other blocks were started |
| LruCache.TouchOther | crates/networking/manager/src/partial_columns.rs:344-344 | using another key drops a key only when a full cache of other keys is newer |
| Bytes.LowBitsOfEightBytes | crates/crypto/keystore/src/scrypt.rs:44-49 | masking the low 8 bytes gives the whole little-endian integer modulo the power of two |
| Bits.BitOfXor | crates/crypto/keystore/src/scrypt.rs:13-15 | every bit of the exclusive or is set exactly when the two bits differ |
| Bits.BitOfOr | crates/crypto/merkle/src/index.rs:7-9 | every bit of the disjunction is the disjunction of the bits |
| Bits.BitOfAnd | crates/crypto/keystore/src/scrypt.rs:48-48 | every bit of the conjunction is the conjunction of the bits |
| Bytes.XorIsBitwise | crates/crypto/keystore/src/scrypt.rs:53-55 | the same for every bit of every byte of two byte strings |
| Scrypt.MixedChunk | crates/crypto/keystore/src/scrypt.rs:8-17 | X starts as the last chunk; each further value is Salsa of the one before it xor the next chunk |
| Scrypt.BlockMixChunk | crates/crypto/keystore/src/scrypt.rs:20-28 | chunk k of the result is value 2k, chunk r + k value 2k + 1 |
| Scrypt.BlockMixOfOne | crates/crypto/keystore/src/scrypt.rs:7-29 | the smallest block, two chunks, written out |
| Scrypt.RoundWrittenOut | crates/crypto/keystore/src/scrypt.rs:43-58 | a round mixes the exclusive or with the table entry that the last 64 bytes select |
| Scrypt.RoMixOfTwo | crates/crypto/keystore/src/scrypt.rs:31-60 | the smallest cost, two table entries and two rounds, written out |
| Scrypt.BlockMixInPlace | crates/crypto/keystore/src/scrypt.rs:7-29 | in place, the buffer becomes scryptBlockMix of its old content (section 4 of RFC 7914), for every block size |
| Scrypt.MixChunks | crates/crypto/keystore/src/scrypt.rs:8-18 | overwriting chunks as they are mixed destroys none still to be read |
| Scrypt.Shuffle | crates/crypto/keystore/src/scrypt.rs:20-28 | even chunks to the front half, odd chunks to the back half, in order |
| Scrypt.IndexIsIntegerify | crates/crypto/keystore/src/scrypt.rs:44-49 | the table index is Integerify(X) mod N |
| Scrypt.FillTable | crates/crypto/keystore/src/scrypt.rs:32-40 | the flat table holds the input mixed 0 to N - 1 times and the buffer N times |
| Scrypt.RoMixInPlace | crates/crypto/keystore/src/scrypt.rs:31-60 | in place, the buffer becomes scryptROMix of its old content (section 5 of RFC 7914), for every power of two |
| Scrypt.AnyCompletionOrder | crates/crypto/keystore/src/scrypt.rs:107-113 | written back in any order, the threads' results are their concatenation in thread order |
| Scrypt.MixThreads | crates/crypto/keystore/src/scrypt.rs:90-113 | the per-thread split computes scryptROMix of every slot |
| Scrypt.NextSlotMixed | crates/crypto/keystore/src/scrypt.rs:90-113 | each slot of the mixed block is scryptROMix of the same slot of the unmixed one |
| Scrypt.ScryptOfOneThread | crates/crypto/keystore/src/scrypt.rs:85-114 | with one thread the key is PBKDF2 of scryptROMix of PBKDF2 |
| Scrypt.FirstCallFits | crates/crypto/keystore/src/scrypt.rs:76-89 | the parameter check puts the first PBKDF2 call within its limit |
| Scrypt.GoodParametersExactly | crates/crypto/keystore/src/scrypt.rs:72-83 | the good parameters, in numbers |
| Scrypt.PanicsExactly | crates/crypto/keystore/src/scrypt.rs:70-83 | the parameter check panics if and only if cost and parallelization pass and the block size is zero, or overflows with overflow checks, or wraps to zero without |
| Scrypt.AcceptsExactly | crates/crypto/keystore/src/scrypt.rs:70-83 | it accepts exactly good parameters and, in a build that wraps, huge block sizes that look small |
| Scrypt.ZeroBlockSizePanics | crates/crypto/keystore/src/scrypt.rs:76-80 | a block size of zero panics in every build, unless the parallelization is zero too |
| Scrypt.LooksSmallRunsPastTheEnd | crates/crypto/keystore/src/scrypt.rs:11-26 | with such a block size the mixing loop, or at the latest the rearranging loop, reaches bytes past the thread's chunk |
| Scrypt.TableFillsExactly | crates/crypto/keystore/src/scrypt.rs:32-40 | in either build a thread's table can be allocated and holds every block if and only if its size is at most 2^63 - 1 bytes |
| Scrypt.WrappedTableRunsOut | crates/crypto/keystore/src/scrypt.rs:33-38 | in a table whose length wrapped, some block begins within it and ends beyond |
| Scrypt.HugeCostPassesCheck | crates/crypto/keystore/src/scrypt.rs:72-83 | every cost of 2^56 or more passes the check and gives a table that does not fit |
| Scrypt.CostOf57PassesCheck | crates/crypto/keystore/src/scrypt.rs:33-33 | the same for a cost of 2^57 with block size and parallelization one |
| Scrypt.DeriveScrypt | crates/crypto/keystore/src/scrypt.rs:31-115 | on all 64-bit parameters and both builds: a key, that of section 6 of RFC 7914, exactly if the parameters are good and the table fits; a panic exactly on a bad block size; else an error |
| Pbkdf2.Pbkdf2Helper | crates/crypto/keystore/src/pbkdf2.rs:7-19 | the loop computes T_i = U_1 xor ... xor U_c; one and two iterations written out |
| Pbkdf2.BlockIsParity | crates/crypto/keystore/src/pbkdf2.rs:12-17 | each bit of T_i is the parity of that bit over U_1, ..., U_c |
| Pbkdf2.KeyByte | crates/crypto/keystore/src/pbkdf2.rs:32-44 | byte 32j + x of the key is byte x of T_(j + 1), whatever the length |
| Pbkdf2.DeriveKey | crates/crypto/keystore/src/pbkdf2.rs:21-47 | succeeds exactly within the limits, with the truncated block concatenation of section 5.2 of RFC 2898 |
| Pbkdf2.ShorterIsPrefix | crates/crypto/keystore/src/pbkdf2.rs:32-44 | a shorter key is a prefix of a longer one |
| Pbkdf2.BigEndianDenotes | crates/crypto/keystore/src/pbkdf2.rs:8-8 | the four index bytes denote the index, most significant first |
| AttestationPool.AggregateAttestationGroup | crates/common/operation_pool/src/lib.rs:411-462 | the pass over the group computes the greedy selection's aggregate |
| AttestationPool.SelectExact | crates/common/operation_pool/src/lib.rs:426-453 | what is taken is well formed, new and pairwise disjoint; what is left overlaps it or adds nothing |
| AttestationPool.SelectOneMore | crates/common/operation_pool/src/lib.rs:426-453 | greedy from the front: exactly when one more member is taken, given those before it |
| AttestationPool.AggregateExactAndMaximal | crates/common/operation_pool/src/lib.rs:411-462 | bits are the disjoint union, the signature covers each once, a vote is new, and the selection is maximal |
| AttestationPool.AggregateBit | crates/common/operation_pool/src/lib.rs:436-462 | a bit of the aggregate is set exactly if it is set in a chosen member |
| AttestationPool.NoneExactly | crates/common/operation_pool/src/lib.rs:455-460 | nothing is produced exactly when no well-formed member has a new vote or a chosen signature does not parse |
| AttestationPool.LargestFirstIsAtLeastAsLarge | crates/common/operation_pool/src/lib.rs:201-219 | the published aggregate has at least as many votes as any member of the group |
| AttestationPool.SortCorrect | crates/common/operation_pool/src/lib.rs:215-217 | the sort is a permutation with the most votes first that keeps the order of equals |
| AttestationPool.OperationPool.InsertAttestation | crates/common/operation_pool/src/lib.rs:229-241 | appends to the group of its slot, data root and committee |
| AttestationPool.OperationPool.GetAggregateAttestation | crates/common/operation_pool/src/lib.rs:203-219 | the aggregate of the key's group, sorted, or none |
| AttestationPool.OperationPool.GetAttestationsForBlock | crates/common/operation_pool/src/lib.rs:249-285 | up to eight aggregates of the eligible keys, newest slot first, none skipped while there is room |
| AttestationPool.OperationPool.MarkAttestationsIncluded | crates/common/operation_pool/src/lib.rs:289-311 | adds the bits of every single-committee attestation to its key |
| AttestationPool.MarkedExactly | crates/common/operation_pool/src/lib.rs:289-311 | a position is marked for a key exactly if it was before or is set in a marked attestation of the key's slot, data and one committee |
| AttestationPool.OnlyPackedIsMarked | crates/common/operation_pool/src/lib.rs:249-311 | over every run of packing and marking a marked vote was marked at the start or is in an aggregate that was packed |
| AttestationPool.PackMembers | crates/common/operation_pool/src/lib.rs:265-284 | everything packed is some key's aggregate, and while there is room no key's aggregate is left out |
| AttestationPool.EligibleExactly | crates/common/operation_pool/src/lib.rs:249-264 | which keys are eligible, in slots, epochs and checkpoints |
| AttestationPool.PackedNewestFirst | crates/common/operation_pool/src/lib.rs:262-284 | the slots of what is packed never rise |
| AttestationPool.NewestWin | crates/common/operation_pool/src/lib.rs:262-284 | an aggregate is left out only if all that is packed is at least as new |
| AttestationPool.PackedIsIncludable | crates/common/operation_pool/src/lib.rs:243-285 | everything packed is at least one slot old, of this epoch or the one before, has the justified source and a new vote, and there are at most eight |
| AttestationPool.PackingShrinks | crates/common/operation_pool/src/lib.rs:287-311 | a non-empty packing, once marked, leaves strictly fewer votes to include |
| AttestationPool.DrainTerminates | crates/common/operation_pool/src/lib.rs:249-311 | no run of non-empty packings is longer than the number of votes to include |
| AttestationPool.EmptyPackingMeansDrained | crates/common/operation_pool/src/lib.rs:249-285 | when packing yields nothing, every vote of every eligible key is marked included |
| SyncPool.SyncCommitteePool.AddMessage | crates/common/sync_committee_pool/src/lib.rs:167-257 | one message: skipped, added to the first contribution it aggregates with, or made its own |
| SyncPool.SyncCommitteePool.AggregateMessages | crates/common/sync_committee_pool/src/lib.rs:140-258 | all messages added in order to the key's contributions, starting from an empty one; other keys unchanged |
| SyncPool.SyncCommitteePool.GetBest | crates/common/sync_committee_pool/src/lib.rs:98-111 | a contribution with the most bits, the last of several |
| SyncPool.CallsKeepInv | crates/common/sync_committee_pool/src/lib.rs:127-258 | over every sequence of calls: disjoint bits, each signature covers exactly its bits' messages, at most max(1, limit) contributions |
| SyncPool.CountedExactly | crates/common/sync_committee_pool/src/lib.rs:133-139 | when a message is counted, and that one that is not changes nothing |
| SyncPool.CountedForGood | crates/common/sync_committee_pool/src/lib.rs:127-258 | over every sequence of calls a position once counted stays counted |
| SyncPool.EveryMessageCounted | crates/common/sync_committee_pool/src/lib.rs:140-258 | every message of every call has its turn: counted after the call unless it then fails the conditions above |
| SyncPool.OnlyGivenMessages | crates/common/sync_committee_pool/src/lib.rs:140-258 | over every sequence of calls contributions are made of messages that were passed in |
| SyncPool.OneContributionSuffices | crates/common/sync_committee_pool/src/lib.rs:177-217 | if aggregation fails only for signatures that fail alone, there is always one contribution |
| KzgBatch.BatchEnd | crates/common/polynomial_commitments/src/handlers.rs:182-192 | the longest run within the limit, empty exactly if its first column alone exceeds it |
| KzgBatch.Collect | crates/common/polynomial_commitments/src/handlers.rs:193-210 | lists every cell with its own column's index, commitment and proof, or fails exactly on an inconsistent column |
| KzgBatch.BatchIsPerCell | crates/common/polynomial_commitments/src/handlers.rs:211-219 | a batch is accepted exactly when each of its columns passes the per-cell check |
| KzgBatch.VerifySidecars | crates/common/polynomial_commitments/src/handlers.rs:173-223 | accepts exactly when every column is consistent, within the limit and valid cell by cell; the batches are consecutive and full |
| Availability.DataAvailabilityChecker.Insert | crates/common/data_availability/src/checker.rs:66-78 | sets block and slot and keeps received columns |
| Availability.DataAvailabilityChecker.Add | crates/common/data_availability/src/checker.rs:80-90 | ignores columns that are not required; the first one dates an entry without a block |
| Availability.DataAvailabilityChecker.Take | crates/common/data_availability/src/checker.rs:186-213 | hands the block out and drops the entry exactly when complete |
| Availability.DataAvailabilityChecker.MissingColumns | crates/common/data_availability/src/checker.rs:117-128 | the required columns not received, ascending |
| Availability.EntryAfterArrivals | crates/common/data_availability/src/checker.rs:66-90 | from any checker without the root, with any events of other blocks in between, the entry after any arrivals of blocks and columns, in closed form |
| Availability.OrderIndependent | crates/common/data_availability/src/checker.rs:66-109 | two runs with the same arrivals for a root, in any order and with anything for other blocks in between, leave the same entry and status |
| Availability.TakenAfterArrivals | crates/common/data_availability/src/checker.rs:186-213 | after any arrivals the block inserted last is handed out exactly if it has no blobs or all required columns arrived |
| Availability.HandOutExactly | crates/common/data_availability/src/checker.rs:186-213 | the same at any point of any run, in terms of what arrived since the root was last absent |
| Availability.StatusAfterArrivals | crates/common/data_availability/src/checker.rs:103-110 | the status after any arrivals, all four |
| Availability.DroppedExactly | crates/common/data_availability/src/checker.rs:92-101 | pruning keeps exactly the entries not older than the cutoff; removal drops one root |
| Availability.HandedOutAtMostOnce | crates/common/data_availability/src/checker.rs:186-194 | over every run a block is handed out at most once per insert |
| SeenBits.SeenList.RecordAggregationBits | crates/storage/src/cache.rs:324-328 | drops covered bitfields and appends the new one |
| SeenBits.PrunedAgreesWithHistory | crates/storage/src/cache.rs:319-328 | the pruned list answers every query as the full history would |
| SeenBits.UncoveredRecordsFormAntichain | crates/storage/src/cache.rs:324-328 | if only uncovered bitfields are recorded, none kept covers another |

## Left out

- Internals of SHA-256, Salsa20/8, HMAC, BLS and KZG: parameters of the model. HMAC keys longer than a block are not covered.
- Rounding of the floating point logarithm in the Merkle code: the model uses the exact integer logarithm, which agrees for the small generalized indices in use.
- MerkleTree.BuildTree: depth and indices are unbounded numbers, so shifts of 64 or more are not modelled.
- Scrypt.RoMixInPlace: takes the table's size as an unbounded number; `Scrypt.DeriveScrypt` has the bound that 64-bit words and one allocation put on it.
- Scrypt.DeriveScrypt: machine words have 64 bits. Of a thread that panics only the fact and the error are modelled. Memory that the system refuses within that bound, which aborts the process, and a thread that it refuses, which panics in the caller, are not modelled.
- EnrStore.SaveBeforePublish: is about one node key. A saved record of another key is ignored by the source and so starts a new sequence; returning to the first key afterwards is not covered. Nodes without a record path are not modelled.
- EnrStore.NoMixedForkPair: configured pairs, the choice of the advertised address and the value encodings are inputs.
- SnapshotQueue.RunSafe: is about one queue with its one worker; replacing a finished worker by a new queue is not modelled, nor lock poisoning.
- SnapshotQueue.OverlayBounded: the overlay's other writers are not modelled: synchronous imports, the removal of a state, the flush at shutdown and the publication when no worker can be started.
- PartialColumns.HeldCellsOnlyGrow: full columns are taken to have passed validation, that is to have one cell per blob. Message validation, import, publication and the execution client are not modelled.
- AttestationPool.EmptyPackingMeansDrained: groups hold single-committee attestations of one length under their own key with signatures that parse; `AttestationPool.NoneExactly` says what happens otherwise.
- Network requests, gossip validation, the block lookup coordinator, custody groups, discovery queries and their flags.
- Voluntary exits, slashings, deposits, proposer preparations and sync aggregates of the operation pool, cleaning by slot, and the read-only getters of all pools: they would only add easy members.
- Reconstruction eligibility and replacing the required columns in the availability checker.
- Command line, metrics, storage tables, key stores' file format, light client and test harnesses.
