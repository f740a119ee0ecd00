# roost-core: verified core protocols and data structures

A Dafny 4.11 model of the parts of roost-core whose comments state invariants: the single-instance
lease, the flattened record store, the change trees, the bounded local cache, entity locks, references and
IDs, the lockstep bot, and the load, mod and stop ordering with its time budgets. The results are for all
inputs, all runs or all interleavings; where a promise fails, the exact condition is proved next to the runs
that break it. `dafny verify dfyconfig.toml` checks the project.

| files | what they model |
|---|---|
| `SingletonLock.dfy`, `SingletonLease.dfy` | one process of the lease with its renewal loop and timing; N processes, a store with expiry, late and lost replies |
| `RefHMapText.dfy`, `RefHMapStore.dfy`, `RefHMapCodec.dfy`, `RefHMapScalar.dfy` | the key registry text, the scripts and their interleavings, layouts with encode and decode, scalar texts |
| `RefHMapPatch.dfy`, `RefHMapCell.dfy` | what a patch of one leaf writes and how it reads back; the whole record as one cell |
| `ChangeTree.dfy`, `SyncChanges.dfy`, `PersistPaths.dfy` | the versioned path trie, the change record with acknowledgement and rollback, the persistence paths |
| `AtomicLocal.dfy` | one cache shard and the queue it refines |
| `EntityGuard.dfy`, `EntityLockOrder.dfy`, `EntityRef.dfy`, `IdGen.dfy` | the lock ledger of a guard, mutual exclusion and deadlock freedom, the packed reference word, the block ID generator |
| `Lockstep.dfy` | the resumable frame application of the bot |
| `Loader.dfy`, `ModOrder.dfy`, `ModStop.dfy`, `StopBudget.dfy` | load order and levels, mod sorting, stopping on shutdown, stop budgets |
| `Digraph.dfy`, `Wrappers.dfy` | dependency graphs and their orders, optional values |

Form: an object that the code changes in place is a class whose methods are proved equal to a function
on its value (`SyncChangeRecord`, `PersistRecord`, `Shard`, `Guard`, `Lock`, `Bot`, `Visitor`); loops are
methods with invariants. A protocol between goroutines or processes is a state machine: `Step` takes one
action (an action that is not possible changes nothing), `Run` folds a list of actions, and a theorem about
`Run` is a theorem about every interleaving. Clocks, replies, failing calls and stop results are
parameters.

Where the code and its documentation disagree, or a promise needs a condition, the model follows the code:

- The comment at framework/app/singleton.go:149 says that one failed renewal is tolerated when twice the
  renewal interval is at most ttl minus guard. With equality one timed-out renewal loses the lock.
  `SingletonLock.SingleFailureTolerated` proves that the strict inequality is exact; `SingletonLock.EqualityLosesOnOneTimeout` gives the losing renewal for every such configuration.
- Releasing an entity by instance unlocks once but removes two ledger entries when the instance is both the
  current holder of its ID and superseded under it. `EntityGuard.ReleaseInstanceBalance` proves that this is the only
  case that breaks the balance, `EntityGuard.BalancedExactly` says it for whole runs, and `EntityGuard.RequiredAgainLeaks` reaches it.
- The same case can deadlock: the leaked lock has no entry, so its rank is not counted. `EntityLockOrder.NoWaitCycle` holds for
  every run without such a release; `EntityLockOrder.DoubleReleaseDeadlocks` is the run with one.
- The registry of a flattened record reads back exactly when its keys are clean: non-empty, without newline, without white space
  at the ends (`RefHMapText.RegistryRoundTripExactly`). `RefHMapStore.OrphanFreeExactly` proves that writers of one record leave no
  orphaned hash in any run exactly when every key besides the root is clean and all use one TTL setting.
- ClearBase does not clear an entity that it saw in use, even if the last reference goes and the entity is removed before it returns
  (`EntityRef.EarlierClearIsNotEnough`); a removal in use or a later ClearBase always ends in one clearing.
- A declared stop budget below the floor can push a later plan into the even split although everything fits at first
  (`StopBudget.SmallBudgetBreaksFloor`). `StopBudget.HonouredThroughoutExactly` proves when every promise is kept, and
  `StopBudget.LastsExactly` gives that condition in closed form.

## Model

| member | source | states |
|---|---|---|
| SingletonLock.BeatOnTime | framework/app/singleton.go:436-470 | One on-time renewal round from any point of the window: an applied reply starts a fresh window, a refusal or a loss happens inside the window, and any other failure leaves the loop on its next beat |
| SingletonLock.LossIsWithinWindow | framework/app/singleton.go:423-470 | Over any sequence of on-time rounds, a loss is declared no later than `validUntil`, and without a loss more than the guard of the window is left |
| SingletonLock.FailingRunLoses | framework/app/singleton.go:423-470 | A run of renewals that never succeeds reaches Lost by `validUntil`, whatever mix of refusals and failures it is |
| SingletonLock.SingleFailureTolerated | framework/app/singleton.go:146-173 | Every single on-time failed renewal is survived if and only if 2 x renew interval is strictly below ttl - guard |
| SingletonLock.EqualityLosesOnOneTimeout | framework/app/singleton.go:146-173 | In every valid configuration with equality there is an on-time timed-out renewal that loses the lock |
| SingletonLock.AcquiresFromStalled | framework/app/singleton.go:325-370 | With a valid startup wait, a process waiting behind a key that nobody renews acquires it before it gives up, whatever calls fail while the key is alive |
| SingletonLock.Lock.constructor | framework/app/singleton.go:325-370 | A lock starts waiting, with nothing held |
| SingletonLock.Lock.RenewLoop | framework/app/singleton.go:436-470 | The loop over status and next beat computes exactly the fold of renewal rounds that the timing lemmas are about, and stops at the first loss |
| SingletonLease.StepKeepsGuarantee | framework/app/singleton.go:270-310 | A guarantee (until T the key holds this process's value with expiry at least T, unless released) survives every action of anyone |
| SingletonLease.StepKeepsAnswers | framework/app/singleton.go:281-297 | An applied answer still on its way carries the guarantee from the moment the store executed it |
| SingletonLease.StepKeepsProcess | framework/app/singleton.go:336-387 | Every process keeps its own call, reply and status guarantees through every action, also through a late reply |
| SingletonLease.StepKeepsInv | framework/app/singleton.go:270-310 | Every action keeps the whole protocol invariant |
| SingletonLease.RunKeepsInv | framework/app/singleton.go:270-310 | The protocol invariant holds after every run |
| SingletonLease.RelyingOwnsKey | framework/app/singleton.go:299-310 | In every run a process that is Held or Unknown inside its window and not released owns the key, with expiry no earlier than its `validUntil` |
| SingletonLease.MutualExclusion | framework/app/singleton.go:270-310 | At any instant of any run at most one process relies on the lock |
| SingletonLease.OthersAreRefused | framework/app/singleton.go:31-53 | While one process relies on the lock every request of another, whatever it expects, is refused and leaves the key as it is |
| SingletonLease.NewHoldIsBacked | framework/app/singleton.go:299-310 | In every run a new hold comes from an applied reply that left more than the guard, its window counts from the request, and until then the key is the process's own unless it released; `TimelyReplyHolds` is the other direction |
| SingletonLease.TimelyReplyHolds | framework/app/singleton.go:336-470 | In every state of the acquiring, confirming and renewing phases an applied reply received before asked + ttl - guard ends in Held with the window asked + ttl |
| SingletonLease.LostExactly | framework/app/singleton.go:436-470 | A renewing process loses the lock on a reply if and only if the key was foreign or the call failed with at most the guard left, and then it is finished |
| SingletonLease.RoundTripIs | framework/app/singleton.go:336-387 | A whole call, with any time on the way there and back, changes the key as the store executes the request and the process as it acts on the outcome |
| SingletonLease.FreeKeyIsAcquired | framework/app/singleton.go:336-370 | From any state with an absent or expired key, a round trip shorter than ttl - guard ends with the process relying on the lock and the key its own |
| SingletonLease.ForeignKeyIsNotAcquired | framework/app/singleton.go:336-370 | While the key is another's, an attempt leaves key and status alone and the process keeps acquiring |
| SingletonLease.OwnValueIsConfirmed | framework/app/singleton.go:336-387 | A key that already holds the process's own value leads through a confirmation to a hold, without waiting for the expiry |
| SingletonLease.RenewalExtends | framework/app/singleton.go:436-470 | In every run a renewal executed within the window and answered in time moves the window to ttl after the request |
| SingletonLease.ReleaseFreesKey | framework/app/singleton.go:493-537 | A release ends the hold at once, and its execution removes the key exactly if it is still the process's own |
| SingletonLease.FinishedIsFinal | framework/app/singleton.go:473-537 | After a loss or a release no later reply or action brings the process back |
| RefHMapText.RegistryRoundTrip | framework/cache/ref_hmap.go:1029-1038 | Both readers of the registry, in Go and in the scripts, give back the joined clean keys |
| RefHMapText.RegistryRoundTripExactly | framework/cache/ref_hmap.go:1029-1038 | The joined keys read back if and only if every key is clean |
| RefHMapText.LinesJoin | framework/cache/ref_hmap.go:495-511 | Splitting undoes joining for keys without newlines |
| RefHMapText.JoinLines | framework/cache/ref_hmap.go:495-511 | Joining undoes splitting for every text |
| RefHMapText.SearchFindsLines | framework/cache/ref_hmap.go:143-149 | The newline-wrapped text search of the patch script finds a key exactly when it is a line of the registry |
| RefHMapStore.Unique | framework/cache/ref_hmap.go:1040-1051 | Deduplication keeps exactly the non-empty keys |
| RefHMapStore.PassedGuardCleansAll | framework/cache/ref_hmap.go:60-78 | Whatever passes the registry guard has a cleanup list that covers every hash of the record |
| RefHMapStore.WriteAllAdds | framework/cache/ref_hmap.go:80-111 | The write loop adds exactly the hashes that have fields and sets no expiry |
| RefHMapStore.WithRegistryWrites | framework/cache/ref_hmap.go:495-511 | The registry reaches the root hash once, also when the record has no root fields |
| RefHMapStore.SetRecord | framework/cache/ref_hmap.go:436-457 | The record a Set leaves has the layout's registry in its root and only layout hashes |
| RefHMapStore.ScriptKeepsInv | framework/cache/ref_hmap.go:80-130 | A Set or Delete script run on any current store keeps all hashes listed; when it passes it replaces or removes the whole record |
| RefHMapStore.PreparedCoversRead | framework/cache/ref_hmap.go:419-434 | Whatever the registry held, the cleanup list covers what was read of it, the root, and for a Set the layout |
| RefHMapStore.PrepareOk | framework/cache/ref_hmap.go:409-434 | What an operation read before its script stays usable at any later time |
| RefHMapStore.MergeKeeps | framework/cache/ref_hmap.go:132-160 | Merging loses no line, and every given key without a newline is a line afterwards, whatever the other keys are |
| RefHMapStore.MergeNothing | framework/cache/ref_hmap.go:143-149 | Merging keys that the registry already joins changes no letter of it, whatever the keys are |
| RefHMapStore.PatchResult | framework/cache/ref_hmap.go:132-160 | A patch keeps every hash, creates only layout hashes, writes the merged registry and refreshes exactly the layout's expiries; for the fields see `RefHMapPatch.PatchWrites` |
| RefHMapStore.PatchKeepsInv | framework/cache/ref_hmap.go:132-160 | A patch keeps all hashes listed and none outliving the root |
| RefHMapStore.StepKeepsInv | framework/cache/ref_hmap.go:48-160 | Every step, ticks of the clock included, keeps the record invariant |
| RefHMapStore.RunKeepsInv | framework/cache/ref_hmap.go:48-160 | The record invariant holds after every interleaving of writers with different layouts |
| RefHMapStore.NoOrphans | framework/cache/ref_hmap.go:48-160 | After every interleaving of writers with clean keys besides the root and one TTL, every existing hash is the root or listed in the registry of an existing root |
| RefHMapStore.OrphanFreeExactly | framework/cache/ref_hmap.go:48-160 | For any root, other keys and TTL settings: no run of such writers leaves an orphan if and only if the other keys are clean and there is one TTL setting, or the record is only a root |
| RefHMapStore.ScriptReplacesWholeRecord | framework/cache/ref_hmap.go:409-457 | In every run a Set script that passes leaves exactly its own encoded record, a Delete that passes leaves nothing, and a refused script changes nothing |
| RefHMapStore.PassesGuard | framework/cache/ref_hmap.go:60-78 | With one layout whose registry lines are its keys the guard covers whatever the registry holds |
| RefHMapStore.RunKeepsOneLayout | framework/cache/ref_hmap.go:264-281 | With one layout the registry of a record is always the joined layout, letter by letter, with any keys and TTL settings |
| RefHMapStore.NeverRefusedExactly | framework/cache/ref_hmap.go:48-78 | Writers that share one layout are never refused, with any TTL settings and in any interleaving, if and only if every line the guard reads from the layout's registry is a key of the layout; clean keys are enough |
| RefHMapStore.UncleanKeyOrphans | framework/cache/ref_hmap.go:1029-1038 | For every root, clean or not, and every other unclean key there is a run under one TTL that leaves its hash behind without a root |
| RefHMapStore.DifferentTtlsOrphan | framework/cache/ref_hmap.go:132-160 | For any two different TTL settings there is a run that leaves a hash behind without a root |
| RefHMapCodec.BuildWellNamed | framework/cache/ref_hmap.go:614-691 | A layout that is built has distinct field names on every level and no root field named like the registry |
| RefHMapCodec.LayoutAccepted | framework/cache/ref_hmap.go:287-333 | A layout that passes the checks, the duplicate-key check included, has pairwise distinct hash keys |
| RefHMapCodec.BuildExactly | framework/cache/ref_hmap.go:614-691 | Building gives a tree if and only if that tree mirrors the type field by field, with allowed distinct names, within the depth and without a type inside itself |
| RefHMapCodec.CollectKeysDistinct | framework/cache/ref_hmap.go:570-580 | Keys distinct for one record are distinct for every record |
| RefHMapCodec.EncodeKeys | framework/cache/ref_hmap.go:693-725 | Encoding writes each hash key at most once, and only layout keys |
| RefHMapCodec.EncodeIsValidWrite | framework/cache/ref_hmap.go:693-725 | Every encoded hash belongs to the layout and leaves the registry field alone |
| RefHMapCodec.DecodeStored | framework/cache/ref_hmap.go:727-761 | Decoding hashes that hold a value gives the value, nil pointers and empty all-pointer children included |
| RefHMapCodec.HeldIsStored | framework/cache/ref_hmap.go:693-725 | Hashes that hold the encoded writes hold the value |
| RefHMapCodec.SetThenGet | framework/cache/ref_hmap.go:194-224 | For every accepted layout and every value of that shape, Get after Set finds exactly the value |
| RefHMapCodec.PassedSetIsRead | framework/cache/ref_hmap.go:194-262 | In every interleaving a Set that passes the guard is exactly what a Get right after it reads |
| RefHMapCodec.KeysCleanExactly | framework/cache/ref_hmap.go:570-580 | The hash keys of a record are clean if and only if the entity key has no newline and no white space in front and the suffixes of the layout are clean |
| RefHMapCodec.DecodeDetectsBroken | framework/cache/ref_hmap.go:727-761 | A referenced hash that must be non-empty but is missing is an error, and that error arises only then |
| RefHMapCodec.PartialRecordIsMiss | framework/cache/ref_hmap.go:194-224 | Get misses a record with a non-empty root exactly when it is broken, unless a scalar does not parse |
| RefHMapScalar.ParseFormatNat | framework/cache/ref_hmap.go:763-792 | Decimal text of a natural number parses back |
| RefHMapScalar.ParseFormatInt | framework/cache/ref_hmap.go:763-792 | Decimal text of an integer, negative ones included, parses back |
| RefHMapScalar.ScalarRoundTrip | framework/cache/ref_hmap.go:763-843 | Every string, byte slice, bool and integer scalar within its width decodes from its encoding |
| RefHMapScalar.DecodeFits | framework/cache/ref_hmap.go:794-843 | Whatever is read from text, and the zero a missing field keeps, is a value the field can hold |
| RefHMapPatch.FindField | framework/cache/ref_hmap.go:582-589 | The first field with the name, in the hash or in Go, and none exactly when no field has it |
| RefHMapPatch.ResolvePath | framework/cache/ref_hmap.go:513-543 | The walk from the root gives the hashes, references and leaf of the path, or refuses it |
| RefHMapPatch.SetLeafReads | framework/cache/ref_hmap.go:845-875 | The patched leaf reads as the new value and every other leaf as before |
| RefHMapPatch.DecodeShaped | framework/cache/ref_hmap.go:727-761 | Whatever the hashes hold, a value that is read has the type of the layout |
| RefHMapPatch.DecodeFrame | framework/cache/ref_hmap.go:727-761 | Reading depends on the hashes of the layout only |
| RefHMapPatch.PatchWrites | framework/cache/ref_hmap.go:132-160 | Every hash after an accepted patch: references along the path, the leaf text, the merged registry in the root, and every other field and hash as before |
| RefHMapPatch.PatchedReads | framework/cache/ref_hmap.go:513-543 | For every node, path and value: with those writes the node reads as before except for the leaf, with nil structs on the path created |
| RefHMapPatch.PatchThenGet | framework/cache/ref_hmap.go:347-377 | A Get after an accepted patch finds the value of the Get before it with exactly that leaf replaced, which is what the in-memory `PatchStructPath` makes of it |
| RefHMapCell.SetIsFresh | framework/cache/ref_hmap.go:226-262 | A Set leaves no hash below a reference that is not there |
| RefHMapCell.RunRefines | framework/cache/ref_hmap.go:194-377 | Every interleaving of the registry reads, scripts, patches and expiries of one layout refines a single cell that holds a value and its expiry |
| RefHMapCell.RecordIsCell | framework/cache/ref_hmap.go:194-377 | So after every such run a Get finds exactly what one cell would hold after the same Sets, Deletes, Patches and expiries, and misses exactly when the cell is empty |
| ChangeTree.CountMark | framework/dataengine/sync_changes.go:74-104 | A mark changes the node count by the nodes it creates less the nodes it drops |
| ChangeTree.CreatedBound | framework/dataengine/sync_changes.go:74-104 | A mark creates at most as many nodes as its path has steps |
| ChangeTree.CountPrune | framework/dataengine/sync_changes.go:45-55 | Pruning never adds nodes |
| ChangeTree.CountNodes | framework/dataengine/sync_changes.go:130-139 | The recursive count over the children is the size of the tree |
| ChangeTree.ReplaceAtMark | framework/dataengine/sync_changes.go:74-104 | A mark sets its own path, clears everything below it and changes nothing else |
| ChangeTree.ReplaceAtPrune | framework/dataengine/sync_changes.go:45-55 | Pruning clears exactly the replacements up to the version, at every path |
| ChangeTree.MarkLive | framework/dataengine/sync_changes.go:74-104 | A mark leaves no empty leaf |
| ChangeTree.PruneLive | framework/dataengine/sync_changes.go:45-55 | Pruning leaves no empty leaf |
| ChangeTree.LiveHasReplacement | framework/dataengine/sync_changes.go:45-55 | A tree without empty leaves has a replacement somewhere |
| ChangeTree.Extensional | framework/dataengine/sync_changes.go:7-23 | Trees without empty leaves are equal when they agree on every path |
| ChangeTree.PruneMark | framework/dataengine/sync_changes.go:45-104 | Pruning below a mark's version and marking commute |
| ChangeTree.PruneAll | framework/dataengine/sync_changes.go:45-55 | Pruning at the highest version leaves the empty tree |
| SyncChanges.SyncChangeRecord.constructor | framework/dataengine/sync_changes.go:63-72 | A new record is empty at version 0 |
| SyncChanges.MarkedExactly | framework/dataengine/sync_changes.go:74-104 | With room for the path among 4096 nodes a mark leaves the new version at the path, nothing below it and every other path as it was; without room it leaves one replacement of the whole |
| SyncChanges.SyncChangeRecord.MarkPath | framework/dataengine/sync_changes.go:74-104 | The walk with its budget check is exactly that, path by path, with the node counter exact |
| SyncChanges.RollbackUndoes | framework/dataengine/sync_changes.go:105-129 | Whatever happens after a capture, rolling back to it brings the captured marks and tree back, less what has been acknowledged meanwhile, and never lowers the version |
| SyncChanges.SyncChangeRecord.Acknowledge | framework/dataengine/sync_changes.go:110-118 | Acknowledging raises the mark, prunes up to it and recounts |
| SyncChanges.SyncChangeRecord.Restore | framework/dataengine/sync_changes.go:119-129 | Rolling back never lowers the version and prunes what was acknowledged meanwhile |
| SyncChanges.AckedMarked | framework/dataengine/sync_changes.go:74-118 | A mark that fits the budget commutes with acknowledging an earlier version, and still fits afterwards |
| SyncChanges.AckForgetsExactly | framework/dataengine/sync_changes.go:45-118 | Marks that fit, then acknowledging everything older, leave exactly the record those marks build from empty |
| SyncChanges.ApplyKeeps | framework/dataengine/sync_changes.go:74-129 | Every operation keeps the tree equal, path by path, to what the surviving marks above the acknowledged version say |
| SyncChanges.RunKeepsInv | framework/dataengine/sync_changes.go:63-139 | In every run of mark, snapshot, ack of captures and restore: that equality, no empty leaf, `nodes` equal to the tree size and at most 4096 |
| SyncChanges.RunCoversMarks | framework/dataengine/sync_changes.go:63-139 | Every mark not rolled back and above the acknowledged version has a prefix whose replacement is at least its version |
| SyncChanges.RunRange | framework/dataengine/sync_changes.go:63-139 | Every replacement lies above the acknowledged version and not above the current one |
| SyncChanges.RunDeterminedByMarks | framework/dataengine/sync_changes.go:63-139 | Two runs with the same surviving marks and acknowledgement have the same tree, whatever else happened |
| SyncChanges.SmallRunNeverCollapses | framework/dataengine/sync_changes.go:63-139 | In every run whose marks have at most 4095 steps together, rollbacks and acknowledgements included, only marked paths are ever replaced |
| PersistPaths.Walk | framework/dataengine/persist_paths.go:13-45 | The loop stops at a replaced ancestor exactly when the path is covered, and otherwise counts the nodes to create and finds the subtree to drop |
| PersistPaths.PersistRecord.constructor | framework/dataengine/persist_paths.go:6-9 | A new path record is empty |
| PersistPaths.PersistRecord.RecordPath | framework/dataengine/persist_paths.go:13-45 | Recording is absorption by an ancestor, a mark, or the collapse at the node budget, with the node counter exact |
| PersistPaths.RecordedExactly | framework/dataengine/persist_paths.go:13-45 | At every path: an absorbed path changes nothing, another is replaced with nothing below it, and only without room for its steps among 4096 nodes is the whole replaced |
| PersistPaths.RecordedAllTidy | framework/dataengine/persist_paths.go:13-45 | After any paths the node counter is the tree size, within budget, with no empty leaf |
| PersistPaths.MinimalPrefix | framework/dataengine/persist_paths.go:13-45 | Every recorded path has a recorded prefix that no other recorded path precedes |
| PersistPaths.MarkKeepsExact | framework/dataengine/persist_paths.go:13-45 | Recording an uncovered path keeps the replaced paths exactly the minimal ones |
| PersistPaths.CoveredKeepsExact | framework/dataengine/persist_paths.go:13-45 | Recording a covered path keeps the replaced paths exactly the minimal ones |
| PersistPaths.ReplacedAreMinimal | framework/dataengine/persist_paths.go:13-45 | Unless the budget collapsed the tree, the replaced paths are exactly the prefix-minimal recorded paths |
| PersistPaths.EveryPathCovered | framework/dataengine/persist_paths.go:13-45 | Every recorded path has a replaced prefix, also after a collapse |
| PersistPaths.ReplacedAntichain | framework/dataengine/persist_paths.go:13-45 | No replaced path is a proper prefix of another |
| PersistPaths.OrderIndependent | framework/dataengine/persist_paths.go:13-45 | Without a collapse the record depends only on the set of paths, not on order or repetition |
| PersistPaths.SmallNeverCollapses | framework/dataengine/persist_paths.go:13-45 | Paths of at most 4095 steps in total never collapse the tree |
| AtomicLocal.EvictSuffix | framework/cache/atomic_local.go:262-289 | Eviction leaves a suffix of the queue within both limits: only the oldest go |
| AtomicLocal.EvictMinimal | framework/cache/atomic_local.go:262-289 | No more go than necessary |
| AtomicLocal.WrittenIsNewest | framework/cache/atomic_local.go:147-209 | After a write the written key is last and present, keys are unique and both limits hold |
| AtomicLocal.QueueHoldsItems | framework/cache/atomic_local.go:63-75 | The clock and the map agree: a key is live in the queue exactly when it is stored, with the same entry |
| AtomicLocal.CellsOverwrite | framework/cache/atomic_local.go:147-209 | A newer write retires every older clock record of its key |
| AtomicLocal.CurrentSlotsKeep | framework/cache/atomic_local.go:303-318 | Keeping only current records keeps the queue and its order, one record per live key |
| AtomicLocal.OverIsQueueOver | framework/cache/atomic_local.go:262-289 | The counters decide the limits of the queue, and an exhausted clock is never over them |
| AtomicLocal.Shard.constructor | framework/cache/atomic_local.go:90-118 | A new shard has no live key |
| AtomicLocal.Shard.Get | framework/cache/atomic_local.go:120-141 | A hit is exactly a live, unexpired entry of a valid key; an expired one is reported with its generation; an invalid key is refused before the lookup |
| AtomicLocal.Shard.Expire | framework/cache/atomic_local.go:240-247 | Expiry removes the key only if it is still the entry that was seen and still expired; otherwise nothing changes |
| AtomicLocal.Shard.Delete | framework/cache/atomic_local.go:211-222 | Delete removes exactly the key from the queue |
| AtomicLocal.Shard.SetWithTtl | framework/cache/atomic_local.go:147-209 | A refused write changes nothing; an admitted one moves its key to the back and evicts from the front, and is stored afterwards |
| AtomicLocal.SetThenGet | framework/cache/atomic_local.go:120-209 | A stored value is a hit for exactly its time to live: the given one, or the default for 0, and for ever when that is not positive |
| AtomicLocal.Shard.Insert | framework/cache/atomic_local.go:192-206 | Store, evict and compact together are one queue write |
| AtomicLocal.Shard.StoreLocked | framework/cache/atomic_local.go:192-204 | Storing appends the cell and keeps counters and clock in agreement |
| AtomicLocal.Shard.DeleteLocked | framework/cache/atomic_local.go:249-260 | Deleting drops the cell and its size |
| AtomicLocal.Shard.EvictLocked | framework/cache/atomic_local.go:262-289 | The clock walk is queue eviction, counts every eviction, and never takes the branch that rebuilds the clock from the map |
| AtomicLocal.Shard.PassHand | framework/cache/atomic_local.go:274-282 | One move of the hand skips a stale record or removes the oldest live key |
| AtomicLocal.Shard.CompactOrderLocked | framework/cache/atomic_local.go:303-318 | In-place compaction keeps the queue and leaves at most 2 x entries + 1024 records behind the hand |
| AtomicLocal.Shard.MoveCurrent | framework/cache/atomic_local.go:307-313 | The overwriting loop moves exactly the current records to the front, in order |
| EntityGuard.HoldKeepsBalance | framework/entity/entity_guard.go:385-390 | Taking a lock, with or without superseding, keeps lock counts equal to ledger entries |
| EntityGuard.DoReleaseKeepsBalance | framework/entity/entity_guard.go:584-595 | An entry that is released holds its lock, and releasing keeps the balance |
| EntityGuard.RestoreKeepsBalance | framework/entity/entity_guard.go:519-527 | Bringing a superseded instance back keeps the balance |
| EntityGuard.ReleaseKeepsBalance | framework/entity/entity_guard.go:483-489 | Releasing by ID keeps the balance |
| EntityGuard.ReleaseInstanceBalance | framework/entity/entity_guard.go:499-516 | Releasing by instance keeps the balance if and only if it does not hit an instance that is both current and superseded under a cleared ID |
| EntityGuard.ReleaseUndoesHold | framework/entity/entity_guard.go:483-489 | Releasing the ID right after an instance was taken under it gives the earlier ledger back, a superseded instance included |
| EntityGuard.ReleaseInstanceUndoesHold | framework/entity/entity_guard.go:499-516 | So does releasing the instance |
| EntityGuard.ReleaseExactly | framework/entity/entity_guard.go:483-527 | A release by ID unlocks the current instance once, touches no other ID, and makes the newest superseded instance current again |
| EntityGuard.ReleaseInstanceExactly | framework/entity/entity_guard.go:499-516 | A release by instance of a superseded instance unlocks it once and drops its newest entry only |
| EntityGuard.ApplyKeepsEnteredOnce | framework/entity/entity_guard.go:279-390 | As long as no instance is required again after it was superseded, every instance has one entry and the bad case cannot arise |
| EntityGuard.RunKeepsBalance | framework/entity/entity_guard.go:279-595 | Over every such run of require, try, release by ID and by instance, each mutex is locked exactly as often as the ledger says |
| EntityGuard.BalancedExactly | framework/entity/entity_guard.go:279-595 | Any run at all keeps the balance throughout if and only if no release by instance in it hits a double entry |
| EntityGuard.HeldLockHasEntry | framework/entity/entity_guard.go:385-390 | While the IDs of superseded instances stay in the map, every held mutex has its ID there, so the rank check sees it |
| EntityGuard.ReleaseEverythingIsEmpty | framework/entity/entity_guard.go:536-550 | Unlocking every entry once empties a balanced ledger |
| EntityGuard.RequiredAgainLeaks | framework/entity/entity_guard.go:499-516 | For any two instances of one ID a run that leaves a mutex locked without a ledger entry |
| EntityGuard.Guard.constructor | framework/entity/entity_guard.go:239-244 | A new guard holds nothing |
| EntityGuard.Guard.RequireEntity | framework/entity/entity_guard.go:279-332 | Success exactly when the ID is valid and the instance is held or its mutex free and the entity living; then it is held, with one more lock if it was not; otherwise nothing changes |
| EntityGuard.Guard.ReleaseEntity | framework/entity/entity_guard.go:483-489 | Release by ID is the ledger step, superseded instances restored |
| EntityGuard.Guard.ReleaseEntityInstance | framework/entity/entity_guard.go:499-516 | Release by instance is the ledger step, searching the newest superseded entry |
| EntityGuard.Guard.MaxLockedGroup | framework/entity/entity_guard.go:444-452 | The loop finds the highest rank in the map, or -1 |
| EntityGuard.Guard.MayLockEntity | framework/entity/entity_guard.go:465-470 | Allowed exactly when already held or ranked above everything in the map |
| EntityGuard.Guard.LockCreated | framework/entity/entity_guard.go:398-412 | A handler's guard waits for a busy created entity exactly when its rank is above everything held and otherwise only tries; success exactly when it is held, or not busy without a wait, and living |
| EntityGuard.Guard.ReleaseAll | framework/entity/entity_guard.go:536-550 | From any balanced ledger release-all unlocks every entry once and leaves no lock |
| EntityLockOrder.StepKeepsThread | framework/entity/entity_guard.go:385-412 | Every step of any guard that is not a release hitting a double entry keeps every ledger balanced, every superseded ID in the map, and every wait above its own ranks |
| EntityLockOrder.RunKeepsThreads | framework/entity/entity_guard.go:385-470 | That holds after every run without such a release, also when superseded instances are taken back |
| EntityLockOrder.StepKeepsExclusive | framework/entity/entity_guard.go:279-332 | A step locks at most one more mutex, and only one that no other goroutine holds |
| EntityLockOrder.MutualExclusion | framework/entity/entity_guard.go:279-332 | In every state of every run, leaking releases included, a mutex is locked by at most one goroutine |
| EntityLockOrder.TryBusyFails | framework/entity/entity_guard.go:305-332 | A try on a mutex that another goroutine holds fails and changes nothing |
| EntityLockOrder.TryFreeSucceeds | framework/entity/entity_guard.go:305-332 | A try on the free mutex of a living entity locks it and makes the instance current |
| EntityLockOrder.GrantExactly | framework/entity/entity_guard.go:279-302 | A waiting goroutine gets the mutex of a living entity exactly when nobody else holds it |
| EntityLockOrder.RankRises | framework/entity/entity_guard.go:444-470 | A guard that waits for a waiting guard waits at a lower rank |
| EntityLockOrder.RankRisesAlong | framework/entity/entity_guard.go:444-470 | Ranks rise along every chain of waiting guards |
| EntityLockOrder.NoWaitCycle | framework/entity/entity_guard.go:444-470 | After every run of any number of guards in which no release by instance hits a double entry there is no wait cycle of any length |
| EntityLockOrder.DoubleReleaseDeadlocks | framework/entity/entity_guard.go:444-516 | For any three instances in rank order, a run with one such release ends in a wait cycle of two guards |
| EntityRef.SetBits | framework/entity/entity_base.go:13-22 | Setting the removed or cleared bit changes neither the count nor the other bit |
| EntityRef.CountUpDown | framework/entity/entity_base.go:13-22 | Counting up or down by one changes no flag bit |
| EntityRef.TouchKeeps | framework/entity/entity_base.go:273-289 | A Touch CAS keeps the reference invariant |
| EntityRef.UnTouchKeeps | framework/entity/entity_base.go:292-319 | An UnTouch CAS keeps the invariant and elects at most one clearer |
| EntityRef.RemoveKeeps | framework/entity/entity_base.go:330-337 | A SetRemoved CAS keeps the invariant; what it achieves is `RemoveReturns` |
| EntityRef.ClearKeeps | framework/entity/entity_base.go:349-363 | A ClearBase CAS keeps the invariant |
| EntityRef.StepKeepsInv | framework/entity/entity_base.go:273-363 | Every single load, CAS or clearing step of any thread keeps the invariant |
| EntityRef.RunKeepsInv | framework/entity/entity_base.go:273-363 | The invariant holds after every interleaving |
| EntityRef.ClearsOnceAndUnused | framework/entity/entity_base.go:271-363 | Clearing runs at most once, and never while a successful Touch is unreleased |
| EntityRef.NoTouchAfterwards | framework/entity/entity_base.go:273-289 | Once removed or cleared the word stays so and no thread gains a reference any more |
| EntityRef.LastReleaseClears | framework/entity/entity_base.go:292-363 | After removal in use or a clear request, when all references are gone and all calls have returned, the entity was cleared exactly once |
| EntityRef.RemoveReturns | framework/entity/entity_base.go:330-337 | When SetRemoved returns the entity is removed, with its references and the cleared bit as before |
| EntityRef.TouchReturns | framework/entity/entity_base.go:273-289 | A Touch that returns gained exactly one reference of a live entity, or changed nothing because it saw a removed, cleared or full word |
| EntityRef.UnTouchReturns | framework/entity/entity_base.go:292-319 | An UnTouch gives exactly one reference back and goes on to clear exactly if it was the last of a removed entity |
| EntityRef.TouchAlone | framework/entity/entity_base.go:273-289 | Uncontended, Touch gains a reference exactly when the entity is live and the count not full |
| EntityRef.RemoveAlone | framework/entity/entity_base.go:330-337 | Uncontended, SetRemoved removes |
| EntityRef.UnTouchAlone | framework/entity/entity_base.go:292-319 | Uncontended, UnTouch gives the reference back |
| EntityRef.ClearAlone | framework/entity/entity_base.go:349-363 | Uncontended, ClearBase clears exactly an unused entity that was not cleared |
| EntityRef.RemovalIsFinal | framework/entity/entity_base.go:273-337 | In every run, from the return of SetRemoved on, the entity is removed and no thread gains a reference |
| EntityRef.RemovedInUseIsCleared | framework/entity/entity_base.go:292-363 | In every run in which SetRemoved returns while references exist, the entity has been cleared exactly once when everything is at rest |
| EntityRef.ClearAfterRemovalIsCleared | framework/entity/entity_base.go:330-363 | In every run in which ClearBase is called after SetRemoved returned, the entity has been cleared exactly once when everything is at rest |
| EntityRef.EarlierClearIsNotEnough | framework/entity/entity_base.go:349-363 | A run in which ClearBase read the word before the removal and the entity stays removed, unused and uncleared |
| EntityRef.NoUnderflow | framework/entity/entity_base.go:292-319 | A matched UnTouch never sees a zero count |
| IdGen.TakeKeeps | framework/entity/idgen.go:82-98 | A successful CAS on stale loads of `next` and `end` still issues a fresh ID of an acquired block |
| IdGen.AcquireKeeps | framework/entity/idgen.go:100-124 | Acquiring a later block keeps the bounds |
| IdGen.StoresKeep | framework/entity/idgen.go:126-133 | The two separate stores of a reset, in their order, open no window for a wrong ID |
| IdGen.StepKeepsInv | framework/entity/idgen.go:82-133 | Every load, CAS, acquisition and store of any thread keeps the invariant |
| IdGen.RunKeepsInv | framework/entity/idgen.go:82-133 | The invariant holds after every interleaving of generators and rotators |
| IdGen.IssuedAreFresh | framework/entity/idgen.go:19-28 | All issued IDs are strictly increasing, nonzero, inside acquired blocks and below the static range |
| IdGen.TakeExactly | framework/entity/idgen.go:82-98 | A CAS issues the loaded number exactly when the block is not used up and nobody took it meanwhile |
| IdGen.GenerateReturnsNext | framework/entity/idgen.go:82-98 | A call that nobody disturbs returns the next number and changes nothing else |
| IdGen.BlockIsUsedUp | framework/entity/idgen.go:82-98 | Undisturbed calls return every number of the block, one after the other |
| IdGen.RotationInstallsBlock | framework/entity/idgen.go:82-133 | A used-up generator that nobody disturbs moves to the start of the newly acquired block, and changes no bound when block numbers are used up |
| IdGen.BlocksDisjoint | framework/entity/idgen.go:19-28 | Different block numbers share no ID |
| IdGen.GeneratorsDisjoint | framework/entity/idgen.go:61-133 | Generators that never acquire the same block never issue the same ID |
| IdGen.EntityIdRoundTrip | framework/entity/idgen.go:35-50 | Unique number, kind, remote bit and category bits read back from the packed positive 63-bit ID |
| Lockstep.TranscriptSimulatesEach | robot/lockstep.go:296-355 | The failure-free transcript simulates each frame once, in order |
| Lockstep.TranscriptSendsEach | robot/lockstep.go:316-346 | Every input due for the next frame and every keyframe hash is sent exactly once, in frame order, and nothing else is sent |
| Lockstep.ReportedIsFold | robot/lockstep.go:455-475 | In the failure-free transcript a default hash reported for a frame is the fold of all frames up to and including it, and the frame is a keyframe |
| Lockstep.Bot.ReportedByBot | robot/lockstep.go:334-346 | The same of every default hash the bot itself has reported, whatever sends failed, also after it turned terminal |
| Lockstep.TranscriptExtends | robot/lockstep.go:296-355 | The transcript of fewer frames is the beginning of the transcript of more |
| Lockstep.OnTrackPrefix | robot/lockstep.go:296-355 | However far the bot got, what it did is the beginning of the failure-free transcript, and all of it when nothing is pending |
| Lockstep.FinishKeeps | robot/lockstep.go:334-351 | Finishing a frame leaves exactly the transcript of the finished frames and the chain value after them |
| Lockstep.Bot.constructor | robot/lockstep.go:158-189 | A new bot has done nothing and has nothing pending |
| Lockstep.Bot.Apply | robot/lockstep.go:296-355 | For any pattern of failing calls, on top of any earlier ones: it succeeds exactly when none of its calls fails, nothing is repeated or lost, success means the whole transcript, failure keeps at most `maxPending` frames or turns terminal, and a terminal bot does nothing |
| Lockstep.Bot.Advance | robot/lockstep.go:299-352 | One frame goes from its cursor to its end, or stays pending with a cursor that says how far it got |
| Lockstep.Bot.Simulate | robot/lockstep.go:301-315 | Folding and simulating is done once per frame; a rejected frame adds nothing |
| Lockstep.Bot.SubmitInput | robot/lockstep.go:316-333 | The producer runs once per frame, a failed send keeps its payload for the retry |
| Lockstep.Bot.ReportHash | robot/lockstep.go:334-351 | The hash of a keyframe is sampled once and sent again after a failure; then the frame is finished |
| Lockstep.Bot.Retain | robot/lockstep.go:362-375 | Unfinished frames are kept, or the bot turns terminal exactly when there are more than `maxPending` |
| Lockstep.Bot.Fail | robot/lockstep.go:378-382 | A terminal bot drops its work, and its history stays a beginning of the transcript |
| Lockstep.Bot.Restore | robot/lockstep.go:228-255 | A snapshot replaces the pending work and starts a new chain at the restored hash; it is terminal exactly on failure or mismatch |
| Digraph.PositionsFall | framework/app/app.go:1176-1275 | Everything a node depends on, directly or not, stands before it in the order |
| Digraph.TopologicalIsAcyclic | framework/dataengine/load.go:182-227 | An order with dependencies first excludes cycles |
| Digraph.ChainCloses | framework/app/app.go:1212-1214 | A path that comes back to a node it went through is a cycle |
| Loader.IndexNames | framework/dataengine/load.go:183-192 | Accepts exactly non-empty, unique names and then maps each name to its index |
| Loader.Edges | framework/dataengine/load.go:193-204 | Accepts exactly known dependencies; degrees and adjacency count each mention, repeated ones too |
| Loader.Mention | framework/dataengine/load.go:195-203 | The loop over one template's dependencies refuses exactly an unknown one, and otherwise adds one list entry and one degree per mention |
| Loader.Tell | framework/dataengine/load.go:216-221 | Telling the dependants keeps the degrees exact and queues each template once, when its degree reaches 0 |
| Loader.TakeFirst | framework/dataengine/load.go:212-215 | The template taken off the queue has all its dependencies in the order |
| Loader.Drain | framework/dataengine/load.go:205-222 | The loop ends with dependencies first, and every template left out waits for another one left out |
| Loader.StuckHasCycle | framework/dataengine/load.go:223-225 | Templates that all wait for each other contain a cycle |
| Loader.TopoSort | framework/dataengine/load.go:182-227 | Succeeds exactly when names are non-empty and unique, dependencies known and the graph acyclic, names the first thing wrong otherwise, and orders every template once after its dependencies |
| Loader.LongestStep | framework/dataengine/load.go:236-240 | One more than the highest dependency level is the longest chain |
| Loader.LongestIsOne | framework/dataengine/load.go:229-247 | A template has one level |
| Loader.DependenciesLower | framework/dataengine/load.go:229-247 | Dependencies lie in strictly lower levels |
| Loader.NoGap | framework/dataengine/load.go:242-246 | Below a used level every level is used |
| Loader.AssignLevels | framework/dataengine/load.go:234-241 | The loop over the order computes every template's longest dependency chain and the maximum |
| Loader.BuildLevels | framework/dataengine/load.go:229-247 | Each template is in exactly the level that is its longest dependency chain, levels are ascending in index and none is empty |
| ModOrder.StableSorted | framework/app/app.go:1224-1227 | The sorted dependencies are the same dependencies |
| ModOrder.StableSortedIs | framework/app/app.go:1224-1227 | Dependencies are visited in registration order, and names of one index keep their order |
| ModOrder.Visitor.constructor | framework/app/app.go:1203-1205 | Nothing is visited or emitted at first |
| ModOrder.Visitor.Visit | framework/app/app.go:1208-1260 | A visit emits the mod after everything it needs; an error is backed by a real cycle or a really unknown hard dependency; a mod whose dependencies are out is emitted next |
| ModOrder.Visitor.Loop | framework/app/app.go:1212-1214 | Coming back to a name on the visiting stack is a cycle |
| ModOrder.Visitor.VisitHard | framework/app/app.go:1223-1236 | Every non-empty hard dependency is emitted or external afterwards |
| ModOrder.Visitor.VisitOptional | framework/app/app.go:1237-1255 | Every present optional dependency is emitted afterwards, absent ones are passed over |
| ModOrder.Visitor.Emit | framework/app/app.go:1256-1259 | Emitting keeps the output distinct and dependencies first |
| ModOrder.Register | framework/app/app.go:1182-1201 | Accepts exactly registrations without nil, empty, duplicate or shared names |
| ModOrder.SortMods | framework/app/app.go:1176-1275 | Succeeds exactly when registrations are well formed, hard dependencies known and the graph acyclic; emits every mod once, dependencies first; an order that is already right is kept |
| ModStop.StopReverse | framework/app/app.go:931-966 | Stop calls go down the list in reverse and break off at the first that is incomplete or past the deadline; incomplete exactly when not all came back in time; ordinary errors are all joined |
| ModStop.Shutdown | framework/app/app.go:753-770 | The lock becomes releasable if and only if every started mod's stop came back in time; otherwise stopping broke off where it says |
| ModStop.OrdersJoin | framework/app/app.go:562-577 | The shared and the service order together are an order of everything started |
| ModStop.HardDependenciesStarted | framework/app/app.go:562-577 | Every hard dependency of a started mod is a started mod and an edge of the combined graph |
| ModStop.UsersStoppedBefore | framework/app/app.go:714-783 | A mod is asked to stop only after everything that depends on it, directly or not, was asked and came back |
| ModStop.SortAndStop | framework/app/app.go:714-783 | From two accepted sorts to the stop: nothing a mod depends on, directly or not, is asked to stop while the mod's own stop has not come back, and the lock is releasable if and only if every started mod's stop came back in time |
| StopBudget.OwnTakesPart | framework/app/app.go:1012-1018 | The mod to stop is counted, so no share divides by zero |
| StopBudget.ShareExactly | framework/app/app.go:1030-1055 | How much a participant gets: equal parts below 3 seconds each, the declared budget or equal parts of the rest when all fits, and otherwise the proportional part or 3 seconds, each exact to a nanosecond |
| StopBudget.ModStopBudget | framework/app/app.go:1011-1055 | The counting loops and the closed form give the share of the plan over all participants |
| StopBudget.PlanFits | framework/app/app.go:986-1055 | In all three plans the promises to all participants together are at most the remaining time |
| StopBudget.HonouredExactly | framework/app/app.go:1039-1050 | One stop gets its declared budget, or at least the floor, under the granting plan if and only if both thresholds of the plan hold |
| StopBudget.HonouredThroughoutExactly | framework/app/app.go:986-1055 | Every stop of a segment is honoured, for all uses within the grants, if and only if both thresholds hold at every stop of the run that uses each grant in full |
| StopBudget.LastsExactly | framework/app/app.go:986-1055 | That condition in closed form: with the time nobody declared split evenly over the undeclared mods, every prefix of the segment meets both thresholds |
| StopBudget.LastsLonger | framework/app/app.go:986-1055 | More time never breaks the condition |
| StopBudget.StopKeepsFit | framework/app/app.go:986-1055 | When declared budgets reach the floor and fit, they still fit for the rest however much of its grant a mod uses |
| StopBudget.EveryGrantHonoured | framework/app/app.go:986-1055 | At every stop of a segment that fits, with any uses within the grants, declared budgets are granted in full and undeclared mods get at least the floor |
| StopBudget.SmallBudgetBreaksFloor | framework/app/app.go:1011-1055 | For every declared budget below the floor there is a segment that meets the thresholds at first and still breaks a promise |

## Left out

- The Redis, NATS, Mongo and TCP drivers, configuration files, logging, metrics and health reporting: the store is an abstract map with atomic scripts or compare-and-set.
- String checks of the lease configuration (key prefix) and the liveness query of other server IDs.
- Heap sharing: change-tree nodes, snapshots and cloned frames are values here, so `clone` is the identity and aliasing between a snapshot and the live tree is not modelled.
- 64-bit wrap-around of versions and generations.
- Calls of UnTouch without a successful Touch before them.
- Cache statistics, the hash that picks a shard, and the nil-store checks.
- SingletonLock.AcquiresFromStalled: assumes that calls after the expiry come back and that no other process takes the free key; with a rival only one of them acquires it.
- AtomicLocal.Shard.Get: reports the expired generation to a separate `Expire`, as the code does under two locks; the two are not combined into one contract.
- Reflection: layouts are a datatype with one pointer level; the wrong-type check of the scripts and records without a registry are not modelled.
- RefHMapPatch.PatchThenGet: assumes that no hash is left below a reference that is not there, which a Set establishes and a patch keeps; an orphaned hash of two TTL settings would be read again.
- RefHMapPatch.ResolvePath: takes the path already split at its dots.
- RefHMapCell.RecordIsCell: assumes clean keys and one TTL setting, as `OrphanFreeExactly` shows is needed, and one layout.
- RefHMapScalar.ScalarRoundTrip: does not cover floats and text marshalers, and takes a nil byte slice for an empty one.
- RefHMapCodec.PartialRecordIsMiss: does not claim that a missing hash of a child whose fields are all pointers is noticed; decode accepts it as the empty child.
- Guard release hooks, post-release callbacks, nested guard scopes on one goroutine, and the batch lock sorting of Nest.
- What clearing an entity does to its components, and the entity registry of ResolveEntityID.
- The frame assembler, catch-up and the bot's counters; frames arrive released, and the FNV hash is an uninterpreted function.
- Running the load callbacks in parallel within a level.
- ModStop.StopReverse: has no nil mods, because the sort never emits one.
- The startup-failure and interrupted-startup paths, which always run both stop segments or stop what was provided.
- StopBudget.ModStopBudget: scales declared budgets by exact integer division instead of floating point.
- The business-time mark, config table publication, wire codecs, tools, viewers and demos: easier or outside the core.
