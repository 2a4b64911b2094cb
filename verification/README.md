# A verified model of the fiducia-sync replica

fiducia-sync keeps a local replica of server tables. A client edits rows at once, keeps every edit as a durable
resend intent, and reconciles the committed changes that arrive from live transports, catch-up pages and
snapshots. This project models that machinery in Dafny and proves what it promises over all runs.
`dafny verify dfyconfig.toml` checks everything.

## How it is built

| file | models |
|---|---|
| `ReconcileCore.dfy` | the pure decisions of the Rust core: reconcile, echo recognition, acknowledgement |
| `RowMachine.dfy` | one row with its queued writes: every store transaction and client decision as a function, and the actions of a run |
| `KeyedStore.dfy` | the whole replica (rows, queue, cursors) as a keyed store; steps and runs, each step local to one row |
| `IndexedDbStore.dfy`, `LocalStorageStore.dfy`, `AssocArray.dfy` | the two stores as classes whose methods update records as the originals do, each proved equal to the keyed store's transaction; the second over arrays in one document |
| `SyncClient.dfy` | the client over its store: applyChange, write, acknowledgement, flush, hydrate, and the catch-up loop |
| `Hydration.dfy` | what reconciling a snapshot of a table and pruning make of the replica |
| `Transitions.dfy` | the law of every transition, told in the stored records themselves: writes, incoming changes, acknowledgements, the cursor |
| `Guarantees.dfy` | what every step keeps and what holds over every run |
| `Convergence.dfy`, `OwnWriteSession.dfy`, `OrderIndependence.dfy` | where a row ends up: after a replayed history with local writes interleaved; in a session of own writes; after deliveries in any order |
| `CatchUp.dfy`, `Paging.dfy` | journal replay across crashes, and the pages it is cut into under both has-more rules |
| `Hlc.dfy`, `HlcCodec.dfy` | the hybrid logical clock as a class, its refinement to one 64-bit number, runs with restarts, and the text codec |
| `Doubles.dfy`, `JsonSchema.dfy`, `SchemaReport.dfy`, `SchemaChecker.dfy` | the JSON Schema subset: the floats that integers compare as; what a schema means, and the loader; what the report on a value lists; and the recursive validator as methods |
| `SchemaKeywords.dfy`, `SchemaProblems.dfy` | what each keyword alone demands of a value, and what is reported when it fails |
| `Merge.dfy` | the depth-capped merge of partial writes |

A run is a sequence of actions: a write, an acknowledgement, a failed send, the delivery of a committed change,
the pruning of a row. Local transitions pass through a gate (langs/typescript/src/client.mjs:202-210), so each
is one step, while sends, acknowledgements, echoes and other clients' changes interleave freely; every theorem
about runs quantifies over all such sequences. The methods of the store and client classes are proved equal to
the functions that the run model is made of, so what holds of runs holds of the methods. What those functions do
is stated once more, without them, in `Transitions.dfy`, `Hydration.dfy` and `SchemaKeywords.dfy`.

Four statements that one might expect are false of the code. Each is given with its exact condition, proved in
both directions, and with a run from a fresh store in which it fails:

| expected | true exactly when | a run in which it fails |
|---|---|---|
| a row's version does not go down while the row stays present | the step is not one acknowledgement that relabels the row: `Guarantees.VersionDropsExactlyWhenRelabelled` | two pessimistic upserts acknowledged in reverse: `Guarantees.ReversedPessimisticAcks` |
| a row deleted locally stays absent while the deletion is queued | no pessimistic upsert of the row waits when the deletion is made: `Guarantees.DeletionStaysExactly` | that upsert is acknowledged: `Guarantees.PessimisticAckRecreatesRow` |
| committed changes may be delivered in any order | each row is upserted by none of them, or has every deletion overtaken by its stored version or by some upsert: `OrderIndependence.OrderIsIrrelevantExactly` | an upsert after the later deletion: `OrderIndependence.LateUpsertRevivesRow` |
| a session of own edits ends with the payload that the server stored | the server stored what was written, or an echo of the last edit came while that edit or nothing was queued: `OwnWriteSession.ServerPayloadLandsExactly` | acknowledged before its echo, an older edit waiting: `OwnWriteSession.NormalisedEchoIsMissed` |

A change that a transport delivers late during catch-up undoes a later one exactly if it upserts a row that is
absent since a later entry was applied (`CatchUp.LateIsHarmlessExactly`). That commits of a session rise in
queue order is needed too (`OwnWriteSession.ReversedCommitsRelabel`).

Where the code and its documentation disagree the model follows the code: the header of
langs/typescript/src/merge.mjs says that the queued payload stays the partial patch, but
langs/typescript/src/client.mjs:349-353 queues the merged row.

## Model

| member | source | states |
|---|---|---|
| `Convergence.RowConverges` | langs/typescript/src/client.mjs:223-296 | The committed events of a row delivered in any order and any number of times, with exact keys echoed, interleaved with any keyed local writes (all three strategies), acknowledgements and failed sends: once the history is delivered to its end, counted from the last late event that had an effect, and nothing is queued for the row, the local row equals the server's, present or deleted, and clean |
| `Convergence.ReplayConverges` | langs/typescript/src/start.mjs:116-119 | A crash replay while writes are queued: after any such run, reconciling the history again from any position not after the one reached leaves the server's row if nothing is queued for it any more |
| `Convergence.RowStepKeepsInv` | langs/typescript/src/store.mjs:353-503 | One step of such a run keeps: pending keys distinct and undelivered, every superseded mark is another write's commit, the row's version is at most the last commit, and a row delivered to its end without pending writes is the server's |
| `Convergence.LastEchoLands` | langs/typescript/src/store.mjs:441-471 | The last event, echoing the only pending write, is adopted as it is: neither a superseded mark nor a newer local version can block it |
| `OwnWriteSession.SessionShowsLastWrite` | langs/typescript/src/store.mjs:301-503 | Keyed visible upserts of one row whose echoes carry what the server stored, commits above the start and rising in queue order, no third party: after every interleaving of writes, acknowledgements, failed sends and repeated echoes the row shows the last write, with the server's payload once its echo has landed and the local one before, the version the largest retired commit (else the starting one), dirty exactly while a write is queued |
| `OwnWriteSession.ServerPayloadLandsExactly` | langs/typescript/src/client.mjs:230-295 | Such a session ends with the payload that the server stored if and only if the server stored what was written, or some echo of the last write was delivered while that write was queued or while nothing was queued for the row |
| `OwnWriteSession.StepKeepsInv` | langs/typescript/src/client.mjs:224-296 | Each step of a session keeps the row at the last written payload and largest retired commit, and marks a queued write superseded exactly when a later one was retired |
| `OwnWriteSession.RepeatedEchoIsIgnored` | langs/typescript/src/client.mjs:281-295 | The echo of a write retired earlier in the session changes nothing, once the server's payload has landed or where it is what was written |
| `OwnWriteSession.RetiredEcho` | langs/typescript/src/client.mjs:281-295 | In general it is ignored, except that the last write's echo refreshes the payload when nothing is queued |
| `OwnWriteSession.NormalisedEchoIsMissed` | langs/typescript/src/client.mjs:281-295 | A run from a fresh store in which the server's payload is missed: the later of two edits is acknowledged before its echo arrives, an older one waiting; the row ends clean at the server's version with the local payload |
| `OwnWriteSession.ReversedCommitsRelabel` | langs/typescript/src/store.mjs:414-503 | Why commits are assumed to rise in queue order: a run from a fresh store with reversed commits and echoes, in which the row ends clean with the later edit's payload under the version of the earlier edit, which is the server's row |
| `Guarantees.LatestEditStaysVisible` | langs/typescript/src/store.mjs:301-330 | Over any run without another write to the row, as long as the latest visible write is queued the row shows exactly that write's payload, dirty, or, for a deletion, is absent; a deletion needs that no earlier pessimistic upsert waits, which DeletionStaysExactly shows to be the exact condition |
| `Guarantees.DeletionStaysExactly` | langs/typescript/src/store.mjs:616-632 | A visible deletion leaves the row absent for as long as it is queued, over every run without another write to the row, if and only if no pessimistic upsert of the row is queued when it is made |
| `Guarantees.WaitingUpsertRevives` | langs/typescript/src/store.mjs:616-632 | Acknowledging such an upsert, in whatever state it waits, puts the row back with its payload, dirty, the deletion still queued |
| `Guarantees.PessimisticAckRecreatesRow` | langs/typescript/src/store.mjs:616-632 | A pessimistic upsert acknowledged after a newer queued delete re-creates the row: the concrete run that makes the proviso necessary |
| `Guarantees.LocalEditsAreProtected` | langs/typescript/src/client.mjs:230-293 | While writes are queued an incoming change takes the row over only as a timely echo of the newest of them or as a strictly newer version that retires all of them in the same step; otherwise payload and presence stay; never a plain apply or refresh; other rows and their writes untouched |
| `Guarantees.RowEditsAreProtected` | langs/typescript/src/client.mjs:230-293 | The same for one row, with both directions: which outcome exactly when |
| `Guarantees.OvertakenEchoIsInert` | langs/typescript/src/store.mjs:441-456 | In every reachable state, the echo of a waiting write at or below the commit of a later write already settled retires that write and leaves payload, version and presence alone |
| `Guarantees.RunRemembers` | langs/typescript/src/store.mjs:379-391 | Over any run every queued write's superseded version is at least the commit of every later write of its row that was acknowledged or echo-adopted |
| `Guarantees.RowStepRemembers` | langs/typescript/src/store.mjs:489-497 | Each step keeps that bookkeeping, the commit it settles included |
| `Guarantees.RunDirtyAgrees` | langs/typescript/src/store.mjs:301-638 | In every reachable state a dirty row has a queued write and a present row with a queued visible write is dirty |
| `Guarantees.RowStepDirtyAgrees` | langs/typescript/src/store.mjs:353-560 | Every transaction keeps dirty flags and queue in agreement |
| `Guarantees.VersionDropsExactlyWhenRelabelled` | langs/typescript/src/store.mjs:616-632 | While a row stays present one step lowers its version if and only if it is the acknowledgement of a pessimistic upsert below the stored version with no newer dirty value to preserve |
| `Guarantees.ReversedPessimisticAcks` | langs/typescript/src/store.mjs:566-638 | A run from a fresh store that reaches that case: two pessimistic upserts acknowledged in reverse leave the row clean with the older payload at the lower version, nothing queued |
| `Guarantees.RunKeepsVersion` | langs/typescript/src/client.mjs:224-296 | Over any run in which the row stays present and that case does not occur, its version never decreases |
| `Guarantees.WritesAreConserved` | langs/typescript/src/store.mjs:291-427 | Over any run each sequence number is issued at most once, and an issued write is either queued or was retired exactly once, by acknowledgement, echo or conflict |
| `Guarantees.StepConserves` | langs/typescript/src/store.mjs:353-560 | One step issues at most one sequence, and balances queued before plus issued against queued after plus retired |
| `Guarantees.StepCountsAttempts` | langs/typescript/src/store.mjs:639-648 | Only a failed send of a write raises its attempts, by one |
| `Guarantees.IntentIsKept` | langs/typescript/src/store.mjs:379-391 | A write queued before and after a run still asks for the same operation, payload, base version and key |
| `Guarantees.RetiredIsFinal` | langs/typescript/src/store.mjs:366-369 | After a write is retired, any later settle, adopt or bump for its sequence leaves rows, queue and cursors as they are |
| `Guarantees.AckMatchesCore` | src/lib.rs:211-219 | settleAck decides as the core's on_ack, moves no payload and clears dirty exactly when nothing else is queued |
| `KeyedStore.StepIsLocal` | langs/typescript/src/store.mjs:301-638 | A step on one row is the row transaction on it and leaves every other row and its queued writes unchanged |
| `KeyedStore.RunIsValid` | langs/typescript/src/store.mjs:291-330 | Queue sequences stay positive and below the next one, cursors stay safe integers, over any run |
| `KeyedStore.RunIsLocal` | langs/typescript/src/store.mjs:301-638 | What a run makes of a row is the run of the row's own transactions, whatever happens to other rows in between |
| `KeyedStore.DeliverIsApply` | langs/typescript/src/client.mjs:298-300 | A delivery step of the run model is exactly one applyChange |
| `KeyedStore.AckIsSettlement` | langs/typescript/src/client.mjs:306-315 | An acknowledgement step is exactly settlePessimistic or settleAck by the write's strategy |
| `KeyedStore.WriteIsEnqueue` | langs/typescript/src/client.mjs:346-368 | A write step is exactly enqueue or enqueueOptimistic of the record the client builds, whose content WriteLaw gives |
| `KeyedStore.FailedSendIsBump` | langs/typescript/src/client.mjs:390-399 | A failed-send step is exactly bumpAttempts |
| `Transitions.WriteLaw` | langs/typescript/src/client.mjs:346-368 | A write queues one record under the next sequence: no attempt made, based on the stored version, with its key and strategy. Its payload is null for a deletion, the given value for a replacement, and for a merge a value that reads as the patch on every path the patch assigns and as the held row on every path it leaves. A visible upsert shows exactly that payload, dirty, a visible deletion removes the row, a pessimistic write leaves the rows alone |
| `Transitions.EnqueueLaw` | langs/typescript/src/store.mjs:291-330 | Both enqueue transactions reset the attempts and take the next sequence; the optimistic one also stores the row dirty at the write's base version or deletes it |
| `Transitions.ChangeOfIdleRow` | langs/typescript/src/client.mjs:245-295 | A change of a row with nothing queued: an absent row takes an upsert, a present one every later version and, when clean, its own version again; the outcome of each case |
| `Transitions.ForeignChange` | langs/typescript/src/client.mjs:241-272 | A change that is the echo of no queued write, for a row with queued writes: they are all dropped for the server's row if and only if its version exceeds the stored version or, where the row is absent, every queued base version; otherwise the replica is unchanged |
| `Transitions.EchoedWrite` | langs/typescript/src/store.mjs:414-503 | A change that answers queued writes, by token and operation or for keyless ones by base version plus one, retires the first of them; the row becomes the server's exactly if no later write was settled above it, no newer one waits and no later version is stored |
| `Transitions.AckedVisible` | langs/typescript/src/store.mjs:353-408 | An acknowledged visible write: payload and presence stay, the version rises to the committed one, the row is clean exactly if nothing else waits; the outcome in each case, an absent row included |
| `Transitions.AckedPessimistic` | langs/typescript/src/store.mjs:566-638 | An acknowledged pessimistic write: a newer visible value is preserved; otherwise a deletion removes the row and an upsert stores exactly its payload at the committed version; the outcome in each case |
| `Transitions.AckedWriteIsDone` | langs/typescript/src/store.mjs:566-638 | Over any run between a pessimistic write and its acknowledgement: unless a newer write waits on a dirty value, a deletion leaves no row and an upsert exactly its payload at the committed version; with one, payload and presence stay; other rows are untouched |
| `Transitions.DeletionOutlivesStaleChanges` | langs/typescript/src/client.mjs:241-272 | A queued visible deletion of a row at version v is never retired by foreign changes at or below v, and the row stays deleted, over any run without a newer write to it or the deletion's own acknowledgement |
| `Transitions.ConflictLaw` | langs/typescript/src/store.mjs:509-560 | Conflict resolution drops the stale writes; the server's row is taken exactly if no other write of the row is left, else the local value stays dirty at the later version |
| `Transitions.SettledElsewhereIsRefused` | langs/typescript/src/store.mjs:366-370 | Settling a write that is not queued does nothing, and settling it for another row is refused |
| `Transitions.FailedSendLaw` | langs/typescript/src/store.mjs:640-648 | A failed send raises the attempts of a queued write by one and reports them, and 0 for a missing one |
| `Transitions.PruneLaw` | langs/typescript/src/client.mjs:567-576 | Pruning removes a clean row and nothing else |
| `Transitions.CursorLaw` | langs/typescript/src/store.mjs:260-273 | A cursor is saved if and only if it is a safe natural number not behind the saved one; otherwise nothing changes |
| `Transitions.CursorsNeverFall` | langs/typescript/src/store.mjs:255-273 | Over any run and any cursor calls a saved cursor stays saved and never decreases |
| `RowMachine.FindEcho` | langs/typescript/src/client.mjs:230 | The first queued write, in sequence order, whose echo the event is; none exactly if there is no such write |
| `RowMachine.LatestBase` | langs/typescript/src/client.mjs:251-254 | The largest base version of a non-empty queue |
| `OrderIndependence.DeliveryOrderIsIrrelevant` | langs/typescript/src/client.mjs:245-295 | Without queued writes and with one payload per version, two deliveries of the same set of upserts, in any order and with any repeats, leave the same store |
| `OrderIndependence.DeliveryKeepsHighest` | src/lib.rs:105-124 | Every row ends at the highest version delivered, with that version's payload |
| `OrderIndependence.OrderIsIrrelevantExactly` | langs/typescript/src/client.mjs:212-295 | Without queued writes and with one payload per version, all deliveries of a set of changes, in any order and with any repeats, leave the same store if and only if each row is upserted by none of them or has every deletion below its starting version or below some upsert: deletes leave no tombstone |
| `OrderIndependence.DeletionOrderMatters` | langs/typescript/src/client.mjs:212-221 | For an upsert and a deletion of one row the order is irrelevant if and only if the deletion is older than the upsert or than the stored row |
| `OrderIndependence.LateUpsertRevivesRow` | langs/typescript/src/client.mjs:212-221 | The run from a fresh store that shows it: in order the row ends absent, reversed it stays although the server deleted it |
| `OrderIndependence.DeliveryIsRun` | langs/typescript/src/client.mjs:298-300 | Delivering changes one after the other is a run of delivery steps, so what holds of runs holds of deliveries |
| `CatchUp.CatchUpIsCrashSafe` | langs/typescript/src/start.mjs:91-121 | Any run of page applications, cursor advances, crashes, restarts and live deliveries of any journal entry that is harmless (not late, or a deletion, or of a present row, or not followed by an applied entry of its row) keeps each row at its journal state at or after the replay position, and finishing gives the one-pass rows, deletions included |
| `CatchUp.LateIsHarmlessExactly` | langs/typescript/src/client.mjs:212-295 | A late delivery leaves its row at a journal state at or after the replay position if and only if it is harmless: only the late upsert of an absent row with a later applied entry is not |
| `CatchUp.ReplayWithWrites` | langs/typescript/src/start.mjs:86-119 | Replaying the journal while writes are queued, from a position that the row has reached, after any run of keyed writes, acknowledgements, failed sends and its changes in any order: the row of one uninterrupted pass, once nothing is queued for it |
| `CatchUp.ResumedIsOnePass` | langs/typescript/src/start.mjs:116-119 | Reconciling the rest of the journal from any replay position gives the rows of one pass over all of it |
| `CatchUp.SaveKeepsInv` | langs/typescript/src/store.mjs:260-273 | Advancing the cursor after applying never fails and never passes an unapplied entry |
| `Paging.PullIsExact` | langs/typescript/src/start.mjs:92-122 | From any safe non-negative cursor, looping pages visits every later entry exactly once and in order, up to pages times size entries, and ends at the cursor of the last one visited; it succeeds if and only if the page limit is at least the pages needed under the server's rule, never more than ceil(n/size) + 1, and otherwise fails with the page limit |
| `Paging.ServersServe` | langs/rust/postgres/src/lib.rs:153-206 | Both has-more rules serve, from every safe cursor, exactly the next entries; every such page passes the client's checks, and the cursor strictly increases if the page has changes and stays if it has none |
| `Paging.LookAheadSlice` | langs/rust/postgres/src/lib.rs:171-206 | The look-ahead page is the next entries, with has_more exactly if the journal continues |
| `Paging.FullPageSlice` | langs/dart/lib/src/supabase_transport.dart:95-99 | The full-page page is the next entries, with hasMore exactly if the page is full |
| `Paging.RefusedPages` | langs/rust/postgres/src/lib.rs:153-170 | Either page function refuses a negative cursor and a page size outside 1 to 1000, and nothing else |
| `Paging.DecodeFullPage` | langs/dart/lib/src/supabase_transport.dart:79-99 | Decoding succeeds exactly if sequences strictly increase past the cursor, and then returns all rows, the last sequence and hasMore for a full page |
| `Paging.RestartedPullCompletes` | langs/typescript/src/start.mjs:86-123 | A pull from whatever a crash left behind succeeds if and only if the page limit is at least the pages needed from the saved cursor, and then gives the rows of one uninterrupted pass and the last cursor |
| `Paging.EnoughPages` | langs/typescript/src/start.mjs:92-122 | Pages of a size reach the end of the journal under a has-more rule if and only if they are as many as the rule needs: one per started block and at least one, or one more after a full block; never more than ceil(n/size) + 1 |
| `SyncClient.Client.PullAll` | langs/typescript/src/start.mjs:86-123 | The loop runs exactly the pages the specification of the pull visits, with whatever happens before, between and after their changes, saves their cursors and has the specified result, or rejects the page size untouched |
| `SyncClient.PullAllConverges` | langs/typescript/src/start.mjs:86-123 | pullAll with writes queued and with new writes, acknowledgements and live changes at any point of it: a row whose history is delivered to its end by then and for which nothing is queued is the server's |
| `SyncClient.PullAdvances` | langs/typescript/src/start.mjs:104-109 | A pull that goes on asks a strictly later cursor each time, so a function of the cursor is any behaviour of the server during one pull |
| `SyncClient.PageLaw` | langs/typescript/src/start.mjs:94-119 | A turn reconciles anything or moves on only with a page whose cursor is safe and strictly later, and moves on only if every change was sound |
| `SyncClient.PullLimits` | langs/typescript/src/start.mjs:88-92 | A pull refuses no page size between 1 and 1000, and stops on its own limit only after ten thousand turns that all went on |
| `SyncClient.PullAllCatchesUp` | langs/typescript/src/start.mjs:86-123 | pullAll against a server of either rule, from whatever a crash left behind, succeeds if and only if the page limit suffices, whatever else happens meanwhile, and then has saved the last cursor; undisturbed, the store has the rows of one uninterrupted pass over the journal |
| `SyncClient.Client.PullPage` | langs/typescript/src/start.mjs:93-120 | One page: check it, apply its sound prefix with whatever happens in between, then save its cursor; any failure leaves the cursor |
| `SyncClient.Client.ReconcilePage` | langs/typescript/src/start.mjs:110-115 | Changes are applied in order up to the first malformed one, with whatever happens before, between and after them |
| `SyncClient.Client.ApplyChange` | langs/typescript/src/client.mjs:224-296 | The method over the store computes applyChange of the keyed store, with its outcome; what that is, ChangeOfIdleRow, ForeignChange and EchoedWrite say |
| `SyncClient.Client.ApplyServer` | langs/typescript/src/client.mjs:212-221 | The server row replaces or removes the local one, clean |
| `SyncClient.Client.QueueWrite` | langs/typescript/src/client.mjs:346-368 | The local half of write() is the write step of the run model, which WriteLaw describes |
| `SyncClient.Client.Settle` | langs/typescript/src/client.mjs:306-315 | _applyAck settles by the strategy of the write |
| `SyncClient.Client.FinishSend` | langs/typescript/src/client.mjs:375-404 | A valid acknowledgement is an acknowledgement step, whose outcome is reported, and anything else a failed-send step; a write retired meanwhile is reported as acknowledged by its echo |
| `SyncClient.ResponseLaw` | langs/typescript/src/client.mjs:375-404 | A response settles the write exactly if it names the row's id and a safe non-negative version; any other is one more failed attempt and nothing else |
| `SyncClient.Client.FlushQueue` | langs/typescript/src/client.mjs:477-527 | Every write queued at the start is sent once in queue order; with whatever happens while each send is in flight, the replica is as after the run of all this and the responses; a write is reported failed exactly if it is still queued after its response, and the counts add up |
| `SyncClient.QuietFlush` | langs/typescript/src/client.mjs:477-515 | If nothing else happens, the acknowledged writes leave the queue and the failed ones stay, unchanged but for one more attempt, and are exactly those reported |
| `SyncClient.Client.Perform` | langs/typescript/src/client.mjs:202-210 | Every action of the run model is a method of the client or its store, with exactly the action's effect |
| `SyncClient.Client.Hydrate` | langs/typescript/src/client.mjs:542-578 | The rows that carry an id are reconciled in order; with prune, every row in the snapshot, dirty, of another table or without an identity stays, and of the clean rows of the table that carry their own identity exactly those in the snapshot; distinct ids into an empty store leave exactly the snapshot's rows, clean, each with its own payload and version; applied, ignored and conflicts each count their own outcomes and pruned the rows removed; all this is a run of deliveries and prunings |
| `Hydration.HydrateIsRun` | langs/typescript/src/client.mjs:565-576 | Removing any clean rows after a delivery is the run of their prune actions, in any order |
| `Hydration.PruningLeaves` | langs/typescript/src/client.mjs:565-576 | Pruning keeps every row that is in the snapshot, dirty, of another table or without an identity, and of the clean rows of the table that carry their own identity exactly those in the snapshot; nothing else changes |
| `Hydration.SnapshotStocks` | langs/typescript/src/client.mjs:542-564 | Reconciling a snapshot with distinct ids into an empty store leaves exactly its rows, each clean with its own payload and its payload's version |
| `SyncClient.FirstEcho` | langs/typescript/src/client.mjs:230 | Scanning the listed writes finds the echo the specification names |
| `SyncClient.RowWrites` | langs/typescript/src/client.mjs:227-229 | Filtering the listed queue gives the row's own queue in order |
| `SyncClient.MaxBase` | langs/typescript/src/client.mjs:251-254 | The reduction gives the largest base version |
| `IndexedDb.IndexedDbStore.Enqueue` | langs/typescript/src/store.mjs:291-295 | Appends the write with zero attempts under the next sequence |
| `IndexedDb.IndexedDbStore.EnqueueOptimistic` | langs/typescript/src/store.mjs:301-330 | Row mutation and queue record in one step |
| `IndexedDb.IndexedDbStore.SettleAck` | langs/typescript/src/store.mjs:353-408 | The record updates amount to the acknowledgement of the keyed store, error and missing cases included |
| `IndexedDb.IndexedDbStore.AdoptEcho` | langs/typescript/src/store.mjs:414-503 | The record updates amount to the echo adoption of the keyed store |
| `IndexedDb.IndexedDbStore.ResolveConflict` | langs/typescript/src/store.mjs:509-560 | The record updates amount to the conflict resolution of the keyed store |
| `IndexedDb.IndexedDbStore.SettlePessimistic` | langs/typescript/src/store.mjs:566-638 | The record updates amount to the pessimistic settlement of the keyed store, which AckedPessimistic describes |
| `IndexedDb.IndexedDbStore.BumpAttempts` | langs/typescript/src/store.mjs:640-648 | One more attempt for a queued write, 0 for a missing one |
| `IndexedDb.IndexedDbStore.SetCursor` | langs/typescript/src/store.mjs:260-273 | Safe, non-negative and never backwards, else refused with nothing changed |
| `IndexedDb.IndexedDbStore.GetAll` | langs/typescript/src/store.mjs:336-340 | All queue records, each once, in key order |
| `IndexedDb.IndexedDbStore.All` | langs/typescript/src/store.mjs:239-245 | The values of exactly the stored rows of the table, one for each |
| `IndexedDb.IndexedDbStore.MarkSuperseded` | langs/typescript/src/store.mjs:379-391 | The loop over the listed writes raises exactly the earlier writes of the row |
| `IndexedDb.AckForm` | langs/typescript/src/store.mjs:371-405 | The queue-wide reading of an acknowledgement equals the row transaction |
| `IndexedDb.EchoForm` | langs/typescript/src/store.mjs:432-500 | The queue-wide reading of an echo equals the row transaction |
| `IndexedDb.ConflictForm` | langs/typescript/src/store.mjs:521-557 | The queue-wide reading of a conflict equals the row transaction |
| `IndexedDb.PessimisticForm` | langs/typescript/src/store.mjs:584-635 | The queue-wide reading of a pessimistic settlement equals the row transaction, which AckedPessimistic describes |
| `AssocArray.IndexOf` | langs/typescript/src/local-storage.mjs:46-50 | The scan finds the one position of a key, or -1 exactly if the map has none |
| `AssocArray.PutItem` | langs/typescript/src/local-storage.mjs:57-62 | Replace or push keeps keys unique and is the map update |
| `AssocArray.DeleteItem` | langs/typescript/src/local-storage.mjs:64-67 | Splice keeps keys unique and is the map removal |
| `LocalStorage.Without` | langs/typescript/src/local-storage.mjs:192 | Filtering keeps the order and is the removal of the sequences |
| `LocalStorage.Mark` | langs/typescript/src/local-storage.mjs:175-182 | The loop raises exactly the earlier writes of the row, as the keyed map operation does |
| `LocalStorage.LocalStorageStore.Enqueue` | langs/typescript/src/local-storage.mjs:119-125 | Refines the keyed store: sequences stay strictly increasing |
| `LocalStorage.LocalStorageStore.List` | langs/typescript/src/local-storage.mjs:151-153 | The document's array lists every queued write once, in sequence order |
| `LocalStorage.LocalStorageStore.EnqueueOptimistic` | langs/typescript/src/local-storage.mjs:127-149 | Refines the keyed store; an unconfigured table is refused with nothing written |
| `LocalStorage.LocalStorageStore.SettleAck` | langs/typescript/src/local-storage.mjs:161-195 | Refines the keyed store, error cases included |
| `LocalStorage.LocalStorageStore.SettlePessimistic` | langs/typescript/src/local-storage.mjs:197-252 | Refines the keyed store's settlement, which AckedPessimistic describes, error cases included |
| `LocalStorage.LocalStorageStore.AdoptEcho` | langs/typescript/src/local-storage.mjs:254-315 | Refines the keyed store, error cases included |
| `LocalStorage.LocalStorageStore.ResolveConflict` | langs/typescript/src/local-storage.mjs:317-353 | Refines the keyed store |
| `LocalStorage.LocalStorageStore.BumpAttempts` | langs/typescript/src/local-storage.mjs:355-363 | Refines the keyed store |
| `LocalStorage.LocalStorageStore.SetCursor` | langs/typescript/src/local-storage.mjs:427-442 | Refines the keyed store |
| `LocalStorage.LocalStorageStore.Put` | langs/typescript/src/local-storage.mjs:392-404 | Refines the keyed store's row update |
| `LocalStorage.LocalStorageStore.Del` | langs/typescript/src/local-storage.mjs:414-417 | Refines the keyed store's row removal |
| `Merge.MergeLoop` | langs/typescript/src/merge.mjs:57-75 | The key loop over a fresh object computes the recursive merge, for every key order |
| `Merge.DeepMergeIdempotent` | langs/typescript/src/merge.mjs:53-55 | Merging the same patch again changes nothing, for all trees |
| `Merge.DeepMergeReads` | langs/typescript/src/merge.mjs:64-74 | A base path that the patch leaves at an absent, undefined or skipped key within the depth cap reads as before; a path the patch assigns reads the assigned value, null included |
| `Merge.ReplacesBeyondReach` | langs/typescript/src/merge.mjs:26-29 | Sixty-four levels down the patch replaces, objects too |
| `Merge.NeverPollutes` | langs/typescript/src/merge.mjs:66 | Where two objects merge within the depth cap, the patch neither adds nor changes `__proto__`, `constructor` or `prototype` |
| `Hlc.Clock.Tick` | src/hlc.rs:128-138 | With V the state as one 64-bit number, tick gives min(2^64-1, max(V+1, now*65536)), strictly later unless saturated |
| `Hlc.Clock.Observe` | src/hlc.rs:140-156 | observe gives min(2^64-1, max(V+1, remote*65536+1, now*65536)), strictly later unless saturated, and later than (clamped remote, 0) |
| `Hlc.Clock.Advance` | src/hlc.rs:109-126 | A counter one past its maximum carries into the wall time; the top stamp is kept |
| `Hlc.Clock.FromState` | src/hlc.rs:94-101 | An in-range state is restored as it was, any other clamped into range |
| `Hlc.CountIsOrder` | src/hlc.rs:40-46 | The 64-bit number is an order isomorphism of in-range stamps |
| `Hlc.ClampIsNearest` | src/hlc.rs:94-101 | Clamping a wall time gives the nearest one in range |
| `Hlc.IssueIsLeast` | src/hlc.rs:109-126 | A stamp issued is the least that is later than the last one and meets the target, as long as there is one |
| `Hlc.TargetIsLeast` | src/hlc.rs:128-156 | A tick calls for the first stamp of the current time; an observation for the least one after the remote time that is not before the current time |
| `Hlc.Drive` | src/hlc.rs:94-156 | A clock object driven through any run of ticks, observations and restarts issues the stamps the run lemmas speak of |
| `Hlc.StampIsReach` | src/hlc.rs:109-156 | The i-th stamp of any run in closed form: what the start and the first i+1 inputs can reach, saturated |
| `Hlc.ReachIsLargest` | src/hlc.rs:109-156 | Reach is the largest of the start plus the stamps issued and each target plus the stamps issued since |
| `Hlc.StampsRise` | src/hlc.rs:96-156 | Over any run, restarts included, each stamp exceeds every earlier one if and only if that one is not the saturated top stamp |
| `Hlc.ObservationsArePassed` | src/hlc.rs:140-156 | From an observation on every stamp of the run exceeds (clamped remote, 0) |
| `Hlc.DriftIsBounded` | src/hlc.rs:96-156 | After n stamps the clock is at most max(V0, M*65536) + n, M the largest clamped input |
| `HlcCodec.DecodeEncode` | src/hlc.rs:49-76 | decode inverts encode on every in-range stamp, and gives the clamped stamp otherwise |
| `HlcCodec.EncodeDecode` | src/hlc.rs:49-76 | encode inverts decode on every accepted text |
| `HlcCodec.AcceptsCanonical` | src/hlc.rs:59-76 | Accepted are exactly the texts of twelve lowercase hex digits, a dash and four |
| `HlcCodec.EncodingKeepsOrder` | src/hlc.rs:49-56 | Lexicographic order of encodings equals (wall, counter) order |
| `HlcCodec.AcceptedOrder` | src/hlc.rs:59-76 | Accepted texts sort as the stamps they decode to |
| `HlcCodec.RunIsSorted` | src/hlc.rs:19-23 | The encodings of a run of the clock come out sorted while it is not saturated |
| `SchemaChecker.Validate` | src/schema.rs:130-149 | The result is the report of the definition: a violation is on it if and only if it is a failure of the definition's node or of a node visited from it; it is empty if and only if the value satisfies the definition within the depth cap and, for references that do not run in circles and nesting of at most 64, if and only if the value has the schema's uncapped meaning; an unknown definition is the only violation |
| `SchemaReport.ReportIsDue` | src/schema.rs:156-428 | The report is sound and complete: a violation is on it if and only if it is a failure of the node itself or of a node visited below it, where a value of the wrong type is not looked into and what the branches of a choice report is thrown away |
| `SchemaReport.EmptyMeansSat` | src/schema.rs:156-428 | The report is empty if and only if the value satisfies the schema with the levels that remain, branches being probed by their reports |
| `SchemaReport.ViolationsLieBelow` | src/schema.rs:286-357 | Every violation lies at or below the path where the check began |
| `SchemaReport.LoadedNodesAreSchemas` | src/schema.rs:173-189 | For documents that the loader accepted no report ever says that a node is not a schema |
| `SchemaReport.ItemPathLaw` | src/schema.rs:350-354 | The place of an item is its array's place and its index in brackets, a decimal numeral without leading zeros that denotes it |
| `SchemaChecker.Check` | src/schema.rs:156-223 | The report of the node is appended to the violations so far, in order; terminates on cyclic references |
| `SchemaChecker.CheckObject` | src/schema.rs:286-337 | Appends exactly the report of required, properties and additionalProperties, in that order |
| `SchemaChecker.CheckArray` | src/schema.rs:339-383 | Appends exactly the report of items, minItems, maxItems and uniqueItems, in that order |
| `SchemaChecker.FindRepeat` | src/schema.rs:372-382 | The scan stops at the first item that repeats an earlier one, the items before it being distinct, and runs to the end if there is none |
| `SchemaChecker.CheckComposition` | src/schema.rs:385-428 | Appends exactly the report of anyOf, oneOf, allOf and not, in that order |
| `SchemaChecker.CountPasses` | src/schema.rs:406-414 | The number of branches whose own report is empty, all of them tried |
| `SchemaChecker.CheckNumber` | src/schema.rs:253-284 | Appends a violation for each numeric bound that fails, compared as 64-bit floats, in order |
| `SchemaChecker.CheckString` | src/schema.rs:225-251 | Appends a violation for each length bound that fails, counting code points, in order |
| `JsonSchema.MeansByKeywords` | src/schema.rs:156-428 | The meaning of a schema without circular references satisfies the keyword equations with subschemas taken by their own meaning: no depth, no fuel |
| `JsonSchema.MeansIsSat` | src/schema.rs:170-173 | Once the depth covers the nesting, the capped answer is the meaning |
| `Doubles.DoubleIsNearest` | src/schema.rs:253-284 | The float that an integer compares as is exact up to 2^53 and beyond it off by half a spacing at most |
| `Doubles.DoubleKeepsOrder` | src/schema.rs:253-284 | Rounding never reverses two integers, so an inclusive bound never refuses an integer that meets it |
| `JsonSchema.WholeBoundsAreExact` | src/schema.rs:270-283 | Integer bounds compare the integers themselves wherever the bound or the number is below 2^53 in magnitude |
| `JsonSchema.RoundingCanDecide` | src/schema.rs:281-283 | From there on they need not: 2^53 is refused by an exclusive maximum of 2^53 + 1 |
| `JsonSchema.KeywordsAskChildren` | src/schema.rs:156-428 | Keywords ask only about the nodes they descend to |
| `JsonSchema.LoadedIsKnownThroughout` | src/schema.rs:479-523 | In a loaded document every node reachable from a definition through keywords and references is a boolean or an object with known keywords only |
| `JsonSchema.SelfReferenceFails` | src/schema.rs:191-196 | A definition that refers to itself accepts nothing at any depth |
| `JsonSchema.SelfNegationFlips` | src/schema.rs:420-427 | A definition that negates itself changes its answer with each further two levels, so cyclic references have no meaning a cap could approach |
| `SchemaKeywords.TypeLaw` | src/schema.rs:458-474 | null, boolean, string, array and object admit exactly the values of that constructor, number every number, integer exactly the whole ones, any other name nothing; a list admits what one of its text names admits |
| `SchemaKeywords.WrongTypeIsNamed` | src/schema.rs:197-205 | The one violation that a wrong type reports names the type that the value has, integer for a whole number |
| `SchemaKeywords.EnumLaw` | src/schema.rs:207-211 | enum admits exactly what it lists |
| `SchemaKeywords.ConstLaw` | src/schema.rs:212-216 | const admits exactly its value |
| `SchemaKeywords.LengthLaw` | src/schema.rs:225-251 | The length bounds bind texts alone, inclusively, and only as natural numbers |
| `SchemaKeywords.BoundLaw` | src/schema.rs:253-284 | Each numeric bound binds numbers alone, as 64-bit floats |
| `SchemaKeywords.RequiredLaw` | src/schema.rs:297-306 | required demands a member for every text it lists |
| `SchemaKeywords.PropertiesLaw` | src/schema.rs:307-314 | properties demands of each member that it names to satisfy its schema |
| `SchemaKeywords.AdditionalLaw` | src/schema.rs:315-336 | additionalProperties alone speaks of every member |
| `SchemaKeywords.BesidePropertiesLaw` | src/schema.rs:315-336 | Beside properties it speaks of exactly the members that are not named there |
| `SchemaKeywords.ItemsLaw` | src/schema.rs:350-354 | items demands its schema of every item |
| `SchemaKeywords.CountLaw` | src/schema.rs:356-371 | The item bounds bind arrays alone, inclusively, and only as natural numbers |
| `SchemaKeywords.UniqueLaw` | src/schema.rs:372-382 | uniqueItems, if true, demands that no two items are equal |
| `SchemaKeywords.AnyOfLaw` | src/schema.rs:398-405 | anyOf demands some branch |
| `SchemaKeywords.OneOfLaw` | src/schema.rs:405-414 | oneOf demands a branch and no two, by position |
| `SchemaKeywords.AllOfLaw` | src/schema.rs:415-419 | allOf demands every branch |
| `SchemaKeywords.NotLaw` | src/schema.rs:420-427 | not demands that its schema fails |
| `SchemaKeywords.ReferenceLaw` | src/schema.rs:191-196 | A reference demands what the definition of that name demands, and admits nothing if there is none |
| `SchemaKeywords.EnforcedKeywordsBite` | src/schema.rs:31-53 | Each keyword that the loader counts as enforced has a loadable schema made of it alone and a value that the schema refuses |
| `SchemaKeywords.AnnotationsAdmit` | src/schema.rs:54-66 | A keyword counted as an annotation refuses nothing |
| `SchemaKeywords.LoaderLaw` | src/schema.rs:479-523 | An unknown keyword, a malformed group of subschemas, a node that is no schema and a root that is no object are each refused by name |
| `SchemaProblems.EnumReport` | src/schema.rs:207-211 | A value that is not listed is reported once |
| `SchemaProblems.ConstReport` | src/schema.rs:212-216 | A value that is not the constant is reported once |
| `SchemaProblems.ShortReport` | src/schema.rs:235-242 | A text that is too short is reported with the bound |
| `SchemaProblems.LongReport` | src/schema.rs:243-250 | A text that is too long is reported with the bound |
| `SchemaProblems.BoundReport` | src/schema.rs:264-283 | A number out of bounds is reported with the keyword |
| `SchemaProblems.MissingReport` | src/schema.rs:297-306 | A missing property is reported by name |
| `SchemaProblems.PropertyReport` | src/schema.rs:307-336 | A forbidden property is reported by name where the object lies; the report on a property lies at its name |
| `SchemaProblems.FewReport` | src/schema.rs:356-363 | Too few items are reported with the bound |
| `SchemaProblems.ManyReport` | src/schema.rs:364-371 | Too many items are reported with the bound |
| `SchemaProblems.RepeatReport` | src/schema.rs:372-382 | Repetition is reported once, at the first item that repeats an earlier one |
| `SchemaProblems.AnyOfReport` | src/schema.rs:398-405 | No passing branch is reported once |
| `SchemaProblems.OneOfReport` | src/schema.rs:405-414 | A number of passing branches other than one is reported with that number |
| `SchemaProblems.NotReport` | src/schema.rs:420-427 | A forbidden match is reported once |
| `SchemaProblems.ReferencedReport` | src/schema.rs:191-196 | A reference reports what its definition reports, in the same place, or that it names none |
| `SchemaProblems.PartReport` | src/schema.rs:319-358 | An item is reported on at its index, an unlisted property at its name, a branch of allOf where the value lies |
| `SchemaProblems.NodeReport` | src/schema.rs:170-189 | The depth limit, a schema that allows nothing and a node that is no schema are each reported as such |

## Left out

- SyncClient.PullAllCatchesUp: the rows of the whole store are stated for a pull that nothing interrupts; SyncClient.PullAllConverges says of each row what other transitions during the pull leave.
- SyncClient.Client.Hydrate: JavaScript's `String` and `Number` are parameters, and every version is a safe integer; a snapshot of class instances, whose id is not an own property, is not modelled.
- IndexedDb.IndexedDbStore.All: does not give the order of the list, of which pruning makes no use.
- CatchUp.CatchUpIsCrashSafe: starts from a replica without a saved cursor; a later start is a state reached from such a one. Journal commit order is taken as sequence order.
- Convergence.RowConverges: versions are non-negative, and no snapshot prunes the row meanwhile.
- JsonSchema.LoadedIsKnownThroughout: the document is already parsed, and the loader's error carries the offending keyword but not its path.
- Hlc.Clock.FromState: the only ways to make a clock here are a new one and a restored state; deserialising the two fields unclamped is not modelled.
- HlcCodec.AcceptsCanonical: a text is the sequence of its bytes, so a non-ASCII text is a longer one that is refused as well.
- Guarantees.RetiredIsFinal: key minting is an assumption; fresh and distinct keys are required where a theorem needs them.
- Sockets, server-sent events, reconnect timers, fetch, tokens and telemetry: no effect on the replica's state.
- Opening and upgrading IndexedDB, and request ordering inside a transaction: each transaction is one step that commits whole.
- Several tabs on one database: one client per store, so an echo found in the queue is still there when it is adopted.
- The replica's created, updated and synced timestamps, and the simple store calls `setMeta` and `remove`.
- Parsing and format checks of the localStorage document: the document is the arrays themselves.
- Row versions that are not safe integers.
- The server's journal append, triggers, row-level security and tenant settings: the journal is a fixed ascending sequence per tenant; the SQL function's clamps of cursor and page size, which the transport's own range checks make unreachable.
- The Dart, WebAssembly and other-language twins of the same logic, `zodSchemas`, and the generated schema documents.
- The policy enumeration around conflicts (`resolve_conflict`), of which the client uses server-wins only.
