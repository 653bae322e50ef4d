# Bookmark runtime: a verified model

A Dafny model of the s0f bookmark daemon: the batch validator, the SQLite-backed store with
fractional sibling order, the tree loader, the `apply_ops` request and whole runs of it, the
frame codec with the bridge/server exchange, the event hub, and the comparison of git heads.

| file | models |
|---|---|
| `Model.dfy` | nodes, ops, errors, and the outside world (`Env`: URL parsing, id generator, float rounding) |
| `Chains.dfy` | parent chains, subtrees, acyclicity; what adding, deleting and moving do to them |
| `Order.dfy` | ordered child lists and the choice of an ord (`calcOrd`) |
| `Validator.dfy` | `ValidateOps` and its mutable `treeState` |
| `Sqlite.dfy` | the `nodes` table as a class, its SQL statements, `ApplyOps`, `LoadTree` |
| `Verdicts.dfy` | what a batch is refused for, told independently of the code's order |
| `Simulation.dfy` | the relation between the validator's shadow and the table, and what accepted batches keep |
| `Failures.dfy` | exactly when an accepted batch fails in the store |
| `RoseTree.dfy`, `Refinement.dfy` | the ordered rose tree of a table; table ops refine plain list operations |
| `Structure.dfy` | rounding touches ords and nothing else |
| `Rounding.dfy` | binary64 numbers, and the dyadic bound under which float64 equals real arithmetic |
| `Float64.dfy` | rounding to nearest, and exactly when the midpoint of two ords is a new one |
| `Spacing.dfy` | exactly when a placement keeps siblings apart: one table, one op, batches, runs |
| `Crowding.dfy` | runs that show where the two limits lie |
| `Loader.dfy` | what a loaded tree and a snapshot's child lists tell their reader |
| `Daemon.dfy` | request decoding, `handleApplyOps`, runs, end-to-end statements |
| `Outcomes.dfy` | the answer to every `apply_ops` request, in full |
| `Frames.dfy`, `Bridge.dfy` | frame codec; bridge/server lockstep over byte channels |
| `Codec.dfy` | an encoding that meets what the lockstep assumes of JSON |
| `EventHub.dfy` | the hub and its bounded channels |
| `Commits.dfy` | `compareRemote` over a commit graph |

## How to read it

Code that updates state is a class whose methods are proved against specification functions
(`ValidateOp`, `ApplyOp`, `Decode`, `Offer`, ...). The lemmas then say what these functions
mean. The longest chain of results is this one.

1. `Simulation.BatchSimulation`: while validator and store run the same batch, an original id is
   in the table exactly when its shadow chain reaches the root. The shadow keeps orphans of
   deleted folders and never sees new nodes; the table does the opposite.
2. From it follow the tree invariant of every run (`Daemon.RunKeepsTree`, for any rounding of
   ords), the exact condition under which an accepted batch fails in the store
   (`FailsExactlyOnOrphans`, `FailsExactlyAfterCascade`), and that no index is ever clamped.
   `Outcomes.OutcomeExactly` puts this together with the exact verdicts (`Verdicts`) into the answer
   every request gets; `OneOpExactly` says it on the tree the client sees.
3. `Refinement.BatchRefines`: reading the table as an ordered rose tree, a batch does exactly what
   insert-at-index, remove-subtree, move and relabel do on that tree, as long as every placement
   finds an ord strictly between its neighbours (`Served`). `Daemon.ReplyShowsPlainResult` carries
   this over runs to the tree a client receives.
4. When placements find such ords. Exact arithmetic: always (`Daemon.ExactServesRun`). Float64 rounded
   to nearest, ties either way: if and only if every interior placement meets two neighbours with a
   binary64 number strictly between them (`Float64.MidpointInsideIff`, `Spacing.RunServedIffRoom`).
   A count that guarantees it in advance: while interior placements, end placements and tabs of done
   requests fit into 53 bits, the float64 daemon is in the very state of the real-number daemon
   (`Daemon.RunFloat`).
5. The documented gap of 1e-6 in exact arithmetic: a placement keeps it if and only if its neighbours
   are more than twice that apart (`Spacing.PlacementGapIff`, `OpGapIff`, `BatchGapIff`).

Modelling assumptions:

- A request (load, validate, apply) is one atomic step, as the design document asks
  (docs/design_doc_v1.md:314). The code has no lock around cmd/bmd/rpc.go:35-80;
  `Daemon.StaleValidationLoops` shows two stale-validated moves that close a loop, so the results on
  runs are about serialized requests.
- `foreign_keys = ON` holds on the connection used, and foreign keys are checked per statement.
- SQL statements succeed unless a primary-key, foreign-key or rows-affected rule fails.
- `NewNodeID` never returns an id twice, nor "root" (`GoodIds`).
- URL parsing is a parameter that yields the scheme or fails.
- The assumptions on ids and rounding can be met together, in exact and in float64 arithmetic
  (`Crowding.WorldsExist`), and so can those on the encodings (`Codec.WireExists`).
- A node's id is the key it is stored under, so `Node` carries no id field. Timestamps, trace ids and
  version strings are left out.

Where code and documents disagree the model follows the code:

- The design document says that `newIndex` is clamped to the child count (docs/design_doc_v1.md:128).
  The validator rejects an index beyond the shadow's child count (pkg/core/validate.go:115-123), and
  `IndexNeverClamped` shows that the store's clamping never takes effect after that.
- Deletes cascade whether or not `Recursive` is set (pkg/storage/sqlite/sqlite.go:192-196).
- Rebalancing below the epsilon is documented (docs/design_doc_v1.md:178) but not implemented:
  on the run of `Crowding.CrowdRun`, which squeezes folders in at index 2, the gap is lost at exactly
  the twentieth (`TwentiethTooClose`), and float64 siblings share an ord from exactly the fifty-third
  on (`FiftyThirdCollides`).
- `ahead` is set when the remote head is not reachable from the local head (pkg/vcs/git/git.go:217).
  Alone it therefore means that the local head is the strict ancestor (`FlagsClassify`).
- A stream cut right behind a frame header reads like a regular end of stream (`Frames.ReadPrefix`).

## Model

| member | source | states |
|---|---|---|
| Chains.MoveCyclicIffAncestor | pkg/core/validate.go:53-73 | hanging a node below another closes a loop if and only if it is that node or one of its ancestors |
| Chains.PruneKeepsTree | pkg/storage/sqlite/sqlite.go:80 | taking out a whole subtree leaves a rooted tree of folders and bookmarks |
| Chains.DeleteCuts | pkg/core/validate.go:213-229 | a shallow delete cuts off from the root exactly the nodes below the deleted one |
| Chains.MoveKeepsRooted | pkg/core/validate.go:197-211 | a cycle-free move between rooted nodes changes nobody's connection to the root, dangling parents included |
| Order.OrdsUnique | pkg/storage/sqlite/sqlite.go:304-319 | every answer of the ordered select lists the same ords, even when ords tie |
| Order.PlaceOrdFits | pkg/storage/sqlite/sqlite.go:330-339 | the chosen ord lies strictly between the neighbours of the requested position |
| Order.SeparatedOrders | pkg/storage/sqlite/sqlite.go:303-340 | whatever the arithmetic: a node whose ord separates the siblings at a position stands there, and every other list only loses it |
| Order.ExactSeparable | pkg/storage/sqlite/sqlite.go:330-339 | in exact arithmetic the chosen ord separates the siblings at the requested position |
| Order.PutOrders | pkg/storage/sqlite/sqlite.go:303-340 | after a placement that found an ord between its neighbours the child list is the old one with the node at the requested position; every other list only loses it; sibling ords stay distinct |
| Order.PlacedOwn | pkg/storage/sqlite/sqlite.go:247-254 | within its own list a node at j moved to i ends at i when i <= j and at i-1 otherwise, the rest keeping its order |
| Validator.CycleCheckExact | pkg/core/validate.go:53-73 | in every shadow state reached, a move that passes its node and parent checks is rejected as a cycle if and only if it would create one |
| Validator.ShadowKeeps | pkg/core/validate.go:24-113 | validation keeps the shadow acyclic, never gains ids and never touches the root |
| Validator.IndexCounts | pkg/core/validate.go:115-123 | the child counts that index checks read do not depend on the order of the lists |
| Validator.TreeState.constructor | pkg/core/validate.go:144-160 | the child index lists, without duplicates, exactly the nodes of each parent, in whatever order nodes are visited |
| Validator.TreeState.IsDescendant | pkg/core/validate.go:181-195 | terminates, and is true exactly when the ancestor lies on the candidate's chain |
| Validator.TreeState.Unlink | pkg/core/validate.go:199-208 | takes one id out of one child list |
| Validator.TreeState.MoveNode | pkg/core/validate.go:197-211 | reparents one node, keeps the child index in agreement with parent pointers and the chains acyclic |
| Validator.TreeState.DeleteNode | pkg/core/validate.go:213-229 | removes one entry and leaves its children dangling, keeping the child index in agreement |
| Validator.TreeState.CheckTarget | pkg/core/validate.go:162-171 | passes exactly for a folder and an index from 0 up to and including its child count; a missing or non-folder parent is an invalid parent, whatever the index |
| Validator.TreeState.CheckMove | pkg/core/validate.go:53-73 | the move checks in the code's order, and the simulated move |
| Validator.TreeState.CheckOp | pkg/core/validate.go:27-110 | one turn of the validation loop for each op |
| Validator.ValidateOps | pkg/core/validate.go:24-113 | the verdict is that of the specification, hence a function of the nodes alone and independent of map iteration order |
| Verdicts.VerdictExactly | pkg/core/validate.go:24-135 | an op passes if and only if it has none of the faults (missing or wrong node, root, missing or non-folder parent, loop, index below 0 or above the child count, bad link), and is rejected for the first of them otherwise; only moves and shallow deletes change the shadow |
| Verdicts.BatchVerdictExactly | pkg/core/validate.go:24-113 | a batch is rejected with an error if and only if its first faulty op has that error as its first fault, on the nodes as simulated up to there |
| Sqlite.Store.constructor | pkg/storage/sqlite/sqlite.go:50-69 | a new store holds exactly the root row |
| Sqlite.Store.EnsureRoot | pkg/storage/sqlite/sqlite.go:100-107 | the root row is inserted only when missing |
| Sqlite.Store.CalcOrd | pkg/storage/sqlite/sqlite.go:303-340 | scanning the ordered select and clamping the index yields the specified ord |
| Sqlite.Store.Cascade | pkg/storage/sqlite/sqlite.go:80 | the closure of the cascade terminates with exactly the subtree of the deleted row |
| Sqlite.Store.ApplyAdd | pkg/storage/sqlite/sqlite.go:218-240 | inserts one row at the chosen ord under a fresh id; a key clash or a missing parent is reported as such, and changes nothing |
| Sqlite.Store.ApplyMove | pkg/storage/sqlite/sqlite.go:247-254 | updates parent and ord of one row; a missing node affects no row, a missing parent violates the foreign key |
| Sqlite.Store.ApplyDelete | pkg/storage/sqlite/sqlite.go:256-259 | removes exactly the row and the rows below it, or reports that no row was affected |
| Sqlite.Store.ApplyUpdateBookmark | pkg/storage/sqlite/sqlite.go:261-280 | changes the given fields only; without fields it succeeds without looking at the table |
| Sqlite.Store.ApplySaveSession | pkg/storage/sqlite/sqlite.go:282-301 | inserts the folder and its tabs in order, stopping at the first error |
| Sqlite.Store.ApplyOps | pkg/storage/sqlite/sqlite.go:165-216 | all ops are committed and the tree read back, or the table is exactly as before |
| Sqlite.Store.LoadTree | pkg/storage/sqlite/sqlite.go:110-162 | returns the same nodes, and for exactly the parents with children a duplicate-free list by ascending ord |
| Simulation.BatchSimulation | pkg/core/validate.go:24-113 | after every prefix both sides got through: an original id is in the table exactly when its shadow chain reaches root, with equal kind and parent |
| Simulation.AddedNeverParents | pkg/storage/sqlite/sqlite.go:165-216 | a node added by the batch never becomes the parent of an original one |
| Simulation.OpFailsExactly | pkg/storage/sqlite/sqlite.go:342-354 | an accepted op fails in the store if and only if an id it names has left the table |
| Simulation.FailureTellsWhatIsMissing | pkg/storage/sqlite/sqlite.go:342-354 | the error tells whether the op's own node or its target folder is missing; no key clash can occur |
| Simulation.AcceptedBatchKeepsUrlsAndRoot | pkg/core/validate.go:91-95 | accepted batches keep valid URLs on bookmarks, none on folders, and the root row |
| Failures.FailsExactlyOnOrphans | pkg/core/validate.go:213-229 | an accepted batch fails if and only if some op names a node the shadow holds cut off from root, a condition on tree and ops only; then the table is unchanged |
| Failures.MissingMeansCascaded | pkg/storage/sqlite/sqlite.go:256-259 | a shadow id is missing from the table if and only if an earlier delete took it along by cascade |
| Failures.FailsExactlyAfterCascade | pkg/storage/sqlite/sqlite.go:165-216 | the same failure condition in terms of the batch: a reached op names an id an earlier delete removed by cascade |
| Failures.BatchWithoutDeletesCompletes | pkg/storage/sqlite/sqlite.go:165-216 | an accepted batch that deletes nothing never fails in the store |
| Failures.IndexNeverClamped | pkg/storage/sqlite/sqlite.go:320-329 | an accepted index is within the table's child count when its op runs, so clamping leaves it unchanged |
| Failures.AcceptedYetFails | pkg/core/validate.go:74-82 | on a concrete tree the daemon can hold, an accepted batch (delete a folder, rename its bookmark) that the store rolls back |
| RoseTree.AbsFind | pkg/storage/sqlite/sqlite.go:110-162 | looking an id up in the tree of a table finds its subtree, and nothing for absent ids |
| RoseTree.WalkVisitsOnce | pkg/storage/sqlite/sqlite.go:110-162 | a depth-first walk visits every node of a subtree exactly once |
| Refinement.AddRefines | pkg/storage/sqlite/sqlite.go:218-240 | an add inserts the new leaf at the index below its parent, and nothing else changes |
| Refinement.SessionRefines | pkg/storage/sqlite/sqlite.go:282-301 | a saved session inserts one folder holding one bookmark per tab, in tab order |
| Refinement.MoveRefines | pkg/storage/sqlite/sqlite.go:247-254 | a move takes the whole subtree out and hangs it in at the adjusted position |
| Refinement.RelabelRefines | pkg/storage/sqlite/sqlite.go:242-245 | renames and bookmark updates relabel one node and move none |
| Refinement.ExactServes | pkg/storage/sqlite/sqlite.go:282-340 | in exact arithmetic every placement and every tab gets the ord it needs |
| Refinement.BatchRefines | pkg/storage/sqlite/sqlite.go:165-340 | the tree of the table after an accepted batch is the initial tree after the plain operations, op by op, if every placement finds an ord between its neighbours |
| Structure.SameBatch | pkg/storage/sqlite/sqlite.go:165-340 | two stores that differ only in rounding give the same verdict and error, use up the same ids, and hold the same rows up to ords |
| Refinement.MovePlacement | pkg/storage/sqlite/sqlite.go:247-254 | final position of a moved node in another folder and in its own; all other lists unchanged |
| Refinement.CascadeExact | pkg/storage/sqlite/sqlite.go:256-259 | a delete removes exactly the ids whose chain contains the node, whatever the recursive flag; the row count drops by the subtree's size; other rows are untouched |
| Rounding.PlacementWithin | pkg/storage/sqlite/sqlite.go:330-339 | each placement stays on the dyadic grid and in range, and is computed exactly when the bound fits |
| Rounding.BatchWithin | pkg/storage/sqlite/sqlite.go:293-299 | every ord is a multiple of 2^-d of size at most M; while 2 M 2^d <= 2^53 the float64 store passes through the same states as the exact one |
| Rounding.GapAboveEpsilon | pkg/core/order.go:3-5 | after at most 19 interior placements distinct ords are more than the epsilon apart |
| Float64.MidpointInsideIff | pkg/storage/sqlite/sqlite.go:337-338 | rounded to nearest, the midpoint of two ords lies strictly between them if and only if some binary64 number does; otherwise it is one of the two |
| Float64.EndsMove | pkg/storage/sqlite/sqlite.go:333-336 | one below the first or above the last ord is never rounded back to it |
| Float64.PlaceOrdSplitsIff | pkg/storage/sqlite/sqlite.go:330-339 | the ord chosen for any index separates the siblings there if and only if an interior index has a number left; otherwise it repeats a neighbour's |
| Float64.NearestRoundingExists | pkg/storage/sqlite/sqlite.go:337-338 | a rounding of this kind exists |
| Spacing.PlacementGapIff | pkg/core/order.go:3-5 | exact arithmetic, any gap below one: after a placement all siblings are further apart than the gap if and only if the neighbours were further apart than twice the gap |
| Spacing.PlacementDistinctIff | pkg/storage/sqlite/sqlite.go:303-340 | float64: after a placement sibling ords are distinct if and only if a number was left between the neighbours, or the node was moved within its folder and keeps its very ord; in the first case it stands where it was asked to |
| Spacing.OpGapIff | pkg/storage/sqlite/sqlite.go:218-340 | the same for a whole op: an op that deletes or relabels keeps every gap, a saved session's tabs never matter |
| Spacing.OpDistinctIff | pkg/storage/sqlite/sqlite.go:218-340 | the same for a whole op in float64 |
| Spacing.BatchGapIff | pkg/storage/sqlite/sqlite.go:165-216 | all tables of a batch keep the gap if and only if every placement of the batch finds twice the gap |
| Spacing.RunHeld | pkg/storage/sqlite/sqlite.go:293-340 | every ord of a float64 run is a binary64 number no greater than the end placements plus the longest tab list |
| Spacing.RunServedIffRoom | pkg/storage/sqlite/sqlite.go:303-340 | over a whole float64 run: all placements find ords between their neighbours if and only if a number is left at each of them |
| Spacing.RoomKeepsMeaning | cmd/bmd/rpc.go:35-80 | so while there is room, float64 siblings stay distinct and replies show the plain result, however many placements were made |
| Crowding.TwentiethTooClose | pkg/core/order.go:3-5 | from an empty store: after three folders, each further one requested at index 2, the gap of 1e-6 holds in exact arithmetic through exactly 19 of them |
| Crowding.FiftyThirdCollides | pkg/storage/sqlite/sqlite.go:337-338 | on the same run in float64, sibling ords are distinct through exactly 52 of them |
| Loader.ListsPartitionNodes | pkg/storage/sqlite/sqlite.go:147-150 | every node but the root stands in exactly one child list, at one place |
| Loader.ListsHoldOnlyNodes | pkg/storage/sqlite/sqlite.go:147-150 | lists belong to folders, hold only nodes other than root, and ascend strictly |
| Loader.ClientSeesTree | pkg/storage/sqlite/sqlite.go:110-162 | following the loaded child lists rebuilds exactly the tree of the table |
| Loader.WalkCoversTable | pkg/storage/sqlite/sqlite.go:110-162 | that walk from root meets every row of the table exactly once |
| Loader.NormalizeChildren | cmd/bmd/snapshot.go:49-60 | every node gets its list, empty where there is none |
| Loader.NormalizedKeepsLists | cmd/bmd/snapshot.go:49-60 | all loaded lists survive, and exactly the missing empty ones are added |
| Daemon.RequestRoundTrip | cmd/bmd/rpc.go:205-253 | exactly the ops without empty ids, links or update texts can be requested; each survives encoding and decoding |
| Daemon.DecodesExactly | cmd/bmd/rpc.go:205-254 | a request decodes to an op if and only if its type is the name of that kind of op, the fields the kind reads agree, and the required ones are not empty |
| Daemon.UndecodableExactly | cmd/bmd/rpc.go:205-245 | a request does not decode if and only if its type is none of the seven names or a field its type requires is empty |
| Daemon.ToCoreOps | cmd/bmd/rpc.go:180-190 | decodes all ops in order, each to the op it asks for, or fails if one does not decode |
| Daemon.HandleApplyOps | cmd/bmd/rpc.go:35-80 | new state and outcome of a request, and a reply tree loaded from the new state |
| Daemon.RequestDoneExactly | cmd/bmd/rpc.go:40-57 | a request succeeds if and only if it has ops, all decode, the validator accepts them and none names an orphan |
| Outcomes.InvalidExactly | cmd/bmd/rpc.go:37-50 | a request is answered as invalid if and only if it has no ops or one of them asks for nothing |
| Outcomes.StoreErrorExactly | pkg/storage/sqlite/sqlite.go:165-216 | an accepted batch fails with an error if and only if the first op that meets a node cut off in the simulation meets it as its own node (no rows affected) or as its folder (foreign key) |
| Outcomes.OutcomeExactly | cmd/bmd/rpc.go:35-57 | the answer to a decodable request: refused for the first fault of its first faulty op; without faults failed as above; otherwise done |
| Outcomes.OneOpExactly | cmd/bmd/rpc.go:35-57 | a request with one op, on the tree its client sees: done if and only if the op has no fault there, refused for its first fault otherwise, never a storage error |
| Outcomes.AddDoneExactly | pkg/core/validate.go:27-47 | an add or session alone is done if and only if the parent is a folder of the tree, the index is from 0 up to its child count, and all links are http or https |
| Outcomes.EditDoneExactly | pkg/core/validate.go:48-97 | exactly when a rename, delete, move or bookmark update alone is done; a title-only update needs no link |
| Daemon.FailureChangesNothing | cmd/bmd/rpc.go:35-57 | a request that is not done leaves every row as it was |
| Daemon.Open | pkg/storage/sqlite/sqlite.go:30-69 | a run begins with a store that holds the root row and nothing else |
| Daemon.RunKeepsTree | cmd/bmd/rpc.go:35-80 | from initialization through any serialized requests: a rooted acyclic tree, folders as parents, valid URLs, unchanged root, under any rounding |
| Daemon.StepRefines | cmd/bmd/rpc.go:35-80 | a done request whose placements find ords applies the plain operations to the tree, any other request leaves it alone; sibling ords stay distinct |
| Daemon.RunKeepsOrder | pkg/storage/sqlite/sqlite.go:303-340 | sibling ords are pairwise distinct in every state of a run whose placements all found ords between their neighbours |
| Daemon.ExactServesRun | pkg/storage/sqlite/sqlite.go:303-340 | in exact arithmetic that is every run |
| Daemon.RoundingAffectsOnlyOrds | cmd/bmd/rpc.go:35-80 | over whole runs, however ords are rounded: the same ids, parents, titles and links, and the same outcome of every request |
| Daemon.RunFloat | pkg/storage/sqlite/sqlite.go:293-340 | over whole runs the float64 daemon equals the exact one while the placements of done requests fit into 53 bits; failed and rolled-back requests cost nothing |
| Daemon.RunFloatKeepsOrder | pkg/core/order.go:3-5 | so float64 siblings stay distinct within the bound, and further apart than the epsilon through 19 interior placements |
| Daemon.ReplyShowsPlainResult | cmd/bmd/rpc.go:54-79 | the tree loaded for a reply shows exactly the previous tree after the plain operations of the batch, in every run whose placements all found ords |
| Daemon.FloatReplyShowsPlainResult | cmd/bmd/rpc.go:54-79 | so it does in float64 within the counted bound |
| Daemon.StaleValidationLoops | cmd/bmd/rpc.go:43-57 | two moves validated against the same tree and applied in turn close a loop, which fresh validation would have rejected |
| Frames.Stream.ReadFrame | pkg/ipc/frame.go:18-28 | consumes exactly one frame, or fails with the stream drained |
| Frames.Stream.WriteFrame | pkg/ipc/frame.go:30-36 | appends length and payload |
| Frames.FrameLayout | pkg/ipc/frame.go:13-14 | length in four bytes, lowest first, then the payload |
| Frames.FrameRoundTrip | pkg/ipc/frame.go:18-36 | a frame is read back with the rest untouched if and only if the payload is shorter than 2^32 bytes |
| Frames.CompleteFits | pkg/ipc/frame.go:18-28 | a cut after some bytes leaves exactly the frames whose bytes all come before it |
| Frames.ReadPrefix | pkg/ipc/frame.go:18-28 | reading any prefix of a frame stream returns exactly the complete frames and then the error that fits the cut |
| Frames.StreamRoundTrip | pkg/ipc/frame.go:18-36 | a whole stream of frames is read back with nothing left over |
| Bridge.HandleConn | pkg/ipc/server.go:86-133 | one response frame per request frame, in order, until no complete frame is left; read back, each has the id of its request, and success and body as the handler says, failure for an unknown method or a malformed message |
| Bridge.ServedReplies | pkg/ipc/server.go:94-131 | the same of the bytes the server writes: decoding them yields what is due for each request |
| Bridge.ForwardResponses | cmd/bmd-bridge/main.go:60-80 | copies frames up to and including the first standard response, or up to the read error |
| Bridge.ForwardsExactly | cmd/bmd-bridge/main.go:60-80 | what is copied is a prefix of the frames there are to read, of which the last one and no other is a standard response; or all of them, with the read error, if none is |
| Bridge.ServeOne | pkg/ipc/server.go:88-131 | one turn of the connection loop: consumes one frame, answers it, and is a serve step with the request's id |
| Bridge.CopyFrame | cmd/bmd-bridge/main.go:60-80 | one turn of the forwarding loop is a forward step, ending the loop exactly at a standard response |
| Bridge.SendOne | cmd/bmd-bridge/main.go:38-53 | the first half of one turn of the main loop is a send step: one native message becomes one frame |
| Bridge.StepKeepsLockstep | cmd/bmd-bridge/main.go:38-57 | at most one request is in flight, and each step of either side advances it by one stage |
| Bridge.Lockstep | cmd/bmd-bridge/main.go:38-80 | over every run: reading the output back yields the in-order responses with the ids of the requests, at most three steps per request are taken, and a step is enabled exactly while fewer were; then all are answered |
| Codec.WireExists | pkg/ipc/frame.go:13-36 | what the lockstep assumes of the encodings can be met, for all requests short enough for a frame |
| EventHub.EventHub.Register | cmd/bmd/events.go:28-34 | adds a client with an open, empty channel; one step of the run model |
| EventHub.EventHub.Unregister | cmd/bmd/events.go:36-43 | closes the channel of a registered client once, otherwise nothing happens; one step of the run model |
| EventHub.EventHub.Broadcast | cmd/bmd/events.go:45-64 | every registered client gets the event unless its channel is full, no send hits a closed channel; one step of the run model |
| EventHub.PublishReaches | cmd/bmd/events.go:31-62 | in every reachable hub a broadcast is appended for each registered client with fewer than 16 events waiting, and changes no other queue |
| EventHub.QueuedSinceOpen | cmd/bmd/events.go:31-62 | a client that registers and receives nothing is left with exactly the first 16 events broadcast since, in order |
| EventHub.RunOrderly | cmd/bmd/events.go:28-64 | in every reachable state exactly the registered channels are open and none exceeds its capacity |
| EventHub.Delivery | cmd/bmd/events.go:45-64 | received plus queued events are, in order, exactly the broadcasts since registration that did not find 16 queued |
| EventHub.EventHub.ReceiveNext | pkg/ipc/server.go:124-128 | a client's stream takes the oldest queued event and touches no other channel |
| EventHub.NothingLostBelowCapacity | cmd/bmd/events.go:55-62 | in every run, received and queued events of a client are all events broadcast while it was registered if and only if no broadcast found its channel full |
| Commits.CommitContains | pkg/vcs/git/git.go:222-236 | the history walk terminates and finds the target exactly when it is reachable |
| Commits.CompareRemote | pkg/vcs/git/git.go:193-220 | flags are non-reachability of one head from the other; without a head the error is that of the head, otherwise an error means a missing commit of two different heads |
| Commits.ReachAntisymmetric | pkg/vcs/git/git.go:217-218 | two commits that reach each other are equal |
| Commits.FlagsClassify | pkg/vcs/git/git.go:206-218 | no flag for equal heads, both for diverged histories, exactly one for a strict ancestor, and which one |

## Left out

- Float64 ords beyond 2^52 in size, which take that many placements at one end, in `Float64` and `Spacing`.
- Responses of 2^32 bytes or more in the lockstep: their frame header is truncated (`Frames.FrameRoundTrip`).
- SQLite itself: transactions, pragmas, DDL and indexes are represented by the contract of the statements.
- Which order the loading query gives to different parents: left open, because no result depends on it.
- Git staging, commit, push, fetch and pull; a pull that replaces the database file is not a step of the runs.
- Interleaved `apply_ops` requests, apart from the example of `Daemon.StaleValidationLoops`.
- JSON encoding, apart from its round trip; clocks, ULID entropy, timestamps, trace ids and version strings.
- `handleSearch` and the other read-only requests: they do not change the state.
- Stream methods of the server: no stream is ever registered by the daemon, and the lockstep is about plain methods.
- Malformed native messages and I/O errors, which end the bridge, in the lockstep.
- Partially written frames: a frame is appended to a channel in one step.
- The "unsupported op" branches: ops are a closed datatype.
- CLI, configuration, logging, sockets, signals, scripts and the browser and desktop clients.
