# Verified models of the forwarding daemon's RIB, fragmentation and forwarding cores

The project models four stateful parts of the daemon in Dafny 4.11 and proves what holds of them in
every run. `dafny verify dfyconfig.toml` checks all of it.

**RIB and FIB computation.** The RIB is a prefix tree of names with routes. The FIB updater does not
recompute the FIB: for each RIB update it walks subtrees with two shrinking route sets and emits
next-hop changes. `EffectiveNextHops` states, without tree, sets or walks, what the FIB is meant to
hold: a direct route; otherwise nothing at a capturing name; otherwise the route its nearest ancestor
offers to children on the face, looking no further than the first capturing ancestor. The chain is

- `Names`, `RibModel`, `RibShape`: the canonical order of names, the table as a value, what insertion
  and erasure do to the tree;
- `FibDelta`, `FibCompute`: the walk and every branch of the updater as functions to a log of changes,
  and what the deduplicated pending lists make of a log;
- `FibRefinement`, `FibSteps`, `FibCommands`, `FibCaptureChange`, `FibTheorem`, `FibRuns`: one command keeps
  the FIB equal to the effective next hops exactly when `FibTheorem.KeepsFib` holds of it and the capture
  counts exactly when `FibTheorem.KeepsCount` does, and whole runs;
- `FibSecondRoute`, `FibFailures`: a second route on a name, exactly, and inputs on which the FIB or an
  assertion goes wrong;
- `FibSending`, `FibExchange`: the two-phase exchange with the FIB over every interleaving of replies,
  and what it leaves in the FIB;
- `BatchHistory`: the ended batches with the state each started from, its replies and the state it left,
  and what a history of well-behaved batches says of the FIB;
- `RibEntries`, `RibTable`, `FibUpdaters`, `UpdateQueues`: the objects. Their methods change fields in
  place and are proved against the functions above; `UpdateQueue.Valid` joins everything: whatever is
  queued and whatever replies come, every batch of the history starts from what the ones before it left
  and ends as its replies decide, and the RIB is what they left. `FibIsRight` concludes: while every
  ended batch that succeeded is of the domain and had no removal for a live face timed out, the FIB holds
  the effective next hops on every face that no batch has put in doubt.

The domain of the refinement is one route per name. Within it nothing is assumed away: `StepExact` gives
equivalences whose conditions can be checked before the call, and they show where the code falls short.
Switching child inheritance off at a capturing name with an offering ancestor, or changing the cost
together with an unrelated flag bit, misleads the entries below. Re-registering a route with another
capture flag always leaves the capture count behind; the FIB stays right then unless an entry takes its
face and it misleads: the route is offered to children afterwards, and either an ancestor offers the face
too (with capture switched off: at another cost), or none does and the route was offered before at another
cost. `StaleCountBreaks` is a run in which the count left
behind makes a later, harmless registration wrong. Erasing a capturing route fails an assertion as soon as
an ancestor offers anything (`ErasingCaptureFails`). A second route on a name is exact too
(`SecondRouteExact`, with `SecondRouteBreaks` as an input). What a name with several routes on a face
offers to its children has two readings in the code: the first in its list, as in the search of the
ancestors at rib/rib.cpp:289-311, or the cheapest, as where the updater adds a route at
rib/fib-updater.cpp:428. The result covers both; that a cheaper route on the same face misleads the
entries below holds of the first only. Destroyed faces stay in the domain; the state keeps them in `dead`,
where the FIB is not compared. A retry of a timed-out removal goes out as an addition of cost zero;
`SentFibExact` and `ExchangeKeepsInv` state that the FIB is right if and only if no removal for a live face
timed out. `LateReply` states what a reply of any kind that comes after its batch failed does to the batch
that follows, at any moment of that batch: which callback of the failed batch it makes. `LateFailure` and
`LateSuccess` state what the queue does then: it takes the callback for the end of the batch in progress,
whose commands are still on their way, and a success puts the failed batch's update into the RIB with the
other batch's records.

**NDNLP and stream framing.** `Tlv` is the codec of section "Type-Length-Value (TLV) Encoding" of the NDN
Packet Format Specification: variable-size numbers of 1, 3, 5 and 9 bytes, non-negative integers of 1,
2, 4 and 8 bytes. Numbers in a longer form than needed are read as the library reads them.
`NdnlpCodec`, `NdnlpSlicer`, `NdnlpReassembly` and `NdnlpRuns` go from the packet to its fragments, over a
network that loses, repeats and reorders, and back. `StreamFaces` is the framing loop over its fixed
buffer of 8800 bytes.

**Forwarding.** `Forwarders` is the PIT with in-records, out-records and the two timers, for the forwarder
and for the bridge forwarder; `BestRoute` is the best-route strategy with exponential suppression. The
comment at daemon/fw/forwarder.cpp:196-206 says the Interest picked for sending is the last incoming one;
the comparison below it picks the one renewed first, and the model follows the code. An Interest leaves
an entry with neither timer armed in two cases: its nonce has been here before and it found no entry or
one without timers, or it hits the content store in the bridge. No timer removes such an entry. It stays
as it is until a Data matches it or an Interest for it comes that is not a loop, nor in the bridge a hit;
`OnIncomingInterest`, the other pipelines (`IdleKept`) and `IdleRun` state both exactly. The pipelines of
daemon/fw/bridge-forwarder.cpp:60-325 do the same to the PIT but for that content-store hit, and their
strategy sends without leaving out-records and never rejects (no `actions`); the same methods model them
with `isBridge` set, and flow balance and the timer rules hold for both. The dead nonce list goes by name,
while the PIT keeps entries apart that differ in their selectors.

**Ranges and segments.** `Networks` is the CIDR reader, `Segments` publishing and fetching in segments.

What the daemon gets from outside is a parameter: replies of the FIB, content-store answers, the PIT
entries a Data matches, scope checks, the time. A failed assertion, a dereferenced null route and an
exception are results (`crashed`, `ok`), not preconditions.

## Model

| member | source | states |
|---|---|---|
| Names.NameLessTotal | rib/rib.cpp:213-233 | the canonical order compares any two different names one way |
| Names.NameLessTransitive | rib/rib.cpp:213-233 | the canonical order is transitive |
| Names.DescendantsContiguous | rib/rib.cpp:213-233 | a name ordered between a prefix and one of its descendants is itself a descendant |
| Names.WalkIsFilter | rib/rib.cpp:213-233 | on a sorted list, walking until the first non-descendant finds exactly the names below the prefix |
| RibModel.FindRoute | rib/rib-entry.cpp:37-47 | the first route with the face and origin, or the end of the list |
| RibModel.LowestCost | rib/rib-entry.cpp:178-243 | a route of the list on the face that no route on it undercuts; none only when there is none |
| RibModel.FindParent | rib/rib.cpp:199-211 | the parent is a strict prefix in the table and every other one is a prefix of it |
| RibModel.FrontierOfEntry | rib/rib.cpp:119-148 | an entry's children are exactly the first entries below it, without repetition |
| RibShape.ParentAfterInsert | rib/rib.cpp:119-148 | an insertion changes the longest-prefix parent of exactly the descendants that shared the new name's parent |
| RibShape.ParentAfterErase | rib/rib.cpp:249-287 | an erasure moves exactly the erased name's children to its parent |
| RibShape.ShapeAfterInsert | rib/rib.cpp:119-148 | relinking on insertion restores parents as longest prefixes and children as their exact inverse |
| RibShape.ShapeAfterErase | rib/rib.cpp:249-287 | relinking on erasure restores them too |
| EffectiveNextHops.AncestorSplit | rib/rib.cpp:289-311 | below a name, inheritance is decided on the stretch between or by what the name hands down |
| EffectiveNextHops.AncestorFrame | rib/rib.cpp:289-311 | a change at one name changes inheritance only at names it can be handed down to |
| FibDelta.AncestorRoutesExact | rib/rib.cpp:289-333 | the routes collected up the parent links are, face by face, the inherited routes of the definition |
| FibDelta.WalkExact | rib/fib-updater.cpp:647-695 | at a descendant and face the subtree walk logs an addition, a removal or nothing exactly as the path, the sets and the records say |
| FibDelta.WalkListExact | rib/fib-updater.cpp:637-645 | the same for the walks over a list of children that is the frontier of a name |
| FibCompute.PendingUnique | rib/fib-updater.cpp:313-334 | never two pending updates for one name and face |
| FibCompute.PendingIsLast | rib/fib-updater.cpp:313-334 | a pending list holds, at a name and face, the last change logged there |
| FibCompute.FibAfterLog | rib/fib-updater.cpp:190-232 | applying the two deduplicated lists has the effect of the whole log |
| FibRefinement.RecordsApply | rib/rib.cpp:451-471 | records in the patterns the updater logs pass every assertion |
| FibRefinement.RecordsAt | rib/rib.cpp:451-471 | at a name and face the records leave the face recorded after a last append, and never recorded anew without one |
| FibRefinement.PointsMakeStep | rib/fib-updater.cpp:94-188 | changes that are right at every name and face carry the invariant over the whole step |
| FibCommands.PredictedFrontier | rib/fib-updater.cpp:131-144 | the children predicted for a name not yet in the table are exactly the first entries below it |
| FibCommands.NewEntryStep | rib/fib-updater.cpp:376-421 | registering a new name, with any flags, keeps the FIB equal to the effective next hops |
| FibCaptureChange.ToggleTaker | rib/fib-updater.cpp:462-559 | with the capture flag changed, an entry that takes a face from the name gets its new next hop if and only if the re-registration does not mislead it |
| FibTheorem.UpdateStep | rib/fib-updater.cpp:462-559 | after a re-registration, with any flags, all assertions hold; the FIB is right if and only if no entry that takes the face is misled, and then tree and records are too; the capture counts are exact if and only if the capture flag is kept |
| FibTheorem.EraseStep | rib/fib-updater.cpp:561-635 | the assertions hold on erasing if and only if the route does not capture or no ancestor offers anything, and then everything is kept |
| FibTheorem.StepExact | rib/fib-updater.cpp:94-188 | one command of the single-route domain: assertions and FIB come out right if and only if `KeepsFib` holds of it, the capture counts if and only if `KeepsCount` does, and the whole invariant if and only if both do |
| FibRuns.RunRefines | rib/rib.cpp:407-449 | in every run of such commands, with failing batches among them, the FIB is the effective next-hop function before and after each, and no assertion fails |
| FibSecondRoute.SecondRouteExact | rib/fib-updater.cpp:423-460 | registering a second route on a name, with any flags, passes all assertions, and under either reading of what several routes offer the FIB comes out right if and only if no entry takes the first route's face from a name where the second misleads |
| FibSecondRoute.CheapestOffered | rib/fib-updater.cpp:423-460 | the second reading is that of the lowest cost: a list sorted by cost offers the cheapest child-inherit route on the face |
| FibSecondRoute.ReadingKeeps | rib/fib-updater.cpp:423-460 | it changes nothing else: direct costs and capture are the same under both readings |
| FibSecondRoute.SecondLeavesRecord | rib/fib-updater.cpp:423-460 | a second route on a face the name had inherited leaves the record beside the direct route |
| FibFailures.SecondRouteBreaks | rib/fib-updater.cpp:423-460 | a table on which a second, capturing route takes a next hop from the FIB that the name below keeps |
| FibFailures.StaleCountBreaks | rib/rib.cpp:102-117 | a run of three registrations: re-registering with the capture flag leaves the count at zero, and registering the root then puts a next hop into the FIB behind the capturing name |
| FibFailures.ErasingCaptureFails | rib/fib-updater.cpp:598-608 | a table, and the table the erasure leaves, on which erasing a capturing route fails the assertion on the records |
| RibEntries.RibEntry.InsertRoute | rib/rib-entry.cpp:49-66 | appends a route of a new face and origin and counts it if it captures; otherwise changes nothing |
| RibEntries.RibEntry.EraseRoute | rib/rib-entry.cpp:113-129 | removes the route and uncounts it if it captures |
| RibEntries.RibEntry.GetRouteWithLowestCost | rib/rib-entry.cpp:178-243 | the loop over a candidate finds the first route of lowest cost |
| RibEntries.RibEntry.AddChild | rib/rib-entry.cpp:97-103 | links a parentless child |
| RibEntries.RibEntry.RemoveChild | rib/rib-entry.cpp:105-111 | unlinks an own child |
| RibEntries.RibEntry.RemoveInheritedRoute | rib/rib-entry.cpp:137-143 | removes the first record on the face |
| RibTable.Rib.FindParentEntry | rib/rib.cpp:199-211 | the loop over ever shorter prefixes finds the entry of the longest strict prefix |
| RibTable.Rib.FindDescendants | rib/rib.cpp:213-233 | exactly the strict descendants, once each; none for a name without an entry |
| RibTable.Rib.FindDescendantsForNonInsertedName | rib/rib.cpp:235-247 | the entries at or below the name, in table order |
| RibTable.Rib.GetAncestorRoutes | rib/rib.cpp:289-311 | the climb collects the first child-inherit route on each face up to the first capturing ancestor |
| RibTable.Rib.FindRoutesWithFaceId | rib/rib.cpp:473-498 | the routes on the face of every entry the face index lists, in its order and as often as it does, which are exactly the routes on the face |
| RibTable.Rib.Insert | rib/rib.cpp:83-156 | the table gains the route and keeps tree shape, order, face index and route count |
| RibTable.Rib.EraseEntry | rib/rib.cpp:249-287 | the entry goes, its children move to its parent, and all structures are exact again |
| RibTable.Rib.Erase | rib/rib.cpp:158-184 | the table loses the route, and the entry with its last route, and keeps all structures exact |
| RibTable.Rib.ModifyInheritedRoutes | rib/rib.cpp:451-471 | succeeds exactly when every record finds its entry and element, and then applies them all |
| RibTable.Rib.OnFibUpdateSuccess | rib/rib.cpp:407-435 | the batch's update enters the table and then its records |
| FibUpdaters.FibUpdater.Place | rib/fib-updater.cpp:313-334 | replaces the update for the same name and face where it stands, or appends |
| FibUpdaters.FibUpdater.TraverseSubTree | rib/fib-updater.cpp:647-695 | the recursive walk with sets shrinking while they are walked emits the log of the specification, and ends |
| FibUpdaters.FibUpdater.ModifyChildrensInheritedRoutes | rib/fib-updater.cpp:637-645 | the walks of all children, in list order |
| FibUpdaters.FibUpdater.FutureChildren | rib/fib-updater.cpp:131-144 | the entries below a new name that have the parent the name will have |
| FibUpdaters.FibUpdater.CreateFibUpdatesForNewRibEntry | rib/fib-updater.cpp:376-421 | the changes for a new name, by its flags |
| FibUpdaters.FibUpdater.CreateFibUpdatesForNewRoute | rib/fib-updater.cpp:423-460 | the changes for a new route on an existing name |
| FibUpdaters.FibUpdater.CreateFibUpdatesForUpdatedRoute | rib/fib-updater.cpp:462-559 | the changes for a route with new cost or flags |
| FibUpdaters.FibUpdater.CreateFibUpdatesForErasedRoute | rib/fib-updater.cpp:561-627 | the changes for an erased route |
| FibUpdaters.FibUpdater.CreateFibUpdatesForErasedRibEntry | rib/fib-updater.cpp:629-635 | a removal for every recorded inherited route |
| FibUpdaters.FibUpdater.ComputeUpdatesForRegistration | rib/fib-updater.cpp:94-145 | a registration emits exactly the log whose effect `StepExact` states |
| FibUpdaters.FibUpdater.ComputeUpdatesForUnregistration | rib/fib-updater.cpp:147-188 | and so does an unregistration |
| FibUpdaters.FibUpdater.ComputeUpdates | rib/fib-updater.cpp:49-92 | leaves lists and records of this batch alone; a destroyed face's own list is emptied; false exactly where a null route would be dereferenced |
| FibUpdaters.FibUpdater.OnUpdateSuccess | rib/fib-updater.cpp:263-282 | the next lists, commands and callbacks are those of the machine's step on a success |
| FibUpdaters.FibUpdater.OnUpdateError | rib/fib-updater.cpp:284-311 | and on a timeout, a refusal and any other error |
| FibSending.StepKeeps | rib/fib-updater.cpp:263-311 | every reply keeps the account of lists, commands on their way, transmissions and callbacks |
| FibSending.TwoPhaseSend | rib/fib-updater.cpp:190-311 | for every interleaving: no other face's command before the batch's face is done; success exactly when all succeeded or were refused as allowed, alone and once; failure exactly on a refusal for the batch's face; at most 11 transmissions each; never stuck, and a bound on the replies |
| FibSending.SentFibExact | rib/fib-updater.cpp:234-311 | after success the FIB is as intended on live faces if and only if no removal for one of them timed out |
| FibSending.RefusedFib | rib/fib-updater.cpp:284-311 | after a failure nothing has changed on other faces |
| FibSending.LateReply | rib/fib-updater.cpp:263-311 | a reply that comes after its batch failed, of any kind, at any moment of the batch that follows, with the same face or another: exactly which callback of the failed batch it makes, while that batch's commands stay on their way |
| FibSending.LateLaunch | rib/fib-updater.cpp:263-282 | such a success for the same face also sends the following batch's updates for other faces exactly when all its other own updates have succeeded |
| FibExchange.ExchangeKeepsInv | rib/rib.cpp:376-449 | one batch end to end, for all replies: success keeps the FIB exact if and only if no removal for a live face timed out; failure keeps it with the batch's face in doubt |
| BatchHistory.DoneKeepsInv | rib/rib.cpp:407-449 | an ended batch, which failed or is of the domain, keeps the invariant if and only if it failed or had no removal for a live face timed out |
| BatchHistory.HistoryKeepsInv | rib/rib.cpp:376-449 | after any history of such batches the FIB holds the effective next hops |
| BatchHistory.FailsExactly | rib/rib.cpp:451-471 | whether an assertion on the records fails does not depend on the order of relinking |
| BatchHistory.DomainApplies | rib/rib.cpp:407-435 | for a batch of the domain none does |
| BatchHistory.DeadAreGone | rib/rib.cpp:376-449 | the faces in doubt are those destroyed, refused or failed along the history |
| UpdateQueues.UpdateQueue.FibIsRight | rib/rib.cpp:376-449 | between two batches the RIB's effective next hops are in the FIB on every face not in doubt, as long as every ended batch was good; a crash in a batch of the domain is then an exception |
| UpdateQueues.UpdateQueue.BeginApplyUpdate | rib/rib.cpp:337-347 | the update is queued last, and the queue's invariant is kept |
| UpdateQueues.UpdateQueue.BeginRemoveFace | rib/rib.cpp:349-362 | the removals queued are those of the routes found, in order and as often as the face index lists their entry, and they are exactly those of the routes on the face |
| UpdateQueues.UpdateQueue.SendBatchFromQueue | rib/rib.cpp:376-404 | starts batches in order, one at a time; batches with nothing to send end at once, and that recursion ends |
| UpdateQueues.UpdateQueue.OnFibUpdateSuccess | rib/rib.cpp:407-435 | if an assertion on the batch's records fails, the queue stops there; otherwise the history gains the batch with its replies as succeeded, and the queue moves on |
| UpdateQueues.UpdateQueue.OnFibUpdateFailure | rib/rib.cpp:437-449 | the history gains the batch as failed, which leaves the table, and the queue moves on |
| UpdateQueues.UpdateQueue.Reply | rib/fib-updater.cpp:263-311 | any reply to any command on its way keeps queue order, at most one batch in progress and the RIB as what the history left; the history gains the batch as the callback that the reply makes says, a success exactly when the assertions on its records hold, and the queue stops exactly on an exception or a failing assertion |
| UpdateQueues.UpdateQueue.LateFailure | rib/rib.cpp:437-449 | the failure callback of a batch that already failed frees the queue while the batch in progress has commands on their way |
| UpdateQueues.UpdateQueue.LateSuccess | rib/rib.cpp:407-435 | its success callback applies the failed batch's update with the records of the batch in progress, stops exactly when an assertion on these fails, and otherwise frees the queue |
| Tlv.VarNumberRoundTrip | daemon/face/ndnlp-slicer.cpp:43-85 | reading a variable-size number gives it back and takes exactly its bytes |
| Tlv.IntegerRoundTrip | daemon/face/ndnlp-data.cpp:72-93 | reading a non-negative integer gives it back |
| Tlv.EncodeRoundTrip | daemon/face/stream-face.hpp:264-270 | an element is read back from the front of any bytes that follow |
| Tlv.FromBufferPrefix | daemon/face/stream-face.hpp:264-270 | bytes behind an element do not change how it is read |
| NdnlpCodec.EncodeFragment | daemon/face/ndnlp-slicer.cpp:43-85 | prepending back to front builds the fragment, and the lengths added up are its size |
| NdnlpCodec.FragmentRoundTrip | daemon/face/ndnlp-data.cpp:31-105 | the parser returns sequence number, index, count and payload of every encoded fragment, in both forms |
| NdnlpCodec.AcceptedInRange | daemon/face/ndnlp-data.cpp:70-103 | whatever the parser accepts has its index below its count |
| NdnlpSlicer.SequenceGenerator.NextBlock | daemon/face/ndnlp-sequence-generator.cpp:40-46 | a block of consecutive numbers, and the 64-bit counter moves past it |
| NdnlpSlicer.Slicer.constructor | daemon/face/ndnlp-slicer.cpp:87-100 | the maximum payload is the MTU less the largest header, in wrapping arithmetic |
| NdnlpSlicer.Slicer.Slice | daemon/face/ndnlp-slicer.cpp:102-132 | the encoded fragments of the packet under the next sequence numbers, or the check on the size fails exactly when one is too large, which it never is under an MTU above the overhead; an MTU equal to it makes the code divide by zero |
| NdnlpSlicer.MtuBound | daemon/face/ndnlp-slicer.cpp:87-132 | with an MTU above the overhead no fragment of any packet exceeds it, also where the count is cut to 16 bits |
| NdnlpSlicer.Threshold | daemon/face/ndnlp-slicer.cpp:87-100 | the overhead exceeds an MTU below 22, equals one of 22, and is less than any larger one |
| NdnlpSlicer.MtuTooSmall | daemon/face/ndnlp-slicer.cpp:98-99 | with an MTU below the overhead a packet leaves whole, and its fragment keeps to the MTU if and only if 14 bytes more than the packet do |
| NdnlpSlicer.CoverExact | daemon/face/ndnlp-slicer.cpp:109-125 | the payloads join to the packet if and only if the ceiling of the quotient fits the 16 bits of the count |
| NdnlpReassembly.AddKeepsOk | daemon/face/ndnlp-partial-message-store.cpp:40-61 | counters and total length stay exact whatever fragments come |
| NdnlpReassembly.PartialMessage.Add | daemon/face/ndnlp-partial-message-store.cpp:40-61 | the first fragment fixes the count; a mismatch or a duplicate is not added |
| NdnlpReassembly.PartialMessage.Reassemble | daemon/face/ndnlp-partial-message-store.cpp:69-83 | the copy fills the buffer exactly and delivers the first element of the joined payloads |
| NdnlpReassembly.PartialMessageStore.ReceiveFragment | daemon/face/ndnlp-partial-message-store.cpp:102-134 | the store with the fragment added and its cleanup put off, and what is delivered |
| NdnlpReassembly.PartialMessageStore.Cleanup | daemon/face/ndnlp-partial-message-store.cpp:144-149 | the message is dropped and no other |
| NdnlpRuns.StartsApart | daemon/face/ndnlp-sequence-generator.cpp:40-46 | blocks of one slicer do not overlap |
| NdnlpRuns.DeliversExactly | daemon/face/ndnlp-partial-message-store.cpp:102-149 | in every run a fragment's arrival delivers its own packet exactly when it completes the fragments gathered since the last delivery or cleanup, and otherwise nothing: never a mix |
| NdnlpRuns.AllArriveDelivers | daemon/face/ndnlp-partial-message-store.cpp:102-149 | a message whose fragments all arrive without a cleanup of it in between is delivered |
| NdnlpRuns.ArrivesAsSent | daemon/face/ndnlp-data.cpp:31-105 | what the store receives from the wire is the fragment that was sent, whatever padding follows |
| NdnlpRuns.SlicedIsSent | daemon/face/ndnlp-slicer.cpp:102-132 | packets cut by one slicer are messages in consecutive blocks that join to the packets |
| StreamFaces.StreamFace.HandleReceive | daemon/face/stream-face.hpp:252-311 | dispatches the elements at the front of buffer and chunk in order, keeps the unparsed rest at the buffer's front, shuts down only on a full buffer without an element; an open face has room again |
| StreamFaces.ElementsConcat | daemon/face/stream-face.hpp:264-282 | more bytes extend the elements read and change none |
| StreamFaces.ChunkingIrrelevant | daemon/face/stream-face.hpp:252-311 | however a stream is cut, the same elements are dispatched and the same rest is kept |
| StreamFaces.StaysOpenExactly | daemon/face/stream-face.hpp:284-291 | a face stays open if and only if no element and no unfinished rest outgrows the buffer |
| StreamFaces.StreamOfElements | daemon/face/stream-face.hpp:252-311 | a stream of elements no larger than the buffer is dispatched as sent, cut in any way |
| Forwarders.UpdatedIs | daemon/table/pit-entry.cpp:130-142 | after an update the face has exactly the new record and every other face its own |
| Forwarders.PickInterest | daemon/fw/forwarder.cpp:196-222 | the loop over a candidate picks a record of another face if there is one, and among those the one renewed first |
| Forwarders.HoldingPut | daemon/fw/forwarder.cpp:143-163 | how one changed entry changes the number of entries waiting for a face |
| Forwarders.Forwarder.OnIncomingInterest | daemon/fw/forwarder.cpp:63-141 | keeps flow balance and timers; a scope violation changes nothing, a nonce seen before at most adds a bare entry; otherwise the Interest is answered once from the content store or leaves an in-record with a timer armed and the out-records of what the strategy does, and no other entry changes; the entry is left without a timer exactly by a loop at an entry that has none and by a hit in the bridge, and every other such entry stays |
| Forwarders.IdleRun | daemon/fw/forwarder.cpp:63-141 | an entry without a timer stays over any run until a matching Data or an Interest that is no loop, nor in the bridge a hit, comes for it |
| Forwarders.Forwarder.ActionsLeave | daemon/fw/forwarder.cpp:223-278 | after all the strategy does there is an out-record on exactly the faces that had one or that the Interest went to, and the entry is given up exactly if it is rejected before anything is out |
| Forwarders.Forwarder.OnContentStoreMiss | daemon/fw/forwarder.cpp:143-163 | one in-record for the face, the unsatisfy timer at the latest expiry, and then what the strategy's actions make of the entry |
| Forwarders.Forwarder.OnContentStoreHit | daemon/fw/forwarder.cpp:165-185 | the Data goes to the downstream once; the straggler timer is armed, except in the bridge |
| Forwarders.Forwarder.OnOutgoingInterest | daemon/fw/forwarder.cpp:223-261 | the out-record is that of the picked Interest, and there is one to pick |
| Forwarders.Forwarder.OnInterestReject | daemon/fw/forwarder.cpp:263-278 | swaps the unsatisfy timer for the straggler timer unless an Interest is still out |
| Forwarders.Forwarder.LastExpiry | daemon/fw/forwarder.cpp:465-482 | the unsatisfy timer fires at the latest expiry |
| Forwarders.Forwarder.OnIncomingData | daemon/fw/forwarder.cpp:309-413 | every face waiting in a matching entry gets one copy, the Data's own face none; the matching entries lose their in-records and wait for stragglers; no other entry changes; exactly the nonces that went out to the Data's face for a quickly stale Data are remembered |
| Forwarders.Forwarder.InsertDeadNonces | daemon/fw/forwarder.cpp:509-544 | exactly the nonces that must not come back are remembered, by name |
| Forwarders.Forwarder.FireUnsatisfy | daemon/fw/forwarder.cpp:280-307 | the unsatisfied pipeline runs only for in-records no Data consumed, all of which have expired, and remembers exactly the nonces that went out |
| Forwarders.Forwarder.FireStraggler | daemon/fw/forwarder.cpp:484-493 | the entry goes, its unsatisfy timer was not armed, and exactly the nonces needed are remembered |
| BestRoute.FindIf | daemon/fw/best-route-strategy2.cpp:47-73 | the first next hop that is eligible, and not in use if that is wanted |
| BestRoute.FindEarliest | daemon/fw/best-route-strategy2.cpp:75-96 | the eligible next hop used earliest, the first in the list among equals |
| BestRoute.EarliestIsLeast | daemon/fw/best-route-strategy2.cpp:75-96 | no eligible next hop was used before the one found |
| BestRoute.GetLastOutgoing | daemon/fw/retx-suppression.cpp:31-43 | the time of the latest transmission |
| BestRoute.IntervalIs | daemon/fw/retx-suppression-exponential.cpp:71-94 | after n forwarded retransmissions the interval is at most the least of the maximum and the initial interval times the n-th power of the multiplier, and is just that up to n exactly if these are whole numbers |
| BestRoute.WholeMultiplier | daemon/fw/retx-suppression-exponential.cpp:32-35 | with a whole multiplier, as the default is, it always is |
| BestRoute.DefaultIntervals | daemon/fw/retx-suppression-exponential.cpp:31-35 | with the default parameters the interval is 1 ms doubled up to 250 ms |
| BestRoute.ScaledIsPower | daemon/fw/retx-suppression-exponential.cpp:91-92 | multiplying again and again is multiplying by the power |
| BestRoute.PitEntry.Decide | daemon/fw/retx-suppression-exponential.cpp:71-94 | new exactly when nothing is out; forwarded exactly when the last transmission is at least the interval ago, and then the interval grows |
| BestRoute.PitEntry.AfterReceiveInterest | daemon/fw/best-route-strategy2.cpp:98-157 | where the Interest goes, and that every eligible next hop has an out-record when the earliest is sought |
| BestRoute.RetransmissionsCycle | daemon/fw/best-route-strategy2.cpp:98-157 | over every run in which no out-record expires the i-th Interest goes to the (i mod k)-th eligible next hop, at least the interval of that moment after the one before |
| BestRoute.CycleWithinLifetime | daemon/fw/best-route-strategy2.cpp:98-157 | the same for all Interests that outlast the last of them, each by its own lifetime |
| Networks.ByteRange | core/network.cpp:96-109 | for a mask of leading ones, lying between the two bytes is agreeing under the mask |
| Networks.MaskedBits | core/network.cpp:96-109 | agreeing under a mask of k leading ones is agreeing on the first k bits |
| Networks.BuildMask | core/network.cpp:88-94 | setting bits one by one gives each byte the leading ones that fall to it, and leaves the array exactly when there are more ones than bits |
| Networks.Read | core/network.cpp:65-131 | the ends of the range are the address with the bits behind the prefix cleared and set; without a prefix length both are the address; a prefix length above the number of bits leaves the array of mask bytes and is a failure |
| Networks.ContainsMeansPrefix | core/network.hpp:52-56 | an address is in the range if and only if it agrees on the first prefix-length bits |
| Segments.Publish | core/segment-publisher.hpp:72-107 | the loop cuts the buffer into numbered segments; an empty buffer is one |
| Segments.Fetch | rib/rib-manager.cpp:663-681 | fetching on until the final block id collects the contents, and ends |
| Segments.CutNumbers | core/segment-publisher.hpp:89-104 | the k-th segment is numbered k, is at most half a packet, and only the last carries the final block id |
| Segments.SegmentRoundTrip | rib/rib-manager.cpp:663-681 | what is fetched is the buffer that was published, for every buffer |

## Left out

- Refinement over whole runs with several routes per name: the code does not keep it there (`FibFailures.SecondRouteBreaks`); `FibSecondRoute.SecondRouteExact` decides the step that adds the second route, and the computation, the tree, the face index and the queue are modelled for any number.
- Route expiration: the `expires` field and its scheduled event; an expired route enters the queue as an unregistration.
- RibModel.SecondLowestCost: among equal costs the model ranks in list order, where the library's selection leaves the order open.
- FibSending.TwoPhaseSend: replies of a failed batch that come after the next batch has started; `LateReply` states what one does in the updater, `LateFailure` and `LateSuccess` what its callback does in the queue; in the queue's runs each batch makes one terminal callback.
- FibSending.SentFibExact: a timed-out command is applied, if at all, when the timeout is reported, not later than its retry.
- Codec functions of the NDN library are not in the repository: elements, numbers and the wire format follow the packet format specification.
- Networks.Read: parsing the text of an address; what the code's unchecked write behind its array does.
- BestRoute.Grown: the rounding of floating-point products; multiplying is any function that keeps the order and shrinks nothing, as multiplying by a number of at least 1 does.
- BestRoute.RetransmissionsCycle: runs in which an out-record expires, after which the strategy starts over.
- The send queue of the stream face: packets wait in a queue and leave in order.
- Data the forwarder did not ask for, the content store, the strategy table and the measurements: answers of these tables are parameters.
- The bridge strategy's choice of faces, and the names it sets on packets.
- Sockets, channels, factories, signing, validators, command dispatch, configuration, logging, status publishers, tools, and the simulator's packet tags and delay callbacks: input and output around the cores.
- PITless forwarding, the NCC and access strategies, the RTT estimator and the hash function: no property here depends on them.
