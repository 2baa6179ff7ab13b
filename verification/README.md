# rocket_surgeon, verified

A model in Dafny of the parts of rocket_surgeon where a mistake would be hard to see: the
handoff between the model's forward pass and the step loop, the shared-memory ring that carries
tensors, the checkpoint arena with its spill file, the "did you mean" ranking, and the
printer/parser pairs around them. `dafny verify dfyconfig.toml` checks everything.

## What is modelled

**Stepping a forward pass.** `StepLoop` gives `run_step_loop` as a function of the forward pass it
drives; a pass is adaptive, so what a hook emits may depend on the replies before it. `StepLaws`
and `StepEffects` say what a request does over all passes, probe tables and requests (which hooks it
consumes, where it stops, its clock, outputs, replies and events), `StepSplit` when two requests do
what one does. `StepWorker` and `TickState` are the loop itself, on mutable state, proved to
compute that function. `Barrier` puts the model thread and the worker side by side: two lock
mailboxes, every lock operation and every access to a value cell its own step, free interleaving.
Its main result is that the interleaving cannot be seen: every run gives the state and responses of
the sequential function, ends within a known number of steps, and gets stuck only when every request
has been answered. `SessionLaws` adds what the clock says over whole sessions.

**DOOMRING.** `RingConfig` and `ProbeFrame` are the slot arithmetic and the frame header.
`RingProtocol` interleaves one producer and one consumer down to single byte copies and proves the
ring to be a queue; `RingDelivery` ties what comes out to what the producer was asked to publish.
`ShmSession` is the daemon's and the worker's use of it over any run of inspect requests, on a real
byte array, and `ShmRequests` says what a request reads, answers, stores and loses.

**The checkpoint arena.** `Arena` is the allocator on values, with the invariant that survives every
run of operations; `ArenaRuns` tells what a run comes to from its operations alone, and
`ArenaShadows` the slots it leaves owned but unfindable. `SlotFormat` and `SpillFile` are the binary
formats and the round trip through a file, `SpillLaws` is loading any file at all, and `ArenaObject` is the arena as
the mutable object it is, one flat mapping of bytes included, each method proved equal to its
counterpart on values.

**Text and wire.** `EditDistance` and `NearestComponents`; `Grammar`, `ProbePoint` and `Registry` for
probe points; `Framing` for Content-Length messages; `Varint` for trace packets;
`CheckpointLayers` for where checkpoints go. `Prelude`, `Bits` and `Sorting` are shared ground.

## What turned out differently from what one might expect

- Stepping `a` then `b` is not always one step over both. When the first request stops short of the
  end of the pass, the two differ exactly if an intervention fires on the hook where it stops: its
  tensor is computed, but the resumed hook is released with nothing (`StepSplit.InterventionLost`
  is the smallest case). When the first request runs the pass to its end, one step over both leaves
  just what it left, while the second request starts another pass, so that the two differ whenever
  it stops within that pass (`StepSplit.StepsPastEnd` is the smallest case). `StepSplit.SplitStep`
  gives the exact condition for all requests, at every granularity.
- A step count of zero acts as one, at either granularity (`StepLaws.ComponentStepCount`,
  `StepLaws.LayerStepCount`).
- A layer step of `n` crosses `n + 1` layer changes and has already consumed the first hook of the
  layer it stops in (`StepLaws.LayerStepCount`).
- An inspect request that does not go through (a conversion fails, the daemon refuses it, or a
  dtype is unknown) leaves the ring slots it took unclaimed. They are never recovered within the
  attach, and once they fill the ring every tensor goes inline. `ShmSession.Attach.Inspect` gives
  the number, `ShmRequests.LosesSlots` says exactly when it is positive, `ShmRequests.LossIsSum` adds
  it up over a run, and `ShmSession.UnknownDtypeLoses` is one such call.
- A message over 16 MiB is written without complaint and then refused by the reader, which leaves
  the body in the stream: the next read takes it for headers (`Framing.ReadBack`,
  `Framing.ReadLeaves`).
- Allocating a (checkpoint, layer) twice leaves the older slot owned, and found by nobody, until
  the checkpoint is freed (`ArenaShadows.Shadows`). After any run this is so exactly of the
  checkpoints with a layer taken twice since they were last freed (`ArenaShadows.ShadowsOfRun`;
  `ArenaShadows.TwiceShadows` is the smallest run). Spilling drops such a slot
  (`ArenaShadows.ShadowedUnlisted`).
- The token clock never passes one: the request after a completed pass starts over
  (`SessionLaws.SessionTells`).
- A slot header may claim more bytes than the slot holds; spilling then cuts the payload to the
  slot, and that is what comes back (`SpillFile.SpillThenLoad`).

## Model

| member | source | states |
|---|---|---|
| Barrier.RunInv | python/rocket_surgeon/hooks/mailbox.py:36-63 | every state of every run keeps the handoff invariant: which lock and cell contents go with which pair of program counters, and what was sent, received and answered so far |
| Barrier.RunsAreSequential | crates/rocket-surgeon-worker/src/dispatch.rs:767-852 | under every interleaving, whenever the worker is between requests its state and all its responses are those of serving the requests one by one with no thread |
| Barrier.MessagesExact | python/rocket_surgeon/bridge.py:320-336 | what the thread put and what the worker's waits returned are both prefixes of the pass's own trace, at most one apart: nothing lost, duplicated, reordered or made up |
| Barrier.RepliesExact | python/rocket_surgeon/bridge.py:328-334 | the hooks return with exactly the replies the worker put for them, in order, and the reply being picked up is the one for that hook |
| Barrier.CellsNeverClobbered | python/rocket_surgeon/hooks/mailbox.py:41-63 | `put` never overwrites and `restore` never erases an unread value, `put` always finds the lock held, and `wait` never returns an empty result |
| Barrier.RunsEnd | crates/rocket-surgeon-worker/src/dispatch.rs:777-852 | the step number plus the work left is bounded: at most `13 * limit + 14` steps per request, so no run goes on for ever |
| Barrier.StuckOnlyWhenServed | python/rocket_surgeon/hooks/mailbox.py:41-55 | no deadlock: a state in which neither thread can move has every request answered, and answered as the sequential function answers it |
| StepLoop.OnMessage | crates/rocket-surgeon-worker/src/dispatch.rs:778-851 | one pass of the loop completes exactly on the sentinel, and adds one reply exactly when it goes on |
| StepLoop.Intervention | crates/rocket-surgeon-worker/src/dispatch.rs:633-728 | an intervention is applied exactly when the hook has an output and some recipe fires on it, and gives the tensor and the list the recipes give |
| StepLaws.ConsumesNextHooks | crates/rocket-surgeon-worker/src/dispatch.rs:752-852 | a request consumes the next hooks of its pass, each once and in order, starting behind the parked one; it stops parked on the last, or consumes all and then the sentinel |
| StepLaws.ComponentStepCount | crates/rocket-surgeon-worker/src/dispatch.rs:839-844 | below layer granularity a stopped request has taken exactly `max(count, 1)` hooks, a completed one fewer |
| StepLaws.LayerStepCount | crates/rocket-surgeon-worker/src/dispatch.rs:828-838 | a layer step stops on the hook that makes the `max(count, 1) + 1`st layer change since its start, so on the first hook of a layer, or the pass had no more than `max(count, 1)` changes left |
| StepLaws.ClocksFollowTicks | crates/rocket-surgeon-worker/src/tick.rs:54-74 | the clock after a request, field by field: the layer, component and call of the last hook consumed, operator and step count moved by the number of hooks, hooks numbered without gaps; finishing the pass moves the token clock by one, restarts the operator clock and ends the prefill |
| StepLaws.StopPosition | crates/rocket-surgeon-worker/src/dispatch.rs:793-808 | the position a stopped request reports is that of the hook the model is parked at: its call index, and the canonical name and layer the component table gives it, layer 0 if it has none, or the raw path and 0 for a module not in the table |
| StepLaws.EventsWithinBudget | crates/rocket-surgeon-worker/src/dispatch.rs:810-823 | a response's events are the first `max_events` of the unbudgeted (tick, matching probe) sequence, and the truncated flag is set exactly when that sequence is longer |
| StepEffects.EventsOfTick | crates/rocket-surgeon-worker/src/dispatch.rs:437-471 | one event for each probe whose every field is a wildcard or what the tick has there, in table order, at the concrete point of the tick and with its number |
| StepEffects.OutputsExact | crates/rocket-surgeon-worker/src/dispatch.rs:542-569 | after a request every call it consumed has its last output stored; what was stored before stays for a parked pass and is dropped for a new one |
| StepEffects.RepliesExact | crates/rocket-surgeon-worker/src/dispatch.rs:846-851 | every hook a request goes on from is released with the tensor of the recipes that fire on it, or with nothing, a parked one first with nothing; the response lists the recipes that fired, in order |
| StepSplit.SplitStepSame | crates/rocket-surgeon-worker/src/dispatch.rs:767-769 | when no intervention fires at the stop, stepping twice and stepping once over all of it give the same worker, position and completion flag, the fired lists joined and the consumed hooks joined |
| StepSplit.SplitStep | crates/rocket-surgeon-worker/src/dispatch.rs:731-874 | for all requests, at every granularity: stepping `a` then `b` leaves the same worker (clocks, stored outputs, pass position, every reply) as one step of `max(a, 1) + max(b, 1)`, plus one by layers, if and only if the first request stops on a hook where no intervention fires, or runs to the end, leaves what a whole pass leaves, and `b` reaches the end of a pass too |
| StepSplit.JoinedEnds | crates/rocket-surgeon-worker/src/dispatch.rs:777-793 | when the first request runs the pass to its end, one step over both leaves exactly its worker |
| StepSplit.SecondPass | crates/rocket-surgeon-worker/src/dispatch.rs:739-753 | a request after a completed pass leaves the worker as it was if and only if its count reaches the end of a whole pass and that is what a whole pass leaves |
| StepSplit.EndReached | crates/rocket-surgeon-worker/src/dispatch.rs:828-844 | a request from the start of a pass runs to its end if and only if the pass has fewer hooks, or by layers no more layer changes, than `max(count, 1)` |
| StepSplit.JoinedReply | crates/rocket-surgeon-worker/src/dispatch.rs:846-851 | in one step, the hook where the shorter request would stop is released with its intervention's tensor |
| StepSplit.SplitReply | crates/rocket-surgeon-worker/src/dispatch.rs:767-769 | in two steps, it is released with nothing |
| StepSplit.InterventionLost | crates/rocket-surgeon-worker/src/dispatch.rs:846-851 | the smallest case where they differ: two hooks with outputs, calls numbered as the hook closure numbers them, a recipe firing on the first; in one step the model sees the new tensor, one tick at a time it does not |
| StepSplit.StepsPastEnd | crates/rocket-surgeon-worker/src/dispatch.rs:739-753 | without any intervention: a pass of one hook, stepped by two and then by one, against one step of three |
| SessionLaws.SessionTells | crates/rocket-surgeon-worker/src/dispatch.rs:739-750 | over any series of requests, in the worker and in every response, the token clock is one and the phase decode exactly after a completed pass, and zero and prefill otherwise |
| SessionLaws.RunTells | crates/rocket-surgeon-worker/src/tick.rs:67-74 | so it is in every interleaved run, whenever the worker is between requests |
| StepWorker.EvaluateProbes | crates/rocket-surgeon-worker/src/dispatch.rs:437-471 | the loop with its early break returns the first `budget` events of the tick, and whether there were more |
| StepWorker.WorkerState.TakeHook | crates/rocket-surgeon-worker/src/dispatch.rs:781-823 | stashing the output, resolving the component, advancing the clock and firing probes, on the mutable state, is the observation step of the loop function |
| StepWorker.WorkerState.CountTick | crates/rocket-surgeon-worker/src/dispatch.rs:828-844 | the counters after the granularity test and whether the loop breaks, for both granularities |
| StepWorker.WorkerState.Drain | crates/rocket-surgeon-worker/src/dispatch.rs:777-852 | the loop ends, for every adaptive pass, in the verdict, state, replies, events and fired list of the recursive loop function |
| StepWorker.WorkerState.RunStepLoop | crates/rocket-surgeon-worker/src/dispatch.rs:731-874 | the response and the worker's whole new state are those of the sequential function, dropped passes and token clock included |
| TickClock.TickState.constructor | crates/rocket-surgeon-worker/src/tick.rs:35-52 | a new clock is at zero, in prefill |
| TickClock.TickState.Advance | crates/rocket-surgeon-worker/src/tick.rs:54-65 | the whole new clock state after a hook |
| TickClock.TickState.AdvanceToken | crates/rocket-surgeon-worker/src/tick.rs:67-74 | the whole new clock state after a token: prefill becomes decode, other phases stay |
| RingConfig.NewAccepts | crates/rocket-surgeon-shm/src/lib.rs:100-122 | a configuration is accepted if and only if the slot count is a power of two, a slot holds the 128-byte header and the region with its 4096-byte control block fits 64 bits; the error for a slot count is given exactly when that is not a power of two |
| RingConfig.SlotInRegion | crates/rocket-surgeon-shm/src/lib.rs:124-131 | the and-mask slot index is the remainder by the slot count, and the slot lies between the control block and the region end |
| RingConfig.SlotsDisjoint | crates/rocket-surgeon-shm/src/lib.rs:128-131 | cursors less than the capacity apart have slots that share no byte |
| Bits.MaskIsMod | crates/rocket-surgeon-shm/src/lib.rs:128-130 | and-ing with a power of two less one is the remainder |
| Bits.PowerOfTwoTest | crates/rocket-surgeon-shm/src/lib.rs:101-103 | `n & (n - 1)` is zero exactly for powers of two |
| ProbeFrame.HeaderFields | crates/rocket-surgeon-shm/src/lib.rs:144-178 | the size and generation the consumer reads out of a header are the ones put in, whatever the other fields are |
| ProbeFrame.HeaderRoundTrip | crates/rocket-surgeon-shm/src/lib.rs:23-34 | every field of a header can be read back at its published offset |
| ProbeFrame.FrameLayout | crates/rocket-surgeon-shm/src/lib.rs:144-178 | size at 64, generation at 76 and the eight dimensions from 12 on, four bytes each, in 128 bytes that are otherwise zero behind the fields |
| ProbeFrame.SerializeProbeFrame | crates/rocket-surgeon-shm/src/lib.rs:144-178 | filling the buffer field by field gives the 128-byte header |
| RingProtocol.StepKeeps | crates/rocket-surgeon-shm/src/ring.rs:51-79 | every single step of either side, a half-done copy, a read by absolute offset and a bulk advance included, keeps the cursor order and the contents of all live slots |
| RingProtocol.RingIsQueue | crates/rocket-surgeon-shm/src/ring.rs:157-239 | in every interleaving the frames taken are a prefix of the frames published, byte for byte, consumed <= published <= consumed + capacity, and a read by absolute offset of a frame not advanced past returns its tensor |
| RingProtocol.NeitherSideFails | crates/rocket-surgeon-shm/src/ring.rs:168-196 | with the worker's headers the consumer never reports a stale slot or an oversized read, at any cursor value and so past every wrap of the generation, and neither side leaves the region |
| RingProtocol.WritesAvoidLiveSlots | crates/rocket-surgeon-shm/src/ring.rs:70-76 | a write in progress shares no byte with a published, unconsumed slot |
| RingDelivery.WorkerFrameCarries | crates/rocket-surgeon-worker/src/dispatch.rs:1064-1081 | the frame the worker builds has the tensor's bytes behind a header that reads back as its layer, its number of dimensions (at most eight) and those dimensions cut to 32 bits, its size and the cursor's generation, and zero elsewhere |
| RingDelivery.Delivered | crates/rocket-surgeon-shm/src/ring.rs:51-239 | in every interleaving the frames published carry exactly the tensors of the publish calls not refused, in order; the consumer has passed as many as it was told to; and what it gets back, either way it reads, is the tensor published at the cursor it asked for |
| RingDelivery.ProducerMoves | crates/rocket-surgeon-shm/src/ring.rs:51-79 | a publish that is not too large keeps its frame to the end and ends, and is given up exactly when the ring is full as the cursor is loaded |
| RingDelivery.ConsumerEnds | crates/rocket-surgeon-shm/src/ring.rs:157-196 | a consume or a read ends, and a consume comes back empty exactly when nothing is there |
| RingDelivery.NeverStuck | crates/rocket-surgeon-shm/src/ring.rs:51-239 | in every run each side can take its next step or make its next call, whatever the other is doing |
| ShmSession.DoomRing.Publish | crates/rocket-surgeon-shm/src/ring.rs:51-79 | refuses exactly a tensor too large or a full ring, and otherwise adds one frame without touching any live slot |
| ShmSession.DoomRing.ReadAbsolute | crates/rocket-surgeon-shm/src/ring.rs:235-239 | the bytes of the range, or a failure exactly when it leaves the region |
| ShmSession.DoomRing.AdvanceBy | crates/rocket-surgeon-shm/src/ring.rs:209-212 | moves the consumer cursor by the count; sound only for counts up to published minus consumed |
| ShmSession.Attach.Capture | crates/rocket-surgeon-worker/src/dispatch.rs:1046-1105 | a tensor goes through the ring exactly when it fits a slot and the ring is not full, in a frame that carries its bytes, layer and shape, and the returned entry locates its bytes; otherwise it goes inline |
| ShmSession.Attach.CollectTensors | crates/rocket-surgeon-worker/src/dispatch.rs:962-1044 | on every path the producer moves by exactly the tensors converted that fit a slot, up to the room left; on success the entries describe the tensors one for one, and which went through the ring is exact |
| ShmSession.Attach.ReadFromShm | crates/rocket-surgeon/src/dispatch.rs:518-528 | reading at the offset of a live slot returns exactly the published tensor bytes |
| ShmSession.Attach.IngestOne | crates/rocket-surgeon/src/dispatch.rs:617-698 | one entry: on success its id is in the store and its summary is of what is stored there; a tensor not known yet is stored with the published bytes, read from the ring if it went there; one already known is neither read nor stored; and the entry fails exactly for an unknown dtype, or an unopened ring it would have to read |
| ShmSession.Attach.Ingest | crates/rocket-surgeon/src/dispatch.rs:604-708 | answer, reads and store are those of `ShmRequests.Ingested`, and the bulk advance is exactly the ring's share of this request, so never past the producer, dedup hits and early errors included |
| ShmSession.Attach.Inspect | crates/rocket-surgeon/src/dispatch.rs:546-708 | one request end to end: answer, reads and store are those of `ShmRequests.Inspected`; cursors and store stay sound on every path, the slots taken and the slots left unclaimed are given by the request and the state before it, after an Ok the last tensor is in the store, and with an open consumer it succeeds exactly when it goes through |
| ShmSession.Attach.Serve | crates/rocket-surgeon/src/dispatch.rs:699-708 | over any run the replies, the store and the unclaimed slots are those of serving the requests one by one on values; the loss is the sum of what the failed requests fit, up to the whole ring, and a full ring is never used again |
| ShmRequests.InspectedHolds | crates/rocket-surgeon/src/dispatch.rs:604-708 | what a reply says in terms of the tensors alone: a request that goes through leaves its last tensor in the store, each summary is of data with the tensor's hash, nothing comes to the store but the request's own tensors, and nothing is read from the ring that was stored already |
| ShmRequests.StoreExact | crates/rocket-surgeon/src/dispatch.rs:631-698 | after any number of entries the last one is in the store, whatever is there was there before with the same bytes or is one of the tensors under its hash, and what no eviction touches stays |
| ShmRequests.ReadsExact | crates/rocket-surgeon/src/dispatch.rs:645-656 | a tensor is read from the ring if and only if it went there and its id was not in the store at its turn |
| ShmRequests.ReadsInOrder | crates/rocket-surgeon/src/dispatch.rs:617-656 | the reads go through the tensors in order, so none is read twice |
| ShmRequests.EndExact | crates/rocket-surgeon/src/dispatch.rs:617-666 | a request ends at the first tensor of an unknown dtype, or the first in a ring the daemon could not open and not in its store, and the error tells which |
| ShmRequests.RunStores | crates/rocket-surgeon/src/dispatch.rs:604-708 | whatever the store holds after a run it held before with the same bytes, or it is a tensor of one of the requests |
| ShmRequests.LosesSlots | crates/rocket-surgeon/src/dispatch.rs:617-708 | with an open consumer a request loses slots if and only if it does not go through, the ring is not full, and a tensor converted before the failure fits a slot |
| ShmRequests.LossIsSum | crates/rocket-surgeon/src/dispatch.rs:699-708 | the loss of a run is the sum over its failed requests of the tensors that fit, up to the whole ring |
| ShmSession.UnknownDtypeLoses | crates/rocket-surgeon/src/dispatch.rs:617-627 | one tensor of an unknown dtype through a fresh ring: one slot is gone |
| EditDistance.EditDistance | crates/rocket-surgeon/src/dispatch.rs:159-173 | the two swapped rows compute the recursive Levenshtein distance |
| EditDistance.DistanceIsShortest | crates/rocket-surgeon/src/dispatch.rs:159-173 | the distance is the length of a shortest chain of single insertions, deletions and substitutions |
| EditDistance.ChainsAreLongEnough | crates/rocket-surgeon/src/dispatch.rs:159-173 | no chain of single edits is shorter than the distance |
| EditDistance.ShortestChain | crates/rocket-surgeon/src/dispatch.rs:159-173 | constructs a chain exactly as long as the distance |
| EditDistance.ZeroIffEqual | crates/rocket-surgeon/src/dispatch.rs:159-173 | zero exactly on equal strings |
| EditDistance.Symmetric | crates/rocket-surgeon/src/dispatch.rs:159-173 | symmetric |
| EditDistance.Triangle | crates/rocket-surgeon/src/dispatch.rs:159-173 | the triangle inequality |
| NearestComponents.NearestHolds | crates/rocket-surgeon/src/dispatch.rs:187-207 | suggestions are one to five words in rank order headed by a best match, and a word is left off only for being over two edits worse or because five others rank before it |
| NearestComponents.LexIsDictionary | crates/rocket-surgeon/src/dispatch.rs:191-207 | the order of ties is dictionary order: a beginning before the whole, and else the first difference decides |
| NearestComponents.NearestDistinct | crates/rocket-surgeon/src/dispatch.rs:191-207 | no word is suggested twice |
| NearestComponents.ExactMatchFirst | crates/rocket-surgeon/src/dispatch.rs:191-207 | a word of the vocabulary is its own first suggestion |
| NearestComponents.ComponentsSuggested | crates/rocket-surgeon/src/dispatch.rs:128-207 | for the actual component list: always a suggestion, ranked and cut as said, never one twice, and an exact match first |
| Arenas.AfterRun | crates/rocket-surgeon-worker/src/checkpoint.rs:200-301 | after any run of allocations, frees, rollbacks and slot writes the free list and the owned slots partition the arena, and the index is injective into slots its own checkpoint owns, whatever stale descriptors say |
| Arenas.AllocKeeps | crates/rocket-surgeon-worker/src/checkpoint.rs:200-250 | allocation keeps that invariant, also when it shadows an older slot of the same layer |
| Arenas.FreeKeeps | crates/rocket-surgeon-worker/src/checkpoint.rs:280-290 | freeing keeps it, for a known or an unknown id |
| Arenas.StoreKeeps | crates/rocket-surgeon-worker/src/checkpoint.rs:271-278 | writing inside one slot keeps it |
| ArenaRuns.RunCounts | crates/rocket-surgeon-worker/src/checkpoint.rs:200-290 | which allocations of a run are served, how many slots each checkpoint has and how many are free are functions of the operations alone |
| ArenaRuns.OrderOfRun | crates/rocket-surgeon-worker/src/checkpoint.rs:236-290 | after any run the list of checkpoints is exactly those that took a slot and were not freed since, each before all whose first allocation since they were last freed came later |
| ArenaRuns.ArrivalDecides | crates/rocket-surgeon-worker/src/checkpoint.rs:245-247 | no two lists are so, hence the operations decide the list |
| ArenaRuns.OldestOfRun | crates/rocket-surgeon-worker/src/checkpoint.rs:303-306 | the oldest checkpoint is the one that arrived first of those there are |
| ArenaRuns.FirstSlots | crates/rocket-surgeon-worker/src/checkpoint.rs:134-210 | a fresh arena hands out its slots from the first on |
| ArenaRuns.ReusesLast | crates/rocket-surgeon-worker/src/checkpoint.rs:280-290 | the next allocation after a free gets the last slot the freed checkpoint took |
| ArenaRuns.AllocThenGet | crates/rocket-surgeon-worker/src/checkpoint.rs:211-269 | a slot just allocated reads as an empty single-precision tensor of all the slot can hold, and no other layer changes |
| ArenaRuns.FreeThenGet | crates/rocket-surgeon-worker/src/checkpoint.rs:252-290 | a freed checkpoint's layers cannot be found, and every other layer stays as it is |
| ArenaRuns.StoreThenGet | crates/rocket-surgeon-worker/src/checkpoint.rs:252-278 | a header and data written to a layer's slot are what it says from then on, and no other layer changes |
| ArenaShadows.Shadows | crates/rocket-surgeon-worker/src/checkpoint.rs:230-244 | allocating a layer the index has leaves its old slot owned by the checkpoint, with no index entry leading there |
| ArenaShadows.AllocShadows | crates/rocket-surgeon-worker/src/checkpoint.rs:236-244 | none of a checkpoint's slots is shadowed after an allocation if and only if none was before and the allocation is not for a layer of it that the index has |
| ArenaShadows.FreeShadows | crates/rocket-surgeon-worker/src/checkpoint.rs:280-290 | freeing a checkpoint ends its shadows and changes no other's |
| ArenaShadows.IndexOfRun | crates/rocket-surgeon-worker/src/checkpoint.rs:236-288 | after any run the index holds exactly the layers taken and not freed since |
| ArenaShadows.ShadowsOfRun | crates/rocket-surgeon-worker/src/checkpoint.rs:200-290 | after any run a checkpoint has a shadowed slot if and only if one of its layers was taken twice since it was last freed |
| ArenaShadows.TwiceShadows | crates/rocket-surgeon-worker/src/checkpoint.rs:236-244 | the smallest such run |
| ArenaShadows.ShadowedUnlisted | crates/rocket-surgeon-worker/src/checkpoint.rs:329-354 | a shadowed slot is never listed, so never spilled |
| Arenas.SlotInfoExact | crates/rocket-surgeon-worker/src/checkpoint.rs:329-354 | the listing is exactly the layers `get_slot` can retrieve, each once, with the same slot and header |
| ArenaRuns.SlotInfoInOrder | crates/rocket-surgeon-worker/src/checkpoint.rs:329-354 | the listing goes through the checkpoint's slots in the order it took them |
| Arenas.SlotInfoOrderFree | crates/rocket-surgeon-worker/src/checkpoint.rs:334-353 | the listing does not depend on the hash map's iteration order |
| SlotFormat.HeaderRoundTrip | crates/rocket-surgeon-worker/src/checkpoint.rs:57-91 | a slot header read back from its 64 bytes is the one written |
| SlotFormat.HeaderLayout | crates/rocket-surgeon-worker/src/checkpoint.rs:57-68 | the header byte by byte: magic, dtype tag, number of dimensions, six dimensions of eight bytes, length |
| SlotFormat.EntryRoundTrip | crates/rocket-surgeon-worker/src/checkpoint.rs:389-427 | an index entry read back from its 80 bytes is the one written |
| SpillFile.AlignUpPads | crates/rocket-surgeon-worker/src/checkpoint.rs:93-95 | the bit mask of `align_up` gives the least multiple of 64 not below its argument |
| SpillFile.LoadAnywhere | crates/rocket-surgeon-worker/src/checkpoint.rs:510-592 | a spilled checkpoint loads into any arena with slots of that size, under any unused id, if and only if there are enough free slots; every layer then comes back with its dtype, ndim, shape, length and payload and none is added; with too few, as many as fit are loaded; either way every layer that was there keeps its slot and bytes |
| SpillFile.SpillThenLoad | crates/rocket-surgeon-worker/src/checkpoint.rs:429-592 | a spilled checkpoint always loads into the arena it came from, under its own or any unused id, with every layer restored, none added, and every other checkpoint's slots and bytes kept |
| SpillFile.SpillRefuses | crates/rocket-surgeon-worker/src/checkpoint.rs:434-443 | spilling refuses exactly a checkpoint none of whose layers can be retrieved, or one with too many |
| SpillLaws.LoadsExactly | crates/rocket-surgeon-worker/src/checkpoint.rs:510-592 | any file at all loads without error if and only if it has the magic, the version, a whole index of valid dtypes, no more rows than there are free slots, and every row lies inside the file, fits a slot and has the checksum of its data |
| SpillLaws.LoadBreaks | crates/rocket-surgeon-worker/src/checkpoint.rs:546-589 | a load stops at the first row that lies outside the file, does not fit, has the wrong checksum or finds no free slot, with the error for that; the rows before it are in place, the last one counting where a layer comes twice, and every other layer of the arena keeps its slot and bytes |
| SpillLaws.HeaderFaults | crates/rocket-surgeon-worker/src/checkpoint.rs:515-542 | a file without a readable header and index is refused for the first thing missing, and nothing changes |
| SpillLaws.RowReads | crates/rocket-surgeon-worker/src/checkpoint.rs:405-427 | an index row reads as its fields say, each at its offset, if its tag is one of the four, and not at all otherwise |
| SpillLaws.CorruptionDetected | crates/rocket-surgeon-worker/src/checkpoint.rs:562-569 | a file that loads no longer does once the data of a row is changed to bytes of another checksum |
| ArenaObject.CheckpointArena.Create | crates/rocket-surgeon-worker/src/checkpoint.rs:134-182 | a fresh arena, or a refusal exactly for a capacity that is zero or cannot be mapped |
| ArenaObject.CheckpointArena.AllocSlot | crates/rocket-surgeon-worker/src/checkpoint.rs:200-250 | the whole new state of the object, mapping included, is the allocation on values, which fails exactly when nothing is free; the slot is the last free one, and a new checkpoint goes to the end of the order |
| ArenaObject.CheckpointArena.FreeCheckpoint | crates/rocket-surgeon-worker/src/checkpoint.rs:280-301 | the whole new state is the free on values |
| ArenaObject.CheckpointArena.FirstCheckpoint | crates/rocket-surgeon-worker/src/checkpoint.rs:303-306 | the oldest checkpoint on values |
| ArenaObject.CheckpointArena.CopyToSlot | crates/rocket-surgeon-worker/src/checkpoint.rs:271-278 | a copy into the flat mapping changes that slot's prefix and no other slot |
| ArenaObject.CheckpointArena.SlotInfoForCheckpoint | crates/rocket-surgeon-worker/src/checkpoint.rs:329-354 | the listing loop with its first-match search computes the listing on values |
| ArenaObject.CheckpointArena.SpillCheckpoint | crates/rocket-surgeon-worker/src/checkpoint.rs:429-508 | the file written and the state left are those of the spill on values |
| ArenaObject.CheckpointArena.LoadSpilled | crates/rocket-surgeon-worker/src/checkpoint.rs:510-592 | the error reported and the state left, part-way loads included, are those of the load on values |
| ArenaObject.BuildEntries | crates/rocket-surgeon-worker/src/checkpoint.rs:444-474 | the running offset of the entry loop is where each payload really goes |
| ArenaObject.WriteFile | crates/rocket-surgeon-worker/src/checkpoint.rs:477-502 | header, index, padding and padded payloads written in sequence are the file on values |
| ArenaObject.ReadIndex | crates/rocket-surgeon-worker/src/checkpoint.rs:533-542 | the index loop reads all entries, or fails exactly when one has no valid dtype |
| ProbePoints.MatchesIffCommonPoint | crates/rocket-surgeon-probes/src/grammar.rs:59-88 | a pattern matches another exactly when some concrete point is covered by both |
| Grammar.PrintThenParse | crates/rocket-surgeon-probes/src/grammar.rs:90-142 | parsing the print of a well-formed point gives it back |
| Grammar.ParseThenPrint | crates/rocket-surgeon-probes/src/grammar.rs:146-223 | every string that parses gives a well-formed point whose print is the string without redundant leading zeros |
| Grammar.ZerosIgnored | crates/rocket-surgeon-probes/src/grammar.rs:158-163 | dropping redundant leading zeros never changes the outcome of a parse, failures included |
| Grammar.ParsesExactly | crates/rocket-surgeon-probes/src/grammar.rs:146-223 | a string parses to a point if and only if the point is well formed and prints as the string does up to redundant leading zeros |
| Grammar.ParsePrintParse | crates/rocket-surgeon-probes/src/grammar.rs:52-57 | parse, print, parse is parse |
| Grammar.ParsesExample | crates/rocket-surgeon-probes/src/grammar.rs:146-223 | one point as it is written, with wildcards, numbers, an indexed and a plain segment |
| Registry.ListingUnique | crates/rocket-surgeon-probes/src/registry.rs:58-62 | a table has only one listing in strict (priority, sequence) order |
| Registry.SelectionIsListing | crates/rocket-surgeon-probes/src/registry.rs:89-107 | filtering and sorting gives that listing, whatever the hash map's iteration order |
| Registry.MatchingEnabledIsFilteredList | crates/rocket-surgeon-probes/src/registry.rs:99-107 | `matching_enabled` is `list` restricted, in order, to the enabled probes sharing a concrete point with the target |
| Registry.ProbeRegistry.Define | crates/rocket-surgeon-probes/src/registry.rs:35-52 | refuses exactly a known id or a point that does not parse, and otherwise adds one probe with the next sequence number |
| Registry.ProbeRegistry.SetEnabled | crates/rocket-surgeon-probes/src/registry.rs:64-80 | changes one flag and nothing else, or reports an unknown id |
| Registry.ProbeRegistry.Remove | crates/rocket-surgeon-probes/src/registry.rs:82-87 | removes one probe, or reports an unknown id |
| Registry.ProbeRegistry.List | crates/rocket-surgeon-probes/src/registry.rs:58-62 | the definitions of the one listing of the table |
| Registry.ProbeRegistry.MatchingEnabled | crates/rocket-surgeon-probes/src/registry.rs:99-107 | the definitions of the one listing of the enabled matching probes |
| Varint.EncodeVarint | crates/perfetto-writer/src/varint.rs:1-11 | the shifting loop appends the base-128 digits, low first, all but the last marked |
| Varint.RoundTrip | crates/perfetto-writer/src/writer.rs:256-267 | decoding gives the value and its length whatever follows |
| Varint.SelfDelimiting | crates/perfetto-writer/src/varint.rs:1-11 | at most ten bytes, of which only the last has the high bit clear |
| Varint.EncodedIs | crates/perfetto-writer/src/varint.rs:1-11 | the bytes are the number's base-128 digits, least significant first and none to spare, all but the last with the high bit |
| Varint.DecodeVarint | crates/perfetto-writer/src/writer.rs:256-267 | the loop computes the decoding, failing on truncation or a shift past 64 bits |
| Varint.TraceWriter.WritePacket | crates/perfetto-writer/src/writer.rs:35-42 | appends one framed packet, whatever the scratch buffer held |
| Varint.DecodeTracePackets | crates/perfetto-writer/src/writer.rs:269-283 | the offset loop computes the recursive reading of a packet stream |
| Varint.PacketsRoundTrip | crates/perfetto-writer/src/writer.rs:269-283 | any packets written one after another are read back exactly |
| Framing.Reader.ReadMessage | crates/rocket-surgeon-transport/src/framing.rs:17-59 | the header loop and body read, over a stream consumed in place, give the message or error of the reading on values and, in either case, leave the stream where it says |
| Framing.ReadLeaves | crates/rocket-surgeon-transport/src/framing.rs:20-58 | where every outcome leaves the stream: always further on; right behind the blank line when the length is missing or too large, behind the body when that is no text, at the end when it is cut short |
| Framing.ReadBack | crates/rocket-surgeon-transport/src/framing.rs:61-67 | a written message is read back exactly, the stream left right behind it, if and only if its body is at most 16 MiB; a longer one is refused and its body left in the stream |
| Framing.AllReadBack | crates/rocket-surgeon-transport/src/framing.rs:17-67 | any list of such messages survives the stream |
| Framing.LineValueIs | crates/rocket-surgeon-transport/src/framing.rs:36-45 | split at its first colon, a header line gives the number behind it when the part before is `content-length` in any case, and nothing otherwise |
| Framing.LinesRead | crates/rocket-surgeon-transport/src/framing.rs:20-46 | any header lines are read in order, the last content length counts and other headers are passed over |
| Framing.ReadBehindHeaders | crates/rocket-surgeon-transport/src/framing.rs:20-58 | a body behind any headers is read when the last length they give is its own; headers that give none leave it unread |
| Framing.BadLength | crates/rocket-surgeon-transport/src/framing.rs:36-45 | a line that gives a bad length ends the reading right behind it, whatever came before |
| Framing.NoText | crates/rocket-surgeon-transport/src/framing.rs:22-23 | so does a line that is no text |
| Framing.CutShort | crates/rocket-surgeon-transport/src/framing.rs:23-29 | headers without a blank line behind them are cut short |
| Framing.BadBody | crates/rocket-surgeon-transport/src/framing.rs:54-58 | so is a body shorter than announced; one that is no text is used up and refused |
| Framing.LengthParses | crates/rocket-surgeon-transport/src/framing.rs:40-43 | a length is a decimal number of 64 bits, with or without a plus sign |
| Framing.LengthRefused | crates/rocket-surgeon-transport/src/framing.rs:40-43 | and nothing with another character in it |
| Framing.TrimIs | crates/rocket-surgeon-transport/src/framing.rs:40-41 | white space around a value is taken off, and nothing else |
| Framing.Writer.WriteMessage | crates/rocket-surgeon-transport/src/framing.rs:61-67 | appends the literal header text, the length in decimal, two line ends and the body |
| CheckpointLayers.LayersAreBoundaries | crates/rocket-surgeon-protocol/src/lib.rs:12-16 | the floors of multiples of the interval are the integer quotients `i * L / ceil(sqrt L)` |
| CheckpointLayers.LayersHold | crates/rocket-surgeon-protocol/src/lib.rs:8-17 | `ceil(sqrt L) - 1` layers, strictly increasing within `1..L-1`, no gap (ends included) over `ceil(sqrt L)` |

## Left out

- Everything PyTorch, PyO3 and CUDA does: tensors are opaque values, a forward pass is an arbitrary function of the replies so far with a bound on its number of hooks, and what the recipes make of a hook with an output is an arbitrary function of the tick.
- The passive hooks on container modules, which put container outputs among the stored outputs from the model thread: `Worker.outputs` holds only what the step loop itself stores.
- A hook's per-module call counter is part of what that function emits: the laws hold for any numbering, the one of the hook closure (`StepSplit.Numbered`) included.
- Mailbox timeouts, detaching during a parked pass, and a request that ends because a Python call raises: the barrier results assume none of these. A pass that fails early is a pass with fewer hooks.
- `run_replay_loop`, which releases the parked thread before it breaks, so that the parked-thread state the step loop starts from does not hold after it.
- A module whose path is literally the completion sentinel: the sentinel is a separate kind of message here.
- Weak memory ordering: cursor and cell accesses are atomic steps in one order.
- Cursors are unbounded: 2^64 publishes on one ring are not modelled. The 32-bit generation does wrap.
- `shm_open`, `mmap` and file I/O: regions, mappings and files are byte arrays and byte sequences. An arena mapping is bounded by 2^57 bytes, beyond which mapping it counts as failed; the offsets in a spill file then cannot overflow.
- An attach whose worker has no ring at all, where every tensor goes inline.
- A captured tensor with neither a ring offset nor inline data, and inline data that does not decode: the worker never sends either.
- BLAKE3, CRC32 and UTF-8 validity are arbitrary functions; tensor-store eviction is an arbitrary choice made before each insertion.
- `detail`, slices and envelopes of an inspect response, base64 and JSON.
- `matching`, `get` and `active_probe_ids` of the registry, and probe fields nothing here looks at.
- `set_phase` and `set_token_position`; the wall clock; the timestamp and the action of a probe event.
- `oldest_evictable`; `snapshot`, whose count only feeds a debug assertion.
- `target_component` and `component_leaf`, which only cut strings.
- CheckpointLayers.LayersHold: the arithmetic is exact; what f64 rounding does to very large layer counts is not modelled.
- Framing.Reader.ReadMessage: a body cut short is taken to be read up to the end of the stream, as `read_exact` does on a buffered reader; the trait itself leaves that open.
- Framing.ReadBack: white space around header values means ASCII white space; non-ASCII white space is not modelled.
- Varint.PacketsRoundTrip: packets are opaque byte strings; their protobuf encoding is not modelled.
- ArenaObject.CheckpointArena.LoadSpilled: an index entry whose offset plus length passes 2^64 counts as truncated, where the source's addition overflows.
- ArenaObject.BuildEntries: entries and payloads, built in one loop in the source, are built in two, one after the other; no effect is visible in between.
- The daemon session, orchestrator, terminal interface, export bundles, error hints, model family tables and KV-cache stubs.
