/**
 The values behind inspect requests (`ShmSession`): what the worker's response describes, the ring
 slots a request takes and loses, and what the daemon reads, answers and stores
 (crates/rocket-surgeon/src/dispatch.rs, `ingest_and_respond`).
 */
module ShmRequests {
  import opened Prelude
  import opened Bits
  import opened RingConfig
  import opened RingProtocol
  import opened RingDelivery

  datatype Tensor = Tensor(layer: U32, shape: seq<nat>, dtypeKnown: bool, bytes: seq<Byte>)

  datatype Payload = Shm(offset: nat, length: nat) | Inline(bytes: seq<Byte>)

  datatype Captured = Captured(id: string, dtypeKnown: bool, payload: Payload)

  datatype InspectError = WorkerFailed | NotAdmitted | NothingCaptured | UnknownDtype | ShmReadFailed

  /** One inspect request, with everything outside the model's reach as data. */
  datatype Call = Call(
    tensors: seq<Tensor>,            // what the worker finds for the target
    failsAt: nat,                    // the tensor whose conversion raises, if there is one
    admitted: bool,                  // whether the daemon accepts the request once the host has answered
    survivors: nat -> set<string>)   // which stored ids outlive the eviction before each insertion

  /** How many of the first `i` entries went through the ring. */
  function ShmBefore(cs: seq<Captured>, i: nat): nat
    requires i <= |cs|
  {
    if i == 0 then 0 else ShmBefore(cs, i - 1) + (if cs[i - 1].payload.Shm? then 1 else 0)
  }

  function ShmCount(cs: seq<Captured>): nat {
    ShmBefore(cs, |cs|)
  }

  lemma {:induction false} ShmBeforeMono(cs: seq<Captured>, i: nat, j: nat)
    requires i <= j <= |cs|
    ensures ShmBefore(cs, i) <= ShmBefore(cs, j)
  {
    if i < j {
      ShmBeforeMono(cs, i, j - 1);
    }
  }

  lemma {:induction false} ShmBeforeAppend(cs: seq<Captured>, c: Captured, i: nat)
    requires i <= |cs|
    ensures ShmBefore(cs + [c], i) == ShmBefore(cs, i)
  {
    if i > 0 {
      ShmBeforeAppend(cs, c, i - 1);
    }
  }

  /** Entry `c` of a response describes tensor `t`; if it went through the ring, at cursor `j`. */
  predicate Describes(hash: seq<Byte> -> string, config: LiveConfig, frames: seq<Frame>, c: Captured, t: Tensor, j: nat) {
    && c.id == hash(t.bytes) && c.dtypeKnown == t.dtypeKnown
    && match c.payload
       case Inline(bytes) => bytes == t.bytes
       case Shm(offset, length) =>
         && j < |frames| && |frames[j]| == HEADER_SIZE + |t.bytes| && frames[j][HEADER_SIZE..] == t.bytes
         && offset == SlotOffset(config, j) && length == |t.bytes|
  }

  predicate DescribedAt(hash: seq<Byte> -> string, config: LiveConfig, frames: seq<Frame>, cs: seq<Captured>,
                        ts: seq<Tensor>, start: nat, i: nat) {
    i < |cs| <= |ts| && Describes(hash, config, frames, cs[i], ts[i], start + ShmBefore(cs, i))
  }

  /** The entries describe the tensors one for one, the ring's share sitting behind cursor `start`. */
  predicate AllDescribed(hash: seq<Byte> -> string, config: LiveConfig, frames: seq<Frame>, cs: seq<Captured>,
                         ts: seq<Tensor>, start: nat) {
    && |cs| <= |ts|
    && forall i :: 0 <= i < |cs| ==> DescribedAt(hash, config, frames, cs, ts, start, i)
  }

  lemma DescribesGrows(hash: seq<Byte> -> string, config: LiveConfig, frames: seq<Frame>, more: seq<Frame>,
                       c: Captured, t: Tensor, j: nat)
    requires Describes(hash, config, frames, c, t, j) && frames <= more
    ensures Describes(hash, config, more, c, t, j)
  {
  }

  lemma DescribedOneMore(hash: seq<Byte> -> string, config: LiveConfig, frames: seq<Frame>, more: seq<Frame>,
                         cs: seq<Captured>, ts: seq<Tensor>, start: nat, c: Captured)
    requires AllDescribed(hash, config, frames, cs, ts, start) && |cs| < |ts| && frames <= more
    requires Describes(hash, config, more, c, ts[|cs|], start + ShmCount(cs))
    ensures AllDescribed(hash, config, more, cs + [c], ts, start)
    ensures ShmCount(cs + [c]) == ShmCount(cs) + (if c.payload.Shm? then 1 else 0)
  {
    ShmBeforeAppend(cs, c, |cs|);
    forall i | 0 <= i < |cs|
      ensures DescribedAt(hash, config, more, cs + [c], ts, start, i)
    {
      assert DescribedAt(hash, config, frames, cs, ts, start, i);
      ShmBeforeAppend(cs, c, i);
      DescribesGrows(hash, config, frames, more, cs[i], ts[i], start + ShmBefore(cs, i));
    }
  }

  function AskOf(t: Tensor): Ask {
    Ask(t.layer, t.shape, t.bytes)
  }

  lemma CapturedFrame(config: LiveConfig, t: Tensor, cursor: nat, frame: Frame)
    requires Accepted(config) && |t.bytes| <= DataCapacity(config)
    requires frame == WorkerFrame(t.layer, t.shape, t.bytes, cursor)
    ensures |frame| == HEADER_SIZE + |t.bytes| && frame[HEADER_SIZE..] == t.bytes
    ensures frame[..HEADER_SIZE] + t.bytes == frame && Carries(frame, AskOf(t), cursor)
  {
    SlotInRegion(config, cursor);
    WorkerFrameCarries(AskOf(t), cursor);
    assert frame[..HEADER_SIZE] + frame[HEADER_SIZE..] == frame;
  }

  // ----- how many slots a request takes -----

  /** How many of the first `n` tensors fit a slot. */
  function Fitting(config: LiveConfig, ts: seq<Tensor>, n: nat): nat
    requires n <= |ts|
  {
    if n == 0 then 0 else Fitting(config, ts, n - 1) + (if |ts[n - 1].bytes| <= DataCapacity(config) then 1 else 0)
  }

  /** With `room` slots to go, a tensor goes through the ring when it fits and those before it left one. */
  predicate GoesInRing(config: LiveConfig, ts: seq<Tensor>, room: nat, i: nat)
    requires i < |ts|
  {
    |ts[i].bytes| <= DataCapacity(config) && Fitting(config, ts, i) < room
  }

  /** Exactly those entries went through the ring. */
  predicate Placed(config: LiveConfig, cs: seq<Captured>, ts: seq<Tensor>, room: nat) {
    |cs| <= |ts| && forall i :: 0 <= i < |cs| ==> (cs[i].payload.Shm? <==> GoesInRing(config, ts, room, i))
  }

  lemma PlacedCount(config: LiveConfig, cs: seq<Captured>, ts: seq<Tensor>, room: nat)
    requires Placed(config, cs, ts, room)
    ensures ShmCount(cs) == Min(Fitting(config, ts, |cs|), room)
  {
    PlacedBefore(config, cs, ts, room, |cs|);
  }

  lemma PlacedOneMore(config: LiveConfig, cs: seq<Captured>, ts: seq<Tensor>, room: nat, c: Captured)
    requires Placed(config, cs, ts, room) && |cs| < |ts|
    requires c.payload.Shm? <==> |ts[|cs|].bytes| <= DataCapacity(config) && ShmCount(cs) < room
    ensures Placed(config, cs + [c], ts, room)
  {
    PlacedCount(config, cs, ts, room);
  }

  lemma {:induction false} PlacedBefore(config: LiveConfig, cs: seq<Captured>, ts: seq<Tensor>, room: nat, n: nat)
    requires Placed(config, cs, ts, room) && n <= |cs|
    ensures ShmBefore(cs, n) == Min(Fitting(config, ts, n), room)
  {
    if n > 0 {
      PlacedBefore(config, cs, ts, room, n - 1);
    }
  }

  /** The entries describe the tensors, each where it belongs. */
  predicate Collected(hash: seq<Byte> -> string, config: LiveConfig, frames: seq<Frame>, cs: seq<Captured>,
                      ts: seq<Tensor>, start: nat, room: nat) {
    AllDescribed(hash, config, frames, cs, ts, start) && Placed(config, cs, ts, room)
  }

  lemma CollectedOneMore(hash: seq<Byte> -> string, config: LiveConfig, frames: seq<Frame>, more: seq<Frame>,
                         cs: seq<Captured>, ts: seq<Tensor>, start: nat, room: nat, c: Captured)
    requires Collected(hash, config, frames, cs, ts, start, room) && |cs| < |ts| && frames <= more
    requires Describes(hash, config, more, c, ts[|cs|], start + ShmCount(cs))
    requires c.payload.Shm? <==> |ts[|cs|].bytes| <= DataCapacity(config) && ShmCount(cs) < room
    ensures Collected(hash, config, more, cs + [c], ts, start, room)
    ensures ShmCount(cs + [c]) == ShmCount(cs) + (if c.payload.Shm? then 1 else 0)
  {
    PlacedOneMore(config, cs, ts, room, c);
    DescribedOneMore(hash, config, frames, more, cs, ts, start, c);
  }

  /** How many of a request's tensors the worker converts. */
  function Converted(call: Call): nat {
    Min(call.failsAt, |call.tensors|)
  }

  /** The slots the worker takes for a request when `lost` slots are unclaimed. */
  function SlotsTaken(config: LiveConfig, call: Call, lost: nat): nat
    requires lost <= config.backuptics
  {
    Min(Fitting(config, call.tensors, Converted(call)), config.backuptics - lost)
  }

  /** The request goes through: every tensor converts, the daemon admits it, and it knows every dtype. */
  predicate Goes(call: Call) {
    && call.failsAt >= |call.tensors| && call.admitted && call.tensors != []
    && AllKnown(call.tensors)
  }

  /** The daemon knows every dtype. */
  predicate AllKnown(ts: seq<Tensor>) {
    forall i :: 0 <= i < |ts| ==> ts[i].dtypeKnown
  }

  /** The slots a request leaves unclaimed: all it took, unless it goes through and is read. */
  function SlotsLost(config: LiveConfig, open: bool, call: Call, lost: nat): nat
    requires lost <= config.backuptics
  {
    if open && Goes(call) then 0 else SlotsTaken(config, call, lost)
  }

  lemma {:induction false} FittingSome(config: LiveConfig, ts: seq<Tensor>, n: nat)
    requires n <= |ts|
    ensures Fitting(config, ts, n) > 0 <==> exists i :: 0 <= i < n && |ts[i].bytes| <= DataCapacity(config)
  {
    if n > 0 {
      FittingSome(config, ts, n - 1);
    }
  }

  /**
   With the ring open, a request loses slots if and only if it does not go through, the ring is
   not full already, and some tensor converted before the failure fits a slot.
   */
  lemma LosesSlots(config: LiveConfig, call: Call, lost: nat)
    requires lost <= config.backuptics
    ensures SlotsLost(config, true, call, lost) > 0
       <==> && !Goes(call) && lost < config.backuptics
            && exists i :: 0 <= i < Converted(call) && |call.tensors[i].bytes| <= DataCapacity(config)
  {
    FittingSome(config, call.tensors, Converted(call));
  }

  // ----- what a request leaves in the store -----

  type Store = map<string, seq<Byte>>

  /** Whatever outlives the eviction, and the new tensor. */
  function Inserted(store: Store, id: string, data: seq<Byte>, survivors: set<string>): Store {
    (map k | k in store && k in survivors :: store[k])[id := data]
  }

  /** The store once the first `n` tensors of a request are in it: an id already there keeps its data. */
  function StoreAfter(hash: seq<Byte> -> string, store: Store, call: Call, n: nat): (s: Store)
    requires n <= |call.tensors|
    ensures n > 0 ==> hash(call.tensors[n - 1].bytes) in s
  {
    if n == 0 then store
    else
      var before, data := StoreAfter(hash, store, call, n - 1), call.tensors[n - 1].bytes;
      if hash(data) in before then before else Inserted(before, hash(data), data, call.survivors(n - 1))
  }

  /** What the daemon has to work with: the hash, the ring's shape and whether it could open the ring. */
  datatype Daemon = Daemon(hash: seq<Byte> -> string, config: LiveConfig, open: bool)

  /** Tensor `i` of a request is already in the store when its turn comes. */
  predicate Known(d: Daemon, store: Store, call: Call, i: nat)
    requires i < |call.tensors|
  {
    d.hash(call.tensors[i].bytes) in StoreAfter(d.hash, store, call, i)
  }

  /** Why the daemon gives up at a tensor: its dtype, or a ring it cannot open. */
  function Refusal(open: bool, dtypeKnown: bool, inRing: bool, known: bool): Option<InspectError> {
    if !dtypeKnown then Some(UnknownDtype)
    else if inRing && !open && !known then Some(ShmReadFailed)
    else None
  }

  function RefusalAt(d: Daemon, room: nat, store: Store, call: Call, i: nat): Option<InspectError>
    requires i < |call.tensors|
  {
    Refusal(d.open, call.tensors[i].dtypeKnown, GoesInRing(d.config, call.tensors, room, i), Known(d, store, call, i))
  }

  /** Where a request ends that has got as far as tensor `i`: at the first refusal, or behind the last tensor. */
  function EndFrom(d: Daemon, room: nat, store: Store, call: Call, i: nat): (n: nat)
    requires i <= |call.tensors|
    ensures i <= n <= |call.tensors|
    ensures n < |call.tensors| ==> RefusalAt(d, room, store, call, n).Some?
    decreases |call.tensors| - i
  {
    if i == |call.tensors| || RefusalAt(d, room, store, call, i).Some? then i
    else EndFrom(d, room, store, call, i + 1)
  }

  /** What the daemon reads from the ring for the first `n` tensors: those in it that it does not know. */
  function ReadsOf(d: Daemon, room: nat, store: Store, call: Call, n: nat): seq<(nat, seq<Byte>)>
    requires n <= |call.tensors|
  {
    if n == 0 then []
    else
      var before := ReadsOf(d, room, store, call, n - 1);
      if GoesInRing(d.config, call.tensors, room, n - 1) && !Known(d, store, call, n - 1)
      then before + [(n - 1, call.tensors[n - 1].bytes)] else before
  }

  /** What each tensor is summarized from: what the store holds under its id at its turn. */
  function ShownOf(hash: seq<Byte> -> string, store: Store, call: Call, n: nat): (shown: seq<seq<Byte>>)
    requires n <= |call.tensors|
    ensures |shown| == n
  {
    if n == 0 then []
    else ShownOf(hash, store, call, n - 1) + [StoreAfter(hash, store, call, n)[hash(call.tensors[n - 1].bytes)]]
  }

  /** What a request comes to: its answer, what was read from the ring, and the store behind it. */
  datatype Reply = Reply(answer: Result<seq<seq<Byte>>, InspectError>, copied: seq<(nat, seq<Byte>)>, store: Store)

  /** The reply to tensors that reached the daemon. */
  function Ingested(d: Daemon, room: nat, store: Store, call: Call): Reply {
    var end := EndFrom(d, room, store, call, 0);
    Reply(if end == |call.tensors| then Ok(ShownOf(d.hash, store, call, end))
          else Err(RefusalAt(d, room, store, call, end).value),
          ReadsOf(d, room, store, call, end), StoreAfter(d.hash, store, call, end))
  }

  /** The reply to a request, with `room` slots to go. */
  function Inspected(d: Daemon, room: nat, store: Store, call: Call): Reply {
    if call.failsAt < |call.tensors| then Reply(Err(WorkerFailed), [], store)
    else if !call.admitted then Reply(Err(NotAdmitted), [], store)
    else if call.tensors == [] then Reply(Err(NothingCaptured), [], store)
    else Ingested(d, room, store, call)
  }

  /** One of the first `n` tensors has this id and these bytes. */
  ghost predicate Offered(hash: seq<Byte> -> string, call: Call, n: nat, id: string, data: seq<Byte>)
    requires n <= |call.tensors|
  {
    exists i :: 0 <= i < n && call.tensors[i].bytes == data && hash(call.tensors[i].bytes) == id
  }

  /**
   The last tensor taken in is in the store. Whatever is in it was there before, with the same
   bytes, or is one of the request's tensors under its hash; and what no eviction touches stays.
   */
  lemma {:induction false} StoreExact(hash: seq<Byte> -> string, store: Store, call: Call, n: nat, id: string)
    requires n <= |call.tensors|
    ensures var s := StoreAfter(hash, store, call, n);
            && (n > 0 ==> hash(call.tensors[n - 1].bytes) in s)
            && (id in s ==> (id in store && s[id] == store[id]) || Offered(hash, call, n, id, s[id]))
            && (id in store && (forall i :: 0 <= i < n ==> id in call.survivors(i)) ==> id in s && s[id] == store[id])
  {
    if n > 0 {
      StoreExact(hash, store, call, n - 1, id);
      var before := StoreAfter(hash, store, call, n - 1);
      if id in before && Offered(hash, call, n - 1, id, before[id]) {
        assert Offered(hash, call, n, id, before[id]);
      }
      assert id == hash(call.tensors[n - 1].bytes) ==> Offered(hash, call, n, id, call.tensors[n - 1].bytes);
    }
  }

  /** A tensor is read from the ring exactly if it went there and was not known. */
  lemma {:induction false} ReadsExact(d: Daemon, room: nat, store: Store, call: Call, n: nat, i: nat, data: seq<Byte>)
    requires n <= |call.tensors|
    ensures (i, data) in ReadsOf(d, room, store, call, n)
       <==> && i < n && data == call.tensors[i].bytes && GoesInRing(d.config, call.tensors, room, i)
            && d.hash(data) !in StoreAfter(d.hash, store, call, i)
  {
    if n > 0 {
      ReadsExact(d, room, store, call, n - 1, i, data);
    }
  }

  predicate Ascending(got: seq<(nat, seq<Byte>)>, n: nat) {
    && (forall a :: 0 <= a < |got| ==> got[a].0 < n)
    && forall a, b :: 0 <= a < b < |got| ==> got[a].0 < got[b].0
  }

  /** The reads go through the tensors in order, so none is read twice. */
  lemma {:induction false} ReadsInOrder(d: Daemon, room: nat, store: Store, call: Call, n: nat)
    requires n <= |call.tensors|
    ensures Ascending(ReadsOf(d, room, store, call, n), n)
  {
    if n > 0 {
      ReadsInOrder(d, room, store, call, n - 1);
    }
  }

  /**
   A request ends at the first tensor of an unknown dtype, or the first that is in a ring the daemon
   could not open and not in its store; and the error tells which.
   */
  lemma {:induction false} EndExact(d: Daemon, room: nat, store: Store, call: Call, i: nat)
    requires i <= |call.tensors|
    ensures var n := EndFrom(d, room, store, call, i);
            && (forall k :: i <= k < n ==>
                  && call.tensors[k].dtypeKnown
                  && (d.open || !GoesInRing(d.config, call.tensors, room, k)
                      || d.hash(call.tensors[k].bytes) in StoreAfter(d.hash, store, call, k)))
            && (n < |call.tensors| ==>
                  if call.tensors[n].dtypeKnown then
                    && RefusalAt(d, room, store, call, n) == Some(ShmReadFailed)
                    && !d.open && GoesInRing(d.config, call.tensors, room, n)
                    && d.hash(call.tensors[n].bytes) !in StoreAfter(d.hash, store, call, n)
                  else RefusalAt(d, room, store, call, n) == Some(UnknownDtype))
    decreases |call.tensors| - i
  {
    if i < |call.tensors| {
      EndExact(d, room, store, call, i + 1);
    }
  }

  lemma {:induction false} ShownExact(hash: seq<Byte> -> string, store: Store, call: Call, n: nat, i: nat)
    requires i < n <= |call.tensors|
    requires forall id :: id in store ==> hash(store[id]) == id
    ensures hash(ShownOf(hash, store, call, n)[i]) == hash(call.tensors[i].bytes)
  {
    if i < n - 1 {
      ShownExact(hash, store, call, n - 1, i);
    } else {
      StoreExact(hash, store, call, n, hash(call.tensors[i].bytes));
    }
  }

  /** Everything in the store was there before with the same bytes, or is one of the request's tensors. */
  ghost predicate FromCall(hash: seq<Byte> -> string, store: Store, was: Store, call: Call) {
    forall id :: id in store ==>
      (id in was && store[id] == was[id]) || Offered(hash, call, |call.tensors|, id, store[id])
  }

  /** Every read was of a tensor in the ring that was not stored yet, and returned its bytes. */
  predicate ReadsAre(d: Daemon, room: nat, was: Store, copied: seq<(nat, seq<Byte>)>, call: Call) {
    forall e :: e in copied ==>
      && e.0 < |call.tensors| && e.1 == call.tensors[e.0].bytes && GoesInRing(d.config, call.tensors, room, e.0)
      && d.hash(e.1) !in StoreAfter(d.hash, was, call, e.0)
  }

  lemma IngestedHolds(d: Daemon, room: nat, was: Store, call: Call)
    ensures var reply := Ingested(d, room, was, call);
            ReadsAre(d, room, was, reply.copied, call) && FromCall(d.hash, reply.store, was, call)
  {
    var end := EndFrom(d, room, was, call, 0);
    forall e | e in ReadsOf(d, room, was, call, end)
      ensures e.0 < end && e.1 == call.tensors[e.0].bytes && GoesInRing(d.config, call.tensors, room, e.0)
              && d.hash(e.1) !in StoreAfter(d.hash, was, call, e.0)
    {
      ReadsExact(d, room, was, call, end, e.0, e.1);
    }
    var s := StoreAfter(d.hash, was, call, end);
    forall id | id in s
      ensures (id in was && s[id] == was[id]) || Offered(d.hash, call, |call.tensors|, id, s[id])
    {
      StoreExact(d.hash, was, call, end, id);
    }
  }

  lemma InspectedStores(d: Daemon, room: nat, was: Store, call: Call, reply: Reply)
    requires reply == Inspected(d, room, was, call)
    ensures ReadsAre(d, room, was, reply.copied, call) && FromCall(d.hash, reply.store, was, call)
  {
    IngestedHolds(d, room, was, call);
  }

  lemma IngestedWell(d: Daemon, room: nat, was: Store, call: Call)
    requires forall id :: id in was ==> d.hash(was[id]) == id
    ensures var answer := Ingested(d, room, was, call).answer;
            && (answer.Ok? ==>
                  && AllKnown(call.tensors) && |answer.value| == |call.tensors|
                  && forall i :: 0 <= i < |call.tensors| ==> d.hash(answer.value[i]) == d.hash(call.tensors[i].bytes))
            && (d.open && answer.Err? ==> answer.error == UnknownDtype && !AllKnown(call.tensors))
  {
    EndExact(d, room, was, call, 0);
    if Ingested(d, room, was, call).answer.Ok? {
      forall i | 0 <= i < |call.tensors|
        ensures d.hash(Ingested(d, room, was, call).answer.value[i]) == d.hash(call.tensors[i].bytes)
      {
        ShownExact(d.hash, was, call, |call.tensors|, i);
      }
    }
  }

  /**
   What the reply to a request says in terms of its tensors alone. A request that goes through
   leaves its last tensor in the store; nothing comes to the store but the request's own tensors;
   and nothing is read from the ring that was stored already.
   */
  lemma InspectedHolds(d: Daemon, room: nat, was: Store, call: Call)
    requires forall id :: id in was ==> d.hash(was[id]) == id
    ensures var reply := Inspected(d, room, was, call);
            && ReadsAre(d, room, was, reply.copied, call) && FromCall(d.hash, reply.store, was, call)
            && (reply.answer.Ok? ==>
                  && Goes(call) && d.hash(call.tensors[|call.tensors| - 1].bytes) in reply.store
                  && |reply.answer.value| == |call.tensors|
                  && forall i :: 0 <= i < |call.tensors| ==>
                       d.hash(reply.answer.value[i]) == d.hash(call.tensors[i].bytes))
            && (d.open ==> (reply.answer.Ok? <==> Goes(call)))
  {
    InspectedStores(d, room, was, call, Inspected(d, room, was, call));
    IngestedWell(d, room, was, call);
  }

  // ----- runs of requests -----

  /** How an attach stands: the slots left unclaimed, the store, and the replies so far. */
  datatype Served = Served(lost: nat, store: Store, replies: seq<Reply>)

  /** One more request, served with the slots that are left. */
  function ServedOne(d: Daemon, s: Served, call: Call): (after: Served)
    requires s.lost <= d.config.backuptics
    ensures s.lost <= after.lost <= d.config.backuptics
  {
    var reply := Inspected(d, d.config.backuptics - s.lost, s.store, call);
    Served(s.lost + SlotsLost(d.config, d.open, call, s.lost), reply.store, s.replies + [reply])
  }

  lemma ServedBy(d: Daemon, s: Served, call: Call, room: nat, reply: Reply, lost: nat)
    requires s.lost + room == d.config.backuptics && reply == Inspected(d, room, s.store, call)
    requires lost == s.lost + SlotsLost(d.config, d.open, call, s.lost)
    ensures ServedOne(d, s, call) == Served(lost, reply.store, s.replies + [reply])
  {
  }

  /** The first `n` requests, one after the other. */
  function ServedAfter(d: Daemon, s: Served, calls: seq<Call>, n: nat): (after: Served)
    requires s.lost <= d.config.backuptics && n <= |calls|
    ensures s.lost <= after.lost <= d.config.backuptics
  {
    if n == 0 then s else ServedOne(d, ServedAfter(d, s, calls, n - 1), calls[n - 1])
  }

  /** What the failed requests among the first `n` would take of a ring without end. */
  function Demand(config: LiveConfig, open: bool, calls: seq<Call>, n: nat): nat
    requires n <= |calls|
  {
    if n == 0 then 0
    else
      var last := calls[n - 1];
      Demand(config, open, calls, n - 1)
      + (if open && Goes(last) then 0 else Fitting(config, last.tensors, Converted(last)))
  }

  lemma LossOneMore(d: Daemon, s: Served, call: Call)
    requires s.lost <= d.config.backuptics
    ensures ServedOne(d, s, call).lost ==
            if d.open && Goes(call) then s.lost
            else Min(s.lost + Fitting(d.config, call.tensors, Converted(call)), d.config.backuptics)
  {
  }

  /** The loss of a run is the sum of what its failed requests fit, up to the whole ring. */
  lemma {:induction false} LossIsSum(d: Daemon, s: Served, calls: seq<Call>, n: nat)
    requires s.lost <= d.config.backuptics && n <= |calls|
    ensures ServedAfter(d, s, calls, n).lost == Min(s.lost + Demand(d.config, d.open, calls, n), d.config.backuptics)
  {
    if n > 0 {
      LossIsSum(d, s, calls, n - 1);
      LossOneMore(d, ServedAfter(d, s, calls, n - 1), calls[n - 1]);
    }
  }

  lemma ServedStores(d: Daemon, s: Served, call: Call, after: Served)
    requires s.lost <= d.config.backuptics && after == ServedOne(d, s, call)
    ensures FromCall(d.hash, after.store, s.store, call)
  {
    var room := d.config.backuptics - s.lost;
    var reply := Inspected(d, room, s.store, call);
    assert after.store == reply.store;
    InspectedStores(d, room, s.store, call, reply);
  }

  /** One of the first `n` requests has a tensor of this id and these bytes. */
  ghost predicate OfferedBy(hash: seq<Byte> -> string, calls: seq<Call>, n: nat, id: string, data: seq<Byte>)
    requires n <= |calls|
  {
    exists k :: 0 <= k < n && Offered(hash, calls[k], |calls[k].tensors|, id, data)
  }

  lemma RunStoresOne(hash: seq<Byte> -> string, before: Store, after: Store, was: Store, calls: seq<Call>, n: nat,
                     id: string)
    requires n < |calls| && FromCall(hash, after, before, calls[n])
    requires id in before ==> (id in was && before[id] == was[id]) || OfferedBy(hash, calls, n, id, before[id])
    ensures id in after ==> (id in was && after[id] == was[id]) || OfferedBy(hash, calls, n + 1, id, after[id])
  {
    if id in after && id in before && OfferedBy(hash, calls, n, id, before[id]) && after[id] == before[id] {
      var k :| 0 <= k < n && Offered(hash, calls[k], |calls[k].tensors|, id, before[id]);
      assert Offered(hash, calls[k], |calls[k].tensors|, id, after[id]);
    }
  }

  /** Whatever the store holds after a run it held before, or one of the run's tensors has those bytes. */
  lemma {:induction false} RunStores(d: Daemon, s: Served, calls: seq<Call>, n: nat, id: string)
    requires s.lost <= d.config.backuptics && n <= |calls|
    ensures var store := ServedAfter(d, s, calls, n).store;
            id in store ==>
              (id in s.store && store[id] == s.store[id]) || OfferedBy(d.hash, calls, n, id, store[id])
  {
    if n > 0 {
      RunStores(d, s, calls, n - 1, id);
      var before, after := ServedAfter(d, s, calls, n - 1), ServedAfter(d, s, calls, n);
      ServedStores(d, before, calls[n - 1], after);
      RunStoresOne(d.hash, before.store, after.store, s.store, calls, n - 1, id);
    }
  }
}
