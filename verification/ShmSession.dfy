/**
 Inspect requests within one attach: the worker publishes tensors into the ring
 (crates/rocket-surgeon-worker/src/dispatch.rs, `collect_tensors`, `try_shm_publish`), the
 daemon reads them back by absolute offset and advances in bulk
 (crates/rocket-surgeon/src/dispatch.rs, `ingest_and_respond`). Requests are served one at a
 time, so worker and daemon take turns; `RingProtocol` covers the concurrent use of the ring.
 */
module ShmSession {
  import opened Prelude
  import opened Bits
  import opened RingConfig
  import opened RingProtocol
  import opened RingDelivery
  import opened ShmRequests

  datatype PublishError = TensorTooLarge | RingFull

  /** The region with both of its ends. */
  class DoomRing {
    const config: LiveConfig
    const bytes: array<Byte>
    var maketic: nat
    var nettics: nat
    ghost var frames: seq<Frame>   // every frame published so far

    /** Every slot between the cursors holds the frame published there. */
    ghost predicate Valid()
      reads this, bytes
    {
      && Accepted(config) && bytes.Length == RegionSize(config)
      && nettics <= maketic == |frames| <= nettics + config.backuptics
      && (forall j :: 0 <= j < |frames| ==> HEADER_SIZE <= |frames[j]| <= config.slotSize)
      && (forall j :: nettics <= j < |frames| ==>
                        Stands(bytes[..], SlotOffset(config, j), frames[j], |frames[j]|))
    }

    constructor (config: LiveConfig)
      requires Accepted(config)
      ensures Valid() && fresh(bytes) && this.config == config && maketic == nettics == 0
    {
      this.config := config;
      bytes := new Byte[RegionSize(config)](_ => 0);
      maketic, nettics, frames := 0, 0, [];
    }

    /** `write_bytes` inside the region. */
    method WriteBytes(at: nat, s: seq<Byte>)
      requires at + |s| <= bytes.Length
      modifies bytes
      ensures bytes[at..at + |s|] == s
      ensures forall i :: 0 <= i < bytes.Length && (i < at || at + |s| <= i) ==> bytes[i] == old(bytes[i])
    {
      for k := 0 to |s|
        invariant bytes[at..at + k] == s[..k]
        invariant forall i :: 0 <= i < bytes.Length && (i < at || at + k <= i) ==> bytes[i] == old(bytes[i])
      {
        bytes[at + k] := s[k];
        assert bytes[at..at + k + 1] == bytes[at..at + k] + [bytes[at + k]];
      }
    }

    /** `DoomRingProducer::publish`: refuses exactly when the tensor is too large or the ring full. */
    method Publish(header: HeaderBytes, data: seq<Byte>) returns (r: Result<nat, PublishError>)
      requires Valid()
      modifies this`maketic, this`frames, bytes
      ensures Valid()
      ensures r == if |data| > DataCapacity(config) then Err(TensorTooLarge)
                   else if old(maketic) - nettics >= config.backuptics then Err(RingFull)
                   else Ok(old(maketic))
      ensures frames == if r.Ok? then old(frames) + [header + data] else old(frames)
    {
      if |data| > DataCapacity(config) {
        return Err(TensorTooLarge);
      }
      if maketic - nettics >= config.backuptics {
        return Err(RingFull);
      }
      var slot := SlotOffset(config, maketic);
      SlotInRegion(config, maketic);
      WriteBytes(slot, header);
      WriteBytes(slot + HEADER_SIZE, data);
      forall j | nettics <= j < |frames|
        ensures Stands(bytes[..], SlotOffset(config, j), frames[j], |frames[j]|)
      {
        SlotsDisjoint(config, j, maketic);
      }
      frames := frames + [header + data];
      maketic := maketic + 1;
      assert Stands(bytes[..], slot, header + data, HEADER_SIZE + |data|) by {
        assert bytes[slot..slot + HEADER_SIZE] == header;
        assert bytes[slot + HEADER_SIZE..slot + HEADER_SIZE + |data|] == data;
      }
      return Ok(maketic - 1);
    }

    /** `read_absolute`, `None` for a range outside the region. */
    method ReadAbsolute(offset: nat, len: nat) returns (r: Option<seq<Byte>>)
      ensures r == if offset + len <= bytes.Length then Some(bytes[offset..offset + len]) else None
    {
      if offset + len <= bytes.Length {
        r := Some(bytes[offset..offset + len]);
      } else {
        r := None;
      }
    }

    /** `advance_by`, which trusts its caller not to pass the producer. */
    method AdvanceBy(count: nat)
      requires Valid() && count <= maketic - nettics
      modifies this`nettics
      ensures Valid() && nettics == old(nettics) + count
    {
      nettics := nettics + count;
    }
  }

  /** One tensor's turn: what the daemon answers, reads from the ring and leaves in the store. */
  predicate Turn(id: string, open: bool, t: Tensor, inRing: bool, survivors: set<string>, before: Store, after: Store,
                 r: Result<seq<Byte>, InspectError>, got: Option<seq<Byte>>) {
    match Refusal(open, t.dtypeKnown, inRing, id in before)
    case Some(e) => r == Err(e) && after == before && got.None?
    case None =>
      && id in after && r == Ok(after[id])
      && if id in before then after == before && got.None?
         else after == Inserted(before, id, t.bytes, survivors) && got == if inRing then Some(t.bytes) else None
  }

  /** Worker and daemon of one attach. The hash stands for BLAKE3. */
  class Attach {
    const ring: DoomRing
    const consumerOpen: bool
    const hash: seq<Byte> -> string
    var store: Store

    /** The ring's invariant, and every stored tensor under its own hash. */
    ghost predicate Valid()
      reads this, ring, ring.bytes
    {
      ring.Valid() && forall id :: id in store ==> hash(store[id]) == id
    }

    /** How far the consumer cursor lags behind: the slots no later request can use. */
    ghost function Lost(): nat
      requires ring.Valid()
      reads ring, ring.bytes
    {
      ring.maketic - ring.nettics
    }

    /** The slots a request can use. */
    ghost function Room(): nat
      requires ring.Valid()
      reads ring, ring.bytes
    {
      ring.config.backuptics - Lost()
    }

    constructor (ring: DoomRing, consumerOpen: bool, hash: seq<Byte> -> string)
      requires ring.Valid()
      ensures Valid() && this.ring == ring && this.consumerOpen == consumerOpen && this.hash == hash && store == map[]
    {
      this.ring, this.consumerOpen, this.hash, store := ring, consumerOpen, hash, map[];
    }

    /** `try_shm_publish`, with the inline fallback of its caller. */
    method Capture(t: Tensor) returns (c: Captured)
      requires ring.Valid()
      modifies ring`maketic, ring`frames, ring.bytes
      ensures ring.Valid() && ring.maketic == old(ring.maketic) + (if c.payload.Shm? then 1 else 0)
      ensures old(ring.frames) <= ring.frames && Describes(hash, ring.config, ring.frames, c, t, old(ring.maketic))
      ensures c.payload.Shm? <==> |t.bytes| <= DataCapacity(ring.config) && old(Lost()) < ring.config.backuptics
      ensures c.payload.Shm? ==> Carries(ring.frames[old(ring.maketic)], AskOf(t), old(ring.maketic))
    {
      var frame := WorkerFrame(t.layer, t.shape, t.bytes, ring.maketic);
      var r := ring.Publish(frame[..HEADER_SIZE], t.bytes);
      if r.Ok? {
        CapturedFrame(ring.config, t, r.value, frame);
        c := Captured(hash(t.bytes), t.dtypeKnown, Shm(SlotOffset(ring.config, r.value), |t.bytes|));
      } else {
        c := Captured(hash(t.bytes), t.dtypeKnown, Inline(t.bytes));
      }
    }

    /** The entries are the worker's for this request, and nothing has been published since. */
    ghost predicate FromWorker(cs: seq<Captured>, call: Call, start: nat, room: nat)
      reads ring
    {
      && |cs| == |call.tensors| && ring.nettics <= start && ring.maketic == start + ShmCount(cs)
      && Collected(hash, ring.config, ring.frames, cs, call.tensors, start, room)
    }

    /** `collect_tensors`: `None` when a conversion raised part-way. */
    method CollectTensors(call: Call) returns (r: Option<seq<Captured>>)
      requires ring.Valid()
      modifies ring`maketic, ring`frames, ring.bytes
      ensures ring.Valid() && ring.maketic == old(ring.maketic) + SlotsTaken(ring.config, call, old(Lost()))
      ensures r.Some? <==> call.failsAt >= |call.tensors|
      ensures r.Some? ==> FromWorker(r.value, call, old(ring.maketic), old(Room()))
    {
      var cs: seq<Captured> := [];
      ghost var start, room := ring.maketic, Room();
      for i := 0 to |call.tensors|
        invariant |cs| == i <= call.failsAt && ring.Valid() && ring.maketic == start + ShmCount(cs)
        invariant Collected(hash, ring.config, ring.frames, cs, call.tensors, start, room)
      {
        if i == call.failsAt {
          PlacedCount(ring.config, cs, call.tensors, room);
          return None;
        }
        ghost var frames := ring.frames;
        var c := Capture(call.tensors[i]);
        CollectedOneMore(hash, ring.config, frames, ring.frames, cs, call.tensors, start, room, c);
        cs := cs + [c];
      }
      PlacedCount(ring.config, cs, call.tensors, room);
      return Some(cs);
    }

    /** `insert_with_id` and `insert`: an id already there keeps its data. */
    method Insert(id: string, data: seq<Byte>, survivors: set<string>)
      requires Valid() && hash(data) == id
      modifies this`store
      ensures Valid() && store == if id in old(store) then old(store) else Inserted(old(store), id, data, survivors)
    {
      if id !in store {
        store := (map k | k in store && k in survivors :: store[k])[id := data];
      }
    }

    /**
     One entry of `ingest_and_respond`: the stored data its summary is computed from. `copied` is
     what was read from the region, if anything was.
     */
    method IngestOne(c: Captured, survivors: set<string>, ghost t: Tensor, ghost j: nat)
      returns (r: Result<seq<Byte>, InspectError>, ghost copied: Option<seq<Byte>>)
      requires Valid() && Describes(hash, ring.config, ring.frames, c, t, j)
      requires c.payload.Shm? ==> ring.nettics <= j
      modifies this`store
      ensures Valid()
      ensures r.Ok? ==> c.id in store && store[c.id] == r.value
      ensures Turn(hash(t.bytes), consumerOpen, t, c.payload.Shm?, survivors, old(store), store, r, copied)
    {
      copied := None;
      if !c.dtypeKnown {
        return Err(UnknownDtype), copied;
      }
      if c.id in store {
        return Ok(store[c.id]), copied;
      }
      match c.payload {
        case Shm(offset, length) =>
          if !consumerOpen {
            return Err(ShmReadFailed), copied;
          }
          var data := ReadFromShm(offset, length, j);
          if data.None? {
            return Err(ShmReadFailed), copied;
          }
          copied := Some(data.value);
          Insert(c.id, data.value, survivors);
        case Inline(data) =>
          Insert(hash(data), data, survivors);
      }
      return Ok(store[c.id]), copied;
    }

    /** Entry `i` of a request that has come as far as that. */
    method IngestNext(cs: seq<Captured>, i: nat, survivors: nat -> set<string>, ghost shown: seq<seq<Byte>>,
                      ghost copied: seq<(nat, seq<Byte>)>, ghost was: Store, ghost call: Call, ghost start: nat,
                      ghost room: nat)
      returns (r: Result<seq<Byte>, InspectError>, ghost more: seq<(nat, seq<Byte>)>)
      requires Valid() && i < |cs| && survivors == call.survivors && FromWorker(cs, call, start, room)
      requires Reached(store, shown, copied, was, call, room, i)
      modifies this`store
      ensures Valid()
      ensures r.Ok? ==> Reached(store, shown + [r.value], more, was, call, room, i + 1)
      ensures r.Err? ==> Ingested(AsDaemon(), room, was, call) == Reply(Err(r.error), more, store)
    {
      assert DescribedAt(hash, ring.config, ring.frames, cs, call.tensors, start, i);
      ShmBeforeMono(cs, i + 1, |cs|);
      ghost var before, got := store, None;
      r, got := IngestOne(cs[i], survivors(i), call.tensors[i], start + ShmBefore(cs, i));
      if r.Err? {
        AnswerStops(before, store, shown, copied, got, was, call, room, i, r.error);
        return r, copied;
      }
      ReachedOne(before, store, shown, r.value, copied, got, was, call, room, i);
      more := if got.Some? then copied + [(i, got.value)] else copied;
    }

    /**
     The loop of `ingest_and_respond`, which counts the slots it has claimed. `copied` is a history
     of what was read from the region, by entry.
     */
    method IngestAll(cs: seq<Captured>, survivors: nat -> set<string>, ghost call: Call, ghost start: nat, ghost room: nat)
      returns (r: Result<seq<seq<Byte>>, InspectError>, consumed: nat, ghost copied: seq<(nat, seq<Byte>)>)
      requires Valid() && survivors == call.survivors && FromWorker(cs, call, start, room)
      modifies this`store
      ensures Valid() && Reply(r, copied, store) == Ingested(AsDaemon(), room, old(store), call)
      ensures r.Ok? ==> consumed == ShmCount(cs)
    {
      ghost var was := store;
      var shown: seq<seq<Byte>> := [];
      consumed, copied := 0, [];
      for i := 0 to |cs|
        invariant Valid() && consumed == ShmBefore(cs, i)
        invariant Reached(store, shown, copied, was, call, room, i)
      {
        var one;
        one, copied := IngestNext(cs, i, survivors, shown, copied, was, call, start, room);
        if one.Err? {
          return Err(one.error), consumed, copied;
        }
        shown := shown + [one.value];
        if cs[i].payload.Shm? {
          consumed := consumed + 1;
        }
      }
      AnswerComplete(store, shown, copied, was, call, room);
      return Ok(shown), consumed, copied;
    }

    /** The loop and the bulk advance behind it. */
    method Ingest(cs: seq<Captured>, survivors: nat -> set<string>, ghost call: Call, ghost start: nat, ghost room: nat)
      returns (r: Result<seq<seq<Byte>>, InspectError>, ghost copied: seq<(nat, seq<Byte>)>)
      requires Valid() && survivors == call.survivors && FromWorker(cs, call, start, room)
      modifies this`store, ring`nettics
      ensures Valid() && Reply(r, copied, store) == Ingested(AsDaemon(), room, old(store), call)
      ensures ring.nettics == old(ring.nettics) + (if r.Ok? && consumerOpen then ShmCount(cs) else 0)
    {
      var consumed;
      r, consumed, copied := IngestAll(cs, survivors, call, start, room);
      if r.Ok? && consumed > 0 && consumerOpen {
        ring.AdvanceBy(consumed);
      }
    }

    ghost function AsDaemon(): Daemon {
      Daemon(hash, ring.config, consumerOpen)
    }

    /** The daemon has come as far as tensor `i`. */
    ghost predicate Reached(s: Store, shown: seq<seq<Byte>>, copied: seq<(nat, seq<Byte>)>, was: Store, call: Call,
                            room: nat, i: nat) {
      && i <= |call.tensors| && s == StoreAfter(hash, was, call, i) && shown == ShownOf(hash, was, call, i)
      && copied == ReadsOf(AsDaemon(), room, was, call, i)
      && EndFrom(AsDaemon(), room, was, call, 0) == EndFrom(AsDaemon(), room, was, call, i)
    }

    lemma ReachedOne(s: Store, after: Store, shown: seq<seq<Byte>>, data: seq<Byte>, copied: seq<(nat, seq<Byte>)>,
                     got: Option<seq<Byte>>, was: Store, call: Call, room: nat, i: nat)
      requires i < |call.tensors| && Reached(s, shown, copied, was, call, room, i)
      requires var t, inRing := call.tensors[i], GoesInRing(ring.config, call.tensors, room, i);
               Turn(hash(t.bytes), consumerOpen, t, inRing, call.survivors(i), s, after, Ok(data), got)
      ensures Reached(after, shown + [data], if got.Some? then copied + [(i, got.value)] else copied,
                      was, call, room, i + 1)
    {
      assert after == StoreAfter(hash, was, call, i + 1);
    }

    lemma AnswerStops(s: Store, after: Store, shown: seq<seq<Byte>>, copied: seq<(nat, seq<Byte>)>,
                      got: Option<seq<Byte>>, was: Store, call: Call, room: nat, i: nat, e: InspectError)
      requires i < |call.tensors| && Reached(s, shown, copied, was, call, room, i)
      requires var t, inRing := call.tensors[i], GoesInRing(ring.config, call.tensors, room, i);
               Turn(hash(t.bytes), consumerOpen, t, inRing, call.survivors(i), s, after, Err(e), got)
      ensures Ingested(AsDaemon(), room, was, call) == Reply(Err(e), copied, after)
    {
    }

    lemma AnswerComplete(s: Store, shown: seq<seq<Byte>>, copied: seq<(nat, seq<Byte>)>, was: Store, call: Call,
                         room: nat)
      requires Reached(s, shown, copied, was, call, room, |call.tensors|)
      ensures Ingested(AsDaemon(), room, was, call) == Reply(Ok(shown), copied, s)
    {
    }

    /** `read_from_shm` at the offset of a slot still between the cursors. */
    method ReadFromShm(offset: nat, length: nat, ghost j: nat) returns (r: Option<seq<Byte>>)
      requires ring.Valid() && ring.nettics <= j < ring.maketic && offset == SlotOffset(ring.config, j)
      requires |ring.frames[j]| == HEADER_SIZE + length
      ensures r == Some(ring.frames[j][HEADER_SIZE..])
    {
      SlotInRegion(ring.config, j);
      assert Stands(ring.bytes[..], offset, ring.frames[j], HEADER_SIZE + length);
      r := ring.ReadAbsolute(offset + HEADER_SIZE, length);
      assert ring.bytes[..][offset..offset + HEADER_SIZE + length] == ring.frames[j];
    }

    /** The daemon's side of a request, from the worker's answer on. */
    method Respond(captured: Option<seq<Captured>>, call: Call, ghost start: nat, ghost room: nat)
      returns (r: Result<seq<seq<Byte>>, InspectError>, ghost copied: seq<(nat, seq<Byte>)>)
      requires Valid() && (captured.None? <==> call.failsAt < |call.tensors|)
      requires captured.Some? ==> FromWorker(captured.value, call, start, room)
      modifies this`store, ring`nettics
      ensures Valid() && Reply(r, copied, store) == Inspected(AsDaemon(), room, old(store), call)
      ensures r.Ok? ==> captured.Some?
      ensures ring.nettics == old(ring.nettics) + if r.Ok? && consumerOpen then ShmCount(captured.value) else 0
    {
      if captured.None? {
        return Err(WorkerFailed), [];
      }
      if !call.admitted {
        return Err(NotAdmitted), [];
      }
      if captured.value == [] {
        return Err(NothingCaptured), [];
      }
      r, copied := Ingest(captured.value, call.survivors, call, start, room);
    }

    /**
     One inspect request end to end. Whatever goes wrong, the consumer cursor stays behind the
     producer's and the store stays sound; but a request that ends in an error leaves the slots it
     took unclaimed for good. The answer, the reads and the store are those of `Inspected`.
     */
    method Inspect(call: Call) returns (r: Result<seq<seq<Byte>>, InspectError>, ghost copied: seq<(nat, seq<Byte>)>)
      requires Valid()
      modifies this`store, ring, ring.bytes
      ensures Valid() && ring.maketic == old(ring.maketic) + SlotsTaken(ring.config, call, old(Lost()))
      ensures Lost() == old(Lost()) + SlotsLost(ring.config, consumerOpen, call, old(Lost()))
      ensures Reply(r, copied, store) == Inspected(AsDaemon(), old(Room()), old(store), call)
      ensures r.Ok? ==> Goes(call) && hash(call.tensors[|call.tensors| - 1].bytes) in store
      ensures consumerOpen ==> (r.Ok? <==> Goes(call))
    {
      ghost var room := Room();
      var captured := CollectTensors(call);
      InspectedHolds(AsDaemon(), room, store, call);
      r, copied := Respond(captured, call, old(ring.maketic), room);
    }

    /** How the attach stands after the given replies. */
    ghost function Standing(replies: seq<Reply>): Served
      requires ring.Valid()
      reads this, ring, ring.bytes
    {
      Served(Lost(), store, replies)
    }

    /** Any run of requests, served one by one. */
    method Serve(calls: seq<Call>) returns (ghost replies: seq<Reply>)
      requires Valid()
      modifies this`store, ring, ring.bytes
      ensures Valid() && Standing(replies) == ServedAfter(AsDaemon(), old(Standing([])), calls, |calls|)
      ensures Lost() == Min(old(Lost()) + Demand(ring.config, consumerOpen, calls, |calls|), ring.config.backuptics)
      ensures old(Lost()) == ring.config.backuptics ==> ring.maketic == old(ring.maketic)
    {
      replies := [];
      ghost var start := Standing([]);
      for i := 0 to |calls|
        invariant Valid() && Standing(replies) == ServedAfter(AsDaemon(), start, calls, i)
        invariant start.lost == ring.config.backuptics ==> ring.maketic == old(ring.maketic)
      {
        replies := ServeNext(calls[i], replies);
      }
      LossIsSum(AsDaemon(), start, calls, |calls|);
    }

    method ServeNext(call: Call, ghost replies: seq<Reply>) returns (ghost more: seq<Reply>)
      requires Valid()
      modifies this`store, ring, ring.bytes
      ensures Valid() && Standing(more) == ServedOne(AsDaemon(), old(Standing(replies)), call)
      ensures ring.maketic == old(ring.maketic) + SlotsTaken(ring.config, call, old(Lost()))
    {
      var r;
      ghost var copied;
      ghost var d, before, lost, room := AsDaemon(), store, Lost(), Room();
      assert d.config == ring.config && d.open == consumerOpen && room == d.config.backuptics - lost;
      r, copied := Inspect(call);
      ghost var reply := Reply(r, copied, store);
      ServedBy(d, Served(lost, before, replies), call, room, reply, Lost());
      more := replies + [reply];
    }
  }

  /** One tensor of an unknown dtype through a fresh ring of four slots: one slot is gone. */
  method UnknownDtypeLoses(hash: seq<Byte> -> string) returns (lost: nat)
    ensures lost == 1
  {
    var config := Config(4, 256);
    assert Accepted(config) by {
      assert 4 == Pow2(2);
    }
    var ring := new DoomRing(config);
    var attach := new Attach(ring, true, hash);
    var call := Call([Tensor(0, [2], false, [7, 7])], 1, true, _ => {});
    assert !Goes(call) by {
      assert !call.tensors[0].dtypeKnown;
    }
    assert Fitting(config, call.tensors, 1) == 1;
    ghost var copied;
    var r;
    r, copied := attach.Inspect(call);
    lost := ring.maketic - ring.nettics;
  }
}
