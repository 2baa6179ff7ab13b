/**
 DOOMRING under free interleaving of its one producer and one consumer
 (crates/rocket-surgeon-shm/src/ring.rs). The shared state is the slot bytes and the two
 cursors. A cursor load, a cursor store and the copy of one single byte are each one step, so
 a reader could see a half-written slot if the protocol let it.
 */
module RingProtocol {
  import opened Prelude
  import opened Bits
  import opened RingConfig
  import opened ProbeFrame

  /** A header followed by its tensor bytes. */
  type Frame = seq<Byte>

  datatype ProducerPc =
    | ProducerIdle
    | LoadNettics(frame: Frame)
    | CopyIn(frame: Frame, done: nat)
    | StoreMaketic(frame: Frame)
    | ProducerFailed      // a write outside the region

  type HeaderBytes = s: seq<Byte> | |s| == HEADER_SIZE witness Zeros(HEADER_SIZE)

  datatype ConsumerError = OutOfBounds | ReadOutOfBounds | StaleSlot

  datatype ConsumerPc =
    | ConsumerIdle
    | LoadMaketic
    | CopyHeader(got: seq<Byte>)
    | Validate(header: HeaderBytes)
    | CopyData(header: HeaderBytes, data: seq<Byte>)
    | Returned(frame: Frame)
    | CopyAbsolute(cursor: nat, offset: nat, length: nat, bytes: seq<Byte>)
    | ReadOut(cursor: nat, bytes: seq<Byte>)
    | Failed(error: ConsumerError)

  datatype Ring = Ring(
    config: LiveConfig,
    bytes: seq<Byte>,
    maketic: nat,                 // shared
    nettics: nat,                 // shared
    producerPc: ProducerPc,
    localMaketic: nat,
    consumerPc: ConsumerPc,
    localNettics: nat,
    published: seq<Frame>,        // history: every frame whose publish returned
    taken: seq<Frame>)            // history: every frame advanced past

  /**
   The step labels: what the producer is asked to publish is the caller's choice. `ReadAbsolute`
   starts the daemon's `read_absolute` of the frame at a cursor the worker told it about, and
   `AdvanceBy` is its bulk advance.
   */
  datatype Step =
    | Publish(layer: U32, shape: seq<nat>, data: seq<Byte>)
    | ProducerGoesOn
    | TryConsume
    | ConsumerGoesOn
    | Advance
    | ReadAbsolute(cursor: nat)
    | AdvanceBy(count: nat)

  /** The frame the worker builds for a tensor when its cursor is `cursor` (`try_shm_publish`). */
  function WorkerFrame(layer: U32, shape: seq<nat>, data: seq<Byte>, cursor: nat): (f: Frame)
    ensures |f| == HEADER_SIZE + |data|
  {
    var dims := seq(8, i requires 0 <= i < 8 => if i < |shape| then shape[i] % U32_LIMIT else 0);
    Header(Fields(0, layer, 0, 0, Min(|shape|, 8), dims, 0, 0, |data|, 0, cursor % U32_LIMIT)) + data
  }

  ghost predicate WellFormed(r: Ring) {
    Accepted(r.config) && |r.bytes| == RegionSize(r.config)
  }

  predicate Enabled(r: Ring, step: Step) {
    match step
    case Publish(_, _, _) => r.producerPc.ProducerIdle?
    case ProducerGoesOn => !r.producerPc.ProducerIdle? && !r.producerPc.ProducerFailed?
    case TryConsume => ConsumerRests(r)
    case ConsumerGoesOn => !ConsumerRests(r) && !r.consumerPc.Failed?
    case Advance => r.consumerPc.Returned?
    // the worker has reported the frame, and the daemon has not advanced past it
    case ReadAbsolute(cursor) => ConsumerRests(r) && r.localNettics <= cursor < |r.published|
    // what `advance_by` asks of its caller
    case AdvanceBy(count) => ConsumerRests(r) && r.localNettics + count <= |r.published|
  }

  /** The consumer is between two calls. */
  predicate ConsumerRests(r: Ring) {
    r.consumerPc.ConsumerIdle? || r.consumerPc.Returned? || r.consumerPc.ReadOut?
  }

  function PublishStep(r: Ring, layer: U32, shape: seq<nat>, data: seq<Byte>): Ring
  {
    if |data| > DataCapacity(r.config) then r   // TensorTooLarge
    else r.(producerPc := LoadNettics(WorkerFrame(layer, shape, data, r.localMaketic)))
  }

  function ProducerStep(r: Ring): Ring
    requires Enabled(r, ProducerGoesOn)
  {
    match r.producerPc
    case LoadNettics(frame) =>
      if r.localMaketic - r.nettics >= r.config.backuptics then r.(producerPc := ProducerIdle)  // RingFull
      else r.(producerPc := CopyIn(frame, 0))
    case CopyIn(frame, done) =>
      var at := SlotOffset(r.config, r.localMaketic) + done;
      if done >= |frame| then r.(producerPc := StoreMaketic(frame))
      else if at >= |r.bytes| then r.(producerPc := ProducerFailed)
      else r.(bytes := r.bytes[at := frame[done]], producerPc := CopyIn(frame, done + 1))
    case StoreMaketic(frame) =>
      r.(localMaketic := r.localMaketic + 1, maketic := r.localMaketic + 1, producerPc := ProducerIdle,
         published := r.published + [frame])
  }

  function ConsumerStep(r: Ring): Ring
    requires Enabled(r, ConsumerGoesOn)
  {
    var slot := SlotOffset(r.config, r.localNettics);
    match r.consumerPc
    case LoadMaketic =>
      if r.maketic == r.localNettics then r.(consumerPc := ConsumerIdle)
      else r.(consumerPc := CopyHeader([]))
    case CopyHeader(got) =>
      if |got| == HEADER_SIZE then r.(consumerPc := Validate(got))
      else if slot + |got| >= |r.bytes| then r.(consumerPc := Failed(OutOfBounds))
      else r.(consumerPc := CopyHeader(got + [r.bytes[slot + |got|]]))
    case Validate(header) =>
      if SizeField(header) > DataCapacity(r.config) then r.(consumerPc := Failed(ReadOutOfBounds))
      else if GenerationField(header) != r.localNettics % U32_LIMIT then r.(consumerPc := Failed(StaleSlot))
      else r.(consumerPc := CopyData(header, []))
    case CopyData(header, data) =>
      var at := slot + HEADER_SIZE + |data|;
      if |data| >= SizeField(header) then r.(consumerPc := Returned(header + data))
      else if at >= |r.bytes| then r.(consumerPc := Failed(OutOfBounds))
      else r.(consumerPc := CopyData(header, data + [r.bytes[at]]))
    case CopyAbsolute(cursor, offset, length, bytes) =>
      var at := offset + HEADER_SIZE + |bytes|;
      if |bytes| >= length then r.(consumerPc := ReadOut(cursor, bytes))
      else if at >= |r.bytes| then r.(consumerPc := Failed(OutOfBounds))
      else r.(consumerPc := CopyAbsolute(cursor, offset, length, bytes + [r.bytes[at]]))
  }

  /** The daemon's read, with the offset and length the worker reported for that frame. */
  function ReadStep(r: Ring, cursor: nat): Ring
    requires cursor < |r.published|
  {
    var length := Max(|r.published[cursor]| - HEADER_SIZE, 0);
    r.(consumerPc := CopyAbsolute(cursor, SlotOffset(r.config, cursor), length, []))
  }

  function AdvanceByStep(r: Ring, count: nat): Ring
    requires r.localNettics + count <= |r.published|
  {
    r.(localNettics := r.localNettics + count, nettics := r.localNettics + count, consumerPc := ConsumerIdle,
       taken := r.taken + r.published[r.localNettics..r.localNettics + count])
  }

  function AdvanceStep(r: Ring): Ring
    requires r.consumerPc.Returned?
  {
    r.(localNettics := r.localNettics + 1, nettics := r.localNettics + 1, consumerPc := ConsumerIdle,
       taken := r.taken + [r.consumerPc.frame])
  }

  function Perform(r: Ring, step: Step): Ring
    requires Enabled(r, step)
  {
    match step
    case Publish(layer, shape, data) => PublishStep(r, layer, shape, data)
    case ProducerGoesOn => ProducerStep(r)
    case TryConsume => r.(consumerPc := LoadMaketic)
    case ConsumerGoesOn => ConsumerStep(r)
    case Advance => AdvanceStep(r)
    case ReadAbsolute(cursor) => ReadStep(r, cursor)
    case AdvanceBy(count) => AdvanceByStep(r, count)
  }

  // ----- the invariant -----

  /** The first `n` bytes of `frame` stand at `at`. */
  predicate Stands(bytes: seq<Byte>, at: nat, frame: Frame, n: nat) {
    && n <= |frame| && at + n <= |bytes|
    && forall i :: 0 <= i < n ==> bytes[at + i] == frame[i]
  }

  /** A frame as the worker builds it for cursor position `j`. */
  predicate Genuine(c: Config, frame: Frame, j: nat) {
    && HEADER_SIZE <= |frame| <= c.slotSize
    && SizeField(frame[..HEADER_SIZE]) == |frame| - HEADER_SIZE
    && GenerationField(frame[..HEADER_SIZE]) == j % U32_LIMIT
  }

  predicate Cursors(r: Ring) {
    && r.maketic == r.localMaketic == |r.published| && r.nettics == r.localNettics == |r.taken|
    && r.nettics <= r.maketic <= r.nettics + r.config.backuptics
  }

  predicate Contents(r: Ring) {
    && (forall j :: 0 <= j < |r.published| ==> Genuine(r.config, r.published[j], j))
    && (forall j :: r.nettics <= j < |r.published| ==>
                      Stands(r.bytes, SlotOffset(r.config, j), r.published[j], |r.published[j]|))
    && r.taken == Take(r.published, |r.taken|)
  }

  predicate ProducerOk(r: Ring) {
    var slot := SlotOffset(r.config, r.localMaketic);
    match r.producerPc
    case ProducerIdle => true
    case ProducerFailed => false
    case LoadNettics(frame) => Genuine(r.config, frame, r.localMaketic)
    case CopyIn(frame, done) =>
      && Genuine(r.config, frame, r.localMaketic) && r.maketic - r.nettics < r.config.backuptics
      && Stands(r.bytes, slot, frame, done)
    case StoreMaketic(frame) =>
      && Genuine(r.config, frame, r.localMaketic) && r.maketic - r.nettics < r.config.backuptics
      && Stands(r.bytes, slot, frame, |frame|)
  }

  predicate ConsumerOk(r: Ring) {
    match r.consumerPc
    case ConsumerIdle | LoadMaketic => true
    case CopyHeader(got) =>
      r.nettics < |r.published| && |got| <= HEADER_SIZE && got <= r.published[r.nettics]
    case Validate(header) =>
      r.nettics < |r.published| && header <= r.published[r.nettics]
    case CopyData(header, data) =>
      r.nettics < |r.published| && header + data <= r.published[r.nettics]
    case Returned(frame) => r.nettics < |r.published| && frame == r.published[r.nettics]
    case CopyAbsolute(cursor, offset, length, bytes) =>
      && r.nettics <= cursor < |r.published| && offset == SlotOffset(r.config, cursor)
      && |r.published[cursor]| == HEADER_SIZE + length && bytes <= r.published[cursor][HEADER_SIZE..]
    case ReadOut(cursor, bytes) =>
      && r.nettics <= cursor < |r.published| && |r.published[cursor]| >= HEADER_SIZE
      && bytes == r.published[cursor][HEADER_SIZE..]
    case Failed(_) => false
  }

  ghost predicate Inv(r: Ring) {
    WellFormed(r) && Cursors(r) && Contents(r) && ProducerOk(r) && ConsumerOk(r)
  }

  /** A freshly created region with both cursors at zero. */
  ghost predicate Initial(r: Ring) {
    && WellFormed(r) && r.maketic == r.nettics == r.localMaketic == r.localNettics == 0
    && r.producerPc.ProducerIdle? && r.consumerPc.ConsumerIdle? && r.published == [] && r.taken == []
  }

  // ----- every step keeps it -----

  lemma WorkerFrameGenuine(c: Config, layer: U32, shape: seq<nat>, data: seq<Byte>, cursor: nat)
    requires Accepted(c) && |data| <= DataCapacity(c)
    ensures Genuine(c, WorkerFrame(layer, shape, data, cursor), cursor)
  {
    var dims := seq(8, i requires 0 <= i < 8 => if i < |shape| then shape[i] % U32_LIMIT else 0);
    var f := Fields(0, layer, 0, 0, Min(|shape|, 8), dims, 0, 0, |data|, 0, cursor % U32_LIMIT);
    assert WorkerFrame(layer, shape, data, cursor)[..HEADER_SIZE] == Header(f);
    SlotInRegion(c, cursor);
    HeaderFields(f);
  }

  /** The byte being written lies in no slot whose frame is still to be consumed. */
  lemma WriteTouchesNoLiveSlot(r: Ring, j: nat, i: nat)
    requires Inv(r) && r.producerPc.CopyIn? && r.producerPc.done < |r.producerPc.frame|
    requires r.nettics <= j < |r.published| && i < r.config.slotSize
    ensures SlotOffset(r.config, r.localMaketic) + r.producerPc.done < |r.bytes|
    ensures SlotOffset(r.config, r.localMaketic) + r.producerPc.done != SlotOffset(r.config, j) + i
  {
    SlotInRegion(r.config, r.localMaketic);
    SlotsDisjoint(r.config, j, r.localMaketic);
  }

  lemma CopyInKeeps(r: Ring)
    requires Inv(r) && r.producerPc.CopyIn?
    ensures Inv(ProducerStep(r))
  {
    var frame, done := r.producerPc.frame, r.producerPc.done;
    SlotInRegion(r.config, r.localMaketic);
    if done < |frame| {
      forall j | r.nettics <= j < |r.published|
        ensures Stands(ProducerStep(r).bytes, SlotOffset(r.config, j), r.published[j], |r.published[j]|)
      {
        forall i | 0 <= i < |r.published[j]|
          ensures ProducerStep(r).bytes[SlotOffset(r.config, j) + i] == r.published[j][i]
        {
          WriteTouchesNoLiveSlot(r, j, i);
        }
      }
    }
  }

  lemma StoreKeeps(r: Ring)
    requires Inv(r) && r.producerPc.StoreMaketic?
    ensures Inv(ProducerStep(r))
  {
  }

  lemma ProducerKeeps(r: Ring)
    requires Inv(r) && Enabled(r, ProducerGoesOn)
    ensures Inv(ProducerStep(r))
  {
    match r.producerPc {
      case LoadNettics(_) => SlotInRegion(r.config, r.localMaketic);
      case CopyIn(_, _) => CopyInKeeps(r);
      case StoreMaketic(_) => StoreKeeps(r);
    }
  }

  /** The consumer's next state is right, given the frame standing in its slot. */
  lemma ConsumerReads(r: Ring, frame: Frame)
    requires r.nettics == r.localNettics < |r.published| && frame == r.published[r.nettics] && ConsumerOk(r)
    requires r.consumerPc.CopyHeader? || r.consumerPc.Validate? || r.consumerPc.CopyData?
    requires Genuine(r.config, frame, r.nettics) && Stands(r.bytes, SlotOffset(r.config, r.nettics), frame, |frame|)
    ensures ConsumerOk(ConsumerStep(r))
  {
    match r.consumerPc {
      case CopyHeader(got) =>
      case Validate(header) => assert header == frame[..HEADER_SIZE];
      case CopyData(header, data) => assert header == frame[..HEADER_SIZE];
    }
  }

  lemma AbsoluteReads(r: Ring, frame: Frame)
    requires r.consumerPc.CopyAbsolute? && r.consumerPc.cursor < |r.published|
    requires frame == r.published[r.consumerPc.cursor] && ConsumerOk(r)
    requires Stands(r.bytes, SlotOffset(r.config, r.consumerPc.cursor), frame, |frame|)
    ensures ConsumerOk(ConsumerStep(r))
  {
    var got, rest := r.consumerPc.bytes, frame[HEADER_SIZE..];
    if |got| < |rest| {
      assert rest[|got|] == frame[HEADER_SIZE + |got|];
    }
  }

  lemma LoadMaketicReads(r: Ring)
    requires Cursors(r) && r.consumerPc.LoadMaketic?
    ensures ConsumerOk(ConsumerStep(r))
  {
  }

  lemma ConsumerMoves(r: Ring)
    requires Inv(r) && Enabled(r, ConsumerGoesOn)
    ensures ConsumerOk(ConsumerStep(r))
  {
    if r.consumerPc.LoadMaketic? {
      LoadMaketicReads(r);
    } else if r.consumerPc.CopyAbsolute? {
      AbsoluteReads(r, r.published[r.consumerPc.cursor]);
    } else {
      ConsumerReads(r, r.published[r.nettics]);
    }
  }

  lemma ConsumerFrame(r: Ring)
    requires Enabled(r, ConsumerGoesOn)
    ensures ConsumerStep(r) == r.(consumerPc := ConsumerStep(r).consumerPc)
  {
  }

  /** The rest of the invariant does not look at the consumer's program counter. */
  lemma OnlyConsumerPc(r: Ring, t: Ring)
    requires Inv(r) && t == r.(consumerPc := t.consumerPc) && ConsumerOk(t)
    ensures Inv(t)
  {
  }

  lemma ConsumerKeeps(r: Ring)
    requires Inv(r) && Enabled(r, ConsumerGoesOn)
    ensures Inv(ConsumerStep(r))
  {
    ConsumerMoves(r);
    ConsumerFrame(r);
    OnlyConsumerPc(r, ConsumerStep(r));
  }

  lemma AdvanceKeeps(r: Ring)
    requires Inv(r) && r.consumerPc.Returned?
    ensures Inv(AdvanceStep(r))
  {
    assert r.published[..|r.taken| + 1] == r.published[..|r.taken|] + [r.published[|r.taken|]];
  }

  lemma AdvanceByKeeps(r: Ring, count: nat)
    requires Inv(r) && r.localNettics + count <= |r.published|
    ensures Inv(AdvanceByStep(r, count))
  {
    var n := |r.taken|;
    assert r.published[..n + count] == r.published[..n] + r.published[n..n + count];
  }

  lemma PublishKeeps(r: Ring, layer: U32, shape: seq<nat>, data: seq<Byte>)
    requires Inv(r) && r.producerPc.ProducerIdle?
    ensures Inv(PublishStep(r, layer, shape, data))
  {
    if |data| <= DataCapacity(r.config) {
      WorkerFrameGenuine(r.config, layer, shape, data, r.localMaketic);
    }
  }

  lemma StepKeeps(r: Ring, step: Step)
    requires Inv(r) && Enabled(r, step)
    ensures Inv(Perform(r, step))
  {
    match step {
      case Publish(layer, shape, data) => PublishKeeps(r, layer, shape, data);
      case ProducerGoesOn => ProducerKeeps(r);
      case TryConsume => OnlyConsumerPc(r, Perform(r, step));
      case ConsumerGoesOn => ConsumerKeeps(r);
      case Advance => AdvanceKeeps(r);
      case ReadAbsolute(cursor) => OnlyConsumerPc(r, Perform(r, step));
      case AdvanceBy(count) => AdvanceByKeeps(r, count);
    }
  }

  // ----- whole runs -----

  /** A run: any schedule of the two sides, any tensors. */
  ghost predicate IsRun(run: seq<Ring>, steps: seq<Step>) {
    && |run| == |steps| + 1 && Initial(run[0])
    && forall i :: 0 <= i < |steps| ==> Enabled(run[i], steps[i]) && run[i + 1] == Perform(run[i], steps[i])
  }

  lemma {:induction false} RunInv(run: seq<Ring>, steps: seq<Step>, i: nat)
    requires IsRun(run, steps) && i < |run|
    ensures Inv(run[i])
  {
    if i > 0 {
      RunInv(run, steps, i - 1);
      StepKeeps(run[i - 1], steps[i - 1]);
    }
  }

  /**
   The ring is a queue: what the consumer has taken is a prefix of what was published, byte for
   byte, and never more than a lap behind. What a read by absolute offset returns is the tensor
   published there, however the producer moved meanwhile.
   */
  lemma RingIsQueue(run: seq<Ring>, steps: seq<Step>, i: nat)
    requires IsRun(run, steps) && i < |run|
    ensures var r := run[i];
            && r.taken == Take(r.published, |r.taken|)
            && |r.taken| == r.nettics <= r.maketic == |r.published| <= r.nettics + r.config.backuptics
            && (r.consumerPc.Returned? ==> r.nettics < r.maketic && r.consumerPc.frame == r.published[r.nettics])
            && (r.consumerPc.ReadOut? ==>
                  var j := r.consumerPc.cursor;
                  && r.nettics <= j < r.maketic && |r.published[j]| >= HEADER_SIZE
                  && r.consumerPc.bytes == r.published[j][HEADER_SIZE..])
  {
    RunInv(run, steps, i);
  }

  /**
   With frames built as the worker builds them, the consumer never reports a stale slot or an
   oversized read, at any cursor value and so past every wrap of the 32-bit generation; and
   neither side ever leaves the region.
   */
  lemma NeitherSideFails(run: seq<Ring>, steps: seq<Step>, i: nat)
    requires IsRun(run, steps) && i < |run|
    ensures !run[i].consumerPc.Failed? && !run[i].producerPc.ProducerFailed?
  {
    RunInv(run, steps, i);
  }

  /** No write in progress shares a byte with a slot that is published and not yet consumed. */
  lemma WritesAvoidLiveSlots(run: seq<Ring>, steps: seq<Step>, i: nat, j: nat, k: nat)
    requires IsRun(run, steps) && i < |run|
    requires var r := run[i];
             && r.producerPc.CopyIn? && r.producerPc.done < |r.producerPc.frame|
             && r.nettics <= j < r.maketic && k < r.config.slotSize
    ensures var r := run[i];
            SlotOffset(r.config, r.localMaketic) + r.producerPc.done != SlotOffset(r.config, j) + k
  {
    RunInv(run, steps, i);
    WriteTouchesNoLiveSlot(run[i], j, k);
  }
}
