/** What the ring delivers is what the worker was asked to publish. */
module RingDelivery {
  import opened Prelude
  import opened Bits
  import opened RingConfig
  import opened ProbeFrame
  import opened RingProtocol

  /** A tensor the worker is asked to publish. */
  datatype Ask = Ask(layer: U32, shape: seq<nat>, data: seq<Byte>)

  /**
   A frame at cursor `cursor` carries a tensor: its bytes behind the header, and in the header its
   layer, the number of its dimensions and the dimensions themselves, at most eight of them and
   each cut to 32 bits, its size and the cursor's generation. All else is zero.
   */
  predicate Carries(f: Frame, ask: Ask, cursor: nat) {
    && |f| == HEADER_SIZE + |ask.data| && f[HEADER_SIZE..] == ask.data
    && var h := ReadFields(f[..HEADER_SIZE]);
    && h.layer == ask.layer && h.size == |ask.data| && h.generation == cursor % 0x1_0000_0000
    && h.ndim == (if |ask.shape| < 8 then |ask.shape| else 8) && |h.shape| == 8
    && (forall i :: 0 <= i < 8 ==> h.shape[i] == if i < |ask.shape| then ask.shape[i] % 0x1_0000_0000 else 0)
    && h.rank == h.compId == h.tickId == h.dataOff == h.flags == 0 && h.dtype == 0
  }

  lemma WorkerFrameCarries(ask: Ask, cursor: nat)
    requires |ask.data| < U64_LIMIT
    ensures Carries(WorkerFrame(ask.layer, ask.shape, ask.data, cursor), ask, cursor)
  {
    var dims := seq(8, i requires 0 <= i < 8 => if i < |ask.shape| then ask.shape[i] % U32_LIMIT else 0);
    var f := Fields(0, ask.layer, 0, 0, Min(|ask.shape|, 8), dims, 0, 0, |ask.data|, 0, cursor % U32_LIMIT);
    assert WorkerFrame(ask.layer, ask.shape, ask.data, cursor) == Header(f) + ask.data;
    assert (Header(f) + ask.data)[..HEADER_SIZE] == Header(f);
    assert (Header(f) + ask.data)[HEADER_SIZE..] == ask.data;
    HeaderRoundTrip(f);
  }

  /** What the consumer's last call was for. */
  datatype Want = Nothing | NextFrame | FrameAt(cursor: nat)

  /**
   What has been granted so far, in order, and what is being worked on; how many frames the
   consumer was told to pass, and what it asked for.
   */
  datatype Ledger = Ledger(granted: seq<Ask>, pending: Option<Ask>, passed: nat, wanted: Want)

  /**
   The ledger after a step. A tensor that does not fit a slot is refused, and so is one that finds
   the ring full when the producer looks; any other is granted in the end. A consume that finds
   nothing published is over.
   */
  function Entered(r: Ring, step: Step, b: Ledger): Ledger {
    match step
    case Publish(layer, shape, data) =>
      if |data| <= r.config.slotSize - HEADER_SIZE then b.(pending := Some(Ask(layer, shape, data))) else b
    case ProducerGoesOn =>
      if r.producerPc.LoadNettics? && r.maketic == r.nettics + r.config.backuptics then b.(pending := None)
      else if r.producerPc.StoreMaketic? && b.pending.Some? then
        b.(granted := b.granted + [b.pending.value], pending := None)
      else b
    case TryConsume => b.(wanted := NextFrame)
    case ConsumerGoesOn =>
      if r.consumerPc.LoadMaketic? && r.maketic == r.nettics then b.(wanted := Nothing) else b
    case Advance => b.(passed := b.passed + 1, wanted := Nothing)
    case ReadAbsolute(cursor) => b.(wanted := FrameAt(cursor))
    case AdvanceBy(count) => b.(passed := b.passed + count, wanted := Nothing)
  }

  function LedgerAt(run: seq<Ring>, steps: seq<Step>, n: nat): Ledger
    requires n <= |steps| && |run| == |steps| + 1
  {
    if n == 0 then Ledger([], None, 0, Nothing) else Entered(run[n - 1], steps[n - 1], LedgerAt(run, steps, n - 1))
  }

  /** The frame the producer is at work on. */
  function InHand(pc: ProducerPc): Option<Frame> {
    match pc
    case LoadNettics(frame) => Some(frame)
    case CopyIn(frame, _) => Some(frame)
    case StoreMaketic(frame) => Some(frame)
    case _ => None
  }

  /** The most steps the producer's call can still take. */
  function ProducerLeft(pc: ProducerPc): nat {
    match pc
    case LoadNettics(frame) => |frame| + 3
    case CopyIn(frame, done) => Max(|frame| - done, 0) + 2
    case StoreMaketic(_) => 1
    case _ => 0
  }

  function WantOf(pc: ConsumerPc): Want {
    match pc
    case ConsumerIdle | Failed(_) => Nothing
    case LoadMaketic | CopyHeader(_) | Validate(_) | CopyData(_, _) | Returned(_) => NextFrame
    case CopyAbsolute(cursor, _, _, _) => FrameAt(cursor)
    case ReadOut(cursor, _) => FrameAt(cursor)
  }

  /** The producer's half: what was published carries what was granted, and so does the frame in hand. */
  predicate Granted(published: seq<Frame>, pc: ProducerPc, cursor: nat, granted: seq<Ask>, pending: Option<Ask>) {
    && |published| == |granted|
    && (forall j :: 0 <= j < |granted| ==> Carries(published[j], granted[j], j))
    && match InHand(pc)
       case None => pending.None?
       case Some(frame) => pending.Some? && Carries(frame, pending.value, cursor)
  }

  predicate Booked(r: Ring, b: Ledger) {
    && Granted(r.published, r.producerPc, r.localMaketic, b.granted, b.pending)
    && |r.taken| == b.passed && WantOf(r.consumerPc) == b.wanted
  }

  lemma PublishBooks(r: Ring, b: Ledger, layer: U32, shape: seq<nat>, data: seq<Byte>)
    requires Inv(r) && r.producerPc.ProducerIdle? && Booked(r, b)
    ensures Booked(PublishStep(r, layer, shape, data), Entered(r, Publish(layer, shape, data), b))
  {
    if |data| <= DataCapacity(r.config) {
      SlotInRegion(r.config, r.localMaketic);
      WorkerFrameCarries(Ask(layer, shape, data), r.localMaketic);
    }
  }

  /** A publish under way is given up exactly when the ring is full, and else keeps its frame to the end. */
  lemma ProducerMoves(r: Ring, t: Ring)
    requires Inv(r) && Enabled(r, ProducerGoesOn) && t == ProducerStep(r)
    ensures if r.producerPc.LoadNettics? && r.maketic == r.nettics + r.config.backuptics then
              InHand(t.producerPc).None? && t.published == r.published
            else if r.producerPc.StoreMaketic? then
              InHand(t.producerPc).None? && t.published == r.published + [r.producerPc.frame]
            else
              && InHand(t.producerPc) == InHand(r.producerPc)
              && t.published == r.published && t.localMaketic == r.localMaketic
    ensures ProducerLeft(t.producerPc) < ProducerLeft(r.producerPc)
  {
    SlotInRegion(r.config, r.localMaketic);
  }

  lemma ProducerBooks(r: Ring, b: Ledger)
    requires Inv(r) && Enabled(r, ProducerGoesOn) && Booked(r, b)
    ensures Booked(ProducerStep(r), Entered(r, ProducerGoesOn, b))
  {
    ProducerMoves(r, ProducerStep(r));
  }

  lemma ConsumerBooks(r: Ring, b: Ledger)
    requires Inv(r) && Enabled(r, ConsumerGoesOn) && Booked(r, b)
    ensures Booked(ConsumerStep(r), Entered(r, ConsumerGoesOn, b))
  {
    ConsumerFrame(r);
    ConsumerEnds(r, ConsumerStep(r));
  }

  /** The consumer's other calls. */
  lemma CallBooks(r: Ring, step: Step, b: Ledger)
    requires Inv(r) && Enabled(r, step) && Booked(r, b)
    requires step.TryConsume? || step.Advance? || step.ReadAbsolute? || step.AdvanceBy?
    ensures Booked(Perform(r, step), Entered(r, step, b))
  {
    var t := Perform(r, step);
    assert t.published == r.published && t.producerPc == r.producerPc && t.localMaketic == r.localMaketic;
  }

  lemma StepBooks(r: Ring, step: Step, b: Ledger)
    requires Inv(r) && Enabled(r, step) && Booked(r, b)
    ensures Booked(Perform(r, step), Entered(r, step, b))
  {
    match step {
      case Publish(layer, shape, data) => PublishBooks(r, b, layer, shape, data);
      case ProducerGoesOn => ProducerBooks(r, b);
      case ConsumerGoesOn => ConsumerBooks(r, b);
      case _ => CallBooks(r, step, b);
    }
  }

  lemma {:induction false} RunBooks(run: seq<Ring>, steps: seq<Step>, i: nat)
    requires IsRun(run, steps) && i < |run|
    ensures Booked(run[i], LedgerAt(run, steps, i))
  {
    if i > 0 {
      RunBooks(run, steps, i - 1);
      RunInv(run, steps, i - 1);
      StepBooks(run[i - 1], steps[i - 1], LedgerAt(run, steps, i - 1));
    }
  }

  /**
   In every interleaving the frames published carry exactly the tensors granted, in order, the
   consumer has passed as many as it was told to, and what it gets back, either way it reads, is the
   tensor granted at the cursor it asked for.
   */
  lemma Delivered(run: seq<Ring>, steps: seq<Step>, i: nat)
    requires IsRun(run, steps) && i < |run|
    ensures var r, b := run[i], LedgerAt(run, steps, i);
            var granted := b.granted;
            && |r.published| == |granted| && (forall j :: 0 <= j < |granted| ==> Carries(r.published[j], granted[j], j))
            && |r.taken| == b.passed <= |granted| && (forall j :: 0 <= j < |r.taken| ==> Carries(r.taken[j], granted[j], j))
            && (r.consumerPc.Returned? ==>
                  && b.wanted == NextFrame && b.passed < |granted|
                  && Carries(r.consumerPc.frame, granted[b.passed], b.passed))
            && (r.consumerPc.ReadOut? ==>
                  && b.wanted.FrameAt? && b.passed <= b.wanted.cursor < |granted|
                  && r.consumerPc.bytes == granted[b.wanted.cursor].data)
  {
    RunBooks(run, steps, i);
    RingIsQueue(run, steps, i);
  }

  // ----- no call of the consumer gets stuck -----

  /** A bound on the steps the consumer's call can still take on a region of `n` bytes. */
  function ConsumerLeft(pc: ConsumerPc, n: nat): nat {
    match pc
    case LoadMaketic => n + HEADER_SIZE + 4
    case CopyHeader(got) => n + Max(HEADER_SIZE - |got|, 0) + 3
    case Validate(_) => n + 2
    case CopyData(_, data) => Max(n - |data|, 0) + 1
    case CopyAbsolute(_, _, _, bytes) => Max(n - |bytes|, 0) + 1
    case _ => 0
  }

  /** A consume or a read ends; a consume comes back empty exactly when there is nothing to consume. */
  lemma ConsumerEnds(r: Ring, t: Ring)
    requires Inv(r) && Enabled(r, ConsumerGoesOn) && t == ConsumerStep(r)
    ensures ConsumerLeft(t.consumerPc, |r.bytes|) < ConsumerLeft(r.consumerPc, |r.bytes|)
    ensures WantOf(t.consumerPc) ==
            if r.consumerPc.LoadMaketic? && r.maketic == r.nettics then Nothing else WantOf(r.consumerPc)
  {
    ConsumerMoves(r);
  }

  /**
   Neither side ever waits for the other: the producer is either free for a publish or can take its
   next step, and the consumer is either between calls, and then free to make any of them, or can
   take its own.
   */
  lemma NeverStuck(run: seq<Ring>, steps: seq<Step>, i: nat, layer: U32, shape: seq<nat>, data: seq<Byte>)
    requires IsRun(run, steps) && i < |run|
    ensures var r, b := run[i], LedgerAt(run, steps, i);
            && (Enabled(r, Publish(layer, shape, data)) <==> b.pending.None?)
            && (Enabled(r, ProducerGoesOn) <==> b.pending.Some?)
            && (Enabled(r, TryConsume) <==> !Enabled(r, ConsumerGoesOn))
            && (b.wanted.Nothing? ==> Enabled(r, TryConsume))
            && (Enabled(r, TryConsume) && b.passed < |b.granted| ==>
                  Enabled(r, ReadAbsolute(b.passed)) && Enabled(r, AdvanceBy(|b.granted| - b.passed)))
  {
    RunBooks(run, steps, i);
    RunInv(run, steps, i);
  }
}
