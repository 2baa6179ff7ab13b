/** What a step request does, over all passes, probe tables and requests. */
module StepLaws {
  import opened Prelude
  import opened TickClock
  import opened ProbePoints
  import opened StepLoop

  /** The verdict of one whole request's loop. */
  function Served(model: Model, w: Worker, req: Request): (v: Verdict)
    ensures !v.Continue?
  {
    Loop(model, req, CurrentPass(w, req), Begin(model, w, req))
  }

  // ----- which hooks a request consumes -----

  /**
   What the component table says of a module's call: the entry's name, and its layer or else zero;
   the raw path and layer zero for a call it has no entry for.
   */
  predicate Tabled(model: Model, path: string, callIndex: nat, canonical: string, layer: nat) {
    if (path, callIndex) in model.components then
      var c := model.components[(path, callIndex)];
      && canonical == c.canonical
      && (c.layer.Some? ==> layer == c.layer.value) && (c.layer.None? ==> layer == 0)
    else canonical == "_raw." + path && layer == 0
  }

  /** `t` is the tick of message `m`. */
  predicate TickOf(model: Model, t: TickInfo, m: Message) {
    && m.Fired? && t.path == m.path && t.callIndex == m.callIndex && t.output == m.output
    && Tabled(model, m.path, m.callIndex, t.canonical, t.layer)
  }

  /** The ticks of a request are the pass's messages from position `from` on, in order. */
  predicate Consecutive(model: Model, pass: Pass, from: nat, replies: seq<Reply>, ticks: seq<TickInfo>) {
    forall i :: 0 <= i < |ticks| ==>
                  from + i <= |replies| && TickOf(model, ticks[i], Emit(pass, replies[..from + i]))
  }

  lemma ConsecutiveBound(model: Model, pass: Pass, from: nat, replies: seq<Reply>, ticks: seq<TickInfo>)
    requires Consecutive(model, pass, from, replies, ticks)
    ensures |ticks| <= Max(pass.limit - from, 0)
  {
    if ticks != [] {
      assert TickOf(model, ticks[|ticks| - 1], Emit(pass, replies[..from + |ticks| - 1]));
    }
  }

  lemma {:induction false} LoopConsumes(model: Model, req: Request, pass: Pass, l: Locals, from: nat)
    requires |l.replies| == from + |l.ticks| && Consecutive(model, pass, from, l.replies, l.ticks)
    ensures var v := Loop(model, req, pass, l);
            && l.replies <= v.locals.replies
            && Consecutive(model, pass, from, v.locals.replies, v.locals.ticks)
            && (v.Stop? ==> |v.locals.replies| == from + |v.locals.ticks| - 1)
            && (v.Complete? ==> |v.locals.replies| == from + |v.locals.ticks| && Emit(pass, v.locals.replies).Sentinel?)
    decreases Max(pass.limit - |l.replies|, 0)
  {
    var m := Emit(pass, l.replies);
    var v := OnMessage(model, req, l, m);
    if !v.Complete? {
      assert l.replies[..from + |l.ticks|] == l.replies;
      assert v.locals.ticks == l.ticks + [Observe(model, req, l, m).1];
      forall i | 0 <= i < |v.locals.ticks|
        ensures TickOf(model, v.locals.ticks[i], Emit(pass, v.locals.replies[..from + i]))
      {
        assert v.locals.replies[..from + i] == l.replies[..from + i];
      }
      if v.Continue? {
        LoopConsumes(model, req, pass, v.locals, from);
      }
    }
  }

  /** A pass is parked, waiting for the next request. */
  predicate IsParked(w: Worker) {
    w.forward.Some? && !w.forward.value.complete
  }

  /** The pass a request works on: the parked one, or a new one. */
  function PassOf(w: Worker, req: Request): Pass {
    if IsParked(w) then w.forward.value.pass else req.pass
  }

  /** Where in its pass a request starts: right behind the parked hook, or at the beginning. */
  function Position(w: Worker): nat {
    if IsParked(w) then |w.forward.value.replies| + 1 else 0
  }

  /**
   A request consumes the next hooks of its pass, each once and in order, the first being the
   one behind the parked hook. It stops parked at the last one, or consumes every hook there
   is and then the sentinel.
   */
  lemma ConsumesNextHooks(model: Model, w: Worker, req: Request)
    ensures var v := Served(model, w, req); var pass := PassOf(w, req);
            && Consecutive(model, pass, Position(w), v.locals.replies, v.locals.ticks)
            && (v.Stop? ==> |v.locals.replies| == Position(w) + |v.locals.ticks| - 1)
            && (v.Complete? ==> |v.locals.replies| == Position(w) + |v.locals.ticks|
                                && Emit(pass, v.locals.replies).Sentinel?)
            && |v.locals.ticks| <= Max(pass.limit - Position(w), 0)
  {
    var pass, v := CurrentPass(w, req), Served(model, w, req);
    LoopConsumes(model, req, pass, Begin(model, w, req), Position(w));
    ConsecutiveBound(model, pass, Position(w), v.locals.replies, v.locals.ticks);
  }

  // ----- how many -----

  lemma {:induction false} LoopCounts(model: Model, req: Request, pass: Pass, l: Locals)
    requires !ByLayer(req) && l.consumed == |l.ticks| < Max(req.count, 1)
    ensures var v := Loop(model, req, pass, l);
            if v.Stop? then |v.locals.ticks| == Max(req.count, 1) else |v.locals.ticks| < Max(req.count, 1)
    decreases Max(pass.limit - |l.replies|, 0)
  {
    var v := OnMessage(model, req, l, Emit(pass, l.replies));
    if v.Continue? {
      LoopCounts(model, req, pass, v.locals);
    }
  }

  /**
   Below layer granularity a request consumes exactly `max(count, 1)` hooks when the pass has
   that many left; a request for zero ticks still takes one.
   */
  lemma ComponentStepCount(model: Model, w: Worker, req: Request)
    requires req.granularity != Some(Layer)
    ensures var v := Served(model, w, req);
            if v.Stop? then |v.locals.ticks| == Max(req.count, 1) else |v.locals.ticks| < Max(req.count, 1)
  {
    LoopCounts(model, req, CurrentPass(w, req), Begin(model, w, req));
  }

  /** How often the layer changes along `ticks`, the layer before them being `from`. */
  function LayerChanges(from: Option<nat>, ticks: seq<TickInfo>): nat {
    if ticks == [] then 0
    else
      LayerChanges(from, ticks[..|ticks| - 1])
      + (if Differs(LayerBefore(from, ticks, |ticks| - 1), ticks[|ticks| - 1].layer) then 1 else 0)
  }

  /** There was a layer before, and it was another one. */
  predicate Differs(before: Option<nat>, layer: nat) {
    before.Some? && before.value != layer
  }

  /** The layer in force before tick `i`. */
  function LayerBefore(from: Option<nat>, ticks: seq<TickInfo>, i: nat): Option<nat>
    requires i <= |ticks|
  {
    if i == 0 then from else Some(ticks[i - 1].layer)
  }

  /** The counters of a layer step, given the ticks so far. */
  predicate LayerCounters(req: Request, from: Option<nat>, l: Locals) {
    && l.consumed == LayerChanges(from, l.ticks) <= Max(req.count, 1)
    && l.tracking == LayerBefore(from, l.ticks, |l.ticks|)
    && (l.drain.Draining? <==> l.consumed >= Max(req.count, 1))
  }

  /** Where a layer step is once its loop has ended. */
  predicate LayerEnd(req: Request, from: Option<nat>, v: Verdict) {
    var ticks := v.locals.ticks;
    if v.Stop? then
      && ticks != [] && LayerChanges(from, ticks) == Max(req.count, 1) + 1
      && LayerChanges(from, ticks[..|ticks| - 1]) == Max(req.count, 1)
    else LayerChanges(from, ticks) <= Max(req.count, 1)
  }

  lemma ChangesOneMore(from: Option<nat>, ticks: seq<TickInfo>, t: TickInfo)
    ensures LayerChanges(from, ticks + [t])
         == LayerChanges(from, ticks) + (if Differs(LayerBefore(from, ticks, |ticks|), t.layer) then 1 else 0)
    ensures LayerBefore(from, ticks + [t], |ticks| + 1) == Some(t.layer)
    ensures (ticks + [t])[..|ticks|] == ticks
  {
    assert (ticks + [t])[..|ticks|] == ticks;
    assert LayerBefore(from, ticks + [t], |ticks|) == LayerBefore(from, ticks, |ticks|);
  }

  lemma CountLayers(req: Request, from: Option<nat>, l: Locals, seen: Locals, info: TickInfo)
    requires ByLayer(req) && LayerCounters(req, from, l) && seen.ticks == l.ticks + [info]
    requires (seen.consumed, seen.tracking, seen.drain) == (l.consumed, l.tracking, l.drain)
    ensures var (counted, stop) := Count(req, seen, info.layer);
            if stop then LayerEnd(req, from, Stop(counted)) else LayerCounters(req, from, counted)
  {
    ChangesOneMore(from, l.ticks, info);
  }

  /** The counters and the history a hook leaves are those of the granularity test. */
  lemma MessageCounted(model: Model, req: Request, l: Locals, m: Message)
    requires m.Fired?
    ensures var (seen, info) := Observe(model, req, l, m);
            var (counted, stop) := Count(req, seen, info.layer);
            var v := OnMessage(model, req, l, m);
            && v.Stop? == stop && v.Continue? == !stop && SameCounters(counted, v.locals)
            && seen.ticks == l.ticks + [info]
            && (seen.consumed, seen.tracking, seen.drain) == (l.consumed, l.tracking, l.drain)
  {
  }

  predicate SameCounters(l: Locals, l': Locals) {
    (l.ticks, l.consumed, l.tracking, l.drain) == (l'.ticks, l'.consumed, l'.tracking, l'.drain)
  }

  lemma LayerFrame(req: Request, from: Option<nat>, l: Locals, l': Locals)
    requires SameCounters(l, l')
    ensures LayerCounters(req, from, l) <==> LayerCounters(req, from, l')
    ensures LayerEnd(req, from, Stop(l)) <==> LayerEnd(req, from, Stop(l'))
  {
  }

  lemma MessageLayers(model: Model, req: Request, l: Locals, m: Message, from: Option<nat>)
    requires ByLayer(req) && LayerCounters(req, from, l)
    ensures var v := OnMessage(model, req, l, m);
            if v.Continue? then LayerCounters(req, from, v.locals) else LayerEnd(req, from, v)
  {
    if m.Fired? {
      var (seen, info) := Observe(model, req, l, m);
      MessageCounted(model, req, l, m);
      CountLayers(req, from, l, seen, info);
      LayerFrame(req, from, Count(req, seen, info.layer).0, OnMessage(model, req, l, m).locals);
    }
  }

  lemma {:induction false} LoopLayers(model: Model, req: Request, pass: Pass, l: Locals, from: Option<nat>)
    requires ByLayer(req) && LayerCounters(req, from, l)
    ensures LayerEnd(req, from, Loop(model, req, pass, l))
    decreases Max(pass.limit - |l.replies|, 0)
  {
    MessageLayers(model, req, l, Emit(pass, l.replies), from);
    var v := OnMessage(model, req, l, Emit(pass, l.replies));
    if v.Continue? {
      LoopLayers(model, req, pass, v.locals, from);
    }
  }

  /** The layer a request starts from: that of the parked hook, or none on a fresh pass. */
  function LayerAtStart(w: Worker): Option<nat> {
    if IsParked(w) then Some(w.tick.layer) else None
  }

  /**
   A layer step stops on the very hook that makes the `max(count, 1) + 1`st layer change since
   its start, so on the first hook of a layer; or it runs the pass to its end, which then had no
   more than `max(count, 1)` changes left.
   */
  lemma LayerStepCount(model: Model, w: Worker, req: Request)
    requires req.granularity == Some(Layer)
    ensures var v := Served(model, w, req); var ticks := v.locals.ticks; var from := LayerAtStart(w);
            if v.Stop? then
              && ticks != [] && LayerChanges(from, ticks) == Max(req.count, 1) + 1
              && LayerChanges(from, ticks[..|ticks| - 1]) == Max(req.count, 1)
            else LayerChanges(from, ticks) <= Max(req.count, 1)
  {
    LoopLayers(model, req, CurrentPass(w, req), Begin(model, w, req), LayerAtStart(w));
  }

  // ----- the clocks -----

  /** The clock after a series of ticks. */
  function Clocked(t: Tick, ticks: seq<TickInfo>): Tick {
    if ticks == [] then t
    else
      var last := ticks[|ticks| - 1];
      Advanced(Clocked(t, ticks[..|ticks| - 1]), last.canonical, last.layer, last.callIndex)
  }

  /** The clock and the tick numbers agree with the ticks consumed since `t`. */
  predicate ClockMeets(t: Tick, l: Locals) {
    && l.tick == Clocked(t, l.ticks) && l.tick.operator == t.operator + |l.ticks|
    && forall i :: 0 <= i < |l.ticks| ==> l.ticks[i].tickId == t.operator + i + 1
  }

  lemma ClockOneMore(t: Tick, l: Locals, after: Locals, info: TickInfo)
    requires ClockMeets(t, l) && after.ticks == l.ticks + [info]
    requires after.tick == Advanced(l.tick, info.canonical, info.layer, info.callIndex)
    requires info.tickId == after.tick.operator
    ensures ClockMeets(t, after)
  {
    assert after.ticks[..|l.ticks|] == l.ticks;
  }

  /** What one hook does to the clock and the history. */
  lemma MessageTicks(model: Model, req: Request, l: Locals, m: Message)
    requires m.Fired?
    ensures var (after, info) := (OnMessage(model, req, l, m).locals, Observe(model, req, l, m).1);
            && after.ticks == l.ticks + [info] && info.tickId == after.tick.operator
            && after.tick == Advanced(l.tick, info.canonical, info.layer, info.callIndex)
  {
  }

  lemma MessageClock(model: Model, req: Request, l: Locals, m: Message, t: Tick)
    requires ClockMeets(t, l)
    ensures ClockMeets(t, OnMessage(model, req, l, m).locals)
  {
    if m.Fired? {
      MessageTicks(model, req, l, m);
      ClockOneMore(t, l, OnMessage(model, req, l, m).locals, Observe(model, req, l, m).1);
    }
  }

  lemma {:induction false} LoopClocks(model: Model, req: Request, pass: Pass, l: Locals, t: Tick)
    requires ClockMeets(t, l)
    ensures ClockMeets(t, Loop(model, req, pass, l).locals)
    decreases Max(pass.limit - |l.replies|, 0)
  {
    MessageClock(model, req, l, Emit(pass, l.replies), t);
    var v := OnMessage(model, req, l, Emit(pass, l.replies));
    if v.Continue? {
      LoopClocks(model, req, pass, v.locals, t);
    }
  }

  /** The clock a request starts from: as it was left, but new after a completed pass. */
  function ClockOf(model: Model, w: Worker): Tick {
    if w.forward.Some? && w.forward.value.complete then Tick(model.rank, 0, "", 0, 0, Prefill, 0, 0, None) else w.tick
  }

  /** Clock `t` after `n` more hooks, the last of them `last`. */
  function ClockAt(t: Tick, n: nat, last: TickInfo): Tick {
    Tick(t.rank, last.layer, last.canonical, last.callIndex, t.stepCount + n, t.phase, t.token, t.operator + n,
         Some(t.token))
  }

  lemma {:induction false} ClockedIs(t: Tick, ticks: seq<TickInfo>)
    ensures Clocked(t, ticks) == if ticks == [] then t else ClockAt(t, |ticks|, ticks[|ticks| - 1])
  {
    if ticks != [] {
      ClockedIs(t, ticks[..|ticks| - 1]);
    }
  }

  /**
   Where a request leaves the clock, and what its response reports. Hooks are numbered without
   gaps. A stopped request is at its last hook, as the component table names it. One that
   completed the pass has moved the token clock on by one, restarted the operator clock and ended
   the prefill.
   */
  lemma ClocksFollowTicks(model: Model, w: Worker, req: Request)
    ensures var v := Served(model, w, req); var ticks, start := v.locals.ticks, ClockOf(model, w);
            var (after, response) := Handle(model, w, req);
            var end := if ticks == [] then start else ClockAt(start, |ticks|, ticks[|ticks| - 1]);
            && (forall i :: 0 <= i < |ticks| ==> ticks[i].tickId == start.operator + i + 1)
            && response.position == after.tick && response.forwardComplete == v.Complete?
            && after.tick == (if v.Stop? then end
                              else end.(token := end.token + 1, operator := 0, tokenPosition := Some(end.token + 1),
                                        phase := if end.phase.Prefill? then Decode else end.phase))
  {
    LoopClocks(model, req, CurrentPass(w, req), Begin(model, w, req), StartTick(model, w));
    ClockedIs(StartTick(model, w), Served(model, w, req).locals.ticks);
  }

  /** The position a stopped request reports is that of the hook the model is parked at. */
  lemma StopPosition(model: Model, w: Worker, req: Request)
    requires Served(model, w, req).Stop?
    ensures var m := Emit(PassOf(w, req), Served(model, w, req).locals.replies);
            var position := Handle(model, w, req).1.position;
            && m.Fired? && position.callIndex == m.callIndex
            && Tabled(model, m.path, m.callIndex, position.component, position.layer)
  {
    ConsumesNextHooks(model, w, req);
    ClocksFollowTicks(model, w, req);
    var l, from := Served(model, w, req).locals, Position(w);
    if l.ticks == [] {
      LoopTakes(model, req, CurrentPass(w, req), Begin(model, w, req));
    }
    assert l.replies[..from + |l.ticks| - 1] == l.replies;
    assert TickOf(model, l.ticks[|l.ticks| - 1], Emit(PassOf(w, req), l.replies[..from + |l.ticks| - 1]));
  }

  /** A loop that stops has taken a hook. */
  lemma {:induction false} LoopTakes(model: Model, req: Request, pass: Pass, l: Locals)
    requires Loop(model, req, pass, l).Stop?
    ensures Loop(model, req, pass, l).locals.ticks != []
    decreases Max(pass.limit - |l.replies|, 0)
  {
    var m := Emit(pass, l.replies);
    MessageTicks(model, req, l, m);
    var v := OnMessage(model, req, l, m);
    if v.Continue? {
      LoopTakes(model, req, pass, v.locals);
    }
  }

  // ----- probe events -----

  predicate EventsMeet(model: Model, req: Request, l: Locals) {
    var all := AllEvents(model, req.probes, l.ticks);
    l.events == Take(all, MaxEvents(req)) && (l.truncated <==> |all| > MaxEvents(req))
  }

  lemma ObserveEvents(model: Model, req: Request, l: Locals, m: Message)
    requires m.Fired? && EventsMeet(model, req, l)
    ensures EventsMeet(model, req, Observe(model, req, l, m).0)
  {
    var (seen, info) := Observe(model, req, l, m);
    var all, more := AllEvents(model, req.probes, l.ticks), EventsAt(model, req.probes, info);
    assert seen.ticks[..|l.ticks|] == l.ticks;
    assert AllEvents(model, req.probes, seen.ticks) == all + more;
  }

  lemma EventsFrame(model: Model, req: Request, l: Locals, after: Locals)
    requires EventsMeet(model, req, l)
    requires after.ticks == l.ticks && after.events == l.events && after.truncated == l.truncated
    ensures EventsMeet(model, req, after)
  {
  }

  /** Counting and answering a hook leave the history and the events alone. */
  lemma MessageObserved(model: Model, req: Request, l: Locals, m: Message)
    requires m.Fired?
    ensures var seen, after := Observe(model, req, l, m).0, OnMessage(model, req, l, m).locals;
            after.ticks == seen.ticks && after.events == seen.events && after.truncated == seen.truncated
  {
  }

  lemma MessageEvents(model: Model, req: Request, l: Locals, m: Message)
    requires EventsMeet(model, req, l)
    ensures EventsMeet(model, req, OnMessage(model, req, l, m).locals)
  {
    if m.Fired? {
      ObserveEvents(model, req, l, m);
      MessageObserved(model, req, l, m);
      EventsFrame(model, req, Observe(model, req, l, m).0, OnMessage(model, req, l, m).locals);
    }
  }

  lemma {:induction false} LoopEvents(model: Model, req: Request, pass: Pass, l: Locals)
    requires EventsMeet(model, req, l)
    ensures EventsMeet(model, req, Loop(model, req, pass, l).locals)
    decreases Max(pass.limit - |l.replies|, 0)
  {
    MessageEvents(model, req, l, Emit(pass, l.replies));
    var v := OnMessage(model, req, l, Emit(pass, l.replies));
    if v.Continue? {
      LoopEvents(model, req, pass, v.locals);
    }
  }

  /**
   The events of a response are the first `max_events` of the (tick, matching probe) sequence
   of its ticks, and `events_truncated` says exactly whether that sequence was longer.
   */
  lemma EventsWithinBudget(model: Model, w: Worker, req: Request)
    ensures var ticks := Served(model, w, req).locals.ticks;
            var all := AllEvents(model, req.probes, ticks);
            var budget := if req.maxEvents.Some? then req.maxEvents.value else 256;
            var response := Handle(model, w, req).1;
            && response.events == Take(all, budget) && (response.eventsTruncated <==> |all| > budget)
  {
    LoopEvents(model, req, CurrentPass(w, req), Begin(model, w, req));
  }
}
