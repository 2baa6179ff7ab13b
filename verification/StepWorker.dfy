/** The worker's step handler in its own, imperative form, proved to compute `StepLoop.Handle`. */
module StepWorker {
  import opened Prelude
  import opened TickClock
  import opened ProbePoints
  import opened StepLoop

  /**
   `evaluate_probes`: a scan of the probe table that stops at the first match beyond the
   budget.
   */
  method EvaluateProbes(model: Model, probes: seq<Probe>, t: TickInfo, budget: nat)
    returns (events: seq<Event>, truncated: bool)
    ensures (events, truncated) == Budgeted(EventsAt(model, probes, t), budget)
  {
    events, truncated := [], false;
    var i := 0;
    assert probes[0..] == probes;
    while i < |probes|
      invariant 0 <= i <= |probes| && |events| <= budget && !truncated
      invariant events + EventsAt(model, probes[i..], t) == EventsAt(model, probes, t)
    {
      assert probes[i..][1..] == probes[i + 1..];
      var point := PointAt(model, t);
      if Matches(probes[i].pattern, point) {
        if |events| >= budget {
          truncated := true;
          assert EventsAt(model, probes, t)[..budget] == events;
          break;
        }
        events := events + [Event(probes[i].id, point, t.tickId)];
      }
      i := i + 1;
    }
    assert !truncated ==> probes[i..] == [] && events == EventsAt(model, probes, t);
  }

  class WorkerState {
    const model: Model
    var tick: TickState
    var outputs: map<(string, nat), Tensor>
    var forward: Option<Forward>

    ghost function Value(): Worker
      reads this, tick
    {
      Worker(tick.Value(), outputs, forward)
    }

    constructor (model: Model)
      ensures this.model == model && Value() == Worker(Start(model.rank), map[], None)
      ensures fresh(tick)
    {
      this.model := model;
      outputs, forward := map[], None;
      tick := new TickState(model.rank);
    }

    /** The part of the loop body that stashes a hook's output, moves the clock and fires probes. */
    method TakeHook(req: Request, m: Message, events: seq<Event>, truncated: bool, ghost l: Locals)
      returns (info: TickInfo, events': seq<Event>, truncated': bool)
      requires m.Fired?
      requires (l.tick, l.outputs, l.events, l.truncated) == (tick.Value(), outputs, events, truncated)
      modifies this`outputs, tick
      ensures Observe(model, req, l, m)
           == (l.(tick := tick.Value(), outputs := outputs, events := events', truncated := truncated',
                  ticks := l.ticks + [info]), info)
    {
      if m.output.Some? {
        outputs := outputs[(m.path, m.callIndex) := m.output.value];
      }
      var (canonical, layer) := Resolve(model, m.path, m.callIndex);
      tick.Advance(canonical, layer, m.callIndex);
      info := TickInfo(m.path, m.callIndex, m.output, canonical, layer, tick.operator);
      events', truncated' := events, truncated;
      if !truncated && req.probes != [] {
        var found, more := EvaluateProbes(model, req.probes, info, Max(MaxEvents(req) - |events|, 0));
        events' := events + found;
        truncated' := more;
      }
    }

    /** The granularity test of the loop body: the new counters, and whether the loop breaks. */
    method CountTick(req: Request, layer: nat, consumed: nat, tracking: Option<nat>, drain: DrainState, ghost l: Locals)
      returns (consumed': nat, tracking': Option<nat>, drain': DrainState, stop: bool)
      requires (l.consumed, l.tracking, l.drain) == (consumed, tracking, drain)
      ensures Count(req, l, layer) == (l.(consumed := consumed', tracking := tracking', drain := drain'), stop)
    {
      consumed', tracking', drain', stop := consumed, tracking, drain, false;
      if ByLayer(req) {
        if IsLayerBoundary(tracking, layer) {
          if drain.Draining? {
            stop := true;
            return;
          }
          consumed' := consumed + 1;
          if consumed' >= req.count {
            drain' := Draining;
          }
        }
        tracking' := Some(layer);
      } else {
        consumed' := consumed + 1;
        stop := consumed' >= req.count;
      }
    }

    /** The loop of `run_step_loop`, from the locals `first` on. */
    method Drain(req: Request, pass: Pass, replies0: seq<Reply>, tracking0: Option<nat>, ghost first: Locals)
      returns (replies: seq<Reply>, complete: bool, events: seq<Event>, truncated: bool, fired: seq<string>,
               ghost verdict: Verdict)
      requires first == Locals(tick.Value(), outputs, replies0, 0, tracking0, Counting, [], false, [], [])
      modifies this`outputs, tick
      ensures verdict == Loop(model, req, pass, first) && (complete <==> verdict.Complete?)
      ensures var l := verdict.locals;
              (l.tick, l.outputs, l.replies, l.events, l.truncated, l.fired)
              == (tick.Value(), outputs, replies, events, truncated, fired)
    {
      replies := replies0;
      var consumed, tracking, drain := 0, tracking0, Counting;
      complete, events, truncated, fired := false, [], false, [];
      ghost var l := first;
      while true
        invariant l == Locals(tick.Value(), outputs, replies, consumed, tracking, drain, events, truncated, fired, l.ticks)
        invariant !complete && Loop(model, req, pass, l) == Loop(model, req, pass, first)
        decreases Max(pass.limit - |replies|, 0)
      {
        var m := Emit(pass, replies);
        verdict := OnMessage(model, req, l, m);
        if m.Sentinel? {
          complete := true;
          break;
        }
        var info: TickInfo;
        info, events, truncated := TakeHook(req, m, events, truncated, l);
        ghost var seen := Observe(model, req, l, m).0;

        var result := Intervention(req, info);
        var stop;
        consumed, tracking, drain, stop := CountTick(req, info.layer, consumed, tracking, drain, seen);
        if stop {
          break;
        }
        if result.Some? {
          fired := fired + result.value.1;
          replies := replies + [Some(result.value.0)];
        } else {
          replies := replies + [None];
        }
        l := verdict.locals;
      }
    }

    /** `run_step_loop`: the response and the worker's whole new state are those of `Handle`. */
    method RunStepLoop(req: Request) returns (response: Response)
      modifies this, tick
      ensures (Value(), response) == Handle(model, old(Value()), req)
      ensures tick == old(tick) || fresh(tick)
    {
      ghost var before := Value();
      if forward.Some? && forward.value.complete {
        forward := None;
        tick := new TickState(model.rank);
      }
      var resuming := forward.Some?;
      if !resuming {
        outputs := map[];
        forward := Some(Forward(req.pass, [], false));
      }
      var pass, replies := forward.value.pass, forward.value.replies;
      var tracking := if resuming then Some(tick.layer) else None;
      if resuming {
        replies := replies + [None];
      }

      var complete, events, truncated, fired;
      ghost var verdict;
      replies, complete, events, truncated, fired, verdict :=
        Drain(req, pass, replies, tracking, Begin(model, before, req));

      if complete {
        tick.AdvanceToken();
      }
      forward := Some(Forward(pass, replies, complete));
      response := Response(
        Tick(tick.rank, tick.layer, tick.component, tick.callIndex, tick.stepCount, tick.phase, tick.token,
             tick.operator, tick.tokenPosition),
        events, complete, truncated, fired);
    }
  }
}
