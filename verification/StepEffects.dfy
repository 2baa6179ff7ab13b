/** What a step request leaves behind and reports, in terms of the hooks it consumed. */
module StepEffects {
  import opened Prelude
  import opened TickClock
  import opened ProbePoints
  import opened StepLoop
  import opened StepLaws

  // ----- stored outputs -----

  type Outputs = map<(string, nat), Tensor>

  /** The last output among `ticks` of the call `key`. */
  function LastOutput(ticks: seq<TickInfo>, key: (string, nat)): Option<Tensor> {
    if ticks == [] then None
    else
      var last := ticks[|ticks| - 1];
      if (last.path, last.callIndex) == key && last.output.Some? then last.output
      else LastOutput(ticks[..|ticks| - 1], key)
  }

  /** Each call has the last output among `ticks`, or else what it had in `base`. */
  ghost predicate Stored(base: Outputs, ticks: seq<TickInfo>, outputs: Outputs) {
    forall key :: StoredAt(base, ticks, outputs, key)
  }

  predicate StoredAt(base: Outputs, ticks: seq<TickInfo>, outputs: Outputs, key: (string, nat)) {
    match LastOutput(ticks, key)
    case Some(t) => key in outputs && outputs[key] == t
    case None => (key in outputs <==> key in base) && (key in base ==> outputs[key] == base[key])
  }

  lemma StoredOneMore(base: Outputs, ticks: seq<TickInfo>, outputs: Outputs, t: TickInfo)
    requires Stored(base, ticks, outputs)
    ensures Stored(base, ticks + [t], if t.output.Some? then outputs[(t.path, t.callIndex) := t.output.value] else outputs)
  {
    var after := if t.output.Some? then outputs[(t.path, t.callIndex) := t.output.value] else outputs;
    assert (ticks + [t])[..|ticks|] == ticks;
    forall key ensures StoredAt(base, ticks + [t], after, key) {
      assert StoredAt(base, ticks, outputs, key);
    }
  }

  lemma MessageStores(model: Model, req: Request, l: Locals, m: Message)
    requires m.Fired?
    ensures var after, t := OnMessage(model, req, l, m).locals, Observe(model, req, l, m).1;
            && after.ticks == l.ticks + [t]
            && after.outputs == if t.output.Some? then l.outputs[(t.path, t.callIndex) := t.output.value] else l.outputs
  {
  }

  lemma {:induction false} LoopStores(model: Model, req: Request, pass: Pass, l: Locals, base: Outputs)
    requires Stored(base, l.ticks, l.outputs)
    ensures var end := Loop(model, req, pass, l).locals; Stored(base, end.ticks, end.outputs)
    decreases Max(pass.limit - |l.replies|, 0)
  {
    var m := Emit(pass, l.replies);
    var v := OnMessage(model, req, l, m);
    if m.Fired? {
      MessageStores(model, req, l, m);
      StoredOneMore(base, l.ticks, l.outputs, Observe(model, req, l, m).1);
    }
    if v.Continue? {
      LoopStores(model, req, pass, v.locals, base);
    }
  }

  /**
   After a request, every call it consumed has its last output stored; what was stored before
   stays when the pass was parked, and is dropped when a new one was started.
   */
  lemma OutputsExact(model: Model, w: Worker, req: Request)
    ensures Stored(if IsParked(w) then w.outputs else map[], Served(model, w, req).locals.ticks,
                   Handle(model, w, req).0.outputs)
  {
    LoopStores(model, req, CurrentPass(w, req), Begin(model, w, req), if IsParked(w) then w.outputs else map[]);
  }

  // ----- replies and fired recipes -----

  /** What a hook the loop went on from is released with: a recipe's tensor, if one fired on its output. */
  function Released(req: Request, t: TickInfo): Reply {
    if t.output.Some? && req.apply(t).1 != [] then Some(req.apply(t).0) else None
  }

  /** The recipes that fired on `ticks`, in order. */
  function FiredOn(req: Request, ticks: seq<TickInfo>): seq<string> {
    if ticks == [] then []
    else
      var last := ticks[|ticks| - 1];
      FiredOn(req, ticks[..|ticks| - 1]) + (if last.output.Some? then req.apply(last).1 else [])
  }

  /** The hooks in `ticks` were all answered, behind the replies in `base`. */
  predicate Answers(req: Request, base: seq<Reply>, ticks: seq<TickInfo>, replies: seq<Reply>, fired: seq<string>) {
    && |replies| == |base| + |ticks| && base <= replies && fired == FiredOn(req, ticks)
    && forall i :: 0 <= i < |ticks| ==> replies[|base| + i] == Released(req, ticks[i])
  }

  lemma AnswersOneMore(req: Request, base: seq<Reply>, ticks: seq<TickInfo>, l: Locals, t: TickInfo)
    requires Answers(req, base, ticks, l.replies, l.fired)
    ensures var after := Answer(req, l, t); Answers(req, base, ticks + [t], after.replies, after.fired)
  {
    assert (ticks + [t])[..|ticks|] == ticks;
  }

  lemma MessageAnswers(model: Model, req: Request, l: Locals, m: Message)
    requires m.Fired?
    ensures var v, t := OnMessage(model, req, l, m), Observe(model, req, l, m).1;
            && v.locals.ticks == l.ticks + [t]
            && (if v.Stop? then v.locals.replies == l.replies && v.locals.fired == l.fired
                else v.locals.replies == Answer(req, l, t).replies && v.locals.fired == Answer(req, l, t).fired)
  {
  }

  /** The hooks a request went on from: all it consumed, but for the one it stopped at. */
  function Passed(v: Verdict): seq<TickInfo> {
    if v.Stop? && v.locals.ticks != [] then v.locals.ticks[..|v.locals.ticks| - 1] else v.locals.ticks
  }

  lemma {:induction false} LoopAnswers(model: Model, req: Request, pass: Pass, l: Locals, base: seq<Reply>)
    requires Answers(req, base, l.ticks, l.replies, l.fired)
    ensures var v := Loop(model, req, pass, l); Answers(req, base, Passed(v), v.locals.replies, v.locals.fired)
    decreases Max(pass.limit - |l.replies|, 0)
  {
    var m := Emit(pass, l.replies);
    var v := OnMessage(model, req, l, m);
    if m.Fired? {
      var t := Observe(model, req, l, m).1;
      MessageAnswers(model, req, l, m);
      if v.Continue? {
        AnswersOneMore(req, base, l.ticks, l, t);
        LoopAnswers(model, req, pass, v.locals, base);
      } else {
        assert (l.ticks + [t])[..|l.ticks|] == l.ticks;
      }
    }
  }

  /**
   Every hook a request goes on from is released with the tensor of the recipes that fire on it,
   or with nothing; a parked one is first released with nothing. The response lists the recipes
   that fired, in order.
   */
  lemma RepliesExact(model: Model, w: Worker, req: Request)
    ensures var v := Served(model, w, req); var (after, response) := Handle(model, w, req);
            && after.forward == Some(Forward(PassOf(w, req), v.locals.replies, v.Complete?))
            && Answers(req, if IsParked(w) then w.forward.value.replies + [None] else [], Passed(v), v.locals.replies,
                       response.fired)
  {
    LoopAnswers(model, req, CurrentPass(w, req), Begin(model, w, req),
                if IsParked(w) then w.forward.value.replies + [None] else []);
  }

  // ----- events -----

  /** The pattern asks for this tick: each field is a wildcard or what the tick has there. */
  predicate AsksFor(pattern: ProbePoint, model: Model, t: TickInfo) {
    && (pattern.model.AnyName? || pattern.model.name == model.family)
    && (pattern.rank.AnyNum? || pattern.rank.num == model.rank)
    && (pattern.layer.AnyNum? || pattern.layer.num == t.layer)
    && (pattern.component.AnyComponent? || pattern.component.segments == [Named(t.canonical)])
    && (pattern.callIndex.AnyNum? || pattern.callIndex.num == t.callIndex)
    && (pattern.event.AnyName? || pattern.event.name == "output")
  }

  /** `es` has one event for each probe asking for the tick, in table order. */
  predicate OnePerProbe(model: Model, probes: seq<Probe>, t: TickInfo, es: seq<Event>) {
    var asking := Filter(probes, (p: Probe) => AsksFor(p.pattern, model, t));
    && |es| == |asking|
    && forall i :: 0 <= i < |es| ==>
         && es[i].probeId == asking[i].id && es[i].tickId == t.tickId
         && es[i].point == ProbePoint(Name(model.family), Num(model.rank), Num(t.layer), Path([Named(t.canonical)]),
                                      Num(t.callIndex), Name("output"))
  }

  lemma AskedIffMatched(model: Model, pattern: ProbePoint, t: TickInfo)
    ensures Matches(pattern, PointAt(model, t)) <==> AsksFor(pattern, model, t)
  {
  }

  /** The events of a tick: one for each probe asking for it, naming the probe and the tick. */
  lemma {:induction false} EventsOfTick(model: Model, probes: seq<Probe>, t: TickInfo)
    ensures OnePerProbe(model, probes, t, EventsAt(model, probes, t))
  {
    if probes != [] {
      AskedIffMatched(model, probes[0].pattern, t);
      EventsOfTick(model, probes[1..], t);
    }
  }
}
