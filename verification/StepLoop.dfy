/**
 `run_step_loop` (crates/rocket-surgeon-worker/src/dispatch.rs) as a function of the
 forward pass it drives. `StepWorker` is the loop that computes it.

 A forward pass is adaptive: what hook `i` emits may depend on the replies the hooks
 before it were released with. `limit` bounds the number of hooks of one pass.
 */
module StepLoop {
  import opened Prelude
  import opened TickClock
  import opened ProbePoints

  /** Tensors are opaque: nothing below looks inside one. */
  type Tensor(==, !new)

  /** What a parked hook is released with: a replacement output, or Python's `None`. */
  type Reply = Option<Tensor>

  datatype Message =
    | Fired(path: string, callIndex: nat, output: Option<Tensor>)
    | Sentinel

  datatype Pass = Pass(limit: nat, next: seq<Reply> -> Option<(string, nat, Option<Tensor>)>)

  /** The message the model thread puts once its first `|replies|` hooks were released with `replies`. */
  function Emit(pass: Pass, replies: seq<Reply>): Message {
    if |replies| >= pass.limit || pass.next(replies).None? then Sentinel
    else var (path, callIndex, output) := pass.next(replies).value; Fired(path, callIndex, output)
  }

  datatype Component = Component(canonical: string, layer: Option<nat>)

  datatype Model = Model(family: string, rank: nat, components: map<(string, nat), Component>)

  datatype Granularity = Layer | ComponentLevel | Head | RouterPreTopk | RouterPostTopk | Expert

  datatype Probe = Probe(id: string, pattern: ProbePoint)

  /**
   One `host/step` request. `pass` is what a fresh forward pass on its `input_ids` does,
   `probes` the probe table at that moment, and `apply` stands for
   `apply_interventions_at_point` on the recipes the request carries: the modified tensor and
   the recipes that fired. A request without recipes is one whose `apply` fires none.
   */
  datatype Request = Request(
    count: nat,
    granularity: Option<Granularity>,
    maxEvents: Option<nat>,
    probes: seq<Probe>,
    pass: Pass,
    apply: TickInfo -> (Tensor, seq<string>))

  /** One consumed hook, as the step loop resolved it. */
  datatype TickInfo = TickInfo(
    path: string,
    callIndex: nat,
    output: Option<Tensor>,
    canonical: string,
    layer: nat,
    tickId: nat)

  datatype Event = Event(probeId: string, point: ProbePoint, tickId: nat)

  datatype Forward = Forward(pass: Pass, replies: seq<Reply>, complete: bool)

  /** The worker's state between two step requests. */
  datatype Worker = Worker(
    tick: Tick,
    outputs: map<(string, nat), Tensor>,
    forward: Option<Forward>)

  datatype Response = Response(
    position: Tick,
    events: seq<Event>,
    forwardComplete: bool,
    eventsTruncated: bool,
    fired: seq<string>)

  datatype DrainState = Counting | Draining

  /**
   The locals of the loop. `replies` counts every reply put so far in this pass, and `ticks`
   is a history of the hooks this request consumed.
   */
  datatype Locals = Locals(
    tick: Tick,
    outputs: map<(string, nat), Tensor>,
    replies: seq<Reply>,
    consumed: nat,
    tracking: Option<nat>,
    drain: DrainState,
    events: seq<Event>,
    truncated: bool,
    fired: seq<string>,
    ticks: seq<TickInfo>)

  function MaxEvents(req: Request): nat {
    if req.maxEvents.Some? then req.maxEvents.value else 256
  }

  predicate ByLayer(req: Request) {
    req.granularity == Some(Layer)
  }

  predicate IsLayerBoundary(current: Option<nat>, layer: nat) {
    match current
    case None => false
    case Some(prev) => layer != prev
  }

  /** The canonical name and layer of a hook, with the fallback for an unmapped module. */
  function Resolve(model: Model, path: string, callIndex: nat): (string, nat) {
    if (path, callIndex) in model.components then
      var c := model.components[(path, callIndex)];
      (c.canonical, if c.layer.Some? then c.layer.value else 0)
    else
      ("_raw." + path, 0)
  }

  function PointAt(model: Model, t: TickInfo): ProbePoint {
    ProbePoint(Name(model.family), Num(model.rank), Num(t.layer), Path([Named(t.canonical)]), Num(t.callIndex),
               Name("output"))
  }

  /** Every event of one tick, in table order, with no budget. */
  function EventsAt(model: Model, probes: seq<Probe>, t: TickInfo): seq<Event> {
    if probes == [] then []
    else
      (if Matches(probes[0].pattern, PointAt(model, t)) then [Event(probes[0].id, PointAt(model, t), t.tickId)] else [])
      + EventsAt(model, probes[1..], t)
  }

  /** Every event of a series of ticks, with no budget. */
  function AllEvents(model: Model, probes: seq<Probe>, ticks: seq<TickInfo>): seq<Event> {
    if ticks == [] then []
    else AllEvents(model, probes, ticks[..|ticks| - 1]) + EventsAt(model, probes, ticks[|ticks| - 1])
  }

  /** What `evaluate_probes` returns under a budget. */
  function Budgeted(all: seq<Event>, budget: nat): (seq<Event>, bool) {
    (Take(all, budget), |all| > budget)
  }

  datatype Verdict =
    | Stop(locals: Locals)
    | Continue(locals: Locals)
    | Complete(locals: Locals)

  /** The tick a hook becomes, and the locals once it is stashed, clocked and probed. */
  function Observe(model: Model, req: Request, l: Locals, m: Message): (r: (Locals, TickInfo))
    requires m.Fired?
  {
    var (canonical, layer) := Resolve(model, m.path, m.callIndex);
    var tick := Advanced(l.tick, canonical, layer, m.callIndex);
    var info := TickInfo(m.path, m.callIndex, m.output, canonical, layer, tick.operator);
    var outputs := if m.output.Some? then l.outputs[(m.path, m.callIndex) := m.output.value] else l.outputs;
    var (events, truncated) :=
      if l.truncated || req.probes == [] then (l.events, l.truncated)
      else
        var (new_, trunc) := Budgeted(EventsAt(model, req.probes, info), Max(MaxEvents(req) - |l.events|, 0));
        (l.events + new_, trunc);
    (l.(tick := tick, outputs := outputs, events := events, truncated := truncated, ticks := l.ticks + [info]), info)
  }

  /** Whether the loop breaks at this tick, and its counters after the granularity test. */
  function Count(req: Request, l: Locals, layer: nat): (Locals, bool) {
    if ByLayer(req) then
      if IsLayerBoundary(l.tracking, layer) then
        if l.drain.Draining? then (l, true)
        else
          (l.(consumed := l.consumed + 1, tracking := Some(layer),
              drain := if l.consumed + 1 >= req.count then Draining else l.drain), false)
      else (l.(tracking := Some(layer)), false)
    else
      (l.(consumed := l.consumed + 1), l.consumed + 1 >= req.count)
  }

  /** `try_apply_interventions`: nothing for a hook without output, or when no recipe fires. */
  function Intervention(req: Request, t: TickInfo): (r: Option<(Tensor, seq<string>)>)
    ensures r.Some? <==> t.output.Some? && req.apply(t).1 != []
    ensures r.Some? ==> r.value == req.apply(t)
  {
    if t.output.None? then None
    else
      var (tensor, fired) := req.apply(t);
      if fired == [] then None else Some((tensor, fired))
  }

  /** What a hook is released with when the loop goes on. */
  function ReplyTo(req: Request, t: TickInfo): Reply {
    var result := Intervention(req, t);
    if result.Some? then Some(result.value.0) else None
  }

  function Answer(req: Request, l: Locals, t: TickInfo): Locals {
    var result := Intervention(req, t);
    l.(replies := l.replies + [ReplyTo(req, t)],
       fired := if result.Some? then l.fired + result.value.1 else l.fired)
  }

  /** One iteration of the loop, from the message to the reply it puts. */
  function OnMessage(model: Model, req: Request, l: Locals, m: Message): (v: Verdict)
    ensures v.Complete? <==> m.Sentinel?
    ensures v.Continue? ==> |v.locals.replies| == |l.replies| + 1 && v.locals.replies[..|l.replies|] == l.replies
    ensures !v.Continue? ==> v.locals.replies == l.replies
  {
    if m.Sentinel? then Complete(l)
    else
      var (seen, info) := Observe(model, req, l, m);
      var (counted, stop) := Count(req, seen, info.layer);
      if stop then Stop(counted) else Continue(Answer(req, counted, info))
  }

  /** The loop from `l` on, to a `Stop` or a `Complete`. */
  function Loop(model: Model, req: Request, pass: Pass, l: Locals): (v: Verdict)
    ensures !v.Continue?
    decreases Max(pass.limit - |l.replies|, 0)
  {
    var v := OnMessage(model, req, l, Emit(pass, l.replies));
    if v.Continue? then Loop(model, req, pass, v.locals) else v
  }

  /** Whether a request resumes a parked pass rather than starting one. */
  predicate Resuming(w: Worker) {
    w.forward.Some? && !w.forward.value.complete
  }

  /** The clock a request starts from: a finished pass is dropped with its clock. */
  function StartTick(model: Model, w: Worker): Tick {
    if w.forward.Some? && w.forward.value.complete then Start(model.rank) else w.tick
  }

  function CurrentPass(w: Worker, req: Request): Pass {
    if Resuming(w) then w.forward.value.pass else req.pass
  }

  /** The locals on entry to the loop; a parked hook is released with `None`. */
  function Begin(model: Model, w: Worker, req: Request): Locals {
    var tick := StartTick(model, w);
    if Resuming(w) then
      Locals(tick, w.outputs, w.forward.value.replies + [None], 0, Some(tick.layer), Counting, [], false, [], [])
    else
      Locals(tick, map[], [], 0, None, Counting, [], false, [], [])
  }

  /** The worker and its response once the loop has ended. */
  function Finish(pass: Pass, v: Verdict): (Worker, Response)
    requires !v.Continue?
  {
    var tick := if v.Complete? then TokenAdvanced(v.locals.tick) else v.locals.tick;
    (Worker(tick, v.locals.outputs, Some(Forward(pass, v.locals.replies, v.Complete?))),
     Response(tick, v.locals.events, v.Complete?, v.locals.truncated, v.locals.fired))
  }

  /** One whole step request. */
  function Handle(model: Model, w: Worker, req: Request): (Worker, Response) {
    Finish(CurrentPass(w, req), Loop(model, req, CurrentPass(w, req), Begin(model, w, req)))
  }
}
