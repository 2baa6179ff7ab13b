/** Stepping twice and stepping once: when the two leave the same worker. */
module StepSplit {
  import opened Prelude
  import opened TickClock
  import opened StepLoop
  import opened StepLaws

  // ----- going on where another request stops -----

  /** How far a request counts, its stop hook included. */
  function Ahead(req: Request): nat {
    Max(req.count, 1) + (if ByLayer(req) then 1 else 0)
  }

  /** The counters of a request that has not stopped yet. */
  predicate OnCourse(req: Request, l: Locals) {
    if ByLayer(req) then
      l.consumed <= Max(req.count, 1) && (l.drain.Draining? <==> l.consumed >= Max(req.count, 1))
    else l.consumed < Max(req.count, 1) && l.drain.Counting?
  }

  /** The same loop state in a request too long to be draining yet. */
  function Undrained(l: Locals): Locals {
    l.(drain := Counting)
  }

  /** The counters at a stop, as they are in a request that goes on instead. */
  function Passed(req: Request, l: Locals, layer: nat): Locals {
    if ByLayer(req) then l.(consumed := l.consumed + 1, tracking := Some(layer), drain := Counting) else l
  }

  /** The locals at a stop, as they are in a request that goes on and answers the hook. */
  function Continued(req: Request, l: Locals): Locals
    requires l.ticks != []
  {
    var last := l.ticks[|l.ticks| - 1];
    Answer(req, Passed(req, l, last.layer), last)
  }

  lemma CountPassesStop(req: Request, more: nat, l: Locals, layer: nat)
    requires OnCourse(req, l) && more > Ahead(req)
    ensures var (c, stop) := Count(req, l, layer);
            var (c', stop') := Count(req.(count := more), Undrained(l), layer);
            && !stop'
            && (if stop then c' == Passed(req, c, layer) && c'.consumed == Ahead(req)
                else OnCourse(req, c) && c' == Undrained(c))
  {
  }

  lemma CountKeepsTicks(req: Request, l: Locals, layer: nat)
    ensures Count(req, l, layer).0.ticks == l.ticks
  {
  }

  /** At the hook where the smaller count stops, the larger count goes on. */
  lemma MessagePassesStop(model: Model, req: Request, more: nat, l: Locals, m: Message)
    requires OnCourse(req, l) && more > Ahead(req) && m.Fired?
    ensures var v := OnMessage(model, req, l, m);
            var v' := OnMessage(model, req.(count := more), Undrained(l), m);
            && v.locals.ticks != []
            && (if v.Stop? then v' == Continue(Continued(req, v.locals)) && v'.locals.consumed == Ahead(req)
                else OnCourse(req, v.locals) && v' == Continue(Undrained(v.locals)))
  {
    var (seen, info) := Observe(model, req, l, m);
    assert Observe(model, req.(count := more), Undrained(l), m) == (Undrained(seen), info);
    assert OnCourse(req, seen) && seen.ticks[|seen.ticks| - 1] == info;
    CountPassesStop(req, more, seen, info.layer);
    CountKeepsTicks(req, seen, info.layer);
  }

  /** A loop with a larger count passes through the stop of a loop with a smaller one. */
  lemma {:induction false} LoopPassesStop(model: Model, req: Request, more: nat, pass: Pass, l: Locals)
    requires OnCourse(req, l) && more > Ahead(req) && Loop(model, req, pass, l).Stop?
    ensures var v := Loop(model, req, pass, l);
            && v.locals.ticks != [] && Continued(req, v.locals).consumed == Ahead(req)
            && Loop(model, req.(count := more), pass, Undrained(l))
            == Loop(model, req.(count := more), pass, Continued(req, v.locals))
    decreases Max(pass.limit - |l.replies|, 0)
  {
    var m := Emit(pass, l.replies);
    MessagePassesStop(model, req, more, l, m);
    var v := OnMessage(model, req, l, m);
    if v.Continue? {
      LoopPassesStop(model, req, more, pass, v.locals);
    }
  }

  // ----- the same loop, begun earlier or later -----

  /** The same loop state, one of them counted `ahead` into its request and the other just begun. */
  predicate Shifted(req: Request, ahead: nat, ticks: seq<TickInfo>, fired: seq<string>, l: Locals, l': Locals) {
    && l'.tick == l.tick && l'.outputs == l.outputs && l'.replies == l.replies
    && l'.consumed == l.consumed + ahead && l'.ticks == ticks + l.ticks && l'.fired == fired + l.fired
    && (ByLayer(req) ==> l'.tracking == l.tracking && l'.drain == l.drain)
  }

  lemma CountShifted(req: Request, ahead: nat, l: Locals, l': Locals, layer: nat,
                     ticks: seq<TickInfo>, fired: seq<string>)
    requires Shifted(req, ahead, ticks, fired, l, l')
    ensures var (c, stop) := Count(req, l, layer);
            var (c', stop') := Count(req.(count := ahead + Max(req.count, 1)), l', layer);
            stop == stop' && Shifted(req, ahead, ticks, fired, c, c')
  {
  }

  lemma AnswerShifted(req: Request, more: Request, ahead: nat, l: Locals, l': Locals, info: TickInfo,
                      ticks: seq<TickInfo>, fired: seq<string>)
    requires Shifted(req, ahead, ticks, fired, l, l') && more == req.(count := more.count)
    ensures Shifted(req, ahead, ticks, fired, Answer(req, l, info), Answer(more, l', info))
  {
    var result := Intervention(req, info);
    if result.Some? {
      assert fired + (l.fired + result.value.1) == l'.fired + result.value.1;
    }
  }

  lemma ObserveShifted(model: Model, req: Request, more: Request, ahead: nat, l: Locals, l': Locals, m: Message,
                       ticks: seq<TickInfo>, fired: seq<string>)
    requires Shifted(req, ahead, ticks, fired, l, l') && more == req.(count := more.count) && m.Fired?
    ensures Observe(model, req, l, m).1 == Observe(model, more, l', m).1
    ensures Shifted(req, ahead, ticks, fired, Observe(model, req, l, m).0, Observe(model, more, l', m).0)
  {
    var (seen, info) := Observe(model, req, l, m);
    assert l'.ticks + [info] == ticks + seen.ticks;
  }

  lemma MessageShifted(model: Model, req: Request, ahead: nat, l: Locals, l': Locals, m: Message,
                       ticks: seq<TickInfo>, fired: seq<string>)
    requires Shifted(req, ahead, ticks, fired, l, l')
    ensures var v := OnMessage(model, req, l, m);
            var v' := OnMessage(model, req.(count := ahead + Max(req.count, 1)), l', m);
            && v.Stop? == v'.Stop? && v.Continue? == v'.Continue?
            && Shifted(req, ahead, ticks, fired, v.locals, v'.locals)
  {
    if m.Fired? {
      var more := req.(count := ahead + Max(req.count, 1));
      ObserveShifted(model, req, more, ahead, l, l', m, ticks, fired);
      var (seen, info) := Observe(model, req, l, m);
      var seen' := Observe(model, more, l', m).0;
      CountShifted(req, ahead, seen, seen', info.layer, ticks, fired);
      AnswerShifted(req, more, ahead, Count(req, seen, info.layer).0, Count(more, seen', info.layer).0, info, ticks, fired);
    }
  }

  lemma {:induction false} LoopShifted(model: Model, req: Request, ahead: nat, pass: Pass, l: Locals, l': Locals,
                                       ticks: seq<TickInfo>, fired: seq<string>)
    requires Shifted(req, ahead, ticks, fired, l, l')
    ensures var v := Loop(model, req, pass, l);
            var v' := Loop(model, req.(count := ahead + Max(req.count, 1)), pass, l');
            v.Stop? == v'.Stop? && Shifted(req, ahead, ticks, fired, v.locals, v'.locals)
    decreases Max(pass.limit - |l.replies|, 0)
  {
    var m := Emit(pass, l.replies);
    MessageShifted(model, req, ahead, l, l', m, ticks, fired);
    var v := OnMessage(model, req, l, m);
    if v.Continue? {
      var v' := OnMessage(model, req.(count := ahead + Max(req.count, 1)), l', m);
      LoopShifted(model, req, ahead, pass, v.locals, v'.locals, ticks, fired);
    }
  }

  lemma {:induction false} LoopKeepsReplies(model: Model, req: Request, pass: Pass, l: Locals)
    ensures l.replies <= Loop(model, req, pass, l).locals.replies
    decreases Max(pass.limit - |l.replies|, 0)
  {
    var v := OnMessage(model, req, l, Emit(pass, l.replies));
    if v.Continue? {
      LoopKeepsReplies(model, req, pass, v.locals);
    }
  }

  lemma LoopKeepsReply(model: Model, req: Request, pass: Pass, l: Locals, k: nat)
    requires k < |l.replies|
    ensures var replies := Loop(model, req, pass, l).locals.replies; k < |replies| && replies[k] == l.replies[k]
  {
    LoopKeepsReplies(model, req, pass, l);
  }

  // ----- two requests and one -----

  /** The hook a stopped request is parked at. */
  function StopTick(v: Verdict): TickInfo
    requires v.locals.ticks != []
  {
    v.locals.ticks[|v.locals.ticks| - 1]
  }

  /** Whether an intervention fires on the hook a stopped request is parked at. */
  predicate FiresAtStop(model: Model, w: Worker, req: Request)
    requires Served(model, w, req).locals.ticks != []
  {
    Intervention(req, StopTick(Served(model, w, req))).Some?
  }

  /**
   The request for as much as two requests with counts `a` and `b` take together. At layer
   granularity the first one's stop is a layer change of its own.
   */
  function Joined(req: Request, a: nat, b: nat): Request {
    req.(count := Ahead(req.(count := a)) + Max(b, 1))
  }

  lemma StopLayer(model: Model, req: Request, pass: Pass, l: Locals)
    requires l.ticks == [] && Loop(model, req, pass, l).locals.ticks != []
    ensures var v := Loop(model, req, pass, l); v.locals.tick.layer == StopTick(v).layer
  {
    LoopClocks(model, req, pass, l, l.tick);
  }

  /** Resuming after a stop begins just where a longer request would have gone on. */
  lemma ResumeShifted(model: Model, pass: Pass, v: Verdict, reqA: Request, reqB: Request)
    requires v.Stop? && v.locals.ticks != [] && Continued(reqA, v.locals).consumed == Ahead(reqA)
    requires v.locals.tick.layer == StopTick(v).layer && Intervention(reqA, StopTick(v)).None?
    requires reqB == reqA.(count := reqB.count)
    ensures Shifted(reqB, Ahead(reqA), v.locals.ticks, v.locals.fired,
                    Begin(model, Finish(pass, v).0, reqB), Continued(reqA, v.locals))
  {
  }

  lemma ServedShifted(model: Model, w: Worker, reqA: Request, reqB: Request)
    requires Served(model, w, reqA).Stop? && Served(model, w, reqA).locals.ticks != []
    requires !FiresAtStop(model, w, reqA) && reqB == reqA.(count := reqB.count)
    ensures var v := Served(model, w, reqA);
            Shifted(reqB, Ahead(reqA), v.locals.ticks, v.locals.fired,
                    Begin(model, Handle(model, w, reqA).0, reqB), Continued(reqA, v.locals))
  {
    var pass, l := CurrentPass(w, reqA), Begin(model, w, reqA);
    LoopPassesStop(model, reqA, Ahead(reqA) + 1, pass, l);
    StopLayer(model, reqA, pass, l);
    ResumeShifted(model, pass, Served(model, w, reqA), reqA, reqB);
  }

  /** Where the joined request is once it has passed the first one's stop. */
  lemma JoinedPasses(model: Model, w: Worker, req: Request, a: nat, b: nat) returns (l: Locals)
    requires Served(model, w, req.(count := a)).Stop? && Served(model, w, req.(count := a)).locals.ticks != []
    ensures Served(model, w, Joined(req, a, b)) == Loop(model, Joined(req, a, b), CurrentPass(w, req), l)
    ensures l == Continued(req.(count := a), Served(model, w, req.(count := a)).locals)
  {
    var reqA, joined := req.(count := a), Joined(req, a, b);
    assert Begin(model, w, joined) == Undrained(Begin(model, w, reqA));
    assert reqA.(count := joined.count) == joined;
    LoopPassesStop(model, reqA, joined.count, CurrentPass(w, req), Begin(model, w, reqA));
    l := Continued(reqA, Served(model, w, reqA).locals);
  }

  /** If the joined request passes through a shift of the second one's start, it ends in a shift of its end. */
  lemma EndsShifted(model: Model, w: Worker, w1: Worker, joined: Request, reqB: Request, ahead: nat, l: Locals,
                    ticks: seq<TickInfo>, fired: seq<string>)
    requires joined == reqB.(count := ahead + Max(reqB.count, 1)) && CurrentPass(w1, reqB) == CurrentPass(w, joined)
    requires Served(model, w, joined) == Loop(model, joined, CurrentPass(w, joined), l)
    requires Shifted(reqB, ahead, ticks, fired, Begin(model, w1, reqB), l)
    ensures var v2, v3 := Served(model, w1, reqB), Served(model, w, joined);
            v2.Stop? == v3.Stop? && Shifted(reqB, ahead, ticks, fired, v2.locals, v3.locals)
  {
    LoopShifted(model, reqB, ahead, CurrentPass(w, joined), Begin(model, w1, reqB), l, ticks, fired);
  }

  /** The second request and the joined one end in the same state, but for what each counts from its start. */
  lemma SplitServed(model: Model, w: Worker, req: Request, a: nat, b: nat, w1: Worker, v: Verdict)
    requires v == Served(model, w, req.(count := a)) && v.Stop? && v.locals.ticks != []
    requires w1 == Handle(model, w, req.(count := a)).0 && !FiresAtStop(model, w, req.(count := a))
    ensures var v2, v3 := Served(model, w1, req.(count := b)), Served(model, w, Joined(req, a, b));
            && v2.Stop? == v3.Stop?
            && Shifted(req, Ahead(req.(count := a)), v.locals.ticks, v.locals.fired, v2.locals, v3.locals)
  {
    var reqA, reqB := req.(count := a), req.(count := b);
    ServedShifted(model, w, reqA, reqB);
    var l := JoinedPasses(model, w, req, a, b);
    assert Joined(req, a, b) == reqB.(count := Ahead(reqA) + Max(reqB.count, 1));
    EndsShifted(model, w, w1, Joined(req, a, b), reqB, Ahead(reqA), l, v.locals.ticks, v.locals.fired);
  }

  /** What the two ways of stepping then have in common. */
  lemma SplitStepSame(model: Model, w: Worker, req: Request, a: nat, b: nat)
    requires Served(model, w, req.(count := a)).Stop? && Served(model, w, req.(count := a)).locals.ticks != []
    requires !FiresAtStop(model, w, req.(count := a))
    ensures var (w1, r1) := Handle(model, w, req.(count := a));
            var (w2, r2) := Handle(model, w1, req.(count := b));
            var (w3, r3) := Handle(model, w, Joined(req, a, b));
            && w3 == w2 && r3.position == r2.position && r3.forwardComplete == r2.forwardComplete
            && r3.fired == r1.fired + r2.fired
            && Served(model, w, Joined(req, a, b)).locals.ticks
            == Served(model, w, req.(count := a)).locals.ticks + Served(model, w1, req.(count := b)).locals.ticks
  {
    var reqA := req.(count := a);
    SplitServed(model, w, req, a, b, Handle(model, w, reqA).0, Served(model, w, reqA));
  }

  /** The replies a worker's pass has had so far. */
  function Replies(w: Worker): seq<Reply> {
    if w.forward.Some? then w.forward.value.replies else []
  }

  lemma ContinuedReplies(req: Request, l: Locals)
    requires l.ticks != []
    ensures Continued(req, l).replies == l.replies + [ReplyTo(req, l.ticks[|l.ticks| - 1])]
  {
  }

  lemma PassedReply(model: Model, reqA: Request, joined: Request, pass: Pass, l: Locals)
    requires l.ticks != []
    ensures var replies := Loop(model, joined, pass, Continued(reqA, l)).locals.replies;
            |l.replies| < |replies| && replies[|l.replies|] == ReplyTo(reqA, l.ticks[|l.ticks| - 1])
  {
    ContinuedReplies(reqA, l);
    LoopKeepsReply(model, joined, pass, Continued(reqA, l), |l.replies|);
  }

  lemma HandledReplies(model: Model, w: Worker, req: Request)
    ensures Replies(Handle(model, w, req).0) == Served(model, w, req).locals.replies
  {
  }

  /** In one step, the hook where the shorter request would stop is answered like any other. */
  lemma JoinedReply(model: Model, w: Worker, req: Request, a: nat, b: nat)
    requires Served(model, w, req.(count := a)).Stop? && Served(model, w, req.(count := a)).locals.ticks != []
    ensures var v := Served(model, w, req.(count := a));
            var replies := Replies(Handle(model, w, Joined(req, a, b)).0);
            |v.locals.replies| < |replies| && replies[|v.locals.replies|] == ReplyTo(req.(count := a), StopTick(v))
  {
    var l := JoinedPasses(model, w, req, a, b);
    PassedReply(model, req.(count := a), Joined(req, a, b), CurrentPass(w, req), Served(model, w, req.(count := a)).locals);
    HandledReplies(model, w, Joined(req, a, b));
  }

  /** In two steps, it is released with nothing. */
  lemma SplitReply(model: Model, w: Worker, reqA: Request, reqB: Request)
    requires Served(model, w, reqA).Stop?
    ensures var v := Served(model, w, reqA);
            var replies := Replies(Handle(model, Handle(model, w, reqA).0, reqB).0);
            |v.locals.replies| < |replies| && replies[|v.locals.replies|] == None
  {
    var w1 := Handle(model, w, reqA).0;
    LoopKeepsReplies(model, reqB, CurrentPass(w1, reqB), Begin(model, w1, reqB));
  }

  /** A stopped request is parked at a hook. */
  lemma StopHasTick(model: Model, w: Worker, req: Request)
    requires Served(model, w, req).Stop?
    ensures Served(model, w, req).locals.ticks != []
  {
    if ByLayer(req) {
      LayerStepCount(model, w, req);
    } else {
      ComponentStepCount(model, w, req);
    }
  }

  // ----- a first request that runs the pass to its end -----

  /** A loop with a larger count runs to the same end. */
  lemma {:induction false} LoopPassesEnd(model: Model, req: Request, more: nat, pass: Pass, l: Locals)
    requires OnCourse(req, l) && more > Ahead(req) && Loop(model, req, pass, l).Complete?
    ensures Loop(model, req.(count := more), pass, Undrained(l)) == Complete(Undrained(Loop(model, req, pass, l).locals))
    decreases Max(pass.limit - |l.replies|, 0)
  {
    var m := Emit(pass, l.replies);
    if m.Fired? {
      MessagePassesStop(model, req, more, l, m);
      LoopPassesEnd(model, req, more, pass, OnMessage(model, req, l, m).locals);
    }
  }

  lemma SameEnd(pass: Pass, l: Locals)
    ensures Finish(pass, Complete(Undrained(l))).0 == Finish(pass, Complete(l)).0
  {
  }

  /** What the joined request then adds is nothing. */
  lemma JoinedEnds(model: Model, w: Worker, req: Request, a: nat, b: nat)
    requires Served(model, w, req.(count := a)).Complete?
    ensures Handle(model, w, Joined(req, a, b)).0 == Handle(model, w, req.(count := a)).0
  {
    var reqA, joined, pass := req.(count := a), Joined(req, a, b), CurrentPass(w, req);
    assert Begin(model, w, joined) == Undrained(Begin(model, w, reqA)) && reqA.(count := joined.count) == joined;
    LoopPassesEnd(model, reqA, joined.count, pass, Begin(model, w, reqA));
    SameEnd(pass, Served(model, w, reqA).locals);
  }

  function Untouched(model: Model): Worker {
    Worker(Start(model.rank), map[], None)
  }

  /** The next request starts a pass, with the clock at its start. */
  predicate AtStart(model: Model, w: Worker) {
    !Resuming(w) && StartTick(model, w) == Start(model.rank)
  }

  /** What a request leads to from there does not depend on the worker. */
  lemma StartsAfresh(model: Model, w: Worker, req: Request)
    requires AtStart(model, w)
    ensures CurrentPass(w, req) == req.pass && Served(model, w, req) == Served(model, Untouched(model), req)
    ensures Handle(model, w, req).0 == Finish(req.pass, Served(model, Untouched(model), req)).0
  {
    assert Begin(model, w, req) == Begin(model, Untouched(model), req);
  }

  /** A whole pass of the request, in one step. */
  function WholePass(model: Model, req: Request): (v: Verdict)
    ensures !v.Continue?
  {
    Served(model, Untouched(model), req.(count := req.pass.limit + 1))
  }

  lemma {:induction false} ChangesBound(from: Option<nat>, ticks: seq<TickInfo>)
    ensures LayerChanges(from, ticks) <= |ticks|
  {
    if ticks != [] {
      ChangesBound(from, ticks[..|ticks| - 1]);
    }
  }

  lemma {:induction false} ChangesGrow(from: Option<nat>, ticks: seq<TickInfo>, n: nat)
    requires n <= |ticks|
    ensures LayerChanges(from, ticks[..n]) <= LayerChanges(from, ticks)
    decreases |ticks|
  {
    if n < |ticks| {
      var front := ticks[..|ticks| - 1];
      ChangesGrow(from, front, n);
      assert front[..n] == ticks[..n];
    } else {
      assert ticks[..n] == ticks;
    }
  }

  lemma WholePassEnds(model: Model, req: Request)
    ensures WholePass(model, req).Complete?
  {
    var whole, w := req.(count := req.pass.limit + 1), Untouched(model);
    ConsumesNextHooks(model, w, whole);
    if ByLayer(req) {
      LayerStepCount(model, w, whole);
      ChangesBound(None, WholePass(model, req).locals.ticks);
    } else {
      ComponentStepCount(model, w, whole);
    }
  }

  /** The count reaches past the end of a pass with these ticks. */
  predicate ReachesEnd(req: Request, ticks: seq<TickInfo>) {
    if ByLayer(req) then LayerChanges(None, ticks) <= Max(req.count, 1) else |ticks| < Max(req.count, 1)
  }

  lemma {:induction false} LoopKeepsTicks(model: Model, req: Request, pass: Pass, l: Locals)
    ensures l.ticks <= Loop(model, req, pass, l).locals.ticks
    decreases Max(pass.limit - |l.replies|, 0)
  {
    var m := Emit(pass, l.replies);
    if m.Fired? {
      MessageTicks(model, req, l, m);
    }
    var v := OnMessage(model, req, l, m);
    if v.Continue? {
      LoopKeepsTicks(model, req, pass, v.locals);
    }
  }

  /** A count larger than either of two. */
  function Larger(req: Request): nat {
    Ahead(req) + req.pass.limit + 3
  }

  /** With a large count, the whole pass is what is left. */
  lemma LargeEnds(model: Model, req: Request)
    ensures Served(model, Untouched(model), req.(count := Larger(req)))
         == Complete(Undrained(WholePass(model, req).locals))
  {
    var whole, w := req.(count := req.pass.limit + 1), Untouched(model);
    WholePassEnds(model, req);
    assert Begin(model, w, whole) == Undrained(Begin(model, w, whole));
    assert whole.(count := Larger(req)) == req.(count := Larger(req));
    LoopPassesEnd(model, whole, Larger(req), req.pass, Begin(model, w, whole));
  }

  lemma EndsWhole(model: Model, req: Request)
    requires Served(model, Untouched(model), req).Complete?
    ensures Undrained(Served(model, Untouched(model), req).locals) == Undrained(WholePass(model, req).locals)
  {
    var w := Untouched(model);
    LargeEnds(model, req);
    assert Begin(model, w, req) == Undrained(Begin(model, w, req));
    LoopPassesEnd(model, req, Larger(req), req.pass, Begin(model, w, req));
  }

  lemma StopsWithin(model: Model, req: Request)
    requires Served(model, Untouched(model), req).Stop?
    ensures Served(model, Untouched(model), req).locals.ticks <= WholePass(model, req).locals.ticks
  {
    var w := Untouched(model);
    LargeEnds(model, req);
    assert Begin(model, w, req) == Undrained(Begin(model, w, req));
    LoopPassesStop(model, req, Larger(req), req.pass, Begin(model, w, req));
    LoopKeepsTicks(model, req.(count := Larger(req)), req.pass, Continued(req, Served(model, w, req).locals));
  }

  lemma StopIsShort(req: Request, ticks: seq<TickInfo>, whole: seq<TickInfo>)
    requires ticks <= whole
    requires if ByLayer(req) then LayerChanges(None, ticks) == Max(req.count, 1) + 1 else |ticks| == Max(req.count, 1)
    ensures !ReachesEnd(req, whole)
  {
    ChangesGrow(None, whole, |ticks|);
    assert whole[..|ticks|] == ticks;
  }

  /** A request from the start of a pass runs to the end exactly when its count reaches there. */
  lemma EndReached(model: Model, req: Request)
    ensures Served(model, Untouched(model), req).Complete? <==> ReachesEnd(req, WholePass(model, req).locals.ticks)
  {
    var w, v := Untouched(model), Served(model, Untouched(model), req);
    if ByLayer(req) {
      LayerStepCount(model, w, req);
    } else {
      ComponentStepCount(model, w, req);
    }
    if v.Complete? {
      EndsWhole(model, req);
    } else {
      StopsWithin(model, req);
      StopIsShort(req, v.locals.ticks, WholePass(model, req).locals.ticks);
    }
  }

  /** The worker a whole pass leaves. */
  function WholeWorker(model: Model, req: Request): Worker {
    Finish(req.pass, WholePass(model, req)).0
  }

  /** Running to the end from the start of a pass leaves just that. */
  lemma StartToEnd(model: Model, w: Worker, req: Request)
    requires AtStart(model, w) && Served(model, w, req).Complete?
    ensures Handle(model, w, req).0 == WholeWorker(model, req)
  {
    StartsAfresh(model, w, req);
    EndsWhole(model, req);
    WholePassEnds(model, req);
    SameEnd(req.pass, Served(model, Untouched(model), req).locals);
    SameEnd(req.pass, WholePass(model, req).locals);
  }

  /** After a first request that ran to the end, a second one runs a pass of its own. */
  lemma SecondPass(model: Model, w1: Worker, req: Request)
    requires w1.forward.Some? && w1.forward.value.complete
    ensures Handle(model, w1, req).0 == w1
       <==> ReachesEnd(req, WholePass(model, req).locals.ticks) && w1 == WholeWorker(model, req)
  {
    StartsAfresh(model, w1, req);
    EndReached(model, req);
    if Served(model, w1, req).Complete? {
      StartToEnd(model, w1, req);
    }
  }

  lemma CountFree(model: Model, req: Request, b: nat)
    ensures WholePass(model, req.(count := b)) == WholePass(model, req)
    ensures WholeWorker(model, req.(count := b)) == WholeWorker(model, req)
  {
    assert req.(count := b).(count := req.pass.limit + 1) == req.(count := req.pass.limit + 1);
  }

  /**
   Stepping `a` and then `b` against one step over all of it, whose count is `max(a, 1) +
   max(b, 1)` and one more at layer granularity. The worker is left the same -- clocks, stored
   outputs, pass position and every reply the model saw -- exactly in these cases. If the first
   request stops short of the end: when no intervention fires on the hook where it stops; one
   that does is computed, but the resumed hook gets `None`. If it runs the pass to its end: when
   the second request, which then starts a pass of its own, runs that to its end too, and leaves
   the same.
   */
  lemma SplitStep(model: Model, w: Worker, req: Request, a: nat, b: nat)
    ensures Served(model, w, req.(count := a)).Stop? ==> Served(model, w, req.(count := a)).locals.ticks != []
    ensures var w1 := Handle(model, w, req.(count := a)).0;
            Handle(model, w, Joined(req, a, b)).0 == Handle(model, w1, req.(count := b)).0
            <==> if Served(model, w, req.(count := a)).Stop? then !FiresAtStop(model, w, req.(count := a))
                 else ReachesEnd(req.(count := b), WholePass(model, req).locals.ticks) && w1 == WholeWorker(model, req)
  {
    var reqA, reqB := req.(count := a), req.(count := b);
    if Served(model, w, reqA).Complete? {
      JoinedEnds(model, w, req, a, b);
      SecondPass(model, Handle(model, w, reqA).0, reqB);
      CountFree(model, req, b);
    } else {
      SplitAtStop(model, w, req, a, b);
    }
  }

  lemma SplitAtStop(model: Model, w: Worker, req: Request, a: nat, b: nat)
    requires Served(model, w, req.(count := a)).Stop?
    ensures Served(model, w, req.(count := a)).locals.ticks != []
    ensures var w1 := Handle(model, w, req.(count := a)).0;
            Handle(model, w, Joined(req, a, b)).0 == Handle(model, w1, req.(count := b)).0
            <==> !FiresAtStop(model, w, req.(count := a))
  {
    StopHasTick(model, w, req.(count := a));
    if FiresAtStop(model, w, req.(count := a)) {
      JoinedReply(model, w, req, a, b);
      SplitReply(model, w, req.(count := a), req.(count := b));
    } else {
      SplitStepSame(model, w, req, a, b);
    }
  }

  // ----- cases where they differ -----

  /** How often module `path` has fired among the hooks released with `replies`. */
  function Calls(pass: Pass, replies: seq<Reply>, path: string): nat {
    if replies == [] then 0
    else
      var before := replies[..|replies| - 1];
      var m := Emit(pass, before);
      Calls(pass, before, path) + (if m.Fired? && m.path == path then 1 else 0)
  }

  /** The hook closure numbers the calls of each module from zero. */
  ghost predicate Numbered(pass: Pass) {
    forall replies: seq<Reply> ::
      var m := Emit(pass, replies); m.Fired? ==> m.callIndex == Calls(pass, replies, m.path)
  }

  /** Two modules of one layer, each firing once with output `t`. */
  function TwoHooks(t: Tensor): Pass {
    Pass(2, (replies: seq<Reply>) =>
           Some((if replies == [] then "h.0.attn.c_proj" else "h.0.mlp.c_proj", 0, Some(t))))
  }

  lemma TwoHooksNumbered(t: Tensor)
    ensures Numbered(TwoHooks(t))
  {
    var pass := TwoHooks(t);
    forall replies: seq<Reply> | Emit(pass, replies).Fired?
      ensures Emit(pass, replies).callIndex == Calls(pass, replies, Emit(pass, replies).path)
    {
      if |replies| == 1 {
        assert replies[..0] == [];
      }
    }
  }

  /** A two-component model, and a one-tick request whose recipe changes the output of one of them. */
  function SmallModel(): Model {
    Model("gpt2", 0, map[("h.0.attn.c_proj", 0) := Component("o_proj", Some(0)),
                         ("h.0.mlp.c_proj", 0) := Component("down_proj", Some(0))])
  }

  function OneTick(t: Tensor, changed: Tensor): Request {
    Request(1, None, None, [], TwoHooks(t),
            (i: TickInfo) => (changed, if i.canonical == "o_proj" then ["scale"] else []))
  }

  /** That request stops at the first hook, where its recipe fires. */
  lemma FiresOnFirst(t: Tensor, changed: Tensor)
    ensures var v := Served(SmallModel(), Worker(Start(0), map[], None), OneTick(t, changed));
            && v.Stop? && |v.locals.ticks| == 1 && v.locals.replies == []
            && Intervention(OneTick(t, changed), v.locals.ticks[0]) == Some((changed, ["scale"]))
  {
  }

  /**
   The smallest case where the two ways differ: two hooks, a recipe that fires on the first,
   stepped one at a time. The first step computes the new tensor and the model never sees it.
   */
  lemma InterventionLost(t: Tensor, changed: Tensor)
    ensures Numbered(TwoHooks(t))
    ensures var model, req, w := SmallModel(), OneTick(t, changed), Worker(Start(0), map[], None);
            var once, twice := Handle(model, w, Joined(req, 1, 1)).0, Handle(model, Handle(model, w, req).0, req).0;
            && Replies(once) != [] && Replies(once)[0] == Some(changed)
            && Replies(twice) != [] && Replies(twice)[0] == None
  {
    var model, req, w := SmallModel(), OneTick(t, changed), Worker(Start(0), map[], None);
    TwoHooksNumbered(t);
    FiresOnFirst(t, changed);
    assert req.(count := 1) == req;
    JoinedReply(model, w, req, 1, 1);
    SplitReply(model, w, req, req);
  }

  /** A pass of one hook. */
  function OneHook(t: Tensor): Pass {
    Pass(1, (_: seq<Reply>) => Some(("h.0.attn.c_proj", 0, Some(t))))
  }

  lemma OneHookEnds(t: Tensor, count: nat)
    ensures var req := Request(count, None, None, [], OneHook(t), (_: TickInfo) => (t, []));
            var v := Served(SmallModel(), Untouched(SmallModel()), req);
            if count >= 2 then v.Complete? && |v.locals.ticks| == 1 else v.Stop?
  {
    var req := Request(count, None, None, [], OneHook(t), (_: TickInfo) => (t, []));
    var l := Begin(SmallModel(), Untouched(SmallModel()), req);
    var v := OnMessage(SmallModel(), req, l, Emit(OneHook(t), []));
    if v.Continue? {
      assert Emit(OneHook(t), v.locals.replies).Sentinel?;
    }
  }

  /**
   Without any intervention: one hook, stepped by two and then by one. The first step completes
   the pass, and the second starts another; one step of three ends with the pass complete.
   */
  lemma StepsPastEnd(t: Tensor)
    ensures var model, w := SmallModel(), Untouched(SmallModel());
            var req := Request(2, None, None, [], OneHook(t), (_: TickInfo) => (t, []));
            var once := Handle(model, w, Joined(req, 2, 1)).0;
            var twice := Handle(model, Handle(model, w, req).0, req.(count := 1)).0;
            && once.forward.Some? && once.forward.value.complete
            && twice.forward.Some? && !twice.forward.value.complete
  {
    var model, w := SmallModel(), Untouched(SmallModel());
    var req := Request(2, None, None, [], OneHook(t), (_: TickInfo) => (t, []));
    assert req.(count := 2) == req;
    OneHookEnds(t, 2);
    OneHookEnds(t, 1);
    JoinedEnds(model, w, req, 2, 1);
    StartsAfresh(model, Handle(model, w, req).0, req.(count := 1));
  }
}
