/** What holds of the clock over whole sessions, and so over every interleaved run. */
module SessionLaws {
  import opened Prelude
  import opened TickClock
  import opened StepLoop
  import opened StepLaws
  import opened Barrier

  /** The token clock and the phase say exactly whether the pass is complete. */
  predicate Tells(t: Tick, complete: bool) {
    t.token == (if complete then 1 else 0) && t.phase == (if complete then Decode else Prefill)
  }

  predicate Finished(w: Worker) {
    w.forward.Some? && w.forward.value.complete
  }

  lemma {:induction false} ClockedKeeps(t: Tick, ticks: seq<TickInfo>)
    ensures Clocked(t, ticks).token == t.token && Clocked(t, ticks).phase == t.phase
  {
    if ticks != [] {
      ClockedKeeps(t, ticks[..|ticks| - 1]);
    }
  }

  /** One request keeps it: a finished pass's clock is thrown away before the next pass starts. */
  lemma HandleTells(model: Model, w: Worker, req: Request)
    requires Tells(w.tick, Finished(w))
    ensures var (w', r) := Handle(model, w, req);
            Tells(w'.tick, Finished(w')) && r.position == w'.tick && r.forwardComplete == Finished(w')
  {
    LoopClocks(model, req, CurrentPass(w, req), Begin(model, w, req), StartTick(model, w));
    ClockedKeeps(StartTick(model, w), StepLaws.Served(model, w, req).locals.ticks);
  }

  /**
   Over any series of requests the token clock is at one and the phase is decode right after a
   completed pass, and at zero and prefill otherwise, in the worker and in every response: no
   session counts a second token.
   */
  lemma {:induction false} SessionTells(model: Model, requests: seq<Request>, n: nat)
    requires n <= |requests|
    ensures var (w, responses) := Session(model, requests, n);
            && Tells(w.tick, Finished(w))
            && forall r :: r in responses ==> Tells(r.position, r.forwardComplete)
  {
    if n > 0 {
      SessionTells(model, requests, n - 1);
      HandleTells(model, Session(model, requests, n - 1).0, requests[n - 1]);
    }
  }

  /** So it is in every interleaved run, whenever the worker is between requests. */
  lemma RunTells(model: Model, requests: seq<Request>, run: seq<System>, i: nat)
    requires IsRun(model, requests, run) && i < |run| && run[i].workerPc.Idle?
    ensures Tells(run[i].worker.tick, Finished(run[i].worker))
    ensures forall r :: r in run[i].responses ==> Tells(r.position, r.forwardComplete)
  {
    RunsAreSequential(model, requests, run, i);
    SessionTells(model, requests, |requests| - |run[i].todo|);
  }
}
