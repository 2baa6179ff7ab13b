/**
 The handoff between the model thread and the worker as an interleaved system.

 The mailboxes are those of python/rocket_surgeon/hooks/mailbox.py: a lock and a value
 cell. Every lock operation, every read and every write of a value cell is one step, and
 the two threads' steps interleave freely. The model thread runs the hook closure of
 python/rocket_surgeon/bridge.py and its completion callback; the worker runs one step
 request after another.
 */
module Barrier {
  import opened Prelude
  import opened TickClock
  import opened StepLoop

  datatype Mailbox<T> = Mailbox(locked: bool, value: Option<T>)

  /** The lock starts out acquired and the cell empty. */
  function Fresh<T>(): Mailbox<T> {
    Mailbox(true, None)
  }

  datatype ThreadPc =
    | NoThread            // no forward pass yet
    | StoreResult         // result.put: write the cell
    | TestResult          // result.put: `if locked()`
    | ReleaseResult       // result.put: release
    | AcquireResume       // resume.wait: acquire, blocks while locked
    | ReadResume          // resume.wait: read the cell
    | ClearResume(reply: Reply)  // resume.restore
    | Exited

  datatype WorkerPc =
    | Idle                // between requests
    | StoreResume(reply: Reply)  // resume.put: write the cell
    | TestResume          // resume.put: `if locked()`
    | ReleaseResume       // resume.put: release
    | AcquireResult       // result.wait: acquire, blocks while locked
    | ReadResult          // result.wait: read the cell
    | ClearResult(message: Option<Message>)  // result.restore
    | Decide(message: Option<Message>)       // the rest of the loop body

  datatype System = System(
    // shared
    result: Mailbox<Message>,
    resume: Mailbox<Tensor>,
    // model thread
    threadPc: ThreadPc,
    pass: Pass,
    got: seq<Reply>,              // what the hooks of this pass returned with
    // worker
    workerPc: WorkerPc,
    worker: Worker,               // as of the last finished request
    request: Request,             // the request being served
    locals: Locals,               // its loop variables
    todo: seq<Request>,
    responses: seq<Response>,
    // histories of this pass
    sent: seq<Message>,           // values written to the result cell
    received: seq<Message>)       // values the worker's wait returned

  // ----- the model thread -----

  predicate ThreadEnabled(s: System) {
    match s.threadPc
    case NoThread | Exited => false
    case AcquireResume => !s.resume.locked
    case _ => true
  }

  /** Where `put` returns to: the hook goes on to wait, the completion callback ends the thread. */
  function AfterPut(s: System): ThreadPc {
    if Emit(s.pass, s.got).Sentinel? then Exited else AcquireResume
  }

  function ThreadStep(s: System): System
    requires ThreadEnabled(s)
  {
    match s.threadPc
    case StoreResult =>
      var m := Emit(s.pass, s.got);
      s.(result := s.result.(value := Some(m)), threadPc := TestResult, sent := s.sent + [m])
    case TestResult => s.(threadPc := if s.result.locked then ReleaseResult else AfterPut(s))
    case ReleaseResult => s.(result := s.result.(locked := false), threadPc := AfterPut(s))
    case AcquireResume => s.(resume := s.resume.(locked := true), threadPc := ReadResume)
    case ReadResume => s.(threadPc := ClearResume(s.resume.value))
    case ClearResume(reply) =>
      s.(resume := s.resume.(value := None), got := s.got + [reply], threadPc := StoreResult)
  }

  // ----- the worker -----

  predicate WorkerEnabled(s: System) {
    match s.workerPc
    case Idle => s.todo != []
    case AcquireResult => !s.result.locked
    // a value that is no tuple raises, which ends the request abnormally
    case Decide(message) => message.Some?
    case _ => true
  }

  /** Taking the next request: a parked pass is resumed, otherwise a thread is started. */
  function BeginStep(model: Model, s: System): System
    requires s.workerPc.Idle? && s.todo != []
  {
    var req := s.todo[0];
    var t := s.(request := req, todo := s.todo[1..], locals := Begin(model, s.worker, req));
    if Resuming(s.worker) then t.(workerPc := StoreResume(None))
    else
      t.(result := Fresh(), resume := Fresh(), threadPc := StoreResult, pass := req.pass, got := [],
         sent := [], received := [], workerPc := AcquireResult)
  }

  function DecideStep(model: Model, s: System, m: Message): System {
    var v := OnMessage(model, s.request, s.locals, m);
    if v.Continue? then
      s.(locals := v.locals, workerPc := StoreResume(v.locals.replies[|v.locals.replies| - 1]))
    else
      var (worker, response) := Finish(s.pass, v);
      s.(locals := v.locals, workerPc := Idle, worker := worker, responses := s.responses + [response])
  }

  function WorkerStep(model: Model, s: System): System
    requires WorkerEnabled(s)
  {
    match s.workerPc
    case Idle => BeginStep(model, s)
    case StoreResume(reply) => s.(resume := s.resume.(value := reply), workerPc := TestResume)
    case TestResume => s.(workerPc := if s.resume.locked then ReleaseResume else AcquireResult)
    case ReleaseResume => s.(resume := s.resume.(locked := false), workerPc := AcquireResult)
    case AcquireResult => s.(result := s.result.(locked := true), workerPc := ReadResult)
    case ReadResult =>
      s.(workerPc := ClearResult(s.result.value),
         received := s.received + (if s.result.value.Some? then [s.result.value.value] else []))
    case ClearResult(message) => s.(result := s.result.(value := None), workerPc := Decide(message))
    case Decide(message) => DecideStep(model, s, message.value)
  }

  ghost predicate Next(model: Model, s: System, t: System) {
    (ThreadEnabled(s) && t == ThreadStep(s)) || (WorkerEnabled(s) && t == WorkerStep(model, s))
  }

  /** Before the first request. The fields that do not matter yet are arbitrary. */
  ghost predicate Initial(model: Model, s: System, requests: seq<Request>) {
    && s.threadPc.NoThread? && s.workerPc.Idle?
    && s.worker == Worker(Start(model.rank), map[], None)
    && s.todo == requests && s.responses == []
    && s.sent == [] && s.received == [] && s.got == []
  }

  ghost predicate IsRun(model: Model, requests: seq<Request>, run: seq<System>) {
    && run != [] && Initial(model, run[0], requests)
    && forall i :: 0 <= i < |run| - 1 ==> Next(model, run[i], run[i + 1])
  }

  // ----- the invariant -----

  function Last(s: seq<Reply>): Reply {
    if s == [] then None else s[|s| - 1]
  }

  /** The thread has put its message and is parked on the resume mailbox, or gone. */
  predicate Parked(s: System) {
    s.threadPc == AfterPut(s)
  }

  /** The current message is in the result cell, and the worker has not answered it. */
  predicate MessageHeld(s: System, locked: bool) {
    && Parked(s) && s.resume == Fresh() && s.locals.replies == s.got
    && s.result == Mailbox(locked, Some(Emit(s.pass, s.got)))
  }

  /** The worker has answered the current hook; the resume cell holds `cell`. */
  predicate ReplyHeld(s: System, locked: bool, cell: Reply) {
    && s.result == Fresh() && s.resume == Mailbox(locked, cell) && Emit(s.pass, s.got).Fired?
    && |s.locals.replies| == |s.got| + 1 && s.locals.replies[..|s.got|] == s.got
  }

  /** Between two requests the thread does not exist, is parked, or has exited. */
  ghost predicate Resting(s: System) {
    match s.worker.forward
    case None => s.threadPc.NoThread?
    case Some(f) =>
      && Parked(s) && s.result == Fresh() && s.resume == Fresh()
      && f.pass == s.pass && f.replies == s.got && (f.complete <==> s.threadPc.Exited?)
  }

  /** Which worker states go with a thread that cannot move, or has a reply to pick up. */
  ghost predicate WorkerTurn(s: System) {
    match s.workerPc
    case Idle => Resting(s)
    case StoreResume(reply) => ReplyHeld(s, true, None) && s.threadPc.AcquireResume? && Last(s.locals.replies) == reply
    case TestResume => ReplyHeld(s, true, Last(s.locals.replies)) && s.threadPc.AcquireResume?
    case ReleaseResume => ReplyHeld(s, true, Last(s.locals.replies)) && s.threadPc.AcquireResume?
    case AcquireResult =>
      || MessageHeld(s, false)
      || (ReplyHeld(s, false, Last(s.locals.replies)) && s.threadPc.AcquireResume?)
    case ReadResult => MessageHeld(s, true)
    case ClearResult(message) => MessageHeld(s, true) && message == Some(Emit(s.pass, s.got))
    case Decide(message) =>
      && Parked(s) && s.result == Fresh() && s.resume == Fresh() && s.locals.replies == s.got
      && message == Some(Emit(s.pass, s.got))
  }

  ghost predicate Handoff(s: System) {
    match s.threadPc
    case NoThread | AcquireResume | Exited => WorkerTurn(s)
    case StoreResult =>
      s.workerPc.AcquireResult? && s.result == Fresh() && s.resume == Fresh() && s.locals.replies == s.got
    case TestResult | ReleaseResult =>
      && s.workerPc.AcquireResult? && s.resume == Fresh() && s.locals.replies == s.got
      && s.result == Mailbox(true, Some(Emit(s.pass, s.got)))
    case ReadResume => s.workerPc.AcquireResult? && ReplyHeld(s, true, Last(s.locals.replies))
    case ClearResume(reply) =>
      s.workerPc.AcquireResult? && ReplyHeld(s, true, Last(s.locals.replies)) && reply == Last(s.locals.replies)
  }

  /** The first `n` messages of a pass whose hooks are released with `got`. */
  function Trace(pass: Pass, got: seq<Reply>, n: nat): (t: seq<Message>)
    requires n <= |got| + 1
    ensures |t| == n && forall i :: 0 <= i < n ==> t[i] == Emit(pass, got[..i])
  {
    seq(n, i requires 0 <= i < n => Emit(pass, got[..i]))
  }

  /** Whether the message of the current hook is written, and whether it is read. */
  predicate Written(s: System) { !s.threadPc.NoThread? && !s.threadPc.StoreResult? }

  predicate Read(s: System) {
    Written(s) && !s.workerPc.ReadResult? && !(s.workerPc.AcquireResult? && s.result.value.Some?)
  }

  predicate Histories(s: System) {
    && s.sent == Trace(s.pass, s.got, if Written(s) then |s.got| + 1 else |s.got|)
    && s.received == Trace(s.pass, s.got, if Read(s) then |s.got| + 1 else |s.got|)
  }

  /** Finishing the loop from the current locals gives what the request was to give. */
  ghost predicate OnTrack(model: Model, s: System) {
    s.workerPc.Idle? || Heading(model, s.pass, s.worker, s.request, s.locals)
  }

  ghost predicate Heading(model: Model, pass: Pass, worker: Worker, request: Request, locals: Locals) {
    && pass == CurrentPass(worker, request)
    && Finish(pass, Loop(model, request, pass, locals)) == Handle(model, worker, request)
  }

  /** Serving the first `n` requests one after another with no thread at all. */
  function Session(model: Model, requests: seq<Request>, n: nat): (Worker, seq<Response>)
    requires n <= |requests|
  {
    if n == 0 then (Worker(Start(model.rank), map[], None), [])
    else
      var (w, rs) := Session(model, requests, n - 1);
      var (w', r) := Handle(model, w, requests[n - 1]);
      (w', rs + [r])
  }

  /** How many requests have been answered. */
  function AnsweredCount(requests: seq<Request>, s: System): int {
    |requests| - |s.todo| - (if s.workerPc.Idle? then 0 else 1)
  }

  /** The requests not answered yet are the one being served, if any, and those still to do. */
  ghost predicate InPlace(requests: seq<Request>, s: System) {
    var n := AnsweredCount(requests, s);
    && 0 <= n && s.todo == requests[|requests| - |s.todo|..]
    && (!s.workerPc.Idle? ==> s.request == requests[n])
  }

  ghost predicate Served(model: Model, requests: seq<Request>, s: System) {
    InPlace(requests, s) && Session(model, requests, AnsweredCount(requests, s)) == (s.worker, s.responses)
  }

  ghost predicate Inv(model: Model, requests: seq<Request>, s: System) {
    Handoff(s) && Histories(s) && OnTrack(model, s) && Served(model, requests, s)
  }

  // ----- every step keeps it -----

  /** Steps inside a request that leave the loop variables alone keep the request on track. */
  lemma MidRequestFrame(model: Model, requests: seq<Request>, s: System, t: System)
    requires OnTrack(model, s) && Served(model, requests, s) && !s.workerPc.Idle? && !t.workerPc.Idle?
    requires t.pass == s.pass && t.request == s.request && t.locals == s.locals
    requires t.worker == s.worker && t.todo == s.todo && t.responses == s.responses
    ensures OnTrack(model, t) && Served(model, requests, t)
  {
  }

  lemma ThreadKeepsHandoff(s: System)
    requires Handoff(s) && ThreadEnabled(s)
    ensures Handoff(ThreadStep(s))
  {
    match s.threadPc {
      case ClearResume(reply) => assert ThreadStep(s).got == s.locals.replies;
      case _ =>
    }
  }

  lemma ThreadKeepsHistories(s: System)
    requires Handoff(s) && Histories(s) && ThreadEnabled(s)
    ensures Histories(ThreadStep(s))
  {
    var t := ThreadStep(s);
    match s.threadPc {
      case StoreResult =>
        assert s.got[..|s.got|] == s.got;
        assert t.sent == Trace(s.pass, s.got, |s.got| + 1);
      case ClearResume(reply) =>
        assert forall i :: 0 <= i <= |s.got| ==> t.got[..i] == s.got[..i];
        assert Trace(s.pass, s.got, |s.got| + 1) == Trace(s.pass, t.got, |t.got|);
      case _ =>
    }
  }

  lemma ThreadKeeps(model: Model, requests: seq<Request>, s: System)
    requires Inv(model, requests, s) && ThreadEnabled(s)
    ensures Inv(model, requests, ThreadStep(s))
  {
    ThreadKeepsHandoff(s);
    ThreadKeepsHistories(s);
    assert !s.workerPc.Idle?;
    MidRequestFrame(model, requests, s, ThreadStep(s));
  }

  lemma BeginKeepsHandoff(model: Model, s: System)
    requires Handoff(s) && Histories(s) && s.workerPc.Idle? && s.todo != []
    ensures Handoff(BeginStep(model, s)) && Histories(BeginStep(model, s))
  {
  }

  lemma BeginOnTrack(model: Model, s: System)
    requires Handoff(s) && s.workerPc.Idle? && s.todo != []
    ensures OnTrack(model, BeginStep(model, s))
  {
  }

  lemma BeginFrame(model: Model, s: System)
    requires s.workerPc.Idle? && s.todo != []
    ensures var t := BeginStep(model, s);
            && t.worker == s.worker && t.responses == s.responses && !t.workerPc.Idle?
            && t.request == s.todo[0] && t.todo == s.todo[1..]
  {
  }

  lemma BeginInPlace(requests: seq<Request>, s: System, t: System)
    requires InPlace(requests, s) && s.workerPc.Idle? && s.todo != []
    requires !t.workerPc.Idle? && t.request == s.todo[0] && t.todo == s.todo[1..]
    ensures InPlace(requests, t) && AnsweredCount(requests, t) == AnsweredCount(requests, s)
  {
  }

  lemma BeginKeeps(model: Model, requests: seq<Request>, s: System)
    requires Inv(model, requests, s) && s.workerPc.Idle? && s.todo != []
    ensures Inv(model, requests, BeginStep(model, s))
  {
    BeginKeepsHandoff(model, s);
    BeginOnTrack(model, s);
    BeginFrame(model, s);
    BeginInPlace(requests, s, BeginStep(model, s));
  }

  lemma DecideKeepsHandoff(model: Model, s: System)
    requires Handoff(s) && s.workerPc.Decide?
    ensures s.workerPc.message == Some(Emit(s.pass, s.locals.replies))
    ensures Handoff(DecideStep(model, s, s.workerPc.message.value))
  {
  }

  lemma DecideKeepsHistories(model: Model, s: System)
    requires Handoff(s) && Histories(s) && s.workerPc.Decide? && s.workerPc.message.Some?
    ensures Histories(DecideStep(model, s, s.workerPc.message.value))
  {
  }

  lemma DecideKeepsTrack(model: Model, s: System)
    requires OnTrack(model, s) && s.workerPc.Decide?
    requires s.workerPc.message == Some(Emit(s.pass, s.locals.replies))
    ensures OnTrack(model, DecideStep(model, s, s.workerPc.message.value))
  {
  }

  /** A request that ends has the outcome of its sequential handling. */
  lemma DecideAnswers(model: Model, s: System)
    requires OnTrack(model, s) && s.workerPc.Decide?
    requires s.workerPc.message == Some(Emit(s.pass, s.locals.replies))
    ensures var t, (w, r) := DecideStep(model, s, s.workerPc.message.value), Handle(model, s.worker, s.request);
            t.workerPc.Idle? ==> t.worker == w && t.responses == s.responses + [r]
  {
  }

  lemma DecideFrame(model: Model, s: System, m: Message)
    ensures var t := DecideStep(model, s, m);
            && t.todo == s.todo && t.request == s.request
            && (t.workerPc.Idle? || (t.workerPc.StoreResume? && t.worker == s.worker && t.responses == s.responses))
  {
  }

  lemma DecideInPlace(requests: seq<Request>, s: System, t: System)
    requires InPlace(requests, s) && s.workerPc.Decide? && t.todo == s.todo && t.request == s.request
    ensures InPlace(requests, t)
    ensures AnsweredCount(requests, t) == AnsweredCount(requests, s) + (if t.workerPc.Idle? then 1 else 0)
  {
  }

  lemma SessionNext(model: Model, requests: seq<Request>, n: nat, worker: Worker, response: Response)
    requires n < |requests| && Handle(model, Session(model, requests, n).0, requests[n]) == (worker, response)
    ensures Session(model, requests, n + 1) == (worker, Session(model, requests, n).1 + [response])
  {
  }

  lemma DecideEnds(model: Model, requests: seq<Request>, s: System, t: System)
    requires OnTrack(model, s) && Served(model, requests, s) && s.workerPc.Decide?
    requires s.workerPc.message == Some(Emit(s.pass, s.locals.replies))
    requires t == DecideStep(model, s, s.workerPc.message.value) && t.workerPc.Idle?
    ensures Session(model, requests, AnsweredCount(requests, s) + 1) == (t.worker, t.responses)
  {
    DecideAnswers(model, s);
    SessionNext(model, requests, AnsweredCount(requests, s), t.worker, t.responses[|s.responses|]);
  }

  /** A request that goes on leaves everything where it was. */
  lemma ServedGoesOn(model: Model, requests: seq<Request>, s: System, t: System)
    requires Served(model, requests, s) && s.workerPc.Decide? && !t.workerPc.Idle?
    requires t.todo == s.todo && t.request == s.request && t.worker == s.worker && t.responses == s.responses
    ensures Served(model, requests, t)
  {
    DecideInPlace(requests, s, t);
  }

  lemma ServedEnds(model: Model, requests: seq<Request>, s: System, t: System)
    requires InPlace(requests, s) && s.workerPc.Decide? && t.workerPc.Idle? && t.todo == s.todo && t.request == s.request
    requires Session(model, requests, AnsweredCount(requests, s) + 1) == (t.worker, t.responses)
    ensures Served(model, requests, t)
  {
    DecideInPlace(requests, s, t);
  }

  lemma DecideKeepsServed(model: Model, requests: seq<Request>, s: System, t: System)
    requires OnTrack(model, s) && Served(model, requests, s) && s.workerPc.Decide?
    requires s.workerPc.message == Some(Emit(s.pass, s.locals.replies))
    requires t == DecideStep(model, s, s.workerPc.message.value)
    ensures Served(model, requests, t)
  {
    DecideFrame(model, s, s.workerPc.message.value);
    if t.workerPc.Idle? {
      DecideEnds(model, requests, s, t);
      ServedEnds(model, requests, s, t);
    } else {
      ServedGoesOn(model, requests, s, t);
    }
  }

  lemma WorkerKeepsHandoff(model: Model, s: System)
    requires Handoff(s) && WorkerEnabled(s) && !s.workerPc.Idle? && !s.workerPc.Decide?
    ensures Handoff(WorkerStep(model, s))
  {
  }

  lemma WorkerKeepsHistories(model: Model, s: System)
    requires Handoff(s) && Histories(s) && WorkerEnabled(s) && !s.workerPc.Idle? && !s.workerPc.Decide?
    ensures Histories(WorkerStep(model, s))
  {
    if s.workerPc.ReadResult? {
      assert s.got[..|s.got|] == s.got;
      assert WorkerStep(model, s).received == Trace(s.pass, s.got, |s.got| + 1);
    }
  }

  lemma DecideKeeps(model: Model, requests: seq<Request>, s: System)
    requires Inv(model, requests, s) && s.workerPc.Decide? && s.workerPc.message.Some?
    ensures Inv(model, requests, DecideStep(model, s, s.workerPc.message.value))
  {
    DecideKeepsHandoff(model, s);
    DecideKeepsHistories(model, s);
    DecideKeepsTrack(model, s);
    DecideKeepsServed(model, requests, s, DecideStep(model, s, s.workerPc.message.value));
  }

  lemma MailboxStepKeeps(model: Model, requests: seq<Request>, s: System)
    requires Inv(model, requests, s) && WorkerEnabled(s) && !s.workerPc.Idle? && !s.workerPc.Decide?
    ensures Inv(model, requests, WorkerStep(model, s))
  {
    WorkerKeepsHandoff(model, s);
    WorkerKeepsHistories(model, s);
    MidRequestFrame(model, requests, s, WorkerStep(model, s));
  }

  lemma WorkerKeeps(model: Model, requests: seq<Request>, s: System)
    requires Inv(model, requests, s) && WorkerEnabled(s)
    ensures Inv(model, requests, WorkerStep(model, s))
  {
    match s.workerPc {
      case Idle => BeginKeeps(model, requests, s);
      case Decide(_) => DecideKeeps(model, requests, s);
      case _ => MailboxStepKeeps(model, requests, s);
    }
  }

  // ----- whole runs -----

  /** The invariant holds all along every run. */
  lemma {:induction false} RunInv(model: Model, requests: seq<Request>, run: seq<System>, i: nat)
    requires IsRun(model, requests, run) && i < |run|
    ensures Inv(model, requests, run[i])
  {
    if i > 0 {
      RunInv(model, requests, run, i - 1);
      assert Next(model, run[i - 1], run[i]);
      if ThreadEnabled(run[i - 1]) && run[i] == ThreadStep(run[i - 1]) {
        ThreadKeeps(model, requests, run[i - 1]);
      } else {
        WorkerKeeps(model, requests, run[i - 1]);
      }
    }
  }

  /**
   Interleaving does not show: whenever the worker is between requests, its state and every
   response it has given are those of serving the requests one by one with no thread.
   */
  lemma RunsAreSequential(model: Model, requests: seq<Request>, run: seq<System>, i: nat)
    requires IsRun(model, requests, run) && i < |run| && run[i].workerPc.Idle?
    ensures |run[i].todo| <= |requests|
    ensures run[i].todo == requests[|requests| - |run[i].todo|..]
    ensures Session(model, requests, |requests| - |run[i].todo|) == (run[i].worker, run[i].responses)
  {
    RunInv(model, requests, run, i);
  }

  /**
   No message is lost, duplicated, reordered or made up: what the thread wrote and what the
   worker read are both prefixes of the pass's own trace, at most one apart.
   */
  lemma MessagesExact(model: Model, requests: seq<Request>, run: seq<System>, i: nat)
    requires IsRun(model, requests, run) && i < |run|
    ensures var s := run[i];
            && |s.sent| <= |s.got| + 1 && |s.received| <= |s.sent| <= |s.received| + 1
            && (forall k :: 0 <= k < |s.sent| ==> s.sent[k] == Emit(s.pass, s.got[..k]))
            && s.received == s.sent[..|s.received|]
  {
    RunInv(model, requests, run, i);
  }

  lemma HandoffReplies(s: System)
    requires Handoff(s) && !s.workerPc.Idle?
    ensures |s.got| <= |s.locals.replies| <= |s.got| + 1 && s.got == s.locals.replies[..|s.got|]
    ensures s.threadPc.ClearResume? ==> s.locals.replies == s.got + [s.threadPc.reply]
  {
  }

  /** Hook `|got|` returns with exactly the reply the worker put for it. */
  lemma RepliesExact(model: Model, requests: seq<Request>, run: seq<System>, i: nat)
    requires IsRun(model, requests, run) && i < |run| && !run[i].workerPc.Idle?
    ensures var s := run[i];
            && |s.got| <= |s.locals.replies| <= |s.got| + 1
            && s.got == s.locals.replies[..|s.got|]
            && (s.threadPc.ClearResume? ==> s.locals.replies == s.got + [s.threadPc.reply])
  {
    RunInv(model, requests, run, i);
    HandoffReplies(run[i]);
  }

  /** What the program counters say about the cells. */
  predicate CellsSafe(s: System) {
    && (s.threadPc.StoreResult? ==> s.result == Fresh())
    && (s.threadPc.TestResult? || s.threadPc.ReleaseResult? ==> s.result.locked)
    && (s.workerPc.StoreResume? ==> s.resume == Fresh())
    && (s.workerPc.TestResume? || s.workerPc.ReleaseResume? ==> s.resume.locked)
    && (s.workerPc.ClearResult? ==> s.received == s.sent && s.workerPc.message == s.result.value)
    && (s.threadPc.ClearResume? ==> s.threadPc.reply == s.resume.value)
    && (s.workerPc.Decide? ==> s.workerPc.message.Some?)
  }

  lemma HandoffCells(s: System)
    requires Handoff(s) && Histories(s)
    ensures CellsSafe(s)
  {
  }

  /**
   A cell is never overwritten or cleared while it holds something unread, `put` always finds
   the lock held, and `wait` never returns an empty result.
   */
  lemma CellsNeverClobbered(model: Model, requests: seq<Request>, run: seq<System>, i: nat)
    requires IsRun(model, requests, run) && i < |run|
    ensures CellsSafe(run[i])
  {
    RunInv(model, requests, run, i);
    HandoffCells(run[i]);
  }

  // ----- progress -----

  /** The most steps the requests still to come can take. */
  function Budget(todo: seq<Request>): nat {
    if todo == [] then 0 else 13 * todo[0].pass.limit + 14 + Budget(todo[1..])
  }

  /** How far the handoff of the current hook is from done. */
  function Rank(s: System): nat {
    match s.threadPc
    case StoreResult => 13
    case TestResult => 12
    case ReleaseResult => 11
    case ReadResume => 2
    case ClearResume(_) => 1
    case NoThread | AcquireResume | Exited =>
      match s.workerPc {
        case AcquireResult => if s.result.value.Some? then 10 else 3
        case ReadResult => 9
        case ClearResult(_) => 8
        case Decide(_) => 7
        case StoreResume(_) => 6
        case TestResume => 5
        case ReleaseResume => 4
        case Idle => 0
      }
  }

  function Fuel(s: System): nat {
    Budget(s.todo) + (if s.threadPc.NoThread? then 0 else 13 * Max(s.pass.limit - |s.got|, 0) + Rank(s))
  }

  lemma ThreadSpends(s: System)
    requires Handoff(s) && ThreadEnabled(s)
    ensures Fuel(ThreadStep(s)) < Fuel(s)
  {
  }

  lemma WorkerSpends(model: Model, s: System)
    requires Handoff(s) && WorkerEnabled(s)
    ensures Fuel(WorkerStep(model, s)) < Fuel(s)
  {
  }

  lemma NextSpends(model: Model, s: System, t: System)
    requires Handoff(s) && Next(model, s, t)
    ensures Fuel(t) < Fuel(s)
  {
    if ThreadEnabled(s) && t == ThreadStep(s) {
      ThreadSpends(s);
    } else {
      WorkerSpends(model, s);
    }
  }

  lemma InitialFuel(model: Model, s: System, requests: seq<Request>)
    requires Initial(model, s, requests)
    ensures Fuel(s) == Budget(requests)
  {
  }

  /** Every run is finite: `13 * limit + 14` steps per request at the very most. */
  lemma {:induction false} RunsEnd(model: Model, requests: seq<Request>, run: seq<System>, i: nat)
    requires IsRun(model, requests, run) && i < |run|
    ensures i + Fuel(run[i]) <= Budget(requests)
  {
    if i == 0 {
      InitialFuel(model, run[0], requests);
    } else {
      RunsEnd(model, requests, run, i - 1);
      assert Handoff(run[i - 1]) by {
        RunInv(model, requests, run, i - 1);
      }
      NextSpends(model, run[i - 1], run[i]);
    }
  }

  /** No deadlock: a run can stop only when every request has been answered, and answered right. */
  lemma StuckOnlyWhenServed(model: Model, requests: seq<Request>, run: seq<System>)
    requires IsRun(model, requests, run)
    requires var s := run[|run| - 1]; !ThreadEnabled(s) && !WorkerEnabled(s)
    ensures var s := run[|run| - 1];
            s.workerPc.Idle? && s.todo == [] && Session(model, requests, |requests|) == (s.worker, s.responses)
  {
    RunInv(model, requests, run, |run| - 1);
  }
}
