/**
  Work on its own thread (`ministack/core/concurrency.py`): the awaiter of a re-entrant call waits
  for its worker through every cancellation, and the live counters follow the threads.
 */
module Reentrant {
  import opened Results

  /**
    How the worker's function ends. `Fatal` is a BaseException outside Exception, such as SystemExit;
    `Stopped` is a StopIteration, which no future can hold.
   */
  datatype Outcome = Returned(value: nat) | Failed(error: nat) | Fatal(error: nat) | Stopped(error: nat)

  datatype Ending = Gives(value: nat) | Raises(error: nat) | RaisesFatal(error: nat) | CancelledBy(id: nat) | CannotStart

  /** The coroutine: at its first await, absorbing cancellations after a first one, or done. */
  datatype Awaiter = Waiting | Absorbing(first: nat) | Finished(ending: Ending)

  /** A StopIteration reaches the awaiter as the RuntimeError it was turned into. */
  function Plain(outcome: Outcome): Ending {
    match outcome
    case Returned(v) => Gives(v)
    case Failed(e) => Raises(e)
    case Fatal(e) => RaisesFatal(e)
    case Stopped(e) => Raises(e)
  }

  /**
    What a future holds once an outcome is delivered to it. Python before 3.12 is strict: there
    `set_exception` raises TypeError for a StopIteration and the future stays as it was.
   */
  function Settled(outcome: Outcome, strict: bool): Option<Outcome> {
    if strict && outcome.Stopped? then None else Some(outcome)
  }

  /** The end of a cancelled call: `except Exception` keeps back what the worker raised, unless it is no Exception. */
  function AfterCancel(first: nat, outcome: Outcome): Ending {
    if outcome.Fatal? then RaisesFatal(outcome.error) else CancelledBy(first)
  }

  /** A CancelledError reaches the coroutine while the future stands as given. */
  function OnCancel(a: Awaiter, id: nat, future: Option<Outcome>): Awaiter {
    match a
    case Waiting => if future.Some? then Finished(AfterCancel(id, future.value)) else Absorbing(id)
    case Absorbing(first) => if future.Some? then Finished(AfterCancel(first, future.value)) else a
    case Finished(_) => a
  }

  /** The future's completion reaches the coroutine. */
  function OnDone(a: Awaiter, outcome: Outcome): Awaiter {
    match a
    case Waiting => Finished(Plain(outcome))
    case Absorbing(first) => Finished(AfterCancel(first, outcome))
    case Finished(_) => a
  }

  // ---------------------------------------------------------------- the coroutine's own loop

  /** What the coroutine's current await ends with; an interruption also shows the future at that moment. */
  datatype Wakeup = Interrupted(id: nat, future: Option<Outcome>) | Completed(outcome: Outcome)

  function Wake(a: Awaiter, w: Wakeup): Awaiter {
    match w
    case Interrupted(id, future) => OnCancel(a, id, future)
    case Completed(outcome) => OnDone(a, outcome)
  }

  function WakeAll(wakeups: seq<Wakeup>): Awaiter {
    if wakeups == [] then Waiting else Wake(WakeAll(wakeups[..|wakeups| - 1]), wakeups[|wakeups| - 1])
  }

  lemma {:induction false} FinishedStays(wakeups: seq<Wakeup>, i: nat)
    requires i <= |wakeups| && WakeAll(wakeups[..i]).Finished?
    ensures WakeAll(wakeups) == WakeAll(wakeups[..i])
  {
    if i < |wakeups| {
      assert wakeups[..|wakeups| - 1][..i] == wakeups[..i];
      FinishedStays(wakeups[..|wakeups| - 1], i);
    } else {
      assert wakeups[..i] == wakeups;
    }
  }

  /** The awaiting part of `run_reentrant`, driven by a list of wake-ups; `None` when it still waits at their end. */
  method AwaitWorker(wakeups: seq<Wakeup>) returns (ending: Option<Ending>)
    ensures ending == (match WakeAll(wakeups) case Finished(e) => Some(e) case _ => None)
  {
    if wakeups == [] {
      return None;
    }
    assert wakeups[..1] == [wakeups[0]] && wakeups[..0] == [];
    assert WakeAll(wakeups[..1]) == Wake(Waiting, wakeups[0]);
    if wakeups[0].Completed? {
      FinishedStays(wakeups, 1);
      return Some(Plain(wakeups[0].outcome));
    }
    var cancellation := wakeups[0].id;
    var future := wakeups[0].future;
    var i := 1;
    while future.None? && i < |wakeups|
      invariant 1 <= i <= |wakeups|
      invariant WakeAll(wakeups[..i]) ==
        if future.Some? then Finished(AfterCancel(cancellation, future.value)) else Absorbing(cancellation)
    {
      assert wakeups[..i + 1][..i] == wakeups[..i];
      match wakeups[i] {
        case Interrupted(_, seen) => future := seen;
        case Completed(outcome) => future := Some(outcome);
      }
      i := i + 1;
    }
    if future.None? {
      assert wakeups[..i] == wakeups;
      return None;
    }
    FinishedStays(wakeups, i);
    if future.value.Fatal? {
      return Some(RaisesFatal(future.value.error));
    }
    return Some(CancelledBy(cancellation));
  }

  // ---------------------------------------------------------------- all calls together

  /** The thread of a call: counted but not started, refused by the system, running, done but still counted, gone. */
  datatype Thread = Counted | Refused | Running | Unwinding | Gone

  /** One `run_reentrant`. `queued` is a delivery the loop has yet to run; `cancels` and the tallies are history. */
  datatype Call = Call(thread: Thread, queued: Option<Outcome>, future: Option<Outcome>, awaiter: Awaiter,
                       outcome: Option<Outcome>, cancels: seq<nat>, ups: nat, downs: nat)

  /** One `spawn_background`. */
  datatype Job = Job(thread: Thread, ups: nat, downs: nat)

  /** `strict` says how the running Python's futures treat a StopIteration; no step changes it. */
  datatype System = System(strict: bool, open: bool, calls: map<nat, Call>, jobs: map<nat, Job>, reentrant: int, background: int)

  function Idle(strict: bool): System {
    System(strict, true, map[], map[], 0, 0)
  }

  datatype Step =
    | Begin(c: nat) | Start(c: nat) | Refuse(c: nat)
    | WorkEnds(c: nat, outcome: Outcome) | Unwind(c: nat)
    | Deliver(c: nat) | Cancel(c: nat, id: nat) | WakeUp(c: nat)
    | CloseLoop
    | BeginJob(j: nat) | StartJob(j: nat) | RefuseJob(j: nat) | JobEnds(j: nat)

  predicate Enabled(s: System, step: Step) {
    match step
    case Begin(c) => s.open && c !in s.calls
    case Start(c) => s.open && c in s.calls && s.calls[c].thread == Counted
    case Refuse(c) => s.open && c in s.calls && s.calls[c].thread == Counted
    case WorkEnds(c, _) => c in s.calls && s.calls[c].thread == Running
    case Unwind(c) => c in s.calls && s.calls[c].thread == Unwinding
    case Deliver(c) => s.open && c in s.calls && s.calls[c].queued.Some?
    case Cancel(c, _) =>
      s.open && c in s.calls && s.calls[c].thread != Counted && s.calls[c].thread != Refused && !s.calls[c].awaiter.Finished?
    case WakeUp(c) => s.open && c in s.calls && s.calls[c].future.Some? && !s.calls[c].awaiter.Finished?
    case CloseLoop => true
    case BeginJob(j) => j !in s.jobs
    case StartJob(j) => j in s.jobs && s.jobs[j].thread == Counted
    case RefuseJob(j) => j in s.jobs && s.jobs[j].thread == Counted
    case JobEnds(j) => j in s.jobs && s.jobs[j].thread == Running
  }

  /** What a step makes of the call it concerns. */
  function CallAfter(call: Call, step: Step, open: bool, strict: bool): Call {
    match step
    case Start(_) => call.(thread := Running)
    case Refuse(_) => call.(thread := Refused, awaiter := Finished(CannotStart), downs := call.downs + 1)
    case WorkEnds(_, outcome) =>
      call.(thread := Unwinding, outcome := Some(outcome), queued := if open then Some(outcome) else None)
    case Unwind(_) => call.(thread := Gone, downs := call.downs + 1)
    case Deliver(_) =>
      call.(queued := None,
            future := if call.future.Some? || call.queued.None? then call.future else Settled(call.queued.value, strict))
    case Cancel(_, id) => call.(awaiter := OnCancel(call.awaiter, id, call.future), cancels := call.cancels + [id])
    case WakeUp(_) => if call.future.Some? then call.(awaiter := OnDone(call.awaiter, call.future.value)) else call
    case _ => call
  }

  function JobAfter(job: Job, step: Step): Job {
    match step
    case StartJob(_) => job.(thread := Running)
    case RefuseJob(_) => job.(thread := Refused, downs := job.downs + 1)
    case JobEnds(_) => job.(thread := Gone, downs := job.downs + 1)
    case _ => job
  }

  const NEW_CALL := Call(Counted, None, None, Waiting, None, [], 1, 0)
  const NEW_JOB := Job(Counted, 1, 0)

  /** The `_bump` a step performs on the re-entrant counter, and on the background one. */
  function Bumps(step: Step): (int, int) {
    match step
    case Begin(_) => (1, 0)
    case Refuse(_) => (-1, 0)
    case Unwind(_) => (-1, 0)
    case BeginJob(_) => (0, 1)
    case RefuseJob(_) => (0, -1)
    case JobEnds(_) => (0, -1)
    case _ => (0, 0)
  }

  function Apply(s: System, step: Step): System
    requires Enabled(s, step)
  {
    var t := s.(reentrant := s.reentrant + Bumps(step).0, background := s.background + Bumps(step).1);
    match step
    case Begin(c) => t.(calls := s.calls[c := NEW_CALL])
    case CloseLoop => t.(open := false)
    case BeginJob(j) => t.(jobs := s.jobs[j := NEW_JOB])
    case StartJob(j) => t.(jobs := s.jobs[j := JobAfter(s.jobs[j], step)])
    case RefuseJob(j) => t.(jobs := s.jobs[j := JobAfter(s.jobs[j], step)])
    case JobEnds(j) => t.(jobs := s.jobs[j := JobAfter(s.jobs[j], step)])
    case _ => t.(calls := s.calls[step.c := CallAfter(s.calls[step.c], step, s.open, s.strict)])
  }

  /** How a thread may go on: started or refused, then done, then off the count; a job leaves as it ends. */
  predicate Moves(before: Thread, after: Thread, job: bool) {
    || before == after
    || (before == Counted && (after == Running || after == Refused))
    || (before == Running && after == if job then Gone else Unwinding)
    || (before == Unwinding && after == Gone)
  }

  /** No step lets a thread skip a stage or go back. */
  lemma ThreadsMove(s: System, step: Step)
    requires Enabled(s, step)
    ensures forall c <- s.calls :: c in Apply(s, step).calls && Moves(s.calls[c].thread, Apply(s, step).calls[c].thread, false)
    ensures forall j <- s.jobs :: j in Apply(s, step).jobs && Moves(s.jobs[j].thread, Apply(s, step).jobs[j].thread, true)
  {
  }

  ghost predicate Runs(s: System, steps: seq<Step>)
    decreases steps
  {
    steps != [] ==> Enabled(s, steps[0]) && Runs(Apply(s, steps[0]), steps[1..])
  }

  ghost function After(s: System, steps: seq<Step>): System
    requires Runs(s, steps)
    decreases steps
  {
    if steps == [] then s else After(Apply(s, steps[0]), steps[1..])
  }

  // ---------------------------------------------------------------- what every step keeps

  /** The thread still counts as live. */
  predicate Live(thread: Thread) {
    thread == Counted || thread == Running || thread == Unwinding
  }

  predicate WorkDone(thread: Thread) {
    thread == Unwinding || thread == Gone
  }

  /** The call's history agrees with its state. */
  ghost predicate Coherent(call: Call) {
    && call.ups == 1 && call.downs == (if Live(call.thread) then 0 else 1)
    && (call.outcome.Some? <==> WorkDone(call.thread))
    && (call.queued.Some? ==> call.queued == call.outcome)
    && (call.future.Some? ==> call.future == call.outcome)
    && (match call.awaiter
        case Waiting => call.cancels == [] && call.thread != Refused
        case Absorbing(first) => call.cancels != [] && first == call.cancels[0] && call.thread != Refused
        case Finished(CannotStart) => call.thread == Refused
        case Finished(ending) =>
          && call.future.Some?
          && ending == (if call.cancels == [] then Plain(call.future.value) else AfterCancel(call.cancels[0], call.future.value)))
  }

  ghost function LiveCalls(s: System): set<nat> {
    set c <- s.calls | Live(s.calls[c].thread)
  }

  ghost function LiveJobs(s: System): set<nat> {
    set j <- s.jobs | Live(s.jobs[j].thread)
  }

  ghost predicate Good(s: System) {
    && (forall c <- s.calls :: Coherent(s.calls[c]))
    && (forall j <- s.jobs :: s.jobs[j].ups == 1 && s.jobs[j].downs == if Live(s.jobs[j].thread) then 0 else 1)
    && s.reentrant == |LiveCalls(s)|
    && s.background == |LiveJobs(s)|
    && Delivering(s)
    && LostUnheld(s)
  }

  lemma CallCoherent(s: System, step: Step)
    requires Enabled(s, step) && !step.Begin? && !step.CloseLoop? && !ForJob(step)
    requires Coherent(s.calls[step.c])
    ensures Coherent(CallAfter(s.calls[step.c], step, s.open, s.strict))
  {
  }

  predicate ForJob(step: Step) {
    step.BeginJob? || step.StartJob? || step.RefuseJob? || step.JobEnds?
  }

  lemma StepCoherent(s: System, step: Step)
    requires Enabled(s, step) && forall c <- s.calls :: Coherent(s.calls[c])
    ensures forall c <- Apply(s, step).calls :: Coherent(Apply(s, step).calls[c])
  {
    if !step.Begin? && !step.CloseLoop? && !ForJob(step) {
      CallCoherent(s, step);
      hide Coherent, CallAfter;
    }
  }

  /** The worker ended in an exception that this Python's futures do not take. */
  predicate Lost(s: System, c: nat) {
    c in s.calls && s.calls[c].outcome.Some? && Settled(s.calls[c].outcome.value, s.strict).None?
  }

  /** While the loop is open, an ended worker's outcome is on its way or there, or lost. */
  ghost predicate Delivering(s: System) {
    s.open ==> forall c <- s.calls :: WorkDone(s.calls[c].thread) ==> s.calls[c].queued.Some? || s.calls[c].future.Some? || Lost(s, c)
  }

  /** A lost outcome is in no future. */
  ghost predicate LostUnheld(s: System) {
    forall c <- s.calls :: Lost(s, c) ==> s.calls[c].future.None?
  }

  lemma LiveCallsUpdate(s: System, t: System, c: nat)
    requires c in t.calls && t.calls == s.calls[c := t.calls[c]]
    ensures |LiveCalls(t)| == |LiveCalls(s)| + (if Live(t.calls[c].thread) then 1 else 0)
                                             - (if c in s.calls && Live(s.calls[c].thread) then 1 else 0)
  {
    if Live(t.calls[c].thread) {
      assert LiveCalls(t) == LiveCalls(s) + {c};
    } else {
      assert LiveCalls(t) == LiveCalls(s) - {c};
    }
  }

  lemma LiveJobsUpdate(s: System, t: System, j: nat)
    requires j in t.jobs && t.jobs == s.jobs[j := t.jobs[j]]
    ensures |LiveJobs(t)| == |LiveJobs(s)| + (if Live(t.jobs[j].thread) then 1 else 0)
                                           - (if j in s.jobs && Live(s.jobs[j].thread) then 1 else 0)
  {
    if Live(t.jobs[j].thread) {
      assert LiveJobs(t) == LiveJobs(s) + {j};
    } else {
      assert LiveJobs(t) == LiveJobs(s) - {j};
    }
  }

  lemma SameLive(s: System, t: System)
    ensures s.calls == t.calls ==> LiveCalls(s) == LiveCalls(t)
    ensures s.jobs == t.jobs ==> LiveJobs(s) == LiveJobs(t)
  {
  }

  lemma LiveAfter(s: System, step: Step)
    requires Enabled(s, step) && !step.Begin? && !step.CloseLoop? && !ForJob(step)
    ensures var call := s.calls[step.c];
      (if Live(CallAfter(call, step, s.open, s.strict).thread) then 1 else 0) == (if Live(call.thread) then 1 else 0) + Bumps(step).0
  {
    hide OnCancel, OnDone, Settled;
  }

  /** The set of live threads gains or loses exactly the one the counter is bumped for. */
  lemma LiveMoves(s: System, step: Step)
    requires Enabled(s, step)
    ensures var t := Apply(s, step);
      && |LiveCalls(t)| == |LiveCalls(s)| + Bumps(step).0
      && |LiveJobs(t)| == |LiveJobs(s)| + Bumps(step).1
  {
    CallsMove(s, step);
    JobsMove(s, step);
    hide Apply, Bumps, LiveCalls, LiveJobs;
  }

  lemma CallsMove(s: System, step: Step)
    requires Enabled(s, step)
    ensures |LiveCalls(Apply(s, step))| == |LiveCalls(s)| + Bumps(step).0
  {
    hide LiveCalls, LiveJobs, CallAfter, JobAfter;
    var t := Apply(s, step);
    if step.CloseLoop? || ForJob(step) {
      SameLive(s, t);
    } else {
      LiveCallsUpdate(s, t, step.c);
      if !step.Begin? {
        LiveAfter(s, step);
      }
    }
  }

  lemma JobsMove(s: System, step: Step)
    requires Enabled(s, step)
    ensures |LiveJobs(Apply(s, step))| == |LiveJobs(s)| + Bumps(step).1
  {
    hide LiveCalls, LiveJobs, CallAfter;
    var t := Apply(s, step);
    if ForJob(step) {
      LiveJobsUpdate(s, t, step.j);
    } else {
      SameLive(s, t);
    }
  }

  lemma StepGood(s: System, step: Step)
    requires Good(s) && Enabled(s, step)
    ensures Good(Apply(s, step))
  {
    StepCoherent(s, step);
    LiveMoves(s, step);
    StepDelivering(s, step);
    StepLostUnheld(s, step);
    hide Coherent, LiveCalls, LiveJobs, CallAfter, Delivering, LostUnheld;
  }

  lemma StepDelivering(s: System, step: Step)
    requires Delivering(s) && Enabled(s, step) && forall c <- s.calls :: Coherent(s.calls[c])
    ensures Delivering(Apply(s, step))
  {
  }

  lemma StepLostUnheld(s: System, step: Step)
    requires LostUnheld(s) && Enabled(s, step) && forall c <- s.calls :: Coherent(s.calls[c])
    ensures LostUnheld(Apply(s, step))
  {
  }

  lemma {:induction false} RunGood(s: System, steps: seq<Step>)
    requires Good(s) && Runs(s, steps)
    ensures Good(After(s, steps))
    decreases steps
  {
    if steps != [] {
      hide Good;
      StepGood(s, steps[0]);
      RunGood(Apply(s, steps[0]), steps[1..]);
    }
  }

  ghost predicate Reachable(s: System) {
    exists steps :: Runs(Idle(s.strict), steps) && After(Idle(s.strict), steps) == s
  }

  lemma ReachableGood(s: System)
    requires Reachable(s)
    ensures Good(s)
  {
    var steps :| Runs(Idle(s.strict), steps) && After(Idle(s.strict), steps) == s;
    RunGood(Idle(s.strict), steps);
  }

  /** However many cancellations arrive, the awaiter unwinds only once its worker's function is over. */
  lemma NeverUnwindsEarly(s: System, c: nat)
    requires Reachable(s) && c in s.calls && s.calls[c].awaiter.Finished? && s.calls[c].awaiter.ending != CannotStart
    ensures WorkDone(s.calls[c].thread) && s.calls[c].future == s.calls[c].outcome && s.calls[c].outcome.Some?
  {
    ReachableGood(s);
  }

  /** How a started call ends: with its worker's outcome when never cancelled, with the first cancellation otherwise, a fatal outcome aside. */
  lemma EndsIff(s: System, c: nat)
    requires Reachable(s) && c in s.calls && s.calls[c].awaiter.Finished? && s.calls[c].outcome.Some?
    ensures var call := s.calls[c];
      && (call.cancels == [] ==>
            match call.outcome.value
            case Returned(v) => call.awaiter.ending == Gives(v)
            case Failed(e) => call.awaiter.ending == Raises(e)
            case Stopped(e) => call.awaiter.ending == Raises(e)
            case Fatal(e) => call.awaiter.ending == RaisesFatal(e))
      && (call.cancels != [] ==>
            (call.awaiter.ending == CancelledBy(call.cancels[0]) <==> !call.outcome.value.Fatal?)
            && (call.outcome.value.Fatal? ==> call.awaiter.ending == RaisesFatal(call.outcome.value.error)))
  {
    ReachableGood(s);
  }

  /** Each counter is the number of live threads: never negative, and zero once none is left. */
  lemma CountersExact(s: System)
    requires Reachable(s)
    ensures s.reentrant == |LiveCalls(s)| && s.background == |LiveJobs(s)|
    ensures (forall c <- s.calls :: !Live(s.calls[c].thread)) ==> s.reentrant == 0
    ensures (forall j <- s.jobs :: !Live(s.jobs[j].thread)) ==> s.background == 0
    ensures forall c <- s.calls :: s.calls[c].ups == 1 && s.calls[c].downs == if Live(s.calls[c].thread) then 0 else 1
    ensures forall j <- s.jobs :: s.jobs[j].ups == 1 && s.jobs[j].downs == if Live(s.jobs[j].thread) then 0 else 1
  {
    ReachableGood(s);
    if forall c <- s.calls :: !Live(s.calls[c].thread) {
      assert LiveCalls(s) == {};
    }
    if forall j <- s.jobs :: !Live(s.jobs[j].thread) {
      assert LiveJobs(s) == {};
    }
  }

  /** Nothing has reached the coroutine of a lost call, and nothing ever will. */
  predicate Stranded(s: System, c: nat) {
    Lost(s, c) && WorkDone(s.calls[c].thread) && s.calls[c].future.None? && !s.calls[c].awaiter.Finished?
  }

  lemma StepStranded(s: System, step: Step, c: nat)
    requires Good(s) && Stranded(s, c) && Enabled(s, step)
    ensures Stranded(Apply(s, step), c)
  {
    assert Coherent(s.calls[c]);
    hide Good;
  }

  lemma {:induction false} RunStranded(s: System, steps: seq<Step>, c: nat)
    requires Good(s) && Stranded(s, c) && Runs(s, steps)
    ensures Stranded(After(s, steps), c)
    decreases steps
  {
    if steps != [] {
      hide Good, Stranded;
      StepGood(s, steps[0]);
      StepStranded(s, steps[0], c);
      RunStranded(Apply(s, steps[0]), steps[1..], c);
    }
  }

  ghost predicate Finishes(s: System, c: nat, steps: seq<Step>) {
    Runs(s, steps) && c in After(s, steps).calls && After(s, steps).calls[c].awaiter.Finished?
  }

  /** In an open loop the call of an ended worker can go on to its end, deliver and then wake, unless its outcome is lost. */
  lemma OpenLoopCompletes(s: System, c: nat)
    requires Reachable(s) && s.open && c in s.calls && WorkDone(s.calls[c].thread) && !s.calls[c].awaiter.Finished?
    ensures Lost(s, c) || Enabled(s, Deliver(c)) || Enabled(s, WakeUp(c))
    ensures Enabled(s, Deliver(c)) && !Lost(s, c) ==> Enabled(Apply(s, Deliver(c)), WakeUp(c))
    ensures Enabled(s, WakeUp(c)) ==> Apply(s, WakeUp(c)).calls[c].awaiter.Finished?
  {
    ReachableGood(s);
  }

  /** It can end at all exactly when its worker's outcome is not a StopIteration under a strict Python. */
  lemma CompletesIff(s: System, c: nat)
    requires Reachable(s) && s.open && c in s.calls && WorkDone(s.calls[c].thread) && !s.calls[c].awaiter.Finished?
    ensures (exists steps :: Finishes(s, c, steps)) <==> !(s.strict && s.calls[c].outcome.Some? && s.calls[c].outcome.value.Stopped?)
  {
    ReachableGood(s);
    if Lost(s, c) {
      forall steps | Runs(s, steps) ensures !Finishes(s, c, steps) {
        RunStranded(s, steps, c);
      }
    } else {
      OpenLoopCompletes(s, c);
      if Enabled(s, WakeUp(c)) {
        OneStep(s, WakeUp(c));
        assert Finishes(s, c, [WakeUp(c)]);
      } else {
        var t := Apply(s, Deliver(c));
        OneStep(t, WakeUp(c));
        assert [Deliver(c), WakeUp(c)][1..] == [WakeUp(c)];
        assert Finishes(s, c, [Deliver(c), WakeUp(c)]);
      }
    }
  }

  lemma OneStep(s: System, step: Step)
    requires Enabled(s, step)
    ensures Runs(s, [step]) && After(s, [step]) == Apply(s, step)
  {
    assert [step][1..] == [];
  }

  lemma {:induction false} RunsAppend(s: System, steps: seq<Step>, step: Step)
    requires Runs(s, steps) && Enabled(After(s, steps), step)
    ensures Runs(s, steps + [step]) && After(s, steps + [step]) == Apply(After(s, steps), step)
    decreases steps
  {
    if steps == [] {
      assert (steps + [step])[1..] == [];
    } else {
      assert (steps + [step])[1..] == steps[1..] + [step];
      RunsAppend(Apply(s, steps[0]), steps[1..], step);
    }
  }

  lemma ReachableStep(s: System, step: Step)
    requires Reachable(s) && Enabled(s, step)
    ensures Reachable(Apply(s, step))
  {
    var steps :| Runs(Idle(s.strict), steps) && After(Idle(s.strict), steps) == s;
    RunsAppend(Idle(s.strict), steps, step);
  }

  /** A system with one live call. */
  function Only(strict: bool, call: Call): System {
    System(strict, true, map[0 := call], map[], 1, 0)
  }

  lemma OnlyStep(strict: bool, call: Call, step: Step)
    requires Reachable(Only(strict, call)) && Enabled(Only(strict, call), step)
    requires !ForJob(step) && !step.CloseLoop? && Bumps(step) == (0, 0)
    ensures Reachable(Only(strict, CallAfter(call, step, true, strict)))
  {
    ReachableStep(Only(strict, call), step);
    hide CallAfter, Reachable;
    assert map[0 := call][0 := CallAfter(call, step, true, strict)] == map[0 := CallAfter(call, step, true, strict)];
  }

  lemma OnlyCounted(strict: bool)
    ensures Reachable(Only(strict, NEW_CALL))
  {
    assert Reachable(Idle(strict)) by {
      assert Runs(Idle(strict), []) && After(Idle(strict), []) == Idle(strict);
    }
    hide Reachable;
    ReachableStep(Idle(strict), Begin(0));
    assert Apply(Idle(strict), Begin(0)) == Only(strict, NEW_CALL);
  }

  /** A call whose worker is running. */
  lemma OnlyRunning(strict: bool) returns (call: Call)
    ensures Reachable(Only(strict, call)) && call == NEW_CALL.(thread := Running)
  {
    hide Reachable;
    OnlyCounted(strict);
    OnlyStep(strict, NEW_CALL, Start(0));
    call := NEW_CALL.(thread := Running);
  }

  /** The documented promise, the first cancellation raised again, fails when the worker dies of a fatal error meanwhile. */
  lemma FatalErrorReplacesCancellation(strict: bool, id: nat, error: nat) returns (call: Call)
    ensures Reachable(Only(strict, call)) && call.cancels == [id] && call.awaiter == Finished(RaisesFatal(error))
  {
    hide Reachable;
    var c2 := OnlyRunning(strict);
    OnlyStep(strict, c2, Cancel(0, id));
    var c3 := c2.(awaiter := Absorbing(id), cancels := [id]);
    assert [] + [id] == [id];
    OnlyStep(strict, c3, WorkEnds(0, Fatal(error)));
    var c4 := c3.(thread := Unwinding, outcome := Some(Fatal(error)), queued := Some(Fatal(error)));
    OnlyStep(strict, c4, Deliver(0));
    var c5 := c4.(queued := None, future := Some(Fatal(error)));
    OnlyStep(strict, c5, WakeUp(0));
    call := c5.(awaiter := Finished(RaisesFatal(error)));
  }

  /** Before Python 3.12 a worker that raises StopIteration leaves its awaiter waiting for good, without any cancellation. */
  lemma StopIterationStrands(error: nat) returns (call: Call)
    ensures Reachable(Only(true, call)) && call.cancels == [] && call.awaiter == Waiting && call.queued == None
    ensures forall steps :: !Finishes(Only(true, call), 0, steps)
  {
    hide Reachable, Finishes;
    var c2 := OnlyRunning(true);
    OnlyStep(true, c2, WorkEnds(0, Stopped(error)));
    var c3 := c2.(thread := Unwinding, outcome := Some(Stopped(error)), queued := Some(Stopped(error)));
    OnlyStep(true, c3, Deliver(0));
    call := c3.(queued := None);
    CompletesIff(Only(true, call), 0);
  }
}
