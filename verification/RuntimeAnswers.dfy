/**
  What `invoke` answers on a `provided.*` environment (`ministack/core/lambda_runtime.py`): every
  invocation returns once, a failure exactly when it gave up, and otherwise exactly what answered it.
 */
module RuntimeAnswers {
  import opened Results
  import opened RuntimeProtocol

  predicate Busy(p: Phase) {
    InFlight(p) || p.Collected?
  }

  ghost predicate HasReturned(s: State, id: RequestId) {
    exists i :: 0 <= i < |s.returned| && s.returned[i].id == id
  }

  /** Every request announced has returned or is being served, and none returns twice. */
  ghost predicate ReturnsOnce(s: State) {
    && (forall i :: 0 <= i < |s.returned| ==> s.returned[i].id in s.used)
    && (forall i, j :: 0 <= i < j < |s.returned| ==> s.returned[i].id != s.returned[j].id)
    && (Busy(s.phase) ==> s.phase.id in s.used && !HasReturned(s, s.phase.id))
    && (forall id <- s.used :: HasReturned(s, id) || (Busy(s.phase) && id == s.phase.id))
  }

  /** The first init error that came while the request was served, when no post was accepted for it. */
  ghost predicate InitAnswer(s: State, gen: nat, id: RequestId, p: Payload) {
    !AcceptedFor(s, gen, id) && id in s.failures && s.failures[id] != [] && s.failures[id][0] == p
  }

  /** What answered a request: the post accepted for it or, without one, an init error. */
  ghost predicate Answer(s: State, gen: nat, id: RequestId, slot: Slot) {
    match slot
    case Empty => false
    case Response(p) => Post(gen, id, AsResponse, p) in s.accepted
    case Error(p) => Post(gen, id, AsError, p) in s.accepted || InitAnswer(s, gen, id, p)
  }

  ghost predicate AnswerOpen(s: State) {
    && (Busy(s.phase) ==> s.phase.id in s.failures)
    && (Served(s.phase) && !s.sh.ready ==>
          s.failures[s.phase.id] == [] && !AcceptedFor(s, s.phase.gen, s.phase.id) && s.sh.current == Some(s.phase.id))
    && (Served(s.phase) && s.sh.ready ==> Answer(s, s.phase.gen, s.phase.id, s.sh.result))
    && (s.phase.Collected? ==> Answer(s, s.phase.gen, s.phase.id, s.phase.slot))
  }

  /** A result as the slot it was collected from. */
  function Slotted(outcome: Outcome): Slot {
    match outcome
    case Ok(p) => Response(p)
    case RuntimeError(p) => Error(p)
    case Failed => Empty
  }

  ghost predicate GaveUpKnown(s: State) {
    && s.gaveUp <= s.used
    && (Busy(s.phase) ==> (s.phase.id in s.gaveUp <==> s.phase.Failing?))
    && (forall i :: 0 <= i < |s.returned| ==> (s.returned[i].outcome == Failed <==> s.returned[i].id in s.gaveUp))
  }

  ghost predicate ReturnsAnswered(s: State) {
    forall i :: 0 <= i < |s.returned| && s.returned[i].outcome != Failed ==>
      Answer(s, s.returned[i].gen, s.returned[i].id, Slotted(s.returned[i].outcome))
  }

  ghost predicate Answered(s: State) {
    OwnRequest(s) && AcceptedOnce(s) && ReturnsOnce(s) && AnswerOpen(s) && GaveUpKnown(s) && ReturnsAnswered(s)
  }

  // ---------------------------------------------------------------- one step

  predicate Returns(step: Step) {
    step.FailReturn? || step.Finish?
  }

  lemma ReturnedSame(s: State, step: Step)
    requires Enabled(s, step)
    ensures var s' := Apply(s, step);
            s'.returned == if Returns(step) then s.returned + [Return(s.phase.id, s.phase.gen, if step.Finish? then OutcomeOf(s.phase.slot) else Failed)]
                           else s.returned
  {
  }

  lemma PhaseMoves(s: State, step: Step)
    requires Enabled(s, step)
    ensures var s' := Apply(s, step);
            && (step.ArmStep? ==> s'.used == s.used + {step.id} && s'.phase == Armed(step.id, s.sh.generation) && !Busy(s.phase))
            && (!step.ArmStep? ==> s'.used == s.used)
            && (Returns(step) ==> Busy(s.phase) && s'.phase == Idle)
            && (!step.ArmStep? && !Returns(step) ==>
                  (Busy(s'.phase) <==> Busy(s.phase))
                  && (Busy(s.phase) ==> s'.phase.id == s.phase.id && s'.phase.gen == s.phase.gen))
  {
  }

  lemma StepReturnsOnce(s: State, step: Step)
    requires ReturnsOnce(s) && Enabled(s, step)
    ensures ReturnsOnce(Apply(s, step))
  {
    var s' := Apply(s, step);
    ReturnedSame(s, step);
    PhaseMoves(s, step);
    hide Apply, Enabled;
    ReturnedIff(s, s');
    if Returns(step) {
      LastReturns(s, s', s'.returned[|s.returned|]);
    }
    hide HasReturned;
  }

  lemma ReturnedIff(s: State, t: State)
    requires s.returned <= t.returned
    ensures forall id :: HasReturned(s, id) ==> HasReturned(t, id)
    ensures s.returned == t.returned ==> forall id :: HasReturned(t, id) ==> HasReturned(s, id)
  {
    forall id | HasReturned(s, id) ensures HasReturned(t, id) {
      var i :| 0 <= i < |s.returned| && s.returned[i].id == id;
      assert t.returned[i] == s.returned[i];
    }
  }

  lemma LastReturns(s: State, t: State, r: Return)
    requires t.returned == s.returned + [r]
    ensures HasReturned(t, r.id)
    ensures !HasReturned(s, r.id) ==> forall i :: 0 <= i < |s.returned| ==> s.returned[i].id != r.id
  {
    assert t.returned[|s.returned|] == r;
  }

  /** Outside the request being served, posts and init errors change no answer. */
  lemma AnswerKept(s: State, step: Step, gen: nat, id: RequestId, slot: Slot)
    requires OwnRequest(s) && Enabled(s, step) && Answer(s, gen, id, slot) && id in s.used
    requires !(InFlight(s.phase) && s.phase.id == id)
    ensures Answer(Apply(s, step), gen, id, slot)
  {
    AcceptedKept(s, step, gen, id);
    if id in s.failures {
      FailuresKept(s, step, id);
    }
    hide Enabled, AcceptedFor;
  }

  lemma AcceptedKept(s: State, step: Step, gen: nat, id: RequestId)
    requires OwnRequest(s) && Enabled(s, step)
    requires !(InFlight(s.phase) && s.phase.id == id)
    ensures AcceptedFor(Apply(s, step), gen, id) <==> AcceptedFor(s, gen, id)
    ensures forall p <- s.accepted :: p in Apply(s, step).accepted
  {
    var s' := Apply(s, step);
    if step.PostResult? && Accepts(s.sh, step.post.gen, step.post.id) {
      assert s'.accepted == s.accepted + [step.post] && step.post.id != id;
      if AcceptedFor(s', gen, id) {
        var i :| 0 <= i < |s'.accepted| && s'.accepted[i].gen == gen && s'.accepted[i].id == id;
        assert s.accepted[i] == s'.accepted[i];
      }
      if AcceptedFor(s, gen, id) {
        AcceptedGrows(s, step, gen, id);
      }
    } else {
      assert s'.accepted == s.accepted;
    }
  }

  /** The open answer while the invoking thread or others move without posting. */
  lemma QuietAnswerOpen(s: State, step: Step)
    requires OwnRequest(s) && AnswerOpen(s) && Enabled(s, step) && !IsPost(step) && !step.ArmStep?
    ensures AnswerOpen(Apply(s, step))
  {
    SameAccepted(s, Apply(s, step));
    hide AcceptedFor;
  }

  lemma ArmAnswerOpen(s: State, step: Step)
    requires AcceptedOnce(s) && Enabled(s, step) && step.ArmStep?
    ensures AnswerOpen(Apply(s, step))
  {
  }

  lemma InitAnswerOpen(s: State, step: Step)
    requires OwnRequest(s) && AnswerOpen(s) && Enabled(s, step) && step.PostInitError?
    ensures AnswerOpen(Apply(s, step))
  {
    SameAccepted(s, Apply(s, step));
    hide AcceptedFor;
  }

  lemma PostAnswerOpen(s: State, step: Step)
    requires OwnRequest(s) && AnswerOpen(s) && Enabled(s, step) && step.PostResult?
    ensures AnswerOpen(Apply(s, step))
  {
    if Accepts(s.sh, step.post.gen, step.post.id) {
      var s' := Apply(s, step);
      assert s'.accepted == s.accepted + [step.post];
      assert step.post in s'.accepted;
    } else {
      assert Apply(s, step) == s;
    }
    hide AcceptedFor;
  }

  lemma StepAnswerOpen(s: State, step: Step)
    requires OwnRequest(s) && AcceptedOnce(s) && AnswerOpen(s) && Enabled(s, step)
    ensures AnswerOpen(Apply(s, step))
  {
    if step.ArmStep? {
      ArmAnswerOpen(s, step);
    } else if step.PostInitError? {
      InitAnswerOpen(s, step);
    } else if step.PostResult? {
      PostAnswerOpen(s, step);
    } else {
      QuietAnswerOpen(s, step);
    }
    hide AnswerOpen, Apply, Enabled, OwnRequest, AcceptedOnce;
  }

  lemma StepGaveUpKnown(s: State, step: Step)
    requires ReturnsOnce(s) && AnswerOpen(s) && GaveUpKnown(s) && Enabled(s, step)
    ensures GaveUpKnown(Apply(s, step))
  {
    ReturnedSame(s, step);
    GaveUpMoves(s, step);
    PhaseMoves(s, step);
    hide Apply, Enabled, AcceptedFor;
    if step.GiveUp? {
      assert !HasReturned(s, s.phase.id);
    }
  }

  lemma GaveUpMoves(s: State, step: Step)
    requires Enabled(s, step)
    ensures var s' := Apply(s, step);
            && s'.gaveUp == (if step.GiveUp? then s.gaveUp + {s.phase.id} else s.gaveUp)
            && (step.GiveUp? ==> s'.phase.Failing? && Busy(s.phase))
            && (step.FailReturn? ==> s.phase.Failing?)
            && (step.Finish? ==> s.phase.Collected?)
            && (!step.GiveUp? && Busy(s'.phase) && !step.ArmStep? ==> (s'.phase.Failing? <==> s.phase.Failing?))
  {
  }

  lemma StepReturnsAnswered(s: State, step: Step)
    requires OwnRequest(s) && ReturnsOnce(s) && AnswerOpen(s) && ReturnsAnswered(s) && Enabled(s, step)
    ensures ReturnsAnswered(Apply(s, step))
  {
    ReturnedSame(s, step);
    forall i | 0 <= i < |s.returned| && s.returned[i].outcome != Failed
      ensures Answer(Apply(s, step), s.returned[i].gen, s.returned[i].id, Slotted(s.returned[i].outcome))
    {
      if InFlight(s.phase) {
        assert !HasReturned(s, s.phase.id);
      }
      AnswerKept(s, step, s.returned[i].gen, s.returned[i].id, Slotted(s.returned[i].outcome));
    }
    if step.Finish? {
      AnswerKept(s, step, s.phase.gen, s.phase.id, s.phase.slot);
      assert Slotted(OutcomeOf(s.phase.slot)) == s.phase.slot;
    }
    hide Apply, Enabled, Answer;
  }

  lemma StepAnswered(s: State, step: Step)
    requires Answered(s) && Enabled(s, step)
    ensures Answered(Apply(s, step))
  {
    StepOwnRequest(s, step);
    StepAcceptedOnce(s, step);
    StepReturnsOnce(s, step);
    StepAnswerOpen(s, step);
    StepGaveUpKnown(s, step);
    StepReturnsAnswered(s, step);
    hide OwnRequest, AcceptedOnce, ReturnsOnce, AnswerOpen, GaveUpKnown, ReturnsAnswered, Apply, Enabled;
  }

  lemma {:induction false} RunAnswered(steps: seq<Step>)
    requires Run(steps).Some?
    ensures Answered(Run(steps).value)
  {
    if steps != [] {
      hide Answered;
      RunAnswered(steps[..|steps| - 1]);
      StepAnswered(Run(steps[..|steps| - 1]).value, steps[|steps| - 1]);
    }
  }

  // ---------------------------------------------------------------- main results

  lemma AnswerUnique(s: State, gen: nat, id: RequestId, a: Slot, b: Slot)
    requires AcceptedOnce(s) && Answer(s, gen, id, a) && Answer(s, gen, id, b)
    ensures a == b
  {
    forall p | p in s.accepted && p.gen == gen && p.id == id ensures AcceptedFor(s, gen, id) {
      var i :| 0 <= i < |s.accepted| && s.accepted[i] == p;
    }
    forall p, q | p in s.accepted && q in s.accepted && p.id == q.id ensures p == q {
      var i :| 0 <= i < |s.accepted| && s.accepted[i] == p;
      var j :| 0 <= j < |s.accepted| && s.accepted[j] == q;
    }
    hide AcceptedFor;
  }

  /**
    In every interleaving an invocation fails exactly when it gave up waiting. One that did not
    returns a response exactly when it was accepted for its id and generation, and an error exactly
    when that was, or when no post was and an init error with that payload came first.
   */
  lemma ReturnsExactly(s: State, i: nat)
    requires Reachable(s) && i < |s.returned|
    ensures var r := s.returned[i];
            && (r.outcome == Failed <==> r.id in s.gaveUp)
            && (r.id !in s.gaveUp ==> forall p ::
                  && (r.outcome == Ok(p) <==> Post(r.gen, r.id, AsResponse, p) in s.accepted)
                  && (r.outcome == RuntimeError(p) <==> Post(r.gen, r.id, AsError, p) in s.accepted || InitAnswer(s, r.gen, r.id, p)))
  {
    var steps :| Run(steps) == Some(s);
    RunAnswered(steps);
    var r := s.returned[i];
    if r.id !in s.gaveUp {
      var slot := Slotted(r.outcome);
      forall p
        ensures Post(r.gen, r.id, AsResponse, p) in s.accepted ==> r.outcome == Ok(p)
        ensures Post(r.gen, r.id, AsError, p) in s.accepted || InitAnswer(s, r.gen, r.id, p) ==> r.outcome == RuntimeError(p)
      {
        if Post(r.gen, r.id, AsResponse, p) in s.accepted {
          AnswerUnique(s, r.gen, r.id, slot, Response(p));
        }
        if Post(r.gen, r.id, AsError, p) in s.accepted || InitAnswer(s, r.gen, r.id, p) {
          AnswerUnique(s, r.gen, r.id, slot, Error(p));
        }
      }
    }
    hide InitAnswer, AcceptedOnce, ReturnsOnce, AnswerOpen, OwnRequest;
  }

  /** Every request announced has returned exactly once, but for the one being served. */
  lemma EachReturnsOnce(s: State, id: RequestId)
    requires Reachable(s) && id in s.used
    ensures HasReturned(s, id) <==> !(Busy(s.phase) && s.phase.id == id)
    ensures forall i, j :: 0 <= i < j < |s.returned| ==> s.returned[i].id != s.returned[j].id
  {
    var steps :| Run(steps) == Some(s);
    RunAnswered(steps);
  }

  // ---------------------------------------------------------------- environments

  /**
    An environment that never came up, whose invocation gave up, or whose error came with a failed init
    is gone afterwards and admits nobody; one that answered stays as alive as its process was.
   */
  lemma EnvironmentLost(s: State, step: Step)
    requires Enabled(s, step)
    ensures var s' := Apply(s, step);
            && (step.InitFails? || step.FailReturn? ==> !s'.alive && s'.sh.stopping && s'.sh.current == None)
            && (step.Finish? ==> (s'.alive <==> s.alive && !(s.phase.slot.Error? && s.phase.initFailed)))
            && (step.Finish? && !s'.alive ==> s'.sh.stopping)
            && (step.Spawn? ==> s'.alive && !s'.sh.stopping && s'.sh.generation == s.sh.generation + 1)
            && (step.Exit? ==> !s'.alive && s'.sh == s.sh)
            && (step.DiscardStep? ==> s'.alive == s.alive && s'.sh.stopping && s'.sh.current == s.sh.current)
            && (!step.InitFails? && !Returns(step) && !step.Spawn? && !step.Exit? ==> s'.alive == s.alive)
  {
  }

  /** A poll goes on to the queue exactly while its generation is live and not stopping, and takes what it finds there. */
  lemma PollGoesOn(s: State, t: nat)
    ensures Enabled(s, PollCheck(t)) ==>
              var after := Apply(s, PollCheck(t)).threads[t];
              after == if s.threads[t].gen == s.sh.generation && !s.sh.stopping then Checked(s.threads[t].gen) else Gone(s.threads[t].gen)
    ensures Enabled(s, PollGet(t)) ==>
              var s', g := Apply(s, PollGet(t)), s.threads[t].gen;
              match s.queues[g]
              case None => s'.threads[t] == Looping(g) && s'.handed == s.handed
              case Some(id) => s'.threads[t] == Gone(g) && s'.queues[g] == None && s'.handed == s.handed + [Handed(t, g, id)]
  {
  }
}
