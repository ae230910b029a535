/**
  Dead generations of a `provided.*` environment (`ministack/core/lambda_runtime.py`): late polls and
  posts can be taken out of any run without the live generation noticing.
 */
module RuntimeErasure {
  import opened Results
  import opened RuntimeProtocol

  /** A run without the steps that belonged to a dead generation when they were made. */
  ghost function Erased(steps: seq<Step>): seq<Step>
    requires Run(steps).Some?
  {
    if steps == [] then []
    else
      var front, last := steps[..|steps| - 1], steps[|steps| - 1];
      if DeadStep(Run(front).value, last) then Erased(front) else Erased(front) + [last]
  }

  /** The two states agree on all that the live generation and `invoke` can see. */
  ghost predicate SameLive(s: State, t: State) {
    SameCore(s, t) && SameRecords(s, t)
  }

  ghost predicate SameCore(s: State, t: State) {
    && s.sh == t.sh && s.phase == t.phase && s.alive == t.alive && s.used == t.used
    && s.puts == t.puts && s.accepted == t.accepted && s.returned == t.returned && s.failures == t.failures && s.gaveUp == t.gaveUp
    && s.queues.Keys == t.queues.Keys
    && (s.sh.generation in s.queues ==> s.queues[s.sh.generation] == t.queues[s.sh.generation])
    && (forall h <- s.threads :: s.threads[h].gen == s.sh.generation ==> h in t.threads && t.threads[h] == s.threads[h])
    && (forall h <- t.threads :: h in s.threads && s.threads[h].gen == t.threads[h].gen)
  }

  /** The events handed out in one generation, in order. */
  function HandedIn(handed: seq<Handed>, gen: nat): seq<Handed> {
    if handed == [] then []
    else
      var last := handed[|handed| - 1];
      HandedIn(handed[..|handed| - 1], gen) + (if last.gen == gen then [last] else [])
  }

  /** The live generation, and any later one, has taken the same events and posted the same init errors. */
  ghost predicate SameRecords(s: State, t: State) {
    && (forall g: nat :: g >= s.sh.generation ==> HandedIn(s.handed, g) == HandedIn(t.handed, g))
    && (forall i: InitPost :: i.gen >= s.sh.generation ==> (i in s.initPosts <==> i in t.initPosts))
  }

  ghost predicate ThreadsKnown(s: State) {
    forall h <- s.threads :: s.threads[h].gen in s.queues
  }

  lemma EraseStep(s: State, t: State, step: Step)
    requires OwnRequest(s) && ThreadsKnown(s) && SameLive(s, t) && Enabled(s, step)
    ensures ThreadsKnown(Apply(s, step))
    ensures DeadStep(s, step) ==> SameLive(Apply(s, step), t)
    ensures !DeadStep(s, step) ==> Enabled(t, step) && SameLive(Apply(s, step), Apply(t, step))
  {
    ThreadsStayKnown(s, step);
    if DeadStep(s, step) {
      EraseDead(s, t, step);
      DeadRecords(s, t, step);
    } else {
      KeepLive(s, t, step);
      KeepRecords(s, t, step);
    }
    hide SameCore, SameRecords, DeadStep, Apply, Enabled, ThreadsKnown, OwnRequest;
  }

  lemma ThreadsStayKnown(s: State, step: Step)
    requires ThreadsKnown(s) && Enabled(s, step)
    ensures ThreadsKnown(Apply(s, step))
  {
  }

  lemma HandedAppend(handed: seq<Handed>, h: Handed, gen: nat)
    ensures HandedIn(handed + [h], gen) == HandedIn(handed, gen) + (if h.gen == gen then [h] else [])
  {
    assert (handed + [h])[..|handed|] == handed;
  }

  /** What a poll takes out of its generation's queue. */
  lemma PollTakes(s: State, step: Step)
    requires Enabled(s, step) && step.PollGet?
    ensures var g := s.threads[step.thread].gen; var s' := Apply(s, step);
            && s'.sh == s.sh && s'.initPosts == s.initPosts
            && s'.handed == if s.queues[g].None? then s.handed else s.handed + [Handed(step.thread, g, s.queues[g].value)]
  {
  }

  lemma RecordsKept(s: State, step: Step)
    requires Enabled(s, step) && !step.PollGet?
    ensures var s' := Apply(s, step);
            && s'.handed == s.handed && s'.sh.generation >= s.sh.generation
            && s'.initPosts == s.initPosts + (if step.PostInitError? then {step.init} else {})
  {
  }

  lemma DeadRecords(s: State, t: State, step: Step)
    requires OwnRequest(s) && SameRecords(s, t) && Enabled(s, step) && DeadStep(s, step)
    ensures SameRecords(Apply(s, step), t)
  {
    if step.PollGet? {
      PollTakes(s, step);
      var g := s.threads[step.thread].gen;
      forall k: nat | k >= s.sh.generation ensures HandedIn(Apply(s, step).handed, k) == HandedIn(s.handed, k) {
        if s.queues[g].Some? {
          HandedAppend(s.handed, Handed(step.thread, g, s.queues[g].value), k);
        }
      }
    } else {
      RecordsKept(s, step);
    }
    hide Apply, HandedIn;
  }

  lemma KeepRecords(s: State, t: State, step: Step)
    requires SameCore(s, t) && SameRecords(s, t) && Enabled(s, step) && Enabled(t, step) && !DeadStep(s, step)
    ensures SameRecords(Apply(s, step), Apply(t, step))
  {
    if step.PollGet? {
      PollTakes(s, step);
      PollTakes(t, step);
      var q := s.queues[s.sh.generation];
      forall k: nat | k >= s.sh.generation && q.Some?
        ensures HandedIn(Apply(s, step).handed, k) == HandedIn(Apply(t, step).handed, k)
      {
        HandedAppend(s.handed, Handed(step.thread, s.sh.generation, q.value), k);
        HandedAppend(t.handed, Handed(step.thread, s.sh.generation, q.value), k);
      }
    } else {
      RecordsKept(s, step);
      RecordsKept(t, step);
    }
    hide Apply, HandedIn;
  }

  lemma EraseDead(s: State, t: State, step: Step)
    requires ThreadsKnown(s) && SameCore(s, t) && Enabled(s, step) && DeadStep(s, step)
    ensures SameCore(Apply(s, step), t)
  {
    hide OwnRequest;
  }

  lemma KeepLive(s: State, t: State, step: Step)
    requires OwnRequest(s) && ThreadsKnown(s) && SameCore(s, t) && Enabled(s, step) && !DeadStep(s, step)
    ensures Enabled(t, step) && SameCore(Apply(s, step), Apply(t, step))
  {
    if step.Spawn? {
      KeepSpawn(s, t, step);
    } else if ByInvoker(step) || step.CollectStep? || step.Finish? {
      KeepInvoker(s, t, step);
    } else if step.PollStart? {
      KeepPollStart(s, t, step);
    } else if step.PollCheck? || step.PollGet? {
      KeepPoll(s, t, step);
    } else {
      KeepPost(s, t, step);
    }
    hide SameCore, Apply, Enabled, OwnRequest, ThreadsKnown;
  }

  lemma KeepSpawn(s: State, t: State, step: Step)
    requires OwnRequest(s) && ThreadsKnown(s) && SameCore(s, t) && Enabled(s, step) && step.Spawn?
    ensures Enabled(t, step) && SameCore(Apply(s, step), Apply(t, step))
  {
  }

  lemma KeepInvoker(s: State, t: State, step: Step)
    requires OwnRequest(s) && SameCore(s, t) && Enabled(s, step)
    requires (ByInvoker(step) && !step.Spawn?) || step.CollectStep? || step.Finish?
    ensures Enabled(t, step) && SameCore(Apply(s, step), Apply(t, step))
  {
  }

  lemma KeepPollStart(s: State, t: State, step: Step)
    requires SameCore(s, t) && Enabled(s, step) && !DeadStep(s, step) && step.PollStart?
    ensures Enabled(t, step) && SameCore(Apply(s, step), Apply(t, step))
  {
  }

  lemma KeepPoll(s: State, t: State, step: Step)
    requires SameCore(s, t) && Enabled(s, step) && !DeadStep(s, step) && (step.PollCheck? || step.PollGet?)
    ensures Enabled(t, step) && SameCore(Apply(s, step), Apply(t, step))
  {
  }

  lemma KeepPost(s: State, t: State, step: Step)
    requires SameCore(s, t) && Enabled(s, step) && !DeadStep(s, step)
    requires step.PostResult? || step.PostInitError? || step.Exit? || step.DiscardStep?
    ensures Enabled(t, step) && SameCore(Apply(s, step), Apply(t, step))
  {
  }

  /** Over whole runs: leaving out every step of a dead generation gives a run that ends in the same live state. */
  lemma {:induction false} DeadStepsErasable(steps: seq<Step>)
    requires Run(steps).Some?
    ensures Run(Erased(steps)).Some? && ThreadsKnown(Run(steps).value)
    ensures SameLive(Run(steps).value, Run(Erased(steps)).value)
  {
    if steps != [] {
      var front, last := steps[..|steps| - 1], steps[|steps| - 1];
      var s := Run(front).value;
      RunSafe(front);
      DeadStepsErasable(front);
      var kept := Erased(front);
      hide SameLive, ThreadsKnown, DeadStep, Enabled, Apply;
      EraseStep(s, Run(kept).value, last);
      assert (kept + [last])[..|kept|] == kept;
    }
  }
}
