/**
  One `provided.*` execution environment (`ministack/core/lambda_runtime.py`): an invoking thread,
  the Runtime API's handler threads and the bootstrap process, interleaved at their lock sections.

  Each environment is a generation. Handler threads and posts carry the generation whose server
  they belong to, and each generation has its own one-slot event queue.
 */
module RuntimeProtocol {
  import opened Results

  type RequestId = string

  /** A posted body after JSON decoding. Python's None is what a JSON null decodes to. */
  datatype Payload = JsonNull | Doc(text: string)

  datatype Kind = AsResponse | AsError

  /** `self._result`. */
  datatype Slot = Empty | Response(payload: Payload) | Error(payload: Payload)

  /** The fields guarded by `_state_lock`; an absent `_init_error` is JsonNull. */
  datatype Shared = Shared(
    generation: nat,
    stopping: bool,
    firstPoll: bool,
    initSettled: bool,
    initError: Payload,
    result: Slot,
    ready: bool,
    current: Option<RequestId>)

  // ---------------------------------------------------------------- the locked sections

  const FRESH := Shared(0, true, false, false, JsonNull, Empty, false, None)

  function MarkFirstPoll(s: Shared, generation: nat): (Shared, bool) {
    if generation != s.generation || s.stopping then (s, false)
    else (s.(firstPoll := true, initSettled := true), true)
  }

  function RecordInitError(s: Shared, generation: nat, payload: Payload): Shared {
    if generation != s.generation then s
    else
      var settled := s.(initError := payload, initSettled := true);
      if s.current.None? then settled
      else settled.(current := None, result := Error(payload), ready := true)
  }

  predicate Accepts(s: Shared, generation: nat, id: RequestId) {
    generation == s.generation && s.current == Some(id) && id != ""
  }

  function RecordResult(s: Shared, generation: nat, id: RequestId, kind: Kind, payload: Payload): (Shared, bool) {
    if Accepts(s, generation, id)
    then (s.(current := None, result := if kind == AsError then Error(payload) else Response(payload), ready := true), true)
    else (s, false)
  }

  /** The block of `_spawn` that starts a new generation. */
  function NewGeneration(s: Shared): Shared {
    Shared(s.generation + 1, false, false, false, JsonNull, Empty, false, None)
  }

  function Arm(s: Shared, id: RequestId): Shared {
    s.(result := Empty, ready := false, current := Some(id))
  }

  function Collect(s: Shared): Shared {
    s.(result := Empty, current := None)
  }

  function Teardown(s: Shared): Shared {
    s.(stopping := true, current := None)
  }

  function Discard(s: Shared): Shared {
    s.(stopping := true)
  }

  // ---------------------------------------------------------------- the whole system

  /** Where `invoke` stands. */
  datatype Phase =
    | Idle
    | AwaitInit
    | Ready
    | Armed(id: RequestId, gen: nat)
    | Waiting(id: RequestId, gen: nat)
    | Failing(id: RequestId, gen: nat)
    | Collected(id: RequestId, gen: nat, slot: Slot, initFailed: bool)

  /** A handler thread serving GET /next for one generation. */
  datatype Poll = Looping(gen: nat) | Checked(gen: nat) | Gone(gen: nat)

  datatype Handed = Handed(thread: nat, gen: nat, id: RequestId)

  datatype Post = Post(gen: nat, id: RequestId, kind: Kind, payload: Payload)

  datatype InitPost = InitPost(gen: nat, payload: Payload)

  datatype Outcome = Ok(payload: Payload) | RuntimeError(payload: Payload) | Failed

  datatype Return = Return(id: RequestId, gen: nat, outcome: Outcome)

  /**
    The last eight components record what has happened; no step looks at them but the freshness of
    ids. `failures` holds, per request, the init errors posted to its generation while it was served,
    and `gaveUp` the requests whose invocation stopped waiting for a result.
   */
  datatype State = State(
    sh: Shared,
    alive: bool,
    phase: Phase,
    queues: map<nat, Option<RequestId>>,
    threads: map<nat, Poll>,
    used: set<RequestId>,
    puts: seq<(nat, RequestId)>,
    handed: seq<Handed>,
    accepted: seq<Post>,
    initPosts: set<InitPost>,
    failures: map<RequestId, seq<Payload>>,
    gaveUp: set<RequestId>,
    returned: seq<Return>)

  const START := State(FRESH, false, Idle, map[0 := None], map[], {}, [], [], [], {}, map[], {}, [])

  datatype Step =
    | Spawn
    | InitFails
    | InitDone
    | FindAlive
    | ArmStep(id: RequestId)
    | Put
    | GiveUp
    | FailReturn
    | CollectStep
    | Finish
    | Exit
    | DiscardStep
    | PollStart(thread: nat, gen: nat)
    | PollCheck(thread: nat)
    | PollGet(thread: nat)
    | PostResult(post: Post)
    | PostInitError(init: InitPost)

  predicate Enabled(s: State, step: Step) {
    match step
    case Spawn => s.phase == Idle && !s.alive
    case InitFails => s.phase == AwaitInit
    case InitDone => s.phase == AwaitInit && s.sh.initSettled && s.sh.initError == JsonNull
    case FindAlive => s.phase == Idle && s.alive
    case ArmStep(id) => s.phase == Ready && id !in s.used
    case Put => s.phase.Armed? && s.phase.gen in s.queues && s.queues[s.phase.gen] == None
    case GiveUp => s.phase.Waiting? && !s.sh.ready
    case FailReturn => s.phase.Failing?
    case CollectStep => s.phase.Waiting? && s.sh.ready
    case Finish => s.phase.Collected?
    case Exit => true
    case DiscardStep => true
    case PollStart(t, g) => t !in s.threads && g in s.queues
    case PollCheck(t) => t in s.threads && s.threads[t].Looping?
    case PollGet(t) => t in s.threads && s.threads[t].Checked? && s.threads[t].gen in s.queues
    case PostResult(p) => p.gen in s.queues
    case PostInitError(i) => i.gen in s.queues
  }

  function OutcomeOf(slot: Slot): Outcome {
    match slot
    case Error(p) => RuntimeError(p)
    case Response(p) => Ok(p)
    case Empty => Ok(JsonNull)
  }

  /** Between the announcement of a request and the collection of its result. */
  predicate Served(p: Phase) {
    p.Armed? || p.Waiting?
  }

  function WithFailure(s: State, i: InitPost): map<RequestId, seq<Payload>> {
    if Served(s.phase) && i.gen == s.sh.generation && s.phase.id in s.failures
    then s.failures[s.phase.id := s.failures[s.phase.id] + [i.payload]]
    else s.failures
  }

  function Apply(s: State, step: Step): State
    requires Enabled(s, step)
  {
    match step
    case Spawn =>
      s.(sh := NewGeneration(s.sh), alive := true, phase := AwaitInit, queues := s.queues[s.sh.generation + 1 := None])
    case InitFails => s.(sh := Teardown(s.sh), alive := false, phase := Idle)
    case InitDone => s.(phase := Ready)
    case FindAlive => s.(phase := Ready)
    case ArmStep(id) =>
      s.(sh := Arm(s.sh, id), phase := Armed(id, s.sh.generation), used := s.used + {id}, failures := s.failures[id := []])
    case Put =>
      s.(phase := Waiting(s.phase.id, s.phase.gen), queues := s.queues[s.phase.gen := Some(s.phase.id)],
         puts := s.puts + [(s.phase.gen, s.phase.id)])
    case GiveUp => s.(phase := Failing(s.phase.id, s.phase.gen), gaveUp := s.gaveUp + {s.phase.id})
    case FailReturn =>
      s.(sh := Teardown(s.sh), alive := false, phase := Idle,
         returned := s.returned + [Return(s.phase.id, s.phase.gen, Failed)])
    case CollectStep =>
      s.(sh := Collect(s.sh), phase := Collected(s.phase.id, s.phase.gen, s.sh.result, s.sh.initError != JsonNull))
    case Finish =>
      var drop := !s.alive || (s.phase.slot.Error? && s.phase.initFailed);
      s.(sh := if drop then Teardown(s.sh) else s.sh, alive := s.alive && !drop, phase := Idle,
         returned := s.returned + [Return(s.phase.id, s.phase.gen, OutcomeOf(s.phase.slot))])
    case Exit => s.(alive := false)
    case DiscardStep => s.(sh := Discard(s.sh))
    case PollStart(t, g) =>
      var (sh, admitted) := MarkFirstPoll(s.sh, g);
      s.(sh := sh, threads := s.threads[t := if admitted then Looping(g) else Gone(g)])
    case PollCheck(t) =>
      var g := s.threads[t].gen;
      s.(threads := s.threads[t := if s.sh.stopping || g != s.sh.generation then Gone(g) else Checked(g)])
    case PollGet(t) =>
      var g := s.threads[t].gen;
      if s.queues[g].None? then s.(threads := s.threads[t := Looping(g)])
      else
        s.(threads := s.threads[t := Gone(g)], queues := s.queues[g := None],
           handed := s.handed + [Handed(t, g, s.queues[g].value)])
    case PostResult(p) =>
      var (sh, taken) := RecordResult(s.sh, p.gen, p.id, p.kind, p.payload);
      s.(sh := sh, accepted := if taken then s.accepted + [p] else s.accepted)
    case PostInitError(i) =>
      s.(sh := RecordInitError(s.sh, i.gen, i.payload), initPosts := s.initPosts + {i}, failures := WithFailure(s, i))
  }

  /** The state after a sequence of steps, or None when one of them was not possible. */
  function Run(steps: seq<Step>): Option<State> {
    if steps == [] then Some(START)
    else
      match Run(steps[..|steps| - 1])
      case None => None
      case Some(s) => if Enabled(s, steps[|steps| - 1]) then Some(Apply(s, steps[|steps| - 1])) else None
  }

  ghost predicate Reachable(s: State) {
    exists steps :: Run(steps) == Some(s)
  }

  // ---------------------------------------------------------------- what every step keeps

  predicate InFlight(p: Phase) {
    p.Armed? || p.Waiting? || p.Failing?
  }

  /** The request being served, if any, is the invocation's own and of the current generation. */
  ghost predicate OwnRequest(s: State) {
    && (InFlight(s.phase) || s.phase.Collected? ==> s.phase.gen == s.sh.generation && s.phase.id in s.used)
    && (s.sh.current.Some? ==> InFlight(s.phase) && s.sh.current.value == s.phase.id && !s.sh.ready)
    && (InFlight(s.phase) && !s.sh.ready ==> s.sh.result == Empty)
    && (forall g :: g in s.queues ==> g <= s.sh.generation)
    && s.sh.generation in s.queues
  }

  /** A result comes from a post for this id and generation, or from this generation's failed init. */
  ghost predicate Sourced(s: State, slot: Slot, id: RequestId, gen: nat) {
    match slot
    case Empty => false
    case Response(p) => Post(gen, id, AsResponse, p) in s.accepted
    case Error(p) => Post(gen, id, AsError, p) in s.accepted || InitPost(gen, p) in s.initPosts
  }

  ghost predicate ResultsSourced(s: State) {
    && (InFlight(s.phase) && s.sh.ready ==> Sourced(s, s.sh.result, s.phase.id, s.phase.gen))
    && (s.phase.Collected? ==> Sourced(s, s.phase.slot, s.phase.id, s.phase.gen))
  }

  ghost predicate ReturnSourced(s: State, r: Return) {
    match r.outcome
    case Failed => true
    case Ok(p) => Post(r.gen, r.id, AsResponse, p) in s.accepted
    case RuntimeError(p) => Post(r.gen, r.id, AsError, p) in s.accepted || InitPost(r.gen, p) in s.initPosts
  }

  ghost predicate ReturnsSourced(s: State) {
    forall i :: 0 <= i < |s.returned| ==> ReturnSourced(s, s.returned[i])
  }

  ghost predicate AcceptedOnce(s: State) {
    && (forall i :: 0 <= i < |s.accepted| ==> s.accepted[i].id in s.used)
    && (forall i, j :: 0 <= i < j < |s.accepted| ==> s.accepted[i].id != s.accepted[j].id)
    && (s.sh.current.Some? ==> forall i :: 0 <= i < |s.accepted| ==> s.accepted[i].id != s.sh.current.value)
  }

  ghost predicate Safe(s: State) {
    OwnRequest(s) && ResultsSourced(s) && ReturnsSourced(s) && AcceptedOnce(s)
  }

  /** The invoking thread's own steps, up to the collection of a result. */
  predicate ByInvoker(step: Step) {
    step.Spawn? || step.InitFails? || step.InitDone? || step.FindAlive? || step.ArmStep? || step.Put? || step.GiveUp? || step.FailReturn?
  }

  /** What each component of the state can be changed by. */
  lemma Frame(s: State, step: Step)
    requires Enabled(s, step)
    ensures var s' := Apply(s, step);
            && (!step.PostResult? ==> s'.accepted == s.accepted)
            && (!step.ArmStep? ==> s'.used == s.used && (s'.sh.current == s.sh.current || s'.sh.current == None))
            && (!step.Put? ==> s'.puts == s.puts)
            && (!step.PollGet? ==> s'.handed == s.handed)
            && (!step.PostInitError? ==> s'.initPosts == s.initPosts)
    ensures var s' := Apply(s, step);
            && (!step.ArmStep? && s'.phase.Armed? ==> s'.phase == s.phase)
            && (!step.Put? && !step.PollGet? && !step.Spawn? ==> s'.queues == s.queues)
            && (forall t :: t in s.threads ==> t in s'.threads && s'.threads[t].gen == s.threads[t].gen)
  {
  }

  lemma StepOwnRequest(s: State, step: Step)
    requires OwnRequest(s) && Enabled(s, step)
    ensures OwnRequest(Apply(s, step))
  {
    if ByInvoker(step) {
      InvokerOwnRequest(s, step);
    } else {
      OtherOwnRequest(s, step);
    }
    hide OwnRequest, Apply, Enabled;
  }

  lemma InvokerOwnRequest(s: State, step: Step)
    requires OwnRequest(s) && Enabled(s, step) && ByInvoker(step)
    ensures OwnRequest(Apply(s, step))
  {
  }

  predicate IsPost(step: Step) {
    step.PostResult? || step.PostInitError?
  }

  lemma OtherOwnRequest(s: State, step: Step)
    requires OwnRequest(s) && Enabled(s, step) && !ByInvoker(step)
    ensures OwnRequest(Apply(s, step))
  {
    if IsPost(step) {
      PostOwnRequest(s, step);
    } else if step.CollectStep? || step.Finish? {
      EndOwnRequest(s, step);
    } else {
      PollOwnRequest(s, step);
    }
    hide Apply, Enabled, OwnRequest;
  }

  lemma PostOwnRequest(s: State, step: Step)
    requires OwnRequest(s) && Enabled(s, step) && IsPost(step)
    ensures OwnRequest(Apply(s, step))
  {
  }

  lemma EndOwnRequest(s: State, step: Step)
    requires OwnRequest(s) && Enabled(s, step) && (step.CollectStep? || step.Finish?)
    ensures OwnRequest(Apply(s, step))
  {
  }

  lemma PollOwnRequest(s: State, step: Step)
    requires OwnRequest(s) && Enabled(s, step) && !ByInvoker(step) && !IsPost(step) && !step.CollectStep? && !step.Finish?
    ensures OwnRequest(Apply(s, step))
  {
  }

  lemma StepResultsSourced(s: State, step: Step)
    requires OwnRequest(s) && ResultsSourced(s) && Enabled(s, step)
    ensures ResultsSourced(Apply(s, step))
  {
    if step.PostResult? || step.PostInitError? {
      PostResultsSourced(s, step);
    } else {
      OtherResultsSourced(s, step);
    }
    hide OwnRequest, ResultsSourced, Apply, Enabled;
  }

  lemma PostResultsSourced(s: State, step: Step)
    requires OwnRequest(s) && ResultsSourced(s) && Enabled(s, step) && (step.PostResult? || step.PostInitError?)
    ensures ResultsSourced(Apply(s, step))
  {
  }

  lemma OtherResultsSourced(s: State, step: Step)
    requires OwnRequest(s) && ResultsSourced(s) && Enabled(s, step) && !step.PostResult? && !step.PostInitError?
    ensures ResultsSourced(Apply(s, step))
  {
  }

  lemma StepReturnsSourced(s: State, step: Step)
    requires OwnRequest(s) && ResultsSourced(s) && ReturnsSourced(s) && Enabled(s, step)
    ensures ReturnsSourced(Apply(s, step))
  {
  }

  lemma StepAcceptedOnce(s: State, step: Step)
    requires OwnRequest(s) && AcceptedOnce(s) && Enabled(s, step)
    ensures AcceptedOnce(Apply(s, step))
  {
    match step
    case ArmStep(_) => ArmAcceptedOnce(s, step);
    case PostResult(_) => PostAcceptedOnce(s, step);
    case _ => OtherAcceptedOnce(s, step);
  }

  lemma ArmAcceptedOnce(s: State, step: Step)
    requires AcceptedOnce(s) && Enabled(s, step) && step.ArmStep?
    ensures AcceptedOnce(Apply(s, step))
  {
  }

  lemma PostAcceptedOnce(s: State, step: Step)
    requires OwnRequest(s) && AcceptedOnce(s) && Enabled(s, step) && step.PostResult?
    ensures AcceptedOnce(Apply(s, step))
  {
  }

  lemma OtherAcceptedOnce(s: State, step: Step)
    requires AcceptedOnce(s) && Enabled(s, step) && !step.ArmStep? && !step.PostResult?
    ensures AcceptedOnce(Apply(s, step))
  {
    hide Apply;
    Frame(s, step);
  }

  lemma {:induction false} RunSafe(steps: seq<Step>)
    requires Run(steps).Some?
    ensures Safe(Run(steps).value)
  {
    if steps != [] {
      var before := Run(steps[..|steps| - 1]).value;
      var step := steps[|steps| - 1];
      RunSafe(steps[..|steps| - 1]);
      StepOwnRequest(before, step);
      StepResultsSourced(before, step);
      StepReturnsSourced(before, step);
      StepAcceptedOnce(before, step);
    }
  }

  /**
    In every interleaving an invocation returns a response posted for its own id by its own
    generation, an error posted likewise, its generation's init error, or a failure.
   */
  lemma ReturnsOwnResult(s: State, i: nat)
    requires Reachable(s) && i < |s.returned|
    ensures ReturnSourced(s, s.returned[i])
  {
    var steps :| Run(steps) == Some(s);
    RunSafe(steps);
  }

  /** No request id is accepted twice. */
  lemma AcceptsEachIdOnce(s: State, i: nat, j: nat)
    requires Reachable(s) && i < j < |s.accepted|
    ensures s.accepted[i].id != s.accepted[j].id
  {
    var steps :| Run(steps) == Some(s);
    RunSafe(steps);
  }

  /** A step of a thread, or a post, of a generation other than the live one. */
  predicate DeadStep(s: State, step: Step) {
    match step
    case PollStart(_, g) => g != s.sh.generation
    case PollCheck(t) => t in s.threads && s.threads[t].gen != s.sh.generation
    case PollGet(t) => t in s.threads && s.threads[t].gen != s.sh.generation
    case PostResult(p) => p.gen != s.sh.generation
    case PostInitError(i) => i.gen != s.sh.generation
    case _ => false
  }

  /** It leaves everything of the live generation as it was. */
  lemma DeadGenerationChangesNothing(s: State, step: Step)
    requires Enabled(s, step) && DeadStep(s, step)
    ensures var s' := Apply(s, step);
            && s'.sh == s.sh && s'.phase == s.phase && s'.alive == s.alive
            && s'.accepted == s.accepted && s'.returned == s.returned
            && (s.sh.generation in s.queues ==>
                  s.sh.generation in s'.queues && s'.queues[s.sh.generation] == s.queues[s.sh.generation])
  {
  }

  // ---------------------------------------------------------------- the event queue

  ghost predicate WasHanded(s: State, gen: nat, id: RequestId) {
    exists i :: 0 <= i < |s.handed| && s.handed[i].gen == gen && s.handed[i].id == id
  }

  ghost predicate WasPut(s: State, gen: nat, id: RequestId) {
    exists i :: 0 <= i < |s.puts| && s.puts[i] == (gen, id)
  }

  /** Each event is queued once. */
  ghost predicate PutsOnce(s: State) {
    && (forall i :: 0 <= i < |s.puts| ==> s.puts[i].1 in s.used)
    && (forall i, j :: 0 <= i < j < |s.puts| ==> s.puts[i].1 != s.puts[j].1)
    && (s.phase.Armed? ==> s.phase.id in s.used && forall i :: 0 <= i < |s.puts| ==> s.puts[i].1 != s.phase.id)
  }

  /** Each event is taken once, from the queue it was put in, by a thread of that generation. */
  ghost predicate HandedOnce(s: State) {
    && (forall i :: 0 <= i < |s.handed| ==>
          && WasPut(s, s.handed[i].gen, s.handed[i].id)
          && s.handed[i].thread in s.threads && s.threads[s.handed[i].thread].gen == s.handed[i].gen)
    && (forall i, j :: 0 <= i < j < |s.handed| ==> s.handed[i].id != s.handed[j].id)
  }

  /** What a queue holds was put there and has not been taken. */
  ghost predicate QueuesFresh(s: State) {
    forall g :: g in s.queues && s.queues[g].Some? ==>
      WasPut(s, g, s.queues[g].value) && forall i :: 0 <= i < |s.handed| ==> s.handed[i].id != s.queues[g].value
  }

  ghost predicate EventsOnce(s: State) {
    PutsOnce(s) && HandedOnce(s) && QueuesFresh(s)
  }

  lemma PutsGrow(s: State, step: Step, gen: nat, id: RequestId)
    requires Enabled(s, step) && WasPut(s, gen, id)
    ensures WasPut(Apply(s, step), gen, id)
  {
    var i :| 0 <= i < |s.puts| && s.puts[i] == (gen, id);
    assert Apply(s, step).puts[i] == (gen, id);
  }

  lemma StepPutsOnce(s: State, step: Step)
    requires PutsOnce(s) && Enabled(s, step)
    ensures PutsOnce(Apply(s, step))
  {
    match step
    case ArmStep(_) => ArmPutsOnce(s, step);
    case Put => PutPutsOnce(s, step);
    case _ => OtherPutsOnce(s, step);
  }

  lemma ArmPutsOnce(s: State, step: Step)
    requires PutsOnce(s) && Enabled(s, step) && step.ArmStep?
    ensures PutsOnce(Apply(s, step))
  {
  }

  lemma PutPutsOnce(s: State, step: Step)
    requires PutsOnce(s) && Enabled(s, step) && step.Put?
    ensures PutsOnce(Apply(s, step))
  {
  }

  lemma OtherPutsOnce(s: State, step: Step)
    requires PutsOnce(s) && Enabled(s, step) && !step.ArmStep? && !step.Put?
    ensures PutsOnce(Apply(s, step))
  {
    hide Apply;
    Frame(s, step);
  }

  lemma StepHandedOnce(s: State, step: Step)
    requires EventsOnce(s) && Enabled(s, step)
    ensures HandedOnce(Apply(s, step))
  {
    hide Apply;
    Frame(s, step);
    forall i | 0 <= i < |s.handed| ensures WasPut(Apply(s, step), s.handed[i].gen, s.handed[i].id) {
      PutsGrow(s, step, s.handed[i].gen, s.handed[i].id);
    }
    if step.PollGet? {
      TakeHandedOnce(s, step);
    }
  }

  lemma TakeHandedOnce(s: State, step: Step)
    requires EventsOnce(s) && Enabled(s, step) && step.PollGet?
    ensures HandedOnce(Apply(s, step))
  {
    var g := s.threads[step.thread].gen;
    forall i | 0 <= i < |s.handed| ensures WasPut(Apply(s, step), s.handed[i].gen, s.handed[i].id) {
      PutsGrow(s, step, s.handed[i].gen, s.handed[i].id);
    }
    if s.queues[g].Some? {
      PutsGrow(s, step, g, s.queues[g].value);
    }
  }

  lemma StepQueuesFresh(s: State, step: Step)
    requires EventsOnce(s) && Enabled(s, step)
    ensures QueuesFresh(Apply(s, step))
  {
    hide Apply;
    Frame(s, step);
    forall g | g in s.queues && s.queues[g].Some? ensures WasPut(Apply(s, step), g, s.queues[g].value) {
      PutsGrow(s, step, g, s.queues[g].value);
    }
    match step
    case Put => PutQueuesFresh(s, step);
    case PollGet(_) => TakeQueuesFresh(s, step);
    case Spawn => SpawnQueuesFresh(s, step);
    case _ =>
  }

  lemma SpawnQueuesFresh(s: State, step: Step)
    requires EventsOnce(s) && Enabled(s, step) && step.Spawn?
    ensures QueuesFresh(Apply(s, step))
  {
    forall g | g in s.queues && s.queues[g].Some? ensures WasPut(Apply(s, step), g, s.queues[g].value) {
      PutsGrow(s, step, g, s.queues[g].value);
    }
  }

  lemma PutQueuesFresh(s: State, step: Step)
    requires EventsOnce(s) && Enabled(s, step) && step.Put?
    ensures QueuesFresh(Apply(s, step))
  {
    var s' := Apply(s, step);
    forall g | g in s.queues && s.queues[g].Some? ensures WasPut(s', g, s.queues[g].value) {
      PutsGrow(s, step, g, s.queues[g].value);
    }
    assert s'.puts[|s.puts|] == (s.phase.gen, s.phase.id);
    forall i | 0 <= i < |s.handed| ensures s.handed[i].id != s.phase.id {
      assert WasPut(s, s.handed[i].gen, s.handed[i].id);
    }
  }

  lemma TakeQueuesFresh(s: State, step: Step)
    requires EventsOnce(s) && Enabled(s, step) && step.PollGet?
    ensures QueuesFresh(Apply(s, step))
  {
    forall g | g in s.queues && s.queues[g].Some? ensures WasPut(Apply(s, step), g, s.queues[g].value) {
      PutsGrow(s, step, g, s.queues[g].value);
    }
  }

  lemma StepEventsOnce(s: State, step: Step)
    requires EventsOnce(s) && Enabled(s, step)
    ensures EventsOnce(Apply(s, step))
  {
    StepPutsOnce(s, step);
    StepHandedOnce(s, step);
    StepQueuesFresh(s, step);
  }

  lemma {:induction false} RunEventsOnce(steps: seq<Step>)
    requires Run(steps).Some?
    ensures EventsOnce(Run(steps).value)
  {
    if steps != [] {
      RunEventsOnce(steps[..|steps| - 1]);
      StepEventsOnce(Run(steps[..|steps| - 1]).value, steps[|steps| - 1]);
    }
  }

  /** An event is taken at most once, by a poll thread of the generation it was queued for. */
  lemma EventTakenOnceByItsGeneration(s: State, i: nat)
    requires Reachable(s) && i < |s.handed|
    ensures WasPut(s, s.handed[i].gen, s.handed[i].id)
    ensures s.handed[i].thread in s.threads && s.threads[s.handed[i].thread].gen == s.handed[i].gen
    ensures forall j :: 0 <= j < |s.handed| && j != i ==> s.handed[j].id != s.handed[i].id
  {
    var steps :| Run(steps) == Some(s);
    RunEventsOnce(steps);
  }

  /** A bootstrap that only answers requests it was handed. */
  ghost predicate HonestStep(s: State, step: Step) {
    step.PostResult? ==> WasHanded(s, step.post.gen, step.post.id)
  }

  ghost predicate HonestRun(steps: seq<Step>) {
    steps != [] ==>
      && HonestRun(steps[..|steps| - 1])
      && Run(steps[..|steps| - 1]).Some?
      && HonestStep(Run(steps[..|steps| - 1]).value, steps[|steps| - 1])
  }

  /** The bootstrap of this generation has posted an init error whose body is a JSON null. */
  ghost predicate NullInitError(s: State, gen: nat) {
    InitPost(gen, JsonNull) in s.initPosts
  }

  ghost predicate InitErrorsKnown(s: State) {
    && (forall i :: i in s.initPosts ==> i.gen <= s.sh.generation)
    && (s.sh.initError == JsonNull && !NullInitError(s, s.sh.generation) ==>
          forall i :: i in s.initPosts ==> i.gen != s.sh.generation)
  }

  ghost predicate AcceptedHanded(s: State) {
    forall i :: 0 <= i < |s.accepted| ==> WasHanded(s, s.accepted[i].gen, s.accepted[i].id)
  }

  /** Before an event is queued the live queue is empty, unless a null init error ended an invocation. */
  ghost predicate QueueDrained(s: State) {
    s.sh.generation in s.queues &&
    var q := s.queues[s.sh.generation];
    q == None || NullInitError(s, s.sh.generation) ||
    match s.phase
    case Idle => !s.alive
    case AwaitInit => false
    case Ready => false
    case Armed(_, _) => false
    case Waiting(id, _) => q == Some(id)
    case Failing(id, _) => true
    case Collected(_, _, slot, initFailed) => slot.Error? && initFailed
  }

  ghost predicate Drained(s: State) {
    OwnRequest(s) && ResultsSourced(s) && EventsOnce(s) && InitErrorsKnown(s) && AcceptedHanded(s) && QueueDrained(s)
  }

  lemma StepInitErrorsKnown(s: State, step: Step)
    requires OwnRequest(s) && InitErrorsKnown(s) && Enabled(s, step)
    ensures InitErrorsKnown(Apply(s, step))
  {
    if step.PostInitError? {
      PostInitErrorsKnown(s, step);
    } else {
      InitErrorKept(s, step);
    }
    hide Apply, Enabled;
  }

  lemma PostInitErrorsKnown(s: State, step: Step)
    requires OwnRequest(s) && InitErrorsKnown(s) && Enabled(s, step) && step.PostInitError?
    ensures InitErrorsKnown(Apply(s, step))
  {
  }

  /** Only a post or a new generation changes the recorded init error. */
  lemma InitErrorKept(s: State, step: Step)
    requires Enabled(s, step) && !step.PostInitError?
    ensures var s' := Apply(s, step);
            && s'.initPosts == s.initPosts
            && (if step.Spawn? then s'.sh.generation == s.sh.generation + 1
                else s'.sh.generation == s.sh.generation && s'.sh.initError == s.sh.initError)
  {
  }

  lemma HandedGrows(s: State, step: Step, gen: nat, id: RequestId)
    requires Enabled(s, step) && WasHanded(s, gen, id)
    ensures WasHanded(Apply(s, step), gen, id)
  {
    var i :| 0 <= i < |s.handed| && s.handed[i].gen == gen && s.handed[i].id == id;
    assert Apply(s, step).handed[i] == s.handed[i];
  }

  lemma StepAcceptedHanded(s: State, step: Step)
    requires AcceptedHanded(s) && Enabled(s, step) && HonestStep(s, step)
    ensures AcceptedHanded(Apply(s, step))
  {
    forall i | 0 <= i < |s.accepted| ensures WasHanded(Apply(s, step), s.accepted[i].gen, s.accepted[i].id) {
      HandedGrows(s, step, s.accepted[i].gen, s.accepted[i].id);
    }
    if step.PostResult? {
      HandedGrows(s, step, step.post.gen, step.post.id);
    }
  }

  /** When a result is collected its event has left the queue, or an init error made it. */
  lemma CollectDrains(s: State)
    requires Drained(s) && s.phase.Waiting? && s.sh.ready
    ensures var q := s.queues[s.sh.generation];
            || q == None
            || NullInitError(s, s.sh.generation)
            || (s.sh.result.Error? && s.sh.initError != JsonNull)
  {
    var id, g := s.phase.id, s.phase.gen;
    assert Sourced(s, s.sh.result, id, g);
    if p :| p in s.accepted && p.gen == g && p.id == id {
      assert WasHanded(s, g, id);
    }
  }

  lemma StepQueueDrained(s: State, step: Step)
    requires Drained(s) && Enabled(s, step)
    ensures QueueDrained(Apply(s, step))
  {
    if step.CollectStep? {
      CollectDrains(s);
    } else if step.Finish? || step.FailReturn? || step.InitFails? || step.Spawn? {
      BoundaryDrained(s, step);
    } else {
      OtherDrained(s, step);
    }
  }

  lemma BoundaryDrained(s: State, step: Step)
    requires Drained(s) && Enabled(s, step)
    requires step.Finish? || step.FailReturn? || step.InitFails? || step.Spawn?
    ensures QueueDrained(Apply(s, step))
  {
  }

  lemma OtherDrained(s: State, step: Step)
    requires Drained(s) && Enabled(s, step)
    requires !step.CollectStep? && !step.Finish? && !step.FailReturn? && !step.InitFails? && !step.Spawn?
    ensures QueueDrained(Apply(s, step))
  {
    if ByInvoker(step) {
      InvokerDrained(s, step);
    } else {
      HandlerDrained(s, step);
    }
    hide Apply, Enabled, Drained;
  }

  lemma InvokerDrained(s: State, step: Step)
    requires OwnRequest(s) && InitErrorsKnown(s) && QueueDrained(s) && Enabled(s, step)
    requires ByInvoker(step) && !step.FailReturn? && !step.InitFails? && !step.Spawn?
    ensures QueueDrained(Apply(s, step))
  {
  }

  lemma HandlerDrained(s: State, step: Step)
    requires OwnRequest(s) && QueueDrained(s) && Enabled(s, step)
    requires !ByInvoker(step) && !step.CollectStep? && !step.Finish?
    ensures QueueDrained(Apply(s, step))
  {
  }

  lemma {:induction false} HonestRunDrained(steps: seq<Step>)
    requires HonestRun(steps) && Run(steps).Some?
    ensures Drained(Run(steps).value)
  {
    if steps != [] {
      var before := Run(steps[..|steps| - 1]).value;
      var step := steps[|steps| - 1];
      HonestRunDrained(steps[..|steps| - 1]);
      StepOwnRequest(before, step);
      StepResultsSourced(before, step);
      StepEventsOnce(before, step);
      StepInitErrorsKnown(before, step);
      StepAcceptedHanded(before, step);
      StepQueueDrained(before, step);
    }
  }

  /** With an honest bootstrap `invoke` finds its queue empty, so its put does not block, unless a null init error came. */
  lemma PutDoesNotBlock(steps: seq<Step>)
    requires HonestRun(steps) && Run(steps).Some? && Run(steps).value.phase.Armed?
    ensures var s := Run(steps).value; Enabled(s, Put) || NullInitError(s, s.sh.generation)
  {
    HonestRunDrained(steps);
  }

  // -- exactly when it blocks

  ghost predicate Taken(s: State, id: RequestId) {
    exists i :: 0 <= i < |s.handed| && s.handed[i].id == id
  }

  /** An event put for the live generation stays in its queue until it is taken. */
  ghost predicate PutsKept(s: State) {
    && s.sh.generation in s.queues
    && (forall i :: 0 <= i < |s.puts| ==> s.puts[i].0 <= s.sh.generation)
    && (forall i :: 0 <= i < |s.puts| && s.puts[i].0 == s.sh.generation ==>
          Taken(s, s.puts[i].1) || s.queues[s.sh.generation] == Some(s.puts[i].1))
  }

  /** The last init error posted while this request was served was null. */
  predicate NullLast(s: State, id: RequestId) {
    id in s.failures && s.failures[id] != [] && s.failures[id][|s.failures[id]| - 1] == JsonNull
  }

  /** An invocation of the live generation ended in an init error that was null at last. */
  ghost predicate NullFailed(s: State, id: RequestId) {
    NullLast(s, id) && exists i :: 0 <= i < |s.returned| && s.returned[i].gen == s.sh.generation && s.returned[i].id == id
                                   && s.returned[i].outcome.RuntimeError?
  }

  ghost predicate AcceptedFor(s: State, gen: nat, id: RequestId) {
    exists i :: 0 <= i < |s.accepted| && s.accepted[i].gen == gen && s.accepted[i].id == id
  }

  /** The recorded init errors of the request being served, or just collected, explain its result. */
  ghost predicate FailuresKnown(s: State) {
    && (forall id <- s.failures :: id in s.used)
    && (Served(s.phase) ==>
          && s.phase.id in s.failures
          && (s.failures[s.phase.id] != [] ==> s.failures[s.phase.id][|s.failures[s.phase.id]| - 1] == s.sh.initError)
          && (s.sh.ready ==> s.failures[s.phase.id] != [] || AcceptedFor(s, s.phase.gen, s.phase.id)))
    && (s.phase.Collected? ==>
          && s.phase.id in s.failures
          && (s.failures[s.phase.id] != [] ==>
                s.phase.initFailed == (s.failures[s.phase.id][|s.failures[s.phase.id]| - 1] != JsonNull))
          && (s.failures[s.phase.id] != [] || AcceptedFor(s, s.phase.gen, s.phase.id)))
  }

  lemma AcceptedGrows(s: State, step: Step, gen: nat, id: RequestId)
    requires Enabled(s, step) && AcceptedFor(s, gen, id)
    ensures AcceptedFor(Apply(s, step), gen, id)
  {
    var i :| 0 <= i < |s.accepted| && s.accepted[i].gen == gen && s.accepted[i].id == id;
    assert Apply(s, step).accepted[i] == s.accepted[i];
  }

  lemma StepFailuresKnown(s: State, step: Step)
    requires OwnRequest(s) && FailuresKnown(s) && Enabled(s, step)
    ensures FailuresKnown(Apply(s, step))
  {
    if step.PostResult? {
      PostFailuresKnown(s, step);
    } else if step.PostInitError? {
      InitFailuresKnown(s, step);
    } else if ByInvoker(step) {
      InvokerFailuresKnown(s, step);
    } else {
      OtherFailuresKnown(s, step);
    }
    hide FailuresKnown, OwnRequest, Apply, Enabled;
  }

  lemma PostFailuresKnown(s: State, step: Step)
    requires OwnRequest(s) && FailuresKnown(s) && Enabled(s, step) && step.PostResult?
    ensures FailuresKnown(Apply(s, step))
  {
    if (Served(s.phase) || s.phase.Collected?) && AcceptedFor(s, s.phase.gen, s.phase.id) {
      AcceptedGrows(s, step, s.phase.gen, s.phase.id);
    }
    if Accepts(s.sh, step.post.gen, step.post.id) {
      assert Apply(s, step).accepted[|s.accepted|] == step.post;
    }
    hide AcceptedFor;
  }

  lemma SameAccepted(s: State, t: State)
    requires s.accepted == t.accepted
    ensures forall g, id :: AcceptedFor(s, g, id) <==> AcceptedFor(t, g, id)
  {
  }

  lemma InitFailuresKnown(s: State, step: Step)
    requires OwnRequest(s) && FailuresKnown(s) && Enabled(s, step) && step.PostInitError?
    ensures FailuresKnown(Apply(s, step))
  {
    SameAccepted(s, Apply(s, step));
    hide AcceptedFor;
  }

  lemma InvokerFailuresKnown(s: State, step: Step)
    requires OwnRequest(s) && FailuresKnown(s) && Enabled(s, step) && ByInvoker(step)
    ensures FailuresKnown(Apply(s, step))
  {
    SameAccepted(s, Apply(s, step));
    hide AcceptedFor;
  }

  lemma OtherFailuresKnown(s: State, step: Step)
    requires OwnRequest(s) && FailuresKnown(s) && Enabled(s, step) && !ByInvoker(step) && !step.PostResult? && !step.PostInitError?
    ensures FailuresKnown(Apply(s, step))
  {
    SameAccepted(s, Apply(s, step));
    hide AcceptedFor;
  }

  /** Every invocation that got as far as waiting has put its event. */
  ghost predicate ReturnedPut(s: State) {
    && (s.phase.Waiting? || s.phase.Failing? || s.phase.Collected? ==> WasPut(s, s.phase.gen, s.phase.id))
    && (forall i :: 0 <= i < |s.returned| ==> WasPut(s, s.returned[i].gen, s.returned[i].id))
  }

  lemma StepReturnedPut(s: State, step: Step)
    requires ReturnedPut(s) && Enabled(s, step)
    ensures ReturnedPut(Apply(s, step))
  {
    forall g, id | WasPut(s, g, id) ensures WasPut(Apply(s, step), g, id) {
      PutsGrow(s, step, g, id);
    }
    if step.Put? {
      assert Apply(s, step).puts[|s.puts|] == (s.phase.gen, s.phase.id);
    }
    hide WasPut;
  }

  /** Whose event the live queue holds. */
  ghost predicate QueueExplained(s: State) {
    s.sh.generation in s.queues && (s.queues[s.sh.generation].Some? ==>
      var id := s.queues[s.sh.generation].value;
      match s.phase
      case Idle => !s.alive || NullFailed(s, id)
      case AwaitInit => NullFailed(s, id)
      case Ready => NullFailed(s, id)
      case Armed(own, _) => id != own && NullFailed(s, id)
      case Waiting(own, _) => id == own
      case Failing(own, _) => id == own
      case Collected(own, _, slot, _) => id == own && slot.Error?)
  }

  lemma TakenGrows(s: State, step: Step, id: RequestId)
    requires Enabled(s, step) && Taken(s, id)
    ensures Taken(Apply(s, step), id)
  {
    var i :| 0 <= i < |s.handed| && s.handed[i].id == id;
    assert Apply(s, step).handed[i] == s.handed[i];
  }

  lemma StepPutsKept(s: State, step: Step)
    requires OwnRequest(s) && PutsKept(s) && Enabled(s, step)
    ensures PutsKept(Apply(s, step))
  {
    var s' := Apply(s, step);
    forall i | 0 <= i < |s.puts| && Taken(s, s.puts[i].1) ensures Taken(s', s.puts[i].1) {
      TakenGrows(s, step, s.puts[i].1);
    }
    if step.PollGet? && s.queues[s.threads[step.thread].gen].Some? {
      assert s'.handed[|s.handed|].id == s.queues[s.threads[step.thread].gen].value;
    }
    hide Taken;
  }

  lemma NullFailedGrows(s: State, step: Step, id: RequestId)
    requires OwnRequest(s) && FailuresKnown(s) && Enabled(s, step) && NullFailed(s, id) && !step.Spawn?
    requires Served(s.phase) ==> s.phase.id != id
    ensures NullFailed(Apply(s, step), id)
  {
    var i :| 0 <= i < |s.returned| && s.returned[i].gen == s.sh.generation && s.returned[i].id == id
             && s.returned[i].outcome.RuntimeError?;
    FailuresKept(s, step, id);
    ReturnKept(s, step, i);
    hide Apply, Enabled, OwnRequest, FailuresKnown;
  }

  /** Init errors are recorded for the request being served only. */
  lemma FailuresKept(s: State, step: Step, id: RequestId)
    requires Enabled(s, step) && id in s.failures && id in s.used
    requires Served(s.phase) ==> s.phase.id != id
    ensures var s' := Apply(s, step); id in s'.failures && s'.failures[id] == s.failures[id]
  {
  }

  lemma ReturnKept(s: State, step: Step, i: nat)
    requires Enabled(s, step) && i < |s.returned| && !step.Spawn?
    ensures var s' := Apply(s, step); i < |s'.returned| && s'.returned[i] == s.returned[i] && s'.sh.generation == s.sh.generation
  {
  }

  lemma CollectExplained(s: State)
    requires OwnRequest(s) && ResultsSourced(s) && EventsOnce(s) && AcceptedHanded(s) && QueueExplained(s)
    requires Enabled(s, CollectStep)
    ensures QueueExplained(Apply(s, CollectStep))
  {
    var id, g := s.phase.id, s.phase.gen;
    assert Sourced(s, s.sh.result, id, g);
    if p :| p in s.accepted && p.gen == g && p.id == id {
      assert WasHanded(s, g, id);
    }
  }

  /** An event still queued when its result was collected had no post, so an init error ended its request. */
  lemma FinishExplained(s: State)
    requires OwnRequest(s) && EventsOnce(s) && AcceptedHanded(s) && FailuresKnown(s) && QueueExplained(s) && Enabled(s, Finish)
    ensures QueueExplained(Apply(s, Finish))
  {
    var s' := Apply(s, Finish);
    var id, g := s.phase.id, s.phase.gen;
    assert s'.returned[|s.returned|] == Return(id, g, OutcomeOf(s.phase.slot));
    if AcceptedFor(s, g, id) {
      assert WasHanded(s, g, id);
    }
  }

  lemma InvokerExplained(s: State, step: Step)
    requires OwnRequest(s) && FailuresKnown(s) && QueueExplained(s) && Enabled(s, step) && ByInvoker(step)
    ensures QueueExplained(Apply(s, step))
  {
    if step.Spawn? || step.Put? || step.GiveUp? || step.FailReturn? {
      FreshQueueExplained(s, step);
    } else {
      OldQueueExplained(s, step);
    }
    hide OwnRequest, FailuresKnown, QueueExplained, Apply, Enabled;
  }

  lemma FreshQueueExplained(s: State, step: Step)
    requires OwnRequest(s) && QueueExplained(s) && Enabled(s, step)
    requires step.Spawn? || step.Put? || step.GiveUp? || step.FailReturn?
    ensures QueueExplained(Apply(s, step))
  {
    hide NullFailed;
  }

  lemma OldQueueExplained(s: State, step: Step)
    requires OwnRequest(s) && FailuresKnown(s) && QueueExplained(s) && Enabled(s, step)
    requires step.InitFails? || step.InitDone? || step.FindAlive? || step.ArmStep?
    ensures QueueExplained(Apply(s, step))
  {
    if s.queues[s.sh.generation].Some? && NullFailed(s, s.queues[s.sh.generation].value) {
      assert s.queues[s.sh.generation].value in s.used;
      NullFailedGrows(s, step, s.queues[s.sh.generation].value);
    }
    hide NullFailed, FailuresKnown;
  }

  /** Handler threads, posts and the process itself leave the invoking thread where it was. */
  lemma OutsideShape(s: State, step: Step)
    requires OwnRequest(s) && Enabled(s, step) && !ByInvoker(step) && !step.CollectStep? && !step.Finish?
    ensures var s' := Apply(s, step);
      && s'.phase == s.phase && s'.returned == s.returned && s'.sh.generation == s.sh.generation && (s'.alive ==> s.alive)
      && s.sh.generation in s'.queues
      && (s'.queues[s.sh.generation] == s.queues[s.sh.generation] || s'.queues[s.sh.generation] == None)
  {
  }

  lemma OutsideExplained(s: State, step: Step)
    requires OwnRequest(s) && FailuresKnown(s) && QueueExplained(s) && Enabled(s, step)
    requires !ByInvoker(step) && !step.CollectStep? && !step.Finish?
    ensures QueueExplained(Apply(s, step))
  {
    OutsideShape(s, step);
    var queue := s.queues[s.sh.generation];
    if queue.Some? && NullFailed(s, queue.value) && (Served(s.phase) ==> s.phase.id != queue.value) {
      NullFailedGrows(s, step, queue.value);
    }
    hide Apply, NullFailed;
  }

  lemma {:induction false} HonestRunExplained(steps: seq<Step>)
    requires HonestRun(steps) && Run(steps).Some?
    ensures Drained(Run(steps).value) && PutsKept(Run(steps).value) && ReturnedPut(Run(steps).value)
    ensures FailuresKnown(Run(steps).value) && QueueExplained(Run(steps).value)
  {
    HonestRunDrained(steps);
    if steps != [] {
      var before := Run(steps[..|steps| - 1]).value;
      var step := steps[|steps| - 1];
      HonestRunExplained(steps[..|steps| - 1]);
      StepPutsKept(before, step);
      StepReturnedPut(before, step);
      StepFailuresKnown(before, step);
      if step.CollectStep? {
        CollectExplained(before);
      } else if step.Finish? {
        FinishExplained(before);
      } else if ByInvoker(step) {
        InvokerExplained(before, step);
      } else {
        OutsideExplained(before, step);
      }
    }
  }

  /**
    An earlier invocation of this environment was ended by init errors posted while it was served,
    the last of them null, and no poll has fetched its event since.
   */
  ghost predicate LeftBehind(s: State) {
    exists i :: 0 <= i < |s.returned|
      && s.returned[i].gen == s.sh.generation && s.returned[i].outcome.RuntimeError?
      && NullLast(s, s.returned[i].id) && !Taken(s, s.returned[i].id)
  }

  /** With an honest bootstrap the put blocks exactly when a null init error left such an event behind. */
  lemma PutBlocksIff(steps: seq<Step>)
    requires HonestRun(steps) && Run(steps).Some? && Run(steps).value.phase.Armed?
    ensures !Enabled(Run(steps).value, Put) <==> LeftBehind(Run(steps).value)
  {
    var s := Run(steps).value;
    HonestRunExplained(steps);
    hide Run, HonestRun;
    var queue := s.queues[s.sh.generation];
    if queue.Some? {
      assert NullFailed(s, queue.value);
      var i :| 0 <= i < |s.returned| && s.returned[i].gen == s.sh.generation && s.returned[i].id == queue.value
               && s.returned[i].outcome.RuntimeError?;
    }
  }

  lemma Extend(steps: seq<Step>, s: State, step: Step)
    requires HonestRun(steps) && Run(steps) == Some(s) && Enabled(s, step) && HonestStep(s, step)
    ensures HonestRun(steps + [step]) && Run(steps + [step]) == Some(Apply(s, step))
  {
    assert (steps + [step])[..|steps|] == steps;
  }

  /**
    The exception is real. A null init error posted while an event waits fails the invocation but
    keeps the environment, since `_init_error` still reads as None: the event stays queued and the
    next invocation's put finds the queue full.
   */
  lemma NullInitErrorBlocksNextPut(a: RequestId, b: RequestId) returns (steps: seq<Step>, s: State)
    requires a != b
    ensures HonestRun(steps) && Run(steps) == Some(s)
    ensures s.phase == Armed(b, 1) && s.alive && !s.sh.stopping && !Enabled(s, Put)
    ensures s.returned == [Return(a, 1, RuntimeError(JsonNull))]
  {
    hide Run, HonestRun;
    steps, s := NullInitFinished(a);
    Extend(steps, s, FindAlive);
    steps, s := steps + [FindAlive], Apply(s, FindAlive);
    Extend(steps, s, ArmStep(b));
    steps, s := steps + [ArmStep(b)], Apply(s, ArmStep(b));
  }

  lemma NullInitFinished(a: RequestId) returns (steps: seq<Step>, s: State)
    ensures HonestRun(steps) && Run(steps) == Some(s)
    ensures s.phase == Idle && s.alive && s.used == {a} && s.returned == [Return(a, 1, RuntimeError(JsonNull))]
    ensures s.sh == Shared(1, false, false, true, JsonNull, Empty, true, None)
    ensures 1 in s.queues && s.queues[1] == Some(a)
  {
    hide Run, HonestRun;
    steps, s := NullInitWhileWaiting(a);
    Extend(steps, s, CollectStep);
    steps, s := steps + [CollectStep], Apply(s, CollectStep);
    Extend(steps, s, Finish);
    steps, s := steps + [Finish], Apply(s, Finish);
  }

  lemma NullInitWhileWaiting(a: RequestId) returns (steps: seq<Step>, s: State)
    ensures HonestRun(steps) && Run(steps) == Some(s)
    ensures s.phase == Waiting(a, 1) && s.alive && s.used == {a} && s.returned == []
    ensures s.sh == Shared(1, false, false, true, JsonNull, Error(JsonNull), true, None)
    ensures 1 in s.queues && s.queues[1] == Some(a)
  {
    steps, s := NullInitSettles();
    hide Run, HonestRun;
    Extend(steps, s, ArmStep(a));
    steps, s := steps + [ArmStep(a)], Apply(s, ArmStep(a));
    Extend(steps, s, Put);
    steps, s := steps + [Put], Apply(s, Put);
    var bad := PostInitError(InitPost(1, JsonNull));
    Extend(steps, s, bad);
    steps, s := steps + [bad], Apply(s, bad);
  }

  lemma NullInitSettles() returns (steps: seq<Step>, s: State)
    ensures HonestRun(steps) && Run(steps) == Some(s)
    ensures s.phase == Ready && s.alive && s.used == {} && s.returned == []
    ensures s.sh == Shared(1, false, false, true, JsonNull, Empty, false, None)
    ensures 1 in s.queues && s.queues[1] == None
  {
    hide Run, HonestRun;
    steps, s := Spawned();
    var bad := PostInitError(InitPost(1, JsonNull));
    Extend(steps, s, bad);
    steps, s := steps + [bad], Apply(s, bad);
    Extend(steps, s, InitDone);
    steps, s := steps + [InitDone], Apply(s, InitDone);
  }

  lemma Spawned() returns (steps: seq<Step>, s: State)
    ensures HonestRun(steps) && Run(steps) == Some(s)
    ensures s.phase == AwaitInit && s.alive && s.used == {} && s.returned == []
    ensures s.sh == Shared(1, false, false, false, JsonNull, Empty, false, None)
    ensures s.queues == map[0 := None, 1 := None]
  {
    steps, s := [], START;
    assert HonestRun(steps) && Run(steps) == Some(s);
    hide Run, HonestRun;
    Extend(steps, s, Spawn);
    steps, s := steps + [Spawn], Apply(s, Spawn);
  }
}
