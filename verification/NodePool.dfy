/**
  The pool of Node processes (`ministack/core/node_pool.py`): workers are leased or spawned, never
  queued for; a worker's process is recycled after enough calls and surplus idle workers are folded.
 */
module NodePool {
  import opened Results

  /** What the pool keeps about one worker; `proc` names its process, dead or alive. */
  datatype Info = Info(inUse: bool, evals: nat, proc: Option<nat>)

  /** The workers on the list, and what is known of every worker made so far. */
  datatype Pool<!W> = Pool(workers: seq<W>, info: map<W, Info>)

  datatype Config = Config(recycleAfter: nat, maxIdle: nat)

  ghost predicate Distinct<W>(xs: seq<W>) {
    forall i, j :: 0 <= i < j < |xs| ==> xs[i] != xs[j]
  }

  ghost predicate Listed<W>(p: Pool<W>) {
    (forall w <- p.workers :: w in p.info) && Distinct(p.workers)
  }

  // ---------------------------------------------------------------- the locked sections

  function FirstFree<W>(workers: seq<W>, info: map<W, Info>): (r: Option<nat>)
    requires forall w <- workers :: w in info
    ensures r.Some? ==> r.value < |workers| && !info[workers[r.value]].inUse
                        && forall j :: 0 <= j < r.value ==> info[workers[j]].inUse
    ensures r.None? ==> forall w <- workers :: info[w].inUse
  {
    if workers == [] then None
    else if !info[workers[0]].inUse then Some(0)
    else
      assert workers == [workers[0]] + workers[1..];
      var r := FirstFree(workers[1..], info);
      if r.None? then None
      else
        assert forall j :: 0 < j < |workers| ==> workers[j] == workers[1..][j - 1];
        Some(r.value + 1)
  }

  /** `_acquire`: the first free worker, or the new one `spawn`. */
  function Acquire<W>(p: Pool<W>, spawn: W): (Pool<W>, W)
    requires forall w <- p.workers :: w in p.info
  {
    var free := FirstFree(p.workers, p.info);
    if free.Some? then
      var w := p.workers[free.value];
      (p.(info := p.info[w := p.info[w].(inUse := true)]), w)
    else
      (Pool(p.workers + [spawn], p.info[spawn := Info(true, 0, None)]), spawn)
  }

  /** The idle workers, in list order. */
  function Idle<W>(workers: seq<W>, info: map<W, Info>): (r: seq<W>)
    requires forall w <- workers :: w in info
    ensures forall w <- r :: w in workers && !info[w].inUse
    ensures forall w <- workers :: !info[w].inUse ==> w in r
  {
    if workers == [] then []
    else
      var front, last := workers[..|workers| - 1], workers[|workers| - 1];
      assert workers == front + [last];
      if info[last].inUse then Idle(front, info) else Idle(front, info) + [last]
  }

  /** `list.remove` */
  function Remove<W(==)>(workers: seq<W>, w: W): (r: seq<W>)
    requires w in workers
    ensures |r| == |workers| - 1
    ensures workers[0] != w ==> r != [] && r[0] == workers[0]
    ensures forall x <- r :: x in workers
  {
    if workers[0] == w then workers[1..]
    else
      assert workers == [workers[0]] + workers[1..];
      [workers[0]] + Remove(workers[1..], w)
  }

  /** What a release does: the pool after it, the process it kills, or the error of removing an unlisted worker. */
  datatype Released<!W> = Released(pool: Pool<W>, killed: Option<nat>, raised: bool)

  /** A worker just freed is folded when too many idle, the first of the list excepted. */
  function Fold<W(==)>(p: Pool<W>, cfg: Config, w: W): Released<W>
    requires w in p.info && forall x <- p.workers :: x in p.info
  {
    if |Idle(p.workers, p.info)| > cfg.maxIdle && w != p.workers[0] then
      if w in p.workers then
        Released(Pool(Remove(p.workers, w), p.info[w := p.info[w].(proc := None)]), p.info[w].proc, false)
      else
        Released(p, None, true)
    else
      Released(p, None, false)
  }

  /** `_release` */
  function Release<W(==)>(p: Pool<W>, cfg: Config, w: W): Released<W>
    requires w in p.info && forall x <- p.workers :: x in p.info
  {
    if p.info[w].evals >= cfg.recycleAfter then
      Released(p.(info := p.info[w := Info(false, 0, None)]), p.info[w].proc, false)
    else
      Fold(p.(info := p.info[w := p.info[w].(inUse := false)]), cfg, w)
  }

  /** `reset` under its lock: the list is emptied; each worker dropped is shut down afterwards. */
  function Reset<W>(p: Pool<W>): Pool<W> {
    p.(workers := [])
  }

  /** `_take_proc` */
  function TakeProc<W>(p: Pool<W>, w: W): Pool<W>
    requires w in p.info
  {
    p.(info := p.info[w := p.info[w].(proc := None)])
  }

  // ---------------------------------------------------------------- the whole system

  datatype Outcome = NoNode | IoError | TimedOut | Closed | Replied

  datatype Lease = Lease(worker: nat, called: bool)

  /** The pool, the calls holding a worker, workers dropped by a reset but not yet shut down, and the processes. */
  datatype System = System(pool: Pool<nat>, calls: map<nat, Lease>, doomed: set<nat>,
                           alive: set<nat>, served: map<nat, nat>, pids: nat)

  datatype Step =
    | AcquireStep(call: nat, spawn: nat)
    | CallStep(call: nat, outcome: Outcome)
    | ReleaseStep(call: nat)
    | ResetStep
    | ShutdownStep(worker: nat)
    | ExitStep(pid: nat)

  const EMPTY := System(Pool([], map[]), map[], {}, {}, map[], 0)

  function Kill(alive: set<nat>, pid: Option<nat>): set<nat> {
    if pid.Some? then alive - {pid.value} else alive
  }

  /** `_ensure`: the worker's process if it still runs, else a new one. */
  function ProcessOf(s: System, w: nat): nat
    requires w in s.pool.info
  {
    var proc := s.pool.info[w].proc;
    if proc.Some? && proc.value in s.alive then proc.value else s.pids
  }

  predicate Enabled(s: System, step: Step) {
    match step
    case AcquireStep(call, spawn) => call !in s.calls && spawn !in s.pool.info && forall w <- s.pool.workers :: w in s.pool.info
    case CallStep(call, outcome) =>
      && call in s.calls && !s.calls[call].called && s.calls[call].worker in s.pool.info
      && (outcome == NoNode ==> ProcessOf(s, s.calls[call].worker) == s.pids)
    case ReleaseStep(call) =>
      call in s.calls && s.calls[call].worker in s.pool.info && forall w <- s.pool.workers :: w in s.pool.info
    case ResetStep => true
    case ShutdownStep(w) => w in s.doomed && w in s.pool.info
    case ExitStep(pid) => true
  }

  /** The calls a process has served so far. */
  function ServedBy(served: map<nat, nat>, proc: Option<nat>): nat {
    if proc.Some? && proc.value in served then served[proc.value] else 0
  }

  /** The worker's fields after a call that used, or would have used, process `pid`. */
  function CallInfo(info: Info, outcome: Outcome, pid: nat): Info {
    match outcome
    case NoNode => info.(evals := info.evals + 1)
    case Replied => info.(evals := info.evals + 1, proc := Some(pid))
    case _ => info.(evals := info.evals + 1, proc := None)
  }

  /** `_Worker.call`, from the counter to the reply, under the worker's own lock. */
  function CallOn(s: System, call: nat, outcome: Outcome): System
    requires Enabled(s, CallStep(call, outcome))
  {
    var w := s.calls[call].worker;
    var pid := ProcessOf(s, w);
    var pool := s.pool.(info := s.pool.info[w := CallInfo(s.pool.info[w], outcome, pid)]);
    var calls := s.calls[call := Lease(w, true)];
    if outcome == NoNode then s.(pool := pool, calls := calls)
    else
      s.(pool := pool, calls := calls,
         alive := if outcome == TimedOut then s.alive - {pid} else s.alive + {pid},
         served := s.served[pid := ServedBy(s.served, Some(pid)) + 1],
         pids := if pid == s.pids then s.pids + 1 else s.pids)
  }

  /**
    Every call counts, answered or not. The worker goes on with the process exactly when it answered, keeps what
    it had when none could be started, and has no process otherwise; only a timeout kills it at once.
   */
  lemma CallCounts(s: System, call: nat, outcome: Outcome)
    requires Enabled(s, CallStep(call, outcome))
    ensures var w, t := s.calls[call].worker, CallOn(s, call, outcome);
      var pid := ProcessOf(s, w);
      && t.pool.info[w].evals == s.pool.info[w].evals + 1 && t.pool.info[w].inUse == s.pool.info[w].inUse
      && t.calls[call].called && t.calls[call].worker == w
      && (outcome == Replied ==> t.pool.info[w].proc == Some(pid))
      && (outcome == NoNode ==> t.pool.info[w].proc == s.pool.info[w].proc && t.alive == s.alive && t.served == s.served)
      && (outcome != Replied && outcome != NoNode ==> t.pool.info[w].proc == None)
      && (outcome != NoNode ==> pid in t.served && (pid in t.alive <==> outcome != TimedOut))
      && (outcome != NoNode ==> t.served[pid] == (if pid in s.served then s.served[pid] else 0) + 1)
      && (outcome != NoNode && pid !in s.alive ==> pid == s.pids && t.pids == s.pids + 1)
      && (forall v <- s.pool.info :: v != w ==> t.pool.info[v] == s.pool.info[v])
  {
  }

  /** A worker's process serves the call while it runs, and a new one otherwise. */
  lemma ProcessIs(s: System, w: nat)
    requires w in s.pool.info
    ensures match s.pool.info[w].proc
            case Some(pid) => ProcessOf(s, w) == if pid in s.alive then pid else s.pids
            case None => ProcessOf(s, w) == s.pids
  {
  }

  function Apply(s: System, cfg: Config, step: Step): System
    requires Enabled(s, step)
  {
    match step
    case AcquireStep(call, spawn) =>
      var (pool, w) := Acquire(s.pool, spawn);
      s.(pool := pool, calls := s.calls[call := Lease(w, false)])
    case CallStep(call, outcome) => CallOn(s, call, outcome)
    case ReleaseStep(call) =>
      var r := Release(s.pool, cfg, s.calls[call].worker);
      s.(pool := r.pool, calls := s.calls - {call}, alive := Kill(s.alive, r.killed))
    case ResetStep => s.(pool := Reset(s.pool), doomed := s.doomed + Members(s.pool.workers))
    case ShutdownStep(w) =>
      s.(pool := TakeProc(s.pool, w), doomed := s.doomed - {w}, alive := Kill(s.alive, s.pool.info[w].proc))
    case ExitStep(pid) => s.(alive := s.alive - {pid})
  }

  ghost predicate Runs(s: System, cfg: Config, steps: seq<Step>)
    decreases steps
  {
    steps != [] ==> Enabled(s, steps[0]) && Runs(Apply(s, cfg, steps[0]), cfg, steps[1..])
  }

  ghost function After(s: System, cfg: Config, steps: seq<Step>): System
    requires Runs(s, cfg, steps)
    decreases steps
  {
    if steps == [] then s else After(Apply(s, cfg, steps[0]), cfg, steps[1..])
  }

  // ---------------------------------------------------------------- what every step keeps

  function Max(a: nat, b: nat): nat {
    if a < b then b else a
  }

  /** Calls hold different workers, and a worker is in use exactly while some call holds it. */
  ghost predicate Exclusive(s: System) {
    && (forall c <- s.calls :: s.calls[c].worker in s.pool.info && s.pool.info[s.calls[c].worker].inUse)
    && (forall c <- s.calls, d <- s.calls :: s.calls[c].worker == s.calls[d].worker ==> c == d)
    && (forall w <- s.pool.info :: s.pool.info[w].inUse ==> exists c <- s.calls :: s.calls[c].worker == w)
  }

  /** Each worker has its own process. */
  ghost predicate Apart(s: System) {
    && (forall w <- s.pool.info :: s.pool.info[w].proc.Some? ==> s.pool.info[w].proc.value < s.pids)
    && (forall v <- s.pool.info, w <- s.pool.info ::
          s.pool.info[v].proc.Some? && s.pool.info[v].proc == s.pool.info[w].proc ==> v == w)
    && (forall pid <- s.served :: pid < s.pids)
    && (forall pid <- s.alive :: pid < s.pids)
  }

  /** A worker counts every call its process has served, and room is left for the call of a fresh lease. */
  ghost predicate Counted(s: System, cfg: Config) {
    && (forall w <- s.pool.info :: ServedBy(s.served, s.pool.info[w].proc) <= s.pool.info[w].evals <= Max(1, cfg.recycleAfter))
    && (forall w <- s.pool.info :: !s.pool.info[w].inUse ==> s.pool.info[w].evals < Max(1, cfg.recycleAfter))
    && (forall c <- s.calls :: s.calls[c].worker in s.pool.info && !s.calls[c].called ==>
          s.pool.info[s.calls[c].worker].evals < Max(1, cfg.recycleAfter))
    && (forall pid <- s.served :: s.served[pid] <= Max(1, cfg.recycleAfter))
  }

  predicate IdleAndLive(info: Info, alive: set<nat>) {
    !info.inUse && info.proc.Some? && info.proc.value in alive
  }

  /** The listed workers among `workers` that idle on a running process. */
  ghost function LiveIdle(s: System, workers: seq<nat>): set<nat> {
    set w <- workers | w in s.pool.info && IdleAndLive(s.pool.info[w], s.alive)
  }

  /** Beyond the first worker of the list, no more than `max_idle` idle on a running process. */
  ghost predicate Folded(s: System, cfg: Config) {
    s.pool.workers != [] ==> |LiveIdle(s, s.pool.workers[1..])| <= cfg.maxIdle
  }

  ghost predicate Good(s: System, cfg: Config) {
    && Listed(s.pool)
    && Exclusive(s)
    && Apart(s)
    && Counted(s, cfg)
    && Folded(s, cfg)
  }

  // -- the list

  lemma DistinctCons<W>(x: W, xs: seq<W>)
    ensures Distinct([x] + xs) <==> Distinct(xs) && x !in xs
  {
    if Distinct([x] + xs) {
      forall i, j | 0 <= i < j < |xs| ensures xs[i] != xs[j] {
        assert ([x] + xs)[i + 1] == xs[i] && ([x] + xs)[j + 1] == xs[j];
      }
      forall i | 0 <= i < |xs| ensures xs[i] != x {
        assert ([x] + xs)[0] == x && ([x] + xs)[i + 1] == xs[i];
      }
    }
  }

  lemma {:induction false} RemoveKeeps<W>(workers: seq<W>, w: W)
    requires w in workers && Distinct(workers)
    ensures Distinct(Remove(workers, w)) && forall x <- Remove(workers, w) :: x in workers && x != w
    ensures workers[0] != w ==> Remove(workers, w)[0] == workers[0] && forall x <- Remove(workers, w)[1..] :: x in workers[1..]
  {
    var first, rest := workers[0], workers[1..];
    assert workers == [first] + rest;
    DistinctCons(first, rest);
    if first != w {
      RemoveKeeps(rest, w);
      DistinctCons(first, Remove(rest, w));
      assert Remove(workers, w)[1..] == Remove(rest, w);
    }
  }

  lemma StepListed(s: System, cfg: Config, step: Step)
    requires Listed(s.pool) && Enabled(s, step)
    ensures Listed(Apply(s, cfg, step).pool)
  {
    match step
    case ReleaseStep(call) =>
      var w := s.calls[call].worker;
      if w in s.pool.workers {
        RemoveKeeps(s.pool.workers, w);
      }
    case _ =>
  }

  // -- one call, one worker

  lemma AcquireFree(p: Pool<nat>, spawn: nat)
    requires (forall w <- p.workers :: w in p.info) && spawn !in p.info
    ensures var (q, w) := Acquire(p, spawn);
      && w in q.info && q.info[w].inUse
      && (w in p.info ==> !p.info[w].inUse && q.info[w] == p.info[w].(inUse := true))
      && (w !in p.info ==> q.info[w] == Info(true, 0, None))
      && (forall v <- q.info :: v != w ==> v in p.info && q.info[v] == p.info[v])
      && (forall v <- p.info :: v in q.info)
  {
  }

  lemma AcquireExclusive(s: System, cfg: Config, call: nat, spawn: nat)
    requires Exclusive(s) && Enabled(s, AcquireStep(call, spawn))
    ensures Exclusive(Apply(s, cfg, AcquireStep(call, spawn)))
  {
    AcquireFree(s.pool, spawn);
    var (pool, w) := Acquire(s.pool, spawn);
    hide Acquire;
    var t := Apply(s, cfg, AcquireStep(call, spawn));
    forall v | v in pool.info && pool.info[v].inUse ensures exists c <- t.calls :: t.calls[c].worker == v {
      if v == w {
        assert t.calls[call].worker == v;
      } else {
        var c :| c in s.calls && s.calls[c].worker == v;
        assert t.calls[c].worker == v;
      }
    }
  }

  /** Steps that touch neither the calls nor who is in use. */
  lemma SameUse(s: System, t: System)
    requires Exclusive(s) && s.calls.Keys == t.calls.Keys && s.pool.info.Keys == t.pool.info.Keys
    requires forall c <- s.calls :: s.calls[c].worker == t.calls[c].worker
    requires forall w <- s.pool.info :: s.pool.info[w].inUse == t.pool.info[w].inUse
    ensures Exclusive(t)
  {
    forall w | w in t.pool.info && t.pool.info[w].inUse ensures exists c <- t.calls :: t.calls[c].worker == w {
      var c :| c in s.calls && s.calls[c].worker == w;
      assert t.calls[c].worker == w;
    }
  }

  /** What a release leaves of the workers: only the released one changes, and it is free. */
  lemma ReleaseInfo(p: Pool<nat>, cfg: Config, w: nat)
    requires w in p.info && forall x <- p.workers :: x in p.info
    ensures var r := Release(p, cfg, w);
      && r.pool.info == p.info[w := r.pool.info[w]]
      && !r.pool.info[w].inUse
      && (r.pool.info[w].proc == None || r.pool.info[w].proc == p.info[w].proc)
      && (r.killed == None || r.killed == p.info[w].proc)
      && (r.pool.info[w].evals == if p.info[w].evals >= cfg.recycleAfter then 0 else p.info[w].evals)
      && (p.info[w].evals >= cfg.recycleAfter ==> r.pool.info[w].proc == None)
  {
  }

  lemma ReleaseExclusive(s: System, cfg: Config, call: nat)
    requires Exclusive(s) && Enabled(s, ReleaseStep(call))
    ensures Exclusive(Apply(s, cfg, ReleaseStep(call)))
  {
    var w := s.calls[call].worker;
    ReleaseInfo(s.pool, cfg, w);
    hide Release;
    var t := Apply(s, cfg, ReleaseStep(call));
    forall v | v in t.pool.info && t.pool.info[v].inUse ensures exists c <- t.calls :: t.calls[c].worker == v {
      var c :| c in s.calls && s.calls[c].worker == v;
      assert t.calls[c].worker == v;
    }
  }

  lemma StepExclusive(s: System, cfg: Config, step: Step)
    requires Exclusive(s) && Enabled(s, step)
    ensures Exclusive(Apply(s, cfg, step))
  {
    hide Exclusive;
    match step
    case AcquireStep(call, spawn) => AcquireExclusive(s, cfg, call, spawn);
    case ReleaseStep(call) => ReleaseExclusive(s, cfg, call);
    case _ => OtherExclusive(s, cfg, step);
  }

  lemma OtherExclusive(s: System, cfg: Config, step: Step)
    requires Exclusive(s) && Enabled(s, step) && !step.AcquireStep? && !step.ReleaseStep?
    ensures Exclusive(Apply(s, cfg, step))
  {
    SameUse(s, Apply(s, cfg, step));
  }

  // -- how many calls a process serves

  /** A step that changes one worker keeps the rest apart. */
  lemma OneApart(s: System, t: System, w: nat)
    requires Apart(s) && w in t.pool.info && s.pids <= t.pids
    requires forall v <- t.pool.info :: v != w ==> v in s.pool.info && t.pool.info[v] == s.pool.info[v]
    requires t.pool.info[w].proc.Some? ==>
      (w in s.pool.info && t.pool.info[w].proc == s.pool.info[w].proc) || s.pids <= t.pool.info[w].proc.value < t.pids
    requires forall pid <- t.served :: pid in s.served || pid < t.pids
    requires forall pid <- t.alive :: pid in s.alive || pid < t.pids
    ensures Apart(t)
  {
  }

  lemma StepApart(s: System, cfg: Config, step: Step)
    requires Apart(s) && Enabled(s, step)
    ensures Apart(Apply(s, cfg, step))
  {
    var t := Apply(s, cfg, step);
    match step
    case AcquireStep(call, spawn) =>
      AcquireFree(s.pool, spawn);
      OneApart(s, t, Acquire(s.pool, spawn).1);
    case CallStep(call, outcome) =>
      OneApart(s, t, s.calls[call].worker);
    case ReleaseStep(call) =>
      ReleaseInfo(s.pool, cfg, s.calls[call].worker);
      OneApart(s, t, s.calls[call].worker);
    case ShutdownStep(w) =>
      OneApart(s, t, w);
    case _ =>
  }

  lemma AcquireCounted(s: System, cfg: Config, call: nat, spawn: nat)
    requires Counted(s, cfg) && Enabled(s, AcquireStep(call, spawn))
    ensures Counted(Apply(s, cfg, AcquireStep(call, spawn)), cfg)
  {
    AcquireFree(s.pool, spawn);
    hide Acquire;
  }

  /** The call's process is its worker's alone, so its tally moves with the worker's counter. */
  lemma CallTallies(s: System, cfg: Config, call: nat, outcome: Outcome)
    requires Apart(s) && Counted(s, cfg) && Enabled(s, CallStep(call, outcome))
    requires s.pool.info[s.calls[call].worker].evals < Max(1, cfg.recycleAfter)
    ensures var t := CallOn(s, call, outcome);
      && (forall w <- t.pool.info :: ServedBy(t.served, t.pool.info[w].proc) <= t.pool.info[w].evals <= Max(1, cfg.recycleAfter))
      && (forall pid <- t.served :: t.served[pid] <= Max(1, cfg.recycleAfter))
  {
    var t := CallOn(s, call, outcome);
    var w := s.calls[call].worker;
    var pid := ProcessOf(s, w);
    assert s.pool.info[w].proc == Some(pid) || pid == s.pids;
    assert ServedBy(s.served, Some(pid)) <= s.pool.info[w].evals;
    forall v | v in t.pool.info
      ensures ServedBy(t.served, t.pool.info[v].proc) <= t.pool.info[v].evals <= Max(1, cfg.recycleAfter)
    {
      if v != w {
        assert s.pool.info[v].proc != Some(pid);
      }
    }
  }

  lemma CallCounted(s: System, cfg: Config, call: nat, outcome: Outcome)
    requires Exclusive(s) && Apart(s) && Counted(s, cfg) && Enabled(s, CallStep(call, outcome))
    ensures Counted(CallOn(s, call, outcome), cfg)
  {
    var w := s.calls[call].worker;
    CallTallies(s, cfg, call, outcome);
    hide ServedBy, Max, Apart;
    assert forall c <- s.calls :: c != call ==> s.calls[c].worker != w;
  }

  lemma ReleaseCounted(s: System, cfg: Config, call: nat)
    requires Exclusive(s) && Counted(s, cfg) && Enabled(s, ReleaseStep(call))
    ensures Counted(Apply(s, cfg, ReleaseStep(call)), cfg)
  {
    ReleaseInfo(s.pool, cfg, s.calls[call].worker);
    hide Release;
  }

  lemma StepCounted(s: System, cfg: Config, step: Step)
    requires Exclusive(s) && Apart(s) && Counted(s, cfg) && Enabled(s, step)
    ensures Counted(Apply(s, cfg, step), cfg)
  {
    match step
    case AcquireStep(call, spawn) =>
      hide Counted;
      AcquireCounted(s, cfg, call, spawn);
    case CallStep(call, outcome) =>
      hide Counted;
      CallCounted(s, cfg, call, outcome);
    case ReleaseStep(call) =>
      hide Counted;
      ReleaseCounted(s, cfg, call);
    case _ =>
      OtherCounted(s, cfg, step);
      hide Counted, Apply;
  }

  lemma OtherCounted(s: System, cfg: Config, step: Step)
    requires Counted(s, cfg) && Enabled(s, step) && (step.ResetStep? || step.ShutdownStep? || step.ExitStep?)
    ensures Counted(Apply(s, cfg, step), cfg)
  {
  }

  // -- how many idle workers keep a process

  function Members(xs: seq<nat>): set<nat> {
    set x <- xs
  }

  lemma {:induction false} SetOfSeq(xs: seq<nat>)
    ensures |Members(xs)| <= |xs|
  {
    if xs != [] {
      SetOfSeq(xs[1..]);
      assert xs == [xs[0]] + xs[1..];
      assert Members(xs) == {xs[0]} + Members(xs[1..]);
    }
  }

  lemma Fewer(a: set<nat>, b: set<nat>)
    requires a <= b
    ensures |a| <= |b|
  {
    if a != {} {
      var x :| x in a;
      Fewer(a - {x}, b - {x});
    }
  }

  /** No more idle workers keep a process when the list loses members and no listed idle worker gains one. */
  lemma StillFolded(s: System, t: System, cfg: Config)
    requires Folded(s, cfg)
    requires t.pool.workers != [] ==> s.pool.workers != []
    requires t.pool.workers != [] ==> LiveIdle(t, t.pool.workers[1..]) <= LiveIdle(s, s.pool.workers[1..])
    ensures Folded(t, cfg)
  {
    if t.pool.workers != [] {
      Fewer(LiveIdle(t, t.pool.workers[1..]), LiveIdle(s, s.pool.workers[1..]));
    }
  }

  lemma AcquireFolded(s: System, cfg: Config, call: nat, spawn: nat)
    requires Good(s, cfg) && Enabled(s, AcquireStep(call, spawn))
    ensures Folded(Apply(s, cfg, AcquireStep(call, spawn)), cfg)
  {
    var t := Apply(s, cfg, AcquireStep(call, spawn));
    if s.pool.workers == [] {
      assert t.pool.workers[1..] == [];
      assert LiveIdle(t, []) == {};
    } else {
      assert t.pool.workers[1..] == s.pool.workers[1..] || t.pool.workers[1..] == s.pool.workers[1..] + [spawn];
      StillFolded(s, t, cfg);
    }
  }

  lemma CallFolded(s: System, cfg: Config, call: nat, outcome: Outcome)
    requires Good(s, cfg) && Enabled(s, CallStep(call, outcome))
    ensures Folded(Apply(s, cfg, CallStep(call, outcome)), cfg)
  {
    StillFolded(s, Apply(s, cfg, CallStep(call, outcome)), cfg);
  }

  lemma ReleaseFolded(s: System, cfg: Config, call: nat)
    requires Good(s, cfg) && Enabled(s, ReleaseStep(call))
    ensures Folded(Apply(s, cfg, ReleaseStep(call)), cfg)
  {
    var w := s.calls[call].worker;
    var t := Apply(s, cfg, ReleaseStep(call));
    var freed := s.pool.info[w := s.pool.info[w].(inUse := false)];
    ReleaseInfo(s.pool, cfg, w);
    if s.pool.workers == [] {
    } else if s.pool.info[w].evals >= cfg.recycleAfter || w == s.pool.workers[0] || w !in s.pool.workers {
      StillFolded(s, t, cfg);
    } else if |Idle(s.pool.workers, freed)| > cfg.maxIdle {
      RemoveKeeps(s.pool.workers, w);
      StillFolded(s, t, cfg);
    } else {
      FewIdle(s, cfg, call);
    }
    hide Release, Idle, Remove, Folded;
  }

  /** Nothing is folded when few enough idle, and only idle workers count. */
  lemma FewIdle(s: System, cfg: Config, call: nat)
    requires Enabled(s, ReleaseStep(call)) && s.pool.workers != [] && s.pool.info[s.calls[call].worker].evals < cfg.recycleAfter
    requires var w := s.calls[call].worker;
             |Idle(s.pool.workers, s.pool.info[w := s.pool.info[w].(inUse := false)])| <= cfg.maxIdle
    ensures Folded(Apply(s, cfg, ReleaseStep(call)), cfg)
  {
    var w := s.calls[call].worker;
    var t := Apply(s, cfg, ReleaseStep(call));
    var idle := Idle(s.pool.workers, s.pool.info[w := s.pool.info[w].(inUse := false)]);
    SetOfSeq(idle);
    hide Idle;
    Fewer(LiveIdle(t, t.pool.workers[1..]), Members(idle));
  }

  lemma StepFolded(s: System, cfg: Config, step: Step)
    requires Good(s, cfg) && Enabled(s, step)
    ensures Folded(Apply(s, cfg, step), cfg)
  {
    match step
    case AcquireStep(call, spawn) => AcquireFolded(s, cfg, call, spawn);
    case CallStep(call, outcome) => CallFolded(s, cfg, call, outcome);
    case ReleaseStep(call) => ReleaseFolded(s, cfg, call);
    case _ => StillFolded(s, Apply(s, cfg, step), cfg);
  }

  // ---------------------------------------------------------------- over whole runs

  lemma StepGood(s: System, cfg: Config, step: Step)
    requires Good(s, cfg) && Enabled(s, step)
    ensures Good(Apply(s, cfg, step), cfg)
  {
    hide Listed, Exclusive, Apart, Counted, Folded, Apply, Enabled;
    StepListed(s, cfg, step);
    StepExclusive(s, cfg, step);
    StepApart(s, cfg, step);
    StepCounted(s, cfg, step);
    StepFolded(s, cfg, step);
  }

  lemma {:induction false} RunGood(s: System, cfg: Config, steps: seq<Step>)
    requires Good(s, cfg) && Runs(s, cfg, steps)
    ensures Good(After(s, cfg, steps), cfg)
    decreases steps
  {
    if steps != [] {
      StepGood(s, cfg, steps[0]);
      RunGood(Apply(s, cfg, steps[0]), cfg, steps[1..]);
    }
  }

  ghost predicate Reachable(s: System, cfg: Config) {
    exists steps :: Runs(EMPTY, cfg, steps) && After(EMPTY, cfg, steps) == s
  }

  lemma ReachableGood(s: System, cfg: Config)
    requires Reachable(s, cfg)
    ensures Good(s, cfg)
  {
    var steps :| Runs(EMPTY, cfg, steps) && After(EMPTY, cfg, steps) == s;
    RunGood(EMPTY, cfg, steps);
  }

  /** No worker ever serves two calls at once. */
  lemma NeverShared(s: System, cfg: Config, c: nat, d: nat)
    requires Reachable(s, cfg) && c in s.calls && d in s.calls && c != d
    ensures s.calls[c].worker != s.calls[d].worker
  {
    ReachableGood(s, cfg);
  }

  /** No process serves more than `recycle_after` calls, nor more than one when that is zero. */
  lemma ServedBounded(s: System, cfg: Config, pid: nat)
    requires Reachable(s, cfg) && pid in s.served
    ensures s.served[pid] <= Max(1, cfg.recycleAfter)
  {
    ReachableGood(s, cfg);
  }

  /** At most `max_idle + 1` idle listed workers hold a live process, resets in mid-call included. */
  lemma LiveIdleBounded(s: System, cfg: Config)
    requires Reachable(s, cfg)
    ensures |LiveIdle(s, s.pool.workers)| <= cfg.maxIdle + 1
  {
    ReachableGood(s, cfg);
    if s.pool.workers == [] {
      assert LiveIdle(s, s.pool.workers) == {};
    } else {
      var first, rest := s.pool.workers[0], s.pool.workers[1..];
      assert s.pool.workers == [first] + rest;
      Fewer(LiveIdle(s, s.pool.workers), LiveIdle(s, rest) + {first});
    }
  }

  // ---------------------------------------------------------------- a reset in mid-call

  lemma {:induction false} IdleElsewhere(workers: seq<nat>, info: map<nat, Info>, w: nat)
    requires w in info && w !in workers && forall x <- workers :: x in info
    ensures Idle(workers, info[w := info[w].(inUse := false)]) == Idle(workers, info)
  {
    if workers != [] {
      assert workers[|workers| - 1] in workers;
      IdleElsewhere(workers[..|workers| - 1], info, w);
    }
  }

  /** A release fails exactly when a reset took the worker off the list, it is not due for recycling and the new list idles too much. */
  lemma ReleaseRaisesIff(s: System, cfg: Config, call: nat)
    requires Reachable(s, cfg) && Enabled(s, ReleaseStep(call))
    ensures var w := s.calls[call].worker;
      Release(s.pool, cfg, w).raised <==>
        w !in s.pool.workers && s.pool.info[w].evals < cfg.recycleAfter && |Idle(s.pool.workers, s.pool.info)| > cfg.maxIdle
  {
    var w := s.calls[call].worker;
    if w !in s.pool.workers {
      IdleElsewhere(s.pool.workers, s.pool.info, w);
    }
  }

  /** Every call's worker is still listed. */
  ghost predicate LeasesListed(s: System) {
    forall c <- s.calls :: s.calls[c].worker in s.pool.workers
  }

  lemma {:induction false} RemoveSpares(workers: seq<nat>, w: nat, x: nat)
    requires w in workers && x in workers && x != w
    ensures x in Remove(workers, w)
  {
    assert workers == [workers[0]] + workers[1..];
    if workers[0] != w && workers[0] != x {
      RemoveSpares(workers[1..], w, x);
    }
  }

  lemma ReleaseLeasesListed(s: System, cfg: Config, call: nat)
    requires Good(s, cfg) && LeasesListed(s) && Enabled(s, ReleaseStep(call))
    ensures LeasesListed(Apply(s, cfg, ReleaseStep(call))) && !Release(s.pool, cfg, s.calls[call].worker).raised
  {
    var w := s.calls[call].worker;
    forall c | c in s.calls && c != call ensures s.calls[c].worker in Apply(s, cfg, ReleaseStep(call)).pool.workers {
      RemoveSpares(s.pool.workers, w, s.calls[c].worker);
    }
  }

  lemma AcquireLeasesListed(s: System, cfg: Config, call: nat, spawn: nat)
    requires LeasesListed(s) && Enabled(s, AcquireStep(call, spawn))
    ensures LeasesListed(Apply(s, cfg, AcquireStep(call, spawn)))
  {
  }

  lemma StepLeasesListed(s: System, cfg: Config, step: Step)
    requires Good(s, cfg) && LeasesListed(s) && Enabled(s, step)
    requires step.ResetStep? ==> s.calls == map[]
    ensures LeasesListed(Apply(s, cfg, step))
    ensures step.ReleaseStep? ==> !Release(s.pool, cfg, s.calls[step.call].worker).raised
  {
    hide Good;
    if step.ReleaseStep? {
      ReleaseLeasesListed(s, cfg, step.call);
    } else if step.AcquireStep? {
      AcquireLeasesListed(s, cfg, step.call, step.spawn);
    } else {
      hide Release, Acquire;
    }
  }

  /** Resets in the run find no call in flight. */
  ghost predicate QuietResets(s: System, cfg: Config, steps: seq<Step>)
    requires Runs(s, cfg, steps)
    decreases steps
  {
    steps != [] ==>
      (steps[0].ResetStep? ==> s.calls == map[]) && QuietResets(Apply(s, cfg, steps[0]), cfg, steps[1..])
  }

  lemma {:induction false} RunLeasesListed(s: System, cfg: Config, steps: seq<Step>)
    requires Good(s, cfg) && LeasesListed(s) && Runs(s, cfg, steps) && QuietResets(s, cfg, steps)
    ensures LeasesListed(After(s, cfg, steps))
    decreases steps
  {
    if steps != [] {
      hide LeasesListed, Good;
      StepGood(s, cfg, steps[0]);
      StepLeasesListed(s, cfg, steps[0]);
      RunLeasesListed(Apply(s, cfg, steps[0]), cfg, steps[1..]);
    }
  }

  /** While resets wait for calls to end, no release ever fails. */
  lemma QuietNeverRaises(cfg: Config, steps: seq<Step>, call: nat)
    requires Runs(EMPTY, cfg, steps) && QuietResets(EMPTY, cfg, steps) && Enabled(After(EMPTY, cfg, steps), ReleaseStep(call))
    ensures var s := After(EMPTY, cfg, steps); !Release(s.pool, cfg, s.calls[call].worker).raised
  {
    RunGood(EMPTY, cfg, steps);
    RunLeasesListed(EMPTY, cfg, steps);
    StepLeasesListed(After(EMPTY, cfg, steps), cfg, ReleaseStep(call));
  }

  lemma {:induction false} RunsAppend(s: System, cfg: Config, steps: seq<Step>, step: Step)
    requires Runs(s, cfg, steps) && Enabled(After(s, cfg, steps), step)
    ensures Runs(s, cfg, steps + [step]) && After(s, cfg, steps + [step]) == Apply(After(s, cfg, steps), cfg, step)
    decreases steps
  {
    if steps == [] {
      assert (steps + [step])[1..] == [];
    } else {
      assert (steps + [step])[1..] == steps[1..] + [step];
      RunsAppend(Apply(s, cfg, steps[0]), cfg, steps[1..], step);
    }
  }

  lemma ReachableStep(s: System, cfg: Config, step: Step)
    requires Reachable(s, cfg) && Enabled(s, step)
    ensures Reachable(Apply(s, cfg, step), cfg)
  {
    var steps :| Runs(EMPTY, cfg, steps) && After(EMPTY, cfg, steps) == s;
    RunsAppend(EMPTY, cfg, steps, step);
  }

  /**
    After a reset took call 0's worker off the list: workers 1 to n are listed, calls 1 to k still hold
    the first k of them, each call made so far having been answered, and the rest idle.
   */
  ghost predicate Stage(s: System, n: nat, k: nat) {
    && k <= n && |s.pool.workers| == n && (forall i :: 0 <= i < n ==> s.pool.workers[i] == i + 1)
    && (forall w :: w in s.pool.info <==> 0 <= w <= n)
    && (forall w :: 1 <= w <= n ==> s.pool.info[w].inUse == (w <= k) && s.pool.info[w].evals == 1)
    && (forall c :: c in s.calls <==> 0 <= c <= k)
    && (forall c :: 1 <= c <= k ==> s.calls[c].worker == c)
    && s.calls[0] == Lease(0, false) && s.pool.info[0].evals == 0
  }

  lemma {:induction false} IdleBehind(workers: seq<nat>, info: map<nat, Info>, k: nat)
    requires k <= |workers| && (forall w <- workers :: w in info)
    requires forall i :: 0 <= i < |workers| ==> info[workers[i]].inUse == (i < k)
    ensures |Idle(workers, info)| == |workers| - k
  {
    if workers != [] {
      var front := workers[..|workers| - 1];
      IdleBehind(front, info, if k < |workers| then k else k - 1);
    }
  }

  lemma StartStage(cfg: Config) returns (s: System)
    ensures Reachable(s, cfg) && Stage(s, 0, 0)
  {
    assert Runs(EMPTY, cfg, []) && After(EMPTY, cfg, []) == EMPTY;
    ReachableStep(EMPTY, cfg, AcquireStep(0, 0));
    s := Apply(EMPTY, cfg, AcquireStep(0, 0));
    ReachableStep(s, cfg, ResetStep);
    s := Apply(s, cfg, ResetStep);
  }

  /** One more call finds every worker busy and gets its own. */
  lemma GrowStage(s: System, cfg: Config, n: nat) returns (t: System)
    requires Reachable(s, cfg) && Stage(s, n, n)
    ensures Reachable(t, cfg) && Stage(t, n + 1, n + 1)
  {
    Grown(s, cfg, n);
    ReachableStep(s, cfg, AcquireStep(n + 1, n + 1));
    t := Apply(s, cfg, AcquireStep(n + 1, n + 1));
    ReachableStep(t, cfg, CallStep(n + 1, Replied));
    t := Apply(t, cfg, CallStep(n + 1, Replied));
    hide Reachable, Stage, Apply, Enabled;
  }

  lemma Grown(s: System, cfg: Config, n: nat)
    requires Stage(s, n, n)
    ensures Enabled(s, AcquireStep(n + 1, n + 1))
    ensures var t := Apply(s, cfg, AcquireStep(n + 1, n + 1));
      Enabled(t, CallStep(n + 1, Replied)) && Stage(Apply(t, cfg, CallStep(n + 1, Replied)), n + 1, n + 1)
  {
    AcquireNew(s.pool, n + 1);
    hide Acquire;
  }

  lemma AcquireNew(p: Pool<nat>, spawn: nat)
    requires (forall w <- p.workers :: w in p.info) && spawn !in p.info
    requires forall i :: 0 <= i < |p.workers| ==> p.info[p.workers[i]].inUse
    ensures Acquire(p, spawn) == (Pool(p.workers + [spawn], p.info[spawn := Info(true, 0, None)]), spawn)
  {
  }

  /** The last busy worker is released: too few idle to fold it, or it is the first of the list. */
  lemma ShrinkStage(s: System, cfg: Config, n: nat, k: nat) returns (t: System)
    requires Reachable(s, cfg) && Stage(s, n, k) && 0 < k && n == cfg.maxIdle + 1 && cfg.recycleAfter >= 2
    ensures Reachable(t, cfg) && Stage(t, n, k - 1)
  {
    Shrunk(s, cfg, n, k);
    ReachableStep(s, cfg, ReleaseStep(k));
    t := Apply(s, cfg, ReleaseStep(k));
    hide Reachable, Stage, Apply, Enabled;
  }

  lemma Shrunk(s: System, cfg: Config, n: nat, k: nat)
    requires Stage(s, n, k) && 0 < k && n == cfg.maxIdle + 1 && cfg.recycleAfter >= 2
    ensures Enabled(s, ReleaseStep(k)) && Stage(Apply(s, cfg, ReleaseStep(k)), n, k - 1)
  {
    ReleaseKept(s, cfg, n, k);
    hide Release;
  }

  lemma ReleaseKept(s: System, cfg: Config, n: nat, k: nat)
    requires Stage(s, n, k) && 0 < k && n == cfg.maxIdle + 1 && cfg.recycleAfter >= 2
    ensures forall w <- s.pool.workers :: w in s.pool.info
    ensures Release(s.pool, cfg, k) == Released(s.pool.(info := s.pool.info[k := s.pool.info[k].(inUse := false)]), None, false)
  {
    var freed := s.pool.info[k := s.pool.info[k].(inUse := false)];
    assert forall i :: 0 <= i < n ==> freed[s.pool.workers[i]].inUse == (i < k - 1);
    IdleBehind(s.pool.workers, freed, k - 1);
    assert s.pool.workers[0] == 1;
    hide Idle, Remove;
  }

  lemma {:induction false} GrowTo(cfg: Config, n: nat) returns (s: System)
    ensures Reachable(s, cfg) && Stage(s, n, n)
  {
    hide Reachable, Stage;
    if n == 0 {
      s := StartStage(cfg);
    } else {
      s := GrowTo(cfg, n - 1);
      s := GrowStage(s, cfg, n - 1);
    }
  }

  lemma {:induction false} ShrinkTo(s: System, cfg: Config, n: nat, k: nat) returns (t: System)
    requires Reachable(s, cfg) && Stage(s, n, k) && n == cfg.maxIdle + 1 && cfg.recycleAfter >= 2
    ensures Reachable(t, cfg) && Stage(t, n, 0)
    decreases k
  {
    hide Reachable;
    if k == 0 {
      t := s;
    } else {
      t := ShrinkStage(s, cfg, n, k);
      t := ShrinkTo(t, cfg, n, k - 1);
    }
  }

  lemma LastRelease(s: System, cfg: Config)
    requires Stage(s, cfg.maxIdle + 1, 0) && cfg.recycleAfter >= 2
    ensures Enabled(s, CallStep(0, Replied))
    ensures var t := Apply(s, cfg, CallStep(0, Replied));
      Enabled(t, ReleaseStep(0)) && t.calls[0] == Lease(0, true) && Release(t.pool, cfg, 0).raised
  {
    var t := Apply(s, cfg, CallStep(0, Replied));
    IdleBehind(t.pool.workers, t.pool.info, 0);
    IdleElsewhere(t.pool.workers, t.pool.info, 0);
    assert t.pool.workers[0] == 1;
    hide Idle, Remove;
  }

  /**
    A reset in mid-call can make the release of that call fail, whatever the pool's bounds: enough later
    calls leave more idle workers on the list than it keeps, the first of them among them.
   */
  lemma ResetMidCallRaises(cfg: Config) returns (s: System)
    requires cfg.recycleAfter >= 2
    ensures Reachable(s, cfg) && Enabled(s, ReleaseStep(0)) && s.calls[0].called
    ensures Release(s.pool, cfg, s.calls[0].worker).raised
  {
    hide Reachable, Stage, Apply, Release;
    s := GrowTo(cfg, cfg.maxIdle + 1);
    s := ShrinkTo(s, cfg, cfg.maxIdle + 1, cfg.maxIdle + 1);
    LastRelease(s, cfg);
    ReachableStep(s, cfg, CallStep(0, Replied));
    s := Apply(s, cfg, CallStep(0, Replied));
  }
}
