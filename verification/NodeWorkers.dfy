/** The Node worker pool as it runs: worker objects, leased under the pool's lock. */
module NodeWorkers {
  import opened Results
  import opened NodePool

  class Worker {
    var inUse: bool
    var evals: nat
    var proc: Option<nat>

    constructor ()
      ensures !inUse && evals == 0 && proc == None
    {
      inUse, evals, proc := false, 0, None;
    }

    function View(): Info
      reads this
    {
      Info(inUse, evals, proc)
    }

    method TakeProc() returns (taken: Option<nat>)
      modifies this
      ensures View() == old(View()).(proc := None) && taken == old(proc)
    {
      taken, proc := proc, None;
    }

    /** `call`: `running` says whether the kept process still runs, `started` is the one a spawn would give. */
    method Call(running: bool, started: nat, outcome: Outcome) returns (killed: Option<nat>)
      modifies this
      ensures var pid := if old(proc).Some? && running then old(proc).value else started;
              View() == CallInfo(old(View()), outcome, pid) && killed == (if outcome == TimedOut then Some(pid) else None)
    {
      killed := None;
      evals := evals + 1;
      if outcome == NoNode {
        return;
      }
      if proc.None? || !running {
        proc := Some(started);
      }
      match outcome
      case IoError => proc := None;
      case TimedOut => killed := TakeProc();
      case Closed => proc := None;
      case _ =>
    }
  }

  class NodeWorkerPool {
    const cfg: Config
    var workers: seq<Worker>
    /** Every worker made so far, on the list or not. */
    ghost var known: set<Worker>

    ghost function View(): Pool<Worker>
      reads this, known
    {
      Pool(workers, map w <- known :: w.View())
    }

    ghost predicate Valid()
      reads this
    {
      (forall w <- workers :: w in known) && Distinct(workers)
    }

    constructor (cfg: Config)
      ensures Valid() && this.cfg == cfg && workers == [] && known == {}
    {
      this.cfg := cfg;
      workers, known := [], {};
    }

    /** `_acquire`; `spawn` is the worker made when none is free. */
    method Acquire() returns (worker: Worker, ghost spawn: Worker)
      requires Valid()
      modifies this, known
      ensures Valid() && worker in known && old(known) <= known && fresh(known - old(known))
      ensures (View(), worker) == NodePool.Acquire(old(View()), spawn)
      ensures spawn !in old(known) ==> fresh(spawn)
    {
      hide Distinct;
      ghost var p := View();
      var i := 0;
      while i < |workers|
        invariant 0 <= i <= |workers| && unchanged(this) && unchanged(known)
        invariant forall j :: 0 <= j < i ==> workers[j].inUse
      {
        if !workers[i].inUse {
          worker := workers[i];
          spawn := worker;
          worker.inUse := true;
          assert View().info == p.info[worker := p.info[worker].(inUse := true)];
          return;
        }
        i := i + 1;
      }
      worker := new Worker();
      spawn := worker;
      worker.inUse := true;
      AppendDistinct(workers, worker);
      workers := workers + [worker];
      known := known + {worker};
      assert View().info == p.info[worker := Info(true, 0, None)];
    }

    /** `_release`: what it kills, and whether taking the worker off the list failed. */
    method Release(worker: Worker) returns (killed: Option<nat>, raised: bool)
      requires Valid() && worker in known
      modifies this, worker
      ensures Valid() && known == old(known)
      ensures Released(View(), killed, raised) == NodePool.Release(old(View()), cfg, worker)
    {
      hide Fold;
      ghost var p := View();
      killed, raised := None, false;
      worker.inUse := false;
      if worker.evals >= cfg.recycleAfter {
        worker.evals := 0;
        killed := worker.TakeProc();
        assert View().info == p.info[worker := Info(false, 0, None)];
      } else {
        assert View().info == p.info[worker := p.info[worker].(inUse := false)];
        killed, raised := FoldSurplus(worker);
      }
    }

    method FoldSurplus(worker: Worker) returns (killed: Option<nat>, raised: bool)
      requires Valid() && worker in known
      modifies this, worker
      ensures Valid() && known == old(known)
      ensures Released(View(), killed, raised) == Fold(old(View()), cfg, worker)
    {
      hide Idle, Remove;
      ghost var p := View();
      killed, raised := None, false;
      var idle := IdleWorkers();
      if |idle| > cfg.maxIdle {
        assert idle[0] in workers;
        if worker != workers[0] {
          if worker in workers {
            RemoveKeeps(workers, worker);
            workers := Remove(workers, worker);
            killed := worker.TakeProc();
            assert View().info == p.info[worker := p.info[worker].(proc := None)];
          } else {
            raised := true;
          }
        }
      }
    }

    method IdleWorkers() returns (idle: seq<Worker>)
      requires Valid()
      ensures idle == Idle(workers, View().info)
    {
      hide Distinct;
      idle := [];
      var i := 0;
      while i < |workers|
        invariant 0 <= i <= |workers|
        invariant idle == Idle(workers[..i], View().info)
      {
        assert workers[..i + 1][..i] == workers[..i];
        if !workers[i].inUse {
          idle := idle + [workers[i]];
        }
        i := i + 1;
      }
      assert workers[..i] == workers;
    }

    /** `reset` under its lock; the caller shuts every dropped worker down. */
    method Reset() returns (dropped: seq<Worker>)
      requires Valid()
      modifies this
      ensures Valid() && known == old(known) && dropped == old(workers)
      ensures View() == NodePool.Reset(old(View()))
    {
      dropped, workers := workers, [];
    }
  }

  lemma AppendDistinct(workers: seq<Worker>, w: Worker)
    requires Distinct(workers) && w !in workers
    ensures Distinct(workers + [w])
  {
  }
}
