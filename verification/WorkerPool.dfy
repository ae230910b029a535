/** The Lambda worker pool as it runs: worker objects shared between the pool and their lease holders. */
module WorkerPool {
  import opened Results
  import opened LeasePool

  class Worker {
    var inUse: bool
    var lastUsed: int
    /** Whether this worker serves a published SnapStart version. */
    const published: bool

    constructor (published: bool)
      ensures !inUse && this.published == published
    {
      inUse, lastUsed := false, 0;
      this.published := published;
    }
  }

  function StaleSet(ws: set<Worker>, now: int, ttl: int): set<Worker>
    reads ws
  {
    set w <- ws | now - w.lastUsed >= ttl
  }

  function PublishedSet(ws: set<Worker>): set<Worker> {
    set w <- ws | w.published
  }

  lemma MembersUpdate(entries: map<string, seq<Worker>>, key: string, es: seq<Worker>)
    requires forall w <- (if key in entries then entries[key] else []) :: w in es
    ensures Members(entries[key := es]) == Members(entries) + set w <- es :: w
  {
    var after := entries[key := es];
    forall w | w in Members(entries) ensures w in Members(after) {
      var k :| k in entries && w in entries[k];
      assert k in after && w in after[k];
    }
    forall w | w in es ensures w in Members(after) {
      assert key in after && w in after[key];
    }
  }

  lemma {:induction false} KeptAtIndex(es: seq<Worker>, busy: set<Worker>, stale: set<Worker>, published: set<Worker>, i: nat)
    requires i < |es| && Keeps(es[i], i, busy, stale, published)
    ensures es[i] in Kept(es, busy, stale, published)
  {
    if i < |es| - 1 {
      KeptAtIndex(es[..|es| - 1], busy, stale, published, i);
    }
  }

  /** Idle past the TTL, and neither first of its key nor kept warm for being so. */
  predicate Spent(worker: Worker, i: nat, ttl: int, now: int)
    reads worker
  {
    !worker.inUse && now - worker.lastUsed >= ttl && (i > 0 || worker.published)
  }

  /** Some key lists the worker at a place where it is spent. */
  ghost predicate SpentIn(entries: map<string, seq<Worker>>, worker: Worker, ttl: int, now: int)
    reads worker
  {
    exists k, i: nat :: k in entries && i < |entries[k]| && entries[k][i] == worker && Spent(worker, i, ttl, now)
  }

  class WarmPool {
    var workers: map<string, seq<Worker>>

    ghost function View(): LeasePool.Pool<Worker>
      reads this, Members(workers)
    {
      LeasePool.Pool(workers, set w <- Members(workers) | w.inUse)
    }

    constructor ()
      ensures View() == LeasePool.Pool(map[], {})
    {
      workers := map[];
    }

    method FindFree(es: seq<Worker>) returns (r: Option<nat>)
      requires forall w <- es :: w in Members(workers)
      ensures r == FirstFree(es, View().busy)
    {
      var i := 0;
      while i < |es|
        invariant 0 <= i <= |es|
        invariant forall j :: 0 <= j < i ==> es[j].inUse
      {
        if !es[i].inUse {
          FirstFreeAt(es, View().busy, i);
          return Some(i);
        }
        i := i + 1;
      }
      return None;
    }

    /** `spawn` is the worker created, when one is. */
    method AcquireWorker(key: string, cap: nat, now: int, published: bool) returns (r: Lease<Worker>, ghost spawn: Worker)
      modifies this, Members(workers)
      ensures (View(), r) == Acquire(old(View()), key, cap, spawn)
      ensures r.Spawned? ==> fresh(spawn) && spawn.published == published
      ensures !r.FuncCap? ==> r.worker.inUse && r.worker.lastUsed == now
    {
      hide Acquire, FirstFree;
      ghost var p := View();
      var es := SetDefault(key);
      var free := FindFree(es);
      if free.Some? {
        var worker := es[free.value];
        Take(worker, now);
        AcquireCases(p, key, cap, worker);
        return Reused(worker), worker;
      }
      if cap > 0 && |es| >= cap {
        AcquireCases(p, key, cap, es[0]);
        return FuncCap, es[0];
      }
      var worker := new Worker(published);
      Add(key, worker);
      Take(worker, now);
      AcquireCases(p, key, cap, worker);
      assert p.entries[key := es][key := es + [worker]] == p.entries[key := es + [worker]];
      return Spawned(worker), worker;
    }

    /** `_workers.setdefault(key, [])`. */
    method SetDefault(key: string) returns (es: seq<Worker>)
      modifies this
      ensures es == Entries(old(View()), key)
      ensures workers == old(workers)[key := es] && View() == old(View()).(entries := workers)
      ensures forall w <- es :: w in Members(workers) && w in old(Members(workers))
    {
      es := if key in workers then workers[key] else [];
      MembersUpdate(workers, key, es);
      workers := workers[key := es];
    }

    method Take(worker: Worker, now: int)
      requires worker in Members(workers)
      modifies worker
      ensures worker.inUse && worker.lastUsed == now
      ensures View() == old(View()).(busy := old(View()).busy + {worker})
    {
      worker.inUse := true;
      worker.lastUsed := now;
    }

    method Add(key: string, worker: Worker)
      requires key in workers && !worker.inUse
      modifies this
      ensures worker in Members(workers)
      ensures workers == old(workers)[key := old(workers)[key] + [worker]]
      ensures View() == LeasePool.Pool(workers, old(View()).busy)
    {
      MembersUpdate(workers, key, workers[key] + [worker]);
      workers := workers[key := workers[key] + [worker]];
      assert key in workers && worker in workers[key];
    }

    method ReleaseWorker(worker: Worker?)
      modifies worker
      ensures worker != null ==> !worker.inUse && View() == Release(old(View()), worker)
      ensures worker == null ==> View() == old(View())
    {
      if worker == null {
        return;
      }
      worker.inUse := false;
    }

    /** One key of the reaper's loop. */
    method ReapKey(es: seq<Worker>, ttl: int, now: int) returns (keep: seq<Worker>, killed: seq<Worker>)
      requires forall w <- es :: w in Members(workers)
      ensures keep == Kept(es, View().busy, StaleSet(Members(workers), now, ttl), PublishedSet(Members(workers)))
      ensures forall i: nat :: i < |es| && Spent(es[i], i, ttl, now) ==> es[i] in killed
      ensures forall w <- killed :: exists i: nat :: i < |es| && es[i] == w && Spent(w, i, ttl, now)
    {
      keep, killed := [], [];
      ghost var busy, stale, published := View().busy, StaleSet(Members(workers), now, ttl), PublishedSet(Members(workers));
      var i := 0;
      assert es[..0] == [];
      while i < |es|
        invariant 0 <= i <= |es|
        invariant keep == Kept(es[..i], busy, stale, published)
        invariant forall j: nat :: j < i && Spent(es[j], j, ttl, now) ==> es[j] in killed
        invariant forall w <- killed :: exists j: nat :: j < i && es[j] == w && Spent(w, j, ttl, now)
      {
        assert es[..i + 1][..i] == es[..i];
        var worker := es[i];
        assert worker in Members(workers);
        if worker.inUse || now - worker.lastUsed < ttl || (i == 0 && !worker.published) {
          keep := keep + [worker];
        } else {
          killed := killed + [worker];
        }
        i := i + 1;
      }
      assert es[..i] == es;
    }

    /** Drops workers idle past the TTL, key by key, and returns them for killing. */
    method ReapIdle(ttl: int, now: int) returns (killed: seq<Worker>)
      modifies this
      ensures View() == Reap(old(View()), StaleSet(old(Members(workers)), now, ttl), PublishedSet(old(Members(workers))))
      ensures forall w :: w in killed <==> SpentIn(old(workers), w, ttl, now)
      ensures EachOnce(old(workers)) ==> forall w :: w in killed <==> w in old(Members(workers)) && w !in Members(workers)
    {
      hide Kept, Keeps, EachOnce, Reap, ReapedSoFar, KilledSoFar, SpentIn;
      killed := [];
      ghost var p := View();
      ghost var stale, published := StaleSet(Members(workers), now, ttl), PublishedSet(Members(workers));
      var todo := workers.Keys;
      var kept: map<string, seq<Worker>> := map[];
      NoneReaped(p, stale, published, ttl, now);
      while todo != {}
        invariant todo <= workers.Keys && unchanged(this)
        invariant ReapedSoFar(p, stale, published, todo, kept)
        invariant KilledSoFar(workers, todo, killed, ttl, now)
        decreases |todo|
      {
        var key :| key in todo;
        var keep, dropped := ReapKey(workers[key], ttl, now);
        MoreKilled(workers, todo, killed, key, dropped, ttl, now);
        MoreReaped(p, stale, published, todo, kept, key, keep);
        killed := killed + dropped;
        if keep != [] {
          kept := kept[key := keep];
        }
        todo := todo - {key};
      }
      AllKilled(workers, killed, ttl, now);
      ReapKeepsBusy(p, stale, published);
      if EachOnce(workers) {
        AllLeave(p, stale, published, ttl, now);
      }
      AllReaped(p, stale, published, kept);
      workers := kept;
    }

    method InvalidateWorker(func: string, qualifier: Option<string>, account: Option<string>, region: Option<string>)
      returns (doomed: set<Worker>)
      modifies this
      ensures var keys := set k <- old(workers).Keys | Matches(k, func, qualifier, account, region);
              && View() == Drop(old(View()), keys)
              && doomed == Members(map k <- keys :: old(workers)[k])
    {
      var keys := set k <- workers.Keys | Matches(k, func, qualifier, account, region);
      doomed := Members(map k <- keys :: workers[k]);
      workers := workers - keys;
    }

    method Reset() returns (doomed: set<Worker>)
      modifies this
      ensures View() == LeasePool.Pool(map[], {}) && doomed == old(Members(workers))
    {
      doomed := Members(workers);
      workers := map[];
    }
  }

  lemma AcquireCases(p: LeasePool.Pool<Worker>, key: string, cap: nat, spawn: Worker)
    ensures Acquire(p, key, cap, spawn)
         == match FirstFree(Entries(p, key), p.busy)
            case Some(i) =>
              (LeasePool.Pool(p.entries[key := Entries(p, key)], p.busy + {Entries(p, key)[i]}), Reused(Entries(p, key)[i]))
            case None =>
              if cap > 0 && |Entries(p, key)| >= cap then (LeasePool.Pool(p.entries[key := Entries(p, key)], p.busy), FuncCap)
              else (LeasePool.Pool(p.entries[key := Entries(p, key) + [spawn]], p.busy + {spawn}), Spawned(spawn))
  {
  }

  /** The reaper's result for the keys it has left behind. */
  ghost predicate ReapedSoFar(p: LeasePool.Pool<Worker>, stale: set<Worker>, published: set<Worker>,
                              todo: set<string>, kept: map<string, seq<Worker>>) {
    && (forall k <- kept :: k in p.entries && k !in todo)
    && (forall k <- p.entries :: k !in todo ==>
          var keep := Kept(p.entries[k], p.busy, stale, published);
          if keep == [] then k !in kept else k in kept && kept[k] == keep)
  }

  /** A pool that lists no worker twice, under one key or under two. */
  ghost predicate EachOnce(entries: map<string, seq<Worker>>) {
    && (forall k <- entries :: NoRepeats(entries[k]))
    && (forall k <- entries, l <- entries :: k != l ==> forall w <- entries[k] :: w !in entries[l])
  }

  /** Where every worker is listed once, the spent ones are those that leave. */
  lemma LeavesIff(p: LeasePool.Pool<Worker>, stale: set<Worker>, published: set<Worker>, ttl: int, now: int, w: Worker)
    requires EachOnce(p.entries) && w in Members(p.entries)
    requires (w in p.busy <==> w.inUse) && (w in stale <==> now - w.lastUsed >= ttl) && (w in published <==> w.published)
    ensures w !in Members(Reap(p, stale, published).entries) <==> SpentIn(p.entries, w, ttl, now)
  {
    hide Kept;
    var k :| k in p.entries && w in p.entries[k];
    var i :| 0 <= i < |p.entries[k]| && p.entries[k][i] == w;
    var kept := Kept(p.entries[k], p.busy, stale, published);
    KeptIff(p.entries[k], p.busy, stale, published, i);
    OnlyPlace(p, w, k, i, ttl, now);
    var after := Reap(p, stale, published).entries;
    if w in kept {
      assert k in after && w in after[k];
    }
    if w in Members(after) {
      var l :| l in after && w in after[l];
      KeptMembers(p.entries[l], p.busy, stale, published);
    }
  }

  lemma OnlyPlace(p: LeasePool.Pool<Worker>, w: Worker, k: string, i: nat, ttl: int, now: int)
    requires EachOnce(p.entries) && k in p.entries && i < |p.entries[k]| && p.entries[k][i] == w
    ensures SpentIn(p.entries, w, ttl, now) <==> Spent(w, i, ttl, now)
  {
    if SpentIn(p.entries, w, ttl, now) {
      var l, j: nat :| l in p.entries && j < |p.entries[l]| && p.entries[l][j] == w && Spent(w, j, ttl, now);
      assert w in p.entries[l] && w in p.entries[k];
    }
  }

  lemma AllLeave(p: LeasePool.Pool<Worker>, stale: set<Worker>, published: set<Worker>, ttl: int, now: int)
    requires EachOnce(p.entries)
    requires forall w <- Members(p.entries) ::
      (w in p.busy <==> w.inUse) && (w in stale <==> now - w.lastUsed >= ttl) && (w in published <==> w.published)
    ensures forall w :: SpentIn(p.entries, w, ttl, now)
                   <==> w in Members(p.entries) && w !in Members(Reap(p, stale, published).entries)
  {
    hide EachOnce, Reap, SpentIn;
    forall w ensures SpentIn(p.entries, w, ttl, now) <==> w in Members(p.entries) && w !in Members(Reap(p, stale, published).entries) {
      SpentIsMember(p.entries, w, ttl, now);
      if w in Members(p.entries) {
        LeavesIff(p, stale, published, ttl, now, w);
      }
    }
  }

  lemma SpentIsMember(entries: map<string, seq<Worker>>, w: Worker, ttl: int, now: int)
    ensures SpentIn(entries, w, ttl, now) ==> w in Members(entries)
  {
    if SpentIn(entries, w, ttl, now) {
      var k, i: nat :| k in entries && i < |entries[k]| && entries[k][i] == w && Spent(w, i, ttl, now);
      assert w in entries[k];
    }
  }

  /** The workers dropped for the keys the reaper has left behind. */
  ghost predicate KilledSoFar(entries: map<string, seq<Worker>>, todo: set<string>, killed: seq<Worker>, ttl: int, now: int)
    reads Members(entries), killed
  {
    && (forall w <- killed :: SpentIn(entries, w, ttl, now))
    && (forall w <- Members(entries), k, i: nat ::
          k in entries && k !in todo && i < |entries[k]| && entries[k][i] == w && Spent(w, i, ttl, now) ==> w in killed)
  }

  lemma NoneReaped(p: LeasePool.Pool<Worker>, stale: set<Worker>, published: set<Worker>, ttl: int, now: int)
    ensures ReapedSoFar(p, stale, published, p.entries.Keys, map[]) && KilledSoFar(p.entries, p.entries.Keys, [], ttl, now)
  {
  }

  lemma MoreKilled(entries: map<string, seq<Worker>>, todo: set<string>, killed: seq<Worker>, key: string, dropped: seq<Worker>, ttl: int, now: int)
    requires key in entries && KilledSoFar(entries, todo, killed, ttl, now)
    requires forall i: nat :: i < |entries[key]| && Spent(entries[key][i], i, ttl, now) ==> entries[key][i] in dropped
    requires forall w <- dropped :: exists i: nat :: i < |entries[key]| && entries[key][i] == w && Spent(w, i, ttl, now)
    ensures KilledSoFar(entries, todo - {key}, killed + dropped, ttl, now)
  {
    forall w | w in dropped ensures SpentIn(entries, w, ttl, now) {
      var i: nat :| i < |entries[key]| && entries[key][i] == w && Spent(w, i, ttl, now);
    }
  }

  lemma MoreReaped(p: LeasePool.Pool<Worker>, stale: set<Worker>, published: set<Worker>, todo: set<string>,
                   kept: map<string, seq<Worker>>, key: string, keep: seq<Worker>)
    requires ReapedSoFar(p, stale, published, todo, kept) && key in todo && key in p.entries
    requires keep == Kept(p.entries[key], p.busy, stale, published)
    ensures ReapedSoFar(p, stale, published, todo - {key}, if keep != [] then kept[key := keep] else kept)
  {
    hide Kept;
  }

  lemma AllKilled(entries: map<string, seq<Worker>>, killed: seq<Worker>, ttl: int, now: int)
    requires KilledSoFar(entries, {}, killed, ttl, now)
    ensures forall w :: w in killed <==> SpentIn(entries, w, ttl, now)
  {
    forall w | SpentIn(entries, w, ttl, now) ensures w in killed {
      SpentIsMember(entries, w, ttl, now);
    }
  }

  lemma AllReaped(p: LeasePool.Pool<Worker>, stale: set<Worker>, published: set<Worker>, kept: map<string, seq<Worker>>)
    requires ReapedSoFar(p, stale, published, {}, kept)
    ensures Reap(p, stale, published) == LeasePool.Pool(kept, p.busy)
  {
    hide Kept;
  }

  /** The reaper leaves every worker in use where it was, so the busy ones of the pool stay the same. */
  lemma ReapKeepsBusy(p: LeasePool.Pool<Worker>, stale: set<Worker>, published: set<Worker>)
    requires p.busy <= Members(p.entries)
    ensures p.busy <= Members(Reap(p, stale, published).entries) <= Members(p.entries)
  {
    var after := Reap(p, stale, published).entries;
    forall w | w in p.busy ensures w in Members(after) {
      var k :| k in p.entries && w in p.entries[k];
      var i :| 0 <= i < |p.entries[k]| && p.entries[k][i] == w;
      KeptAtIndex(p.entries[k], p.busy, stale, published, i);
      assert k in after && w in after[k];
    }
    forall w | w in Members(after) ensures w in Members(p.entries) {
      var k :| k in after && w in after[k];
      KeptMembers(p.entries[k], p.busy, stale, published);
    }
  }

  lemma {:induction false} FirstFreeAt(es: seq<Worker>, busy: set<Worker>, i: nat)
    requires i < |es| && es[i] !in busy && forall j :: 0 <= j < i ==> es[j] in busy
    ensures FirstFree(es, busy) == Some(i)
  {
    if i > 0 {
      FirstFreeAt(es[1..], busy, i - 1);
    }
  }
}
