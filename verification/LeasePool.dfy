/**
  The pool of Lambda execution environments (`ministack/core/lambda_runtime.py`) as values: the
  workers of each function key in order, and which of them are in use.
 */
module LeasePool {
  import opened Results
  import opened PythonText

  datatype Pool<W> = Pool(entries: map<string, seq<W>>, busy: set<W>)

  function Entries<W>(p: Pool<W>, key: string): seq<W> {
    if key in p.entries then p.entries[key] else []
  }

  /** The first worker not in use. */
  function FirstFree<W(==)>(es: seq<W>, busy: set<W>): (r: Option<nat>)
    ensures match r
            case None => forall w <- es :: w in busy
            case Some(i) => i < |es| && es[i] !in busy && forall j :: 0 <= j < i ==> es[j] in busy
  {
    if es == [] then None
    else if es[0] !in busy then Some(0)
    else
      match FirstFree(es[1..], busy)
      case None => None
      case Some(i) => Some(i + 1)
  }

  datatype Lease<W> = Reused(worker: W) | Spawned(worker: W) | FuncCap

  /** `acquire_worker`: `cap` 0 is unbounded, and `spawn` is the worker a spawn would create. */
  function Acquire<W(==)>(p: Pool<W>, key: string, cap: nat, spawn: W): (Pool<W>, Lease<W>) {
    var es := Entries(p, key);
    match FirstFree(es, p.busy)
    case Some(i) => (p.(entries := p.entries[key := es], busy := p.busy + {es[i]}), Reused(es[i]))
    case None =>
      if cap > 0 && |es| >= cap then (p.(entries := p.entries[key := es]), FuncCap)
      else (p.(entries := p.entries[key := es + [spawn]], busy := p.busy + {spawn}), Spawned(spawn))
  }

  function Release<W(==)>(p: Pool<W>, w: W): Pool<W> {
    p.(busy := p.busy - {w})
  }

  /** Whether the reaper keeps the worker at position `i`. */
  predicate Keeps<W(==)>(w: W, i: nat, busy: set<W>, stale: set<W>, published: set<W>) {
    w in busy || w !in stale || (i == 0 && w !in published)
  }

  function Kept<W(==)>(es: seq<W>, busy: set<W>, stale: set<W>, published: set<W>): seq<W> {
    if es == [] then []
    else
      var last := |es| - 1;
      Kept(es[..last], busy, stale, published)
        + (if Keeps(es[last], last, busy, stale, published) then [es[last]] else [])
  }

  /** `reap_idle_workers`: `stale` are the workers idle for at least the TTL, `published` those of SnapStart versions. */
  function Reap<W(==)>(p: Pool<W>, stale: set<W>, published: set<W>): Pool<W> {
    p.(entries := map k | k in p.entries && Kept(p.entries[k], p.busy, stale, published) != []
                    :: Kept(p.entries[k], p.busy, stale, published))
  }

  function Members<W(==)>(entries: map<string, seq<W>>): set<W> {
    set k <- entries.Keys, w <- entries[k] :: w
  }

  /** Dropping keys with all their workers, in use or not. */
  function Drop<W(==)>(p: Pool<W>, keys: set<string>): Pool<W> {
    var entries := p.entries - keys;
    Pool(entries, p.busy * Members(entries))
  }

  // ---------------------------------------------------------------- worker keys

  function WorkerKey(account: string, region: string, func: string, qualifier: string): string {
    account + ":" + region + ":" + func + ":" + qualifier
  }

  predicate Agrees(filter: Option<string>, part: string) {
    filter == None || filter == Some(part)
  }

  /** The key filter of `invalidate_worker`, with its tolerance for three-part keys. */
  predicate Matches(key: string, func: string, qualifier: Option<string>, account: Option<string>, region: Option<string>) {
    var parts := SplitOn(key, ':');
    if |parts| == 4 then
      parts[2] == func && Agrees(account, parts[0]) && Agrees(region, parts[1]) && Agrees(qualifier, parts[3])
    else if |parts| == 3 then
      parts[1] == func && Agrees(account, parts[0]) && Agrees(qualifier, parts[2])
    else false
  }

  /** Invalidation reaches a worker exactly when its key agrees with every filter given. */
  lemma MatchesWorkerKey(a: string, r: string, f: string, q: string, func: string,
                         qualifier: Option<string>, account: Option<string>, region: Option<string>)
    requires ':' !in a && ':' !in r && ':' !in f && ':' !in q
    ensures Matches(WorkerKey(a, r, f, q), func, qualifier, account, region)
       <==> && f == func && (account == None || account == Some(a)) && (region == None || region == Some(r))
            && (qualifier == None || qualifier == Some(q))
  {
    KeyParts(a, r, f, q);
  }

  /** A key of three parts has no region to agree with, and any other number of parts matches nothing. */
  lemma MatchesOtherKeys(a: string, f: string, q: string, key: string, func: string,
                         qualifier: Option<string>, account: Option<string>, region: Option<string>)
    requires ':' !in a && ':' !in f && ':' !in q
    ensures Matches(a + ":" + (f + ":" + q), func, qualifier, account, region)
       <==> f == func && (account == None || account == Some(a)) && (qualifier == None || qualifier == Some(q))
    ensures |SplitOn(key, ':')| !in {3, 4} ==> !Matches(key, func, qualifier, account, region)
  {
    SplitPlain(q, ':');
    SplitFirst(f, q, ':');
    SplitFirst(a, f + [':'] + q, ':');
    hide SplitOn;
  }

  lemma KeyParts(a: string, r: string, f: string, q: string)
    requires ':' !in a && ':' !in r && ':' !in f && ':' !in q
    ensures SplitOn(WorkerKey(a, r, f, q), ':') == [a, r, f, q]
  {
    SplitPlain(q, ':');
    SplitFirst(f, q, ':');
    assert SplitOn(f + [':'] + q, ':') == [f, q];
    SplitFirst(r, f + [':'] + q, ':');
    assert SplitOn(r + [':'] + (f + [':'] + q), ':') == [r, f, q];
    SplitFirst(a, r + [':'] + (f + [':'] + q), ':');
    KeyShape(a, r, f, q);
  }

  lemma KeyShape(a: string, r: string, f: string, q: string)
    ensures WorkerKey(a, r, f, q) == a + [':'] + (r + [':'] + (f + [':'] + q))
  {
  }

  // ---------------------------------------------------------------- runs

  /** Workers are numbered as they are created. */
  type Id = nat

  /** The pool, the leases callers hold, and the greatest number of simultaneous leases per key so far. */
  datatype System = System(pool: Pool<Id>, leases: set<Id>, created: nat, peak: map<string, nat>)

  const START := System(Pool(map[], {}), {}, 0, map[])

  datatype Step =
    | AcquireStep(key: string, cap: nat)
    | ReleaseStep(worker: Id)
    | ReapStep(stale: set<Id>, published: set<Id>)
    | DropStep(keys: set<string>)
    | ResetStep

  /** Callers release only what they hold; nothing else is asked of them. */
  predicate Enabled(s: System, step: Step) {
    step.ReleaseStep? ==> step.worker in s.leases
  }

  function Leased(es: seq<Id>, leases: set<Id>): nat {
    if es == [] then 0 else Leased(es[..|es| - 1], leases) + (if es[|es| - 1] in leases then 1 else 0)
  }

  function Peak(s: System, key: string): nat {
    if key in s.peak then s.peak[key] else 0
  }

  function Max(a: nat, b: nat): nat {
    if a < b then b else a
  }

  function AcquireResult(s: System, key: string, cap: nat): Lease<Id> {
    Acquire(s.pool, key, cap, s.created).1
  }

  function Apply(s: System, step: Step): System {
    match step
    case AcquireStep(key, cap) =>
      var (pool, lease) := Acquire(s.pool, key, cap, s.created);
      var leases := if lease.FuncCap? then s.leases else s.leases + {lease.worker};
      var now := Leased(Entries(pool, key), leases);
      System(pool, leases, if lease.Spawned? then s.created + 1 else s.created, s.peak[key := Max(Peak(s, key), now)])
    case ReleaseStep(w) => s.(pool := Release(s.pool, w), leases := s.leases - {w})
    case ReapStep(stale, published) => s.(pool := Reap(s.pool, stale, published))
    case DropStep(keys) => s.(pool := Drop(s.pool, keys))
    case ResetStep => s.(pool := Pool(map[], {}))
  }

  function Run(steps: seq<Step>): Option<System> {
    if steps == [] then Some(START)
    else
      match Run(steps[..|steps| - 1])
      case None => None
      case Some(s) => if Enabled(s, steps[|steps| - 1]) then Some(Apply(s, steps[|steps| - 1])) else None
  }

  ghost predicate Reachable(s: System) {
    exists steps :: Run(steps) == Some(s)
  }

  ghost predicate NoRepeats<W>(es: seq<W>) {
    forall i, j :: 0 <= i < j < |es| ==> es[i] != es[j]
  }

  /** A pooled worker is marked in use exactly while some caller holds it. */
  ghost predicate Consistent(s: System) {
    && (forall k <- s.pool.entries :: forall w <- s.pool.entries[k] :: w < s.created && (w in s.pool.busy <==> w in s.leases))
    && (forall w <- s.leases :: w < s.created)
    && (forall w <- s.pool.busy :: w in s.leases)
  }

  /** No worker stands twice in the pool. */
  ghost predicate Disjoint(s: System) {
    && (forall k <- s.pool.entries :: NoRepeats(s.pool.entries[k]))
    && (forall k <- s.pool.entries, l <- s.pool.entries :: k != l ==> forall w <- s.pool.entries[k] :: w !in s.pool.entries[l])
  }

  ghost predicate Narrow(s: System) {
    forall k <- s.pool.entries :: |s.pool.entries[k]| <= Peak(s, k)
  }

  ghost predicate Good(s: System) {
    Consistent(s) && Disjoint(s) && Narrow(s)
  }

  // ---------------------------------------------------------------- one acquisition

  /** What acquiring leaves: one key may gain a worker at its end, and one worker becomes busy. */
  lemma AcquireShape(s: System, key: string, cap: nat)
    ensures var (pool, lease) := Acquire(s.pool, key, cap, s.created);
            && Entries(pool, key) == Entries(s.pool, key) + (if lease.Spawned? then [s.created] else [])
            && (forall k :: k != key ==> (k in pool.entries <==> k in s.pool.entries) && Entries(pool, k) == Entries(s.pool, k))
            && key in pool.entries
            && (lease.Reused? ==> lease.worker in Entries(s.pool, key) && lease.worker !in s.pool.busy)
            && (lease.Spawned? ==> lease.worker == s.created && forall w <- Entries(s.pool, key) :: w in s.pool.busy)
            && pool.busy == s.pool.busy + (if lease.FuncCap? then {} else {lease.worker})
    ensures Acquire(s.pool, key, cap, s.created).1.FuncCap?
       <==> cap > 0 && |Entries(s.pool, key)| >= cap && forall w <- Entries(s.pool, key) :: w in s.pool.busy
  {
  }

  /** The worker handed out is in nobody else's hands. */
  lemma AcquiredIsFree(s: System, key: string, cap: nat)
    requires Consistent(s) && !AcquireResult(s, key, cap).FuncCap?
    ensures AcquireResult(s, key, cap).worker !in s.leases
  {
    AcquireShape(s, key, cap);
  }

  // ---------------------------------------------------------------- what every step keeps

  lemma {:induction false} KeptMembers<W>(es: seq<W>, busy: set<W>, stale: set<W>, published: set<W>)
    ensures forall w <- Kept(es, busy, stale, published) :: w in es
    ensures |Kept(es, busy, stale, published)| <= |es|
  {
    if es != [] {
      KeptMembers(es[..|es| - 1], busy, stale, published);
    }
  }

  lemma {:induction false} KeptNoRepeats(es: seq<Id>, busy: set<Id>, stale: set<Id>, published: set<Id>)
    requires NoRepeats(es)
    ensures NoRepeats(Kept(es, busy, stale, published))
  {
    if es != [] {
      var last := |es| - 1;
      var front := Kept(es[..last], busy, stale, published);
      KeptNoRepeats(es[..last], busy, stale, published);
      KeptMembers(es[..last], busy, stale, published);
      forall i | 0 <= i < |front| ensures front[i] != es[last] {
        assert front[i] in front;
        var j :| 0 <= j < last && es[..last][j] == front[i];
      }
    }
  }

  lemma {:induction false} LeasedAll(es: seq<Id>, leases: set<Id>)
    requires forall w <- es :: w in leases
    ensures Leased(es, leases) == |es|
  {
    if es != [] {
      LeasedAll(es[..|es| - 1], leases);
    }
  }

  lemma StepConsistent(s: System, step: Step)
    requires Consistent(s) && Enabled(s, step)
    ensures Consistent(Apply(s, step))
  {
    match step
    case AcquireStep(key, cap) =>
      AcquireConsistent(s, key, cap);
    case ReapStep(stale, published) =>
      forall k | k in s.pool.entries
        ensures forall w <- Kept(s.pool.entries[k], s.pool.busy, stale, published) :: w in s.pool.entries[k]
      {
        KeptMembers(s.pool.entries[k], s.pool.busy, stale, published);
      }
    case _ =>
  }

  /** The worker handed out is marked and held at once; a new one is the last created. */
  lemma AcquireMarks(s: System, key: string, cap: nat)
    ensures var s', lease := Apply(s, AcquireStep(key, cap)), AcquireResult(s, key, cap);
            var given := if lease.FuncCap? then {} else {lease.worker};
            && s'.pool.busy == s.pool.busy + given && s'.leases == s.leases + given
            && s'.created == s.created + (if lease.Spawned? then 1 else 0)
            && (lease.Spawned? ==> lease.worker == s.created)
            && (lease.Reused? ==> lease.worker in Entries(s.pool, key))
  {
    AcquireShape(s, key, cap);
    hide Acquire;
  }

  /** Only the new worker joins a key's entries. */
  lemma AcquireEntries(s: System, key: string, cap: nat, k: string, w: Id)
    requires k in Apply(s, AcquireStep(key, cap)).pool.entries && w in Apply(s, AcquireStep(key, cap)).pool.entries[k]
    ensures || (k in s.pool.entries && w in s.pool.entries[k])
            || (AcquireResult(s, key, cap).Spawned? && w == s.created)
  {
    AcquireShape(s, key, cap);
    hide Acquire;
    assert Apply(s, AcquireStep(key, cap)).pool.entries[k] == Entries(Apply(s, AcquireStep(key, cap)).pool, k);
  }

  lemma AcquireConsistent(s: System, key: string, cap: nat)
    requires Consistent(s)
    ensures Consistent(Apply(s, AcquireStep(key, cap)))
  {
    var s' := Apply(s, AcquireStep(key, cap));
    AcquireMarks(s, key, cap);
    hide Apply, Acquire, AcquireResult;
    forall k, w | k in s'.pool.entries && w in s'.pool.entries[k]
      ensures w < s'.created && (w in s'.pool.busy <==> w in s'.leases)
    {
      AcquireEntries(s, key, cap, k, w);
    }
    var lease := AcquireResult(s, key, cap);
    assert lease.Reused? ==> lease.worker < s.created;
  }

  lemma StepDisjoint(s: System, step: Step)
    requires Consistent(s) && Disjoint(s) && Enabled(s, step)
    ensures Disjoint(Apply(s, step))
  {
    match step
    case AcquireStep(key, cap) =>
      AcquireDisjoint(s, key, cap);
    case ReapStep(stale, published) =>
      forall k | k in s.pool.entries
        ensures NoRepeats(Kept(s.pool.entries[k], s.pool.busy, stale, published))
        ensures forall w <- Kept(s.pool.entries[k], s.pool.busy, stale, published) :: w in s.pool.entries[k]
      {
        KeptMembers(s.pool.entries[k], s.pool.busy, stale, published);
        KeptNoRepeats(s.pool.entries[k], s.pool.busy, stale, published);
      }
    case _ =>
  }

  lemma AcquireDisjoint(s: System, key: string, cap: nat)
    requires Consistent(s) && Disjoint(s)
    ensures Disjoint(Apply(s, AcquireStep(key, cap)))
  {
    var s' := Apply(s, AcquireStep(key, cap));
    forall k | k in s'.pool.entries ensures NoRepeats(s'.pool.entries[k]) {
      AcquireNoRepeats(s, key, cap, k);
    }
    forall k, l, w | k in s'.pool.entries && l in s'.pool.entries && k != l && w in s'.pool.entries[k]
      ensures w !in s'.pool.entries[l]
    {
    }
  }

  lemma AcquireNoRepeats(s: System, key: string, cap: nat, k: string)
    requires Consistent(s) && Disjoint(s) && k in Apply(s, AcquireStep(key, cap)).pool.entries
    ensures NoRepeats(Apply(s, AcquireStep(key, cap)).pool.entries[k])
  {
    AcquireShape(s, key, cap);
    var es := Entries(s.pool, k);
    assert NoRepeats(es) && forall w <- es :: w < s.created;
    assert Apply(s, AcquireStep(key, cap)).pool.entries[k] == Entries(Acquire(s.pool, key, cap, s.created).0, k);
    hide Acquire;
  }

  lemma StepNarrow(s: System, step: Step)
    requires Consistent(s) && Narrow(s) && Enabled(s, step)
    ensures Narrow(Apply(s, step))
  {
    match step
    case AcquireStep(key, cap) =>
      AcquireNarrow(s, key, cap);
    case ReapStep(stale, published) =>
      forall k | k in s.pool.entries
        ensures |Kept(s.pool.entries[k], s.pool.busy, stale, published)| <= |s.pool.entries[k]|
      {
        KeptMembers(s.pool.entries[k], s.pool.busy, stale, published);
      }
    case _ =>
  }

  lemma AcquireNarrow(s: System, key: string, cap: nat)
    requires Consistent(s) && Narrow(s)
    ensures Narrow(Apply(s, AcquireStep(key, cap)))
  {
    AcquireShape(s, key, cap);
    var s' := Apply(s, AcquireStep(key, cap));
    forall k | k in s'.pool.entries ensures |s'.pool.entries[k]| <= Peak(s', k) {
      assert s'.pool.entries[k] == Entries(s'.pool, k);
      if k == key && AcquireResult(s, key, cap).Spawned? {
        LeasedAll(s'.pool.entries[k], s'.leases);
      } else {
        assert k in s.pool.entries ==> |Entries(s.pool, k)| <= Peak(s, k);
      }
    }
  }

  lemma {:induction false} RunGood(steps: seq<Step>)
    requires Run(steps).Some?
    ensures Good(Run(steps).value)
  {
    if steps != [] {
      var before := Run(steps[..|steps| - 1]).value;
      RunGood(steps[..|steps| - 1]);
      StepConsistent(before, steps[|steps| - 1]);
      StepDisjoint(before, steps[|steps| - 1]);
      StepNarrow(before, steps[|steps| - 1]);
    }
  }

  // ---------------------------------------------------------------- main results

  /** Over every run, no worker is leased while another caller holds it. */
  lemma NeverLeasedTwice(s: System, key: string, cap: nat)
    requires Reachable(s) && !AcquireResult(s, key, cap).FuncCap?
    ensures AcquireResult(s, key, cap).worker !in s.leases
  {
    var steps :| Run(steps) == Some(s);
    RunGood(steps);
    AcquiredIsFree(s, key, cap);
  }

  /** Pools are never wider than the most leases their key has seen at once. */
  lemma WidthBelowPeak(s: System, key: string)
    requires Reachable(s)
    ensures |Entries(s.pool, key)| <= Peak(s, key)
  {
    var steps :| Run(steps) == Some(s);
    RunGood(steps);
  }

  /** The system after `k` acquisitions in a row without a release, as nested invocations of one function make. */
  function Nested(s: System, key: string, k: nat): System {
    if k == 0 then s else Apply(Nested(s, key, k - 1), AcquireStep(key, 0))
  }

  /** What those acquisitions return. */
  function NestedLeases(s: System, key: string, k: nat): seq<Lease<Id>> {
    if k == 0 then [] else NestedLeases(s, key, k - 1) + [AcquireResult(Nested(s, key, k - 1), key, 0)]
  }

  /** `k` nested acquisitions without a cap all succeed at once, with `k` different workers. */
  lemma NestedLeasesDistinct(s: System, key: string, k: nat)
    requires Reachable(s)
    ensures var leases := NestedLeases(s, key, k);
            && |leases| == k
            && (forall i :: 0 <= i < k ==> !leases[i].FuncCap? && leases[i].worker !in s.leases)
            && (forall i, j :: 0 <= i < j < k ==> leases[i].worker != leases[j].worker)
  {
    var steps :| Run(steps) == Some(s);
    RunGood(steps);
    NestGranted(s, key, k);
  }

  /** Leases granted one after the other to callers that all keep them. */
  ghost predicate Granted(held: set<Id>, leases: seq<Lease<Id>>, after: set<Id>) {
    && held <= after
    && (forall i :: 0 <= i < |leases| ==> !leases[i].FuncCap? && leases[i].worker !in held && leases[i].worker in after)
    && (forall i, j :: 0 <= i < j < |leases| ==> leases[i].worker != leases[j].worker)
  }

  lemma GrantOne(held: set<Id>, leases: seq<Lease<Id>>, before: set<Id>, lease: Lease<Id>)
    requires Granted(held, leases, before) && !lease.FuncCap? && lease.worker !in before
    ensures Granted(held, leases + [lease], before + {lease.worker})
  {
  }

  lemma {:induction false} NestGranted(s: System, key: string, k: nat)
    requires Consistent(s)
    ensures Consistent(Nested(s, key, k)) && |NestedLeases(s, key, k)| == k
    ensures Granted(s.leases, NestedLeases(s, key, k), Nested(s, key, k).leases)
  {
    if k == 0 {
      hide Consistent;
    } else {
      hide *;
      var before := Nested(s, key, k - 1);
      NestGranted(s, key, k - 1);
      AcquireOne(before, key);
      GrantOne(s.leases, NestedLeases(s, key, k - 1), before.leases, AcquireResult(before, key, 0));
      NestedStep(s, key, k);
    }
  }

  lemma NestedStep(s: System, key: string, k: nat)
    requires k > 0
    ensures Nested(s, key, k) == Apply(Nested(s, key, k - 1), AcquireStep(key, 0))
    ensures NestedLeases(s, key, k) == NestedLeases(s, key, k - 1) + [AcquireResult(Nested(s, key, k - 1), key, 0)]
  {
    hide Apply, AcquireResult;
  }

  lemma AcquireOne(s: System, key: string)
    requires Consistent(s)
    ensures var after, lease := Apply(s, AcquireStep(key, 0)), AcquireResult(s, key, 0);
            && Consistent(after) && !lease.FuncCap?
            && lease.worker !in s.leases && after.leases == s.leases + {lease.worker}
  {
    AcquireShape(s, key, 0);
    AcquiredIsFree(s, key, 0);
    AcquireConsistent(s, key, 0);
  }

  /** The reaper keeps a worker exactly when it is leased, recently used, or the ordinary first of its key. */
  lemma {:induction false} KeptIff<W>(es: seq<W>, busy: set<W>, stale: set<W>, published: set<W>, i: nat)
    requires NoRepeats(es) && i < |es|
    ensures es[i] in Kept(es, busy, stale, published)
       <==> es[i] in busy || es[i] !in stale || (i == 0 && es[i] !in published)
  {
    var last := |es| - 1;
    if i < last {
      KeptIff(es[..last], busy, stale, published, i);
    } else {
      KeptMembers(es[..last], busy, stale, published);
    }
  }

  ghost predicate Ahead(es: seq<Id>, v: Id, w: Id) {
    exists i, j :: 0 <= i < j < |es| && es[i] == v && es[j] == w
  }

  /** The workers kept stand in the order they had. */
  ghost predicate SameOrder(kept: seq<Id>, es: seq<Id>) {
    forall a, b :: 0 <= a < b < |kept| ==> Ahead(es, kept[a], kept[b])
  }

  lemma AheadSnoc(es: seq<Id>, v: Id, w: Id, last: Id)
    ensures Ahead(es, v, w) ==> Ahead(es + [last], v, w)
    ensures v in es ==> Ahead(es + [last], v, last)
  {
    var longer := es + [last];
    if Ahead(es, v, w) {
      var i, j :| 0 <= i < j < |es| && es[i] == v && es[j] == w;
      assert longer[i] == v && longer[j] == w;
    }
    if v in es {
      var i :| 0 <= i < |es| && es[i] == v;
      assert longer[i] == v && longer[|es|] == last;
    }
  }

  lemma {:induction false} KeptInOrder(es: seq<Id>, busy: set<Id>, stale: set<Id>, published: set<Id>)
    ensures SameOrder(Kept(es, busy, stale, published), es)
  {
    hide Keeps, Ahead;
    if es != [] {
      var front, last := es[..|es| - 1], es[|es| - 1];
      var kept := Kept(es, busy, stale, published);
      KeptInOrder(front, busy, stale, published);
      KeptMembers(front, busy, stale, published);
      assert es == front + [last];
      var before := Kept(front, busy, stale, published);
      forall a, b | 0 <= a < b < |kept| ensures Ahead(es, kept[a], kept[b]) {
        assert kept[a] == before[a] && before[a] in before;
        AheadSnoc(front, kept[a], kept[b], last);
      }
    }
  }

  /**
    A worker survives the reaper exactly when it is leased, was used recently, or is its key's first
    and no SnapStart version; those that do keep their order.
   */
  lemma ReapSpares(s: System, stale: set<Id>, published: set<Id>, key: string)
    requires Reachable(s) && key in s.pool.entries
    ensures var before := s.pool.entries[key];
            var after := Entries(Reap(s.pool, stale, published), key);
            && (forall w <- after :: w in before)
            && (forall i :: 0 <= i < |before| ==>
                  (before[i] in after <==> before[i] in s.leases || before[i] !in stale || (i == 0 && before[i] !in published)))
            && SameOrder(after, before)
            && (before != [] && before[0] !in published ==> after != [] && after[0] == before[0])
  {
    var steps :| Run(steps) == Some(s);
    RunGood(steps);
    var before := s.pool.entries[key];
    var kept := Kept(before, s.pool.busy, stale, published);
    assert kept == Entries(Reap(s.pool, stale, published), key);
    KeptMembers(before, s.pool.busy, stale, published);
    KeptInOrder(before, s.pool.busy, stale, published);
    forall i | 0 <= i < |before|
      ensures before[i] in kept <==> before[i] in s.leases || before[i] !in stale || (i == 0 && before[i] !in published)
    {
      KeptIff(before, s.pool.busy, stale, published, i);
    }
    if before != [] && before[0] !in published {
      FirstKept(before, s.pool.busy, stale, published);
    }
  }

  lemma {:induction false} FirstKept(es: seq<Id>, busy: set<Id>, stale: set<Id>, published: set<Id>)
    requires es != [] && es[0] !in published
    ensures Kept(es, busy, stale, published) != [] && Kept(es, busy, stale, published)[0] == es[0]
  {
    if |es| > 1 {
      FirstKept(es[..|es| - 1], busy, stale, published);
    } else {
      assert Kept(es[..0], busy, stale, published) == [];
    }
  }
}
