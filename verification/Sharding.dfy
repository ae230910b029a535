/**
  Static test sharding (`scripts/select_test_shard.py`): files are taken in order of
  decreasing test count and each goes to the currently lightest shard.

  A placement is a sequence `a` parallel to the file sizes `p`: file k sits in shard `a[k]`.
  The main results compare the greedy placement with every rival placement.
 */
module Sharding {
  import opened Arithmetic
  import opened Results

  datatype TestFile = TestFile(name: string, count: nat)

  // ---------------------------------------------------------------- sums and loads

  function Sum(p: seq<nat>): nat {
    if p == [] then 0 else Sum(p[..|p| - 1]) + p[|p| - 1]
  }

  /** The sum of the sizes placed in shard `i`. */
  function Load(p: seq<nat>, a: seq<nat>, i: nat): nat
    requires |p| == |a|
  {
    if p == [] then 0
    else
      var last := |p| - 1;
      Load(p[..last], a[..last], i) + (if a[last] == i then p[last] else 0)
  }

  function Loads(p: seq<nat>, a: seq<nat>, n: nat): (loads: seq<nat>)
    requires |p| == |a|
    ensures |loads| == n && forall i :: 0 <= i < n ==> loads[i] == Load(p, a, i)
  {
    seq(n, i requires 0 <= i < n => Load(p, a, i))
  }

  ghost predicate Placement(a: seq<nat>, n: nat) {
    forall k :: 0 <= k < |a| ==> a[k] < n
  }

  lemma {:induction false} SumUpdate(s: seq<nat>, i: nat, d: nat)
    requires i < |s|
    ensures Sum(s[i := s[i] + d]) == Sum(s) + d
  {
    var t := s[i := s[i] + d];
    var last := |s| - 1;
    if i < last {
      SumUpdate(s[..last], i, d);
      assert t[..last] == s[..last][i := s[..last][i] + d];
    } else {
      assert t[..last] == s[..last];
    }
  }

  lemma {:induction false} SumZeros(s: seq<nat>)
    requires forall i :: 0 <= i < |s| ==> s[i] == 0
    ensures Sum(s) == 0
  {
    if s != [] {
      SumZeros(s[..|s| - 1]);
    }
  }

  /** Placing files neither loses nor duplicates any of their size. */
  lemma {:induction false} LoadsConserve(p: seq<nat>, a: seq<nat>, n: nat)
    requires |p| == |a| && Placement(a, n)
    ensures Sum(Loads(p, a, n)) == Sum(p)
  {
    if p == [] {
      SumZeros(Loads(p, a, n));
    } else {
      var last := |p| - 1;
      var before := Loads(p[..last], a[..last], n);
      LoadsConserve(p[..last], a[..last], n);
      SumUpdate(before, a[last], p[last]);
      assert Loads(p, a, n) == before[a[last] := before[a[last]] + p[last]];
    }
  }

  lemma {:induction false} SumBelow(s: seq<nat>, bound: nat)
    requires forall i :: 0 <= i < |s| ==> s[i] <= bound
    ensures Sum(s) <= |s| * bound
  {
    if s != [] {
      SumBelow(s[..|s| - 1], bound);
      assert |s| * bound == (|s| - 1) * bound + bound;
    }
  }

  lemma {:induction false} SumAbove(s: seq<nat>, bound: nat)
    requires forall i :: 0 <= i < |s| ==> bound <= s[i]
    ensures |s| * bound <= Sum(s)
  {
    if s != [] {
      SumAbove(s[..|s| - 1], bound);
      assert |s| * bound == (|s| - 1) * bound + bound;
    }
  }

  // ---------------------------------------------------------------- the greedy placement

  ghost predicate IsLightest(loads: seq<nat>, i: nat) {
    && i < |loads|
    && (forall j :: 0 <= j < |loads| ==> loads[i] <= loads[j])
    && (forall j :: 0 <= j < i ==> loads[i] < loads[j])
  }

  function Lightest(loads: seq<nat>): (i: nat)
    requires loads != []
    ensures IsLightest(loads, i)
  {
    if |loads| == 1 then 0
    else
      var last := |loads| - 1;
      var i := Lightest(loads[..last]);
      assert forall j :: 0 <= j < last ==> loads[..last][j] == loads[j];
      if loads[last] < loads[i] then last else i
  }

  function Greedy(p: seq<nat>, n: nat): (a: seq<nat>)
    requires n > 0
    ensures |a| == |p| && Placement(a, n)
  {
    if p == [] then []
    else
      var before := p[..|p| - 1];
      var a := Greedy(before, n);
      a + [Lightest(Loads(before, a, n))]
  }

  ghost predicate Decreasing(p: seq<nat>) {
    forall i, j :: 0 <= i < j < |p| ==> p[j] <= p[i]
  }

  /** What one greedy step does: only the lightest shard gains, and it gains the new file. */
  lemma GreedyStep(p: seq<nat>, n: nat, i: nat)
    requires p != [] && i < n
    ensures var last := |p| - 1; var before := p[..last]; var a := Greedy(before, n);
            var loads := Loads(before, a, n); var target := Greedy(p, n)[last];
            && Greedy(p, n)[..last] == a
            && IsLightest(loads, target)
            && Load(p, Greedy(p, n), i) == loads[i] + (if i == target then p[last] else 0)
  {
  }

  /** Shard loads never differ by more than the largest file. */
  lemma {:induction false} GreedyBalanced(p: seq<nat>, n: nat, i: nat, j: nat)
    requires i < n && j < n && Decreasing(p)
    ensures Load(p, Greedy(p, n), i) <= Load(p, Greedy(p, n), j) + (if p == [] then 0 else p[0])
  {
    if p != [] {
      GreedyBalanced(p[..|p| - 1], n, i, j);
      GreedyStep(p, n, i);
      GreedyStep(p, n, j);
    }
  }

  /** The lightest shard is no heavier than the average. */
  lemma LightestTimesShards(p: seq<nat>, n: nat, target: nat)
    requires n > 0 && IsLightest(Loads(p, Greedy(p, n), n), target)
    ensures n * Load(p, Greedy(p, n), target) <= Sum(p)
  {
    var loads := Loads(p, Greedy(p, n), n);
    LoadsConserve(p, Greedy(p, n), n);
    SumAbove(loads, loads[target]);
  }

  /** So the shard that receives the last file exceeds the average by less than that file. */
  lemma LightestBelowAverage(p: seq<nat>, n: nat)
    requires p != [] && n > 0
    ensures var last := |p| - 1; var target := Greedy(p, n)[last];
            n * Load(p, Greedy(p, n), target) <= Sum(p) + (n - 1) * p[last]
  {
    var last := |p| - 1;
    var target := Greedy(p, n)[last];
    var lightest := Load(p[..last], Greedy(p[..last], n), target);
    GreedyStep(p, n, target);
    LightestTimesShards(p[..last], n, target);
    AddOneFile(n, lightest, p[last], Sum(p[..last]), Load(p, Greedy(p, n), target), Sum(p));
  }

  lemma AddOneFile(n: nat, lightest: nat, file: nat, before: nat, load: nat, total: nat)
    requires n > 0 && n * lightest <= before && load == lightest + file && total == before + file
    ensures n * load <= total + (n - 1) * file
  {
    assert n * load == n * lightest + n * file;
    assert n * file == (n - 1) * file + file;
  }

  /** The list-scheduling bound, behind the factor 2 - 1/n. */
  lemma {:induction false} GreedyAverageBound(p: seq<nat>, n: nat, i: nat)
    requires i < n && p != [] && Decreasing(p)
    ensures n * Load(p, Greedy(p, n), i) <= Sum(p) + (n - 1) * p[0]
  {
    var last := |p| - 1;
    GreedyStep(p, n, i);
    if i == Greedy(p, n)[last] {
      LightestBelowAverage(p, n);
      MulMonotone(n - 1, p[last], p[0]);
    } else if last > 0 {
      GreedyAverageBound(p[..last], n, i);
    }
  }

  // ---------------------------------------------------------------- the 4/3 bound

  /** A file that no other file of size at least `least` can join within `bound` counts twice. */
  function Weights(p: seq<nat>, bound: nat, least: nat): (w: seq<nat>)
    ensures |w| == |p|
    ensures forall k :: 0 <= k < |p| ==> w[k] == if p[k] + least > bound then 2 else 1
  {
    seq(|p|, k requires 0 <= k < |p| => if p[k] + least > bound then 2 else 1)
  }

  lemma WeightsPrefix(p: seq<nat>, bound: nat, least: nat, m: nat)
    requires m <= |p|
    ensures Weights(p, bound, least)[..m] == Weights(p[..m], bound, least)
  {
  }

  /** The number of files in shard `i`. */
  function Files(a: seq<nat>, i: nat): nat {
    if a == [] then 0 else Files(a[..|a| - 1], i) + (if a[|a| - 1] == i then 1 else 0)
  }

  /** In a shard within `bound` whose files all exceed bound/3, the weight is at most 2. */
  lemma {:induction false} RivalWeight(p: seq<nat>, a: seq<nat>, i: nat, bound: nat, least: nat)
    requires |p| == |a|
    requires bound < 3 * least && forall k :: 0 <= k < |p| ==> least <= p[k]
    ensures var load := Load(p, a, i); var weight := Load(Weights(p, bound, least), a, i);
            && Files(a, i) * least <= load
            && Files(a, i) <= weight
            && (Files(a, i) == 0 ==> weight == 0)
            && (Files(a, i) == 1 ==> weight <= 2 && (weight == 2 ==> load + least > bound))
            && (load <= bound ==> weight <= 2)
  {
    if p != [] {
      var last := |p| - 1;
      RivalWeight(p[..last], a[..last], i, bound, least);
      WeightsPrefix(p, bound, least, last);
      var c := Files(a[..last], i);
      assert (c + 1) * least == c * least + least;
      if c >= 2 {
        MulMonotone(least, 2, c);
      }
    }
  }

  /** A shard that the last file no longer fits into has weight at least 2. */
  lemma {:induction false} CrowdedWeight(p: seq<nat>, a: seq<nat>, i: nat, bound: nat, least: nat)
    requires |p| == |a| && least <= bound
    ensures var load := Load(p, a, i); var weight := Load(Weights(p, bound, least), a, i);
            && Files(a, i) <= weight
            && (Files(a, i) == 0 ==> load == 0 && weight == 0)
            && (Files(a, i) == 1 && load + least > bound ==> weight == 2)
            && (load + least > bound ==> weight >= 2)
  {
    if p != [] {
      var last := |p| - 1;
      CrowdedWeight(p[..last], a[..last], i, bound, least);
      WeightsPrefix(p, bound, least, last);
    }
  }

  lemma {:induction false} LoadAtLeast(p: seq<nat>, a: seq<nat>, k: nat)
    requires |p| == |a| && k < |p|
    ensures p[k] <= Load(p, a, a[k])
  {
    if k < |p| - 1 {
      LoadAtLeast(p[..|p| - 1], a[..|p| - 1], k);
    }
  }

  lemma {:induction false} LoadPrefix(p: seq<nat>, a: seq<nat>, i: nat, m: nat)
    requires |p| == |a| && m <= |p|
    ensures Load(p[..m], a[..m], i) <= Load(p, a, i)
  {
    if m < |p| {
      var last := |p| - 1;
      LoadPrefix(p[..last], a[..last], i, m);
      assert p[..last][..m] == p[..m] && a[..last][..m] == a[..m];
    } else {
      assert p[..m] == p && a[..m] == a;
    }
  }

  ghost predicate Within(p: seq<nat>, a: seq<nat>, n: nat, bound: nat)
    requires |p| == |a|
  {
    forall i :: 0 <= i < n ==> Load(p, a, i) <= bound
  }

  /**
    If some rival keeps every shard within `bound` and the last file is larger than bound/3,
    then the greedy rule still finds room for it: otherwise the greedy shards would already
    carry weight 2 each, while the rival holds one file more in the same total weight.
   */
  lemma LargeLastFileFits(p: seq<nat>, n: nat, rival: seq<nat>, bound: nat)
    requires p != [] && n > 0 && Decreasing(p)
    requires |rival| == |p| && Placement(rival, n) && Within(p, rival, n, bound)
    requires bound < 3 * p[|p| - 1]
    ensures Load(p, Greedy(p, n), Greedy(p, n)[|p| - 1]) <= bound
  {
    var last := |p| - 1;
    var least := p[last];
    var before, a := p[..last], Greedy(p[..last], n);
    var loads := Loads(before, a, n);
    var target := Greedy(p, n)[last];
    GreedyStep(p, n, target);
    LoadAtLeast(p, rival, last);
    if loads[target] + least > bound {
      var w := Weights(p, bound, least);
      WeightsPrefix(p, bound, least, last);
      var greedyWeight := Loads(w[..last], a, n);
      forall i | 0 <= i < n ensures 2 <= greedyWeight[i] {
        assert loads[target] <= loads[i];
        CrowdedWeight(before, a, i, bound, least);
      }
      SumAbove(greedyWeight, 2);
      LoadsConserve(w[..last], a, n);
      var rivalWeight := Loads(w, rival, n);
      forall i | 0 <= i < n ensures rivalWeight[i] <= 2 {
        RivalWeight(p, rival, i, bound, least);
      }
      SumBelow(rivalWeight, 2);
      LoadsConserve(w, rival, n);
      assert false;
    }
  }

  /** The bound for the shard that received the last file. */
  lemma LastShardFourThirds(p: seq<nat>, n: nat, rival: seq<nat>, bound: nat)
    requires p != [] && n > 0 && Decreasing(p)
    requires |rival| == |p| && Placement(rival, n) && Within(p, rival, n, bound)
    ensures 3 * n * Load(p, Greedy(p, n), Greedy(p, n)[|p| - 1]) <= (4 * n - 1) * bound
  {
    var last := |p| - 1;
    var load := Load(p, Greedy(p, n), Greedy(p, n)[last]);
    if bound < 3 * p[last] {
      LargeLastFileFits(p, n, rival, bound);
      ScaleWithin(n, load, bound);
    } else {
      LightestBelowAverage(p, n);
      LoadsConserve(p, rival, n);
      SumBelow(Loads(p, rival, n), bound);
      ScaleSmallLast(n, load, bound, p[last]);
    }
  }

  /** The longest-processing-time bound: every greedy shard is within 4/3 - 1/(3n) of any rival. */
  lemma {:induction false} GreedyFourThirds(p: seq<nat>, n: nat, rival: seq<nat>, bound: nat, i: nat)
    requires i < n && Decreasing(p)
    requires |rival| == |p| && Placement(rival, n) && Within(p, rival, n, bound)
    ensures 3 * n * Load(p, Greedy(p, n), i) <= (4 * n - 1) * bound
  {
    if p == [] {
      ScaleWithin(n, 0, bound);
    } else if i == Greedy(p, n)[|p| - 1] {
      LastShardFourThirds(p, n, rival, bound);
    } else {
      var last := |p| - 1;
      GreedyStep(p, n, i);
      forall j | 0 <= j < n ensures Load(p[..last], rival[..last], j) <= bound {
        LoadPrefix(p, rival, j, last);
      }
      GreedyFourThirds(p[..last], n, rival[..last], bound, i);
    }
  }

  lemma ScaleWithin(n: nat, load: nat, bound: nat)
    requires n > 0 && load <= bound
    ensures 3 * n * load <= (4 * n - 1) * bound
  {
    MulMonotone(3 * n, load, bound);
    assert (4 * n - 1) * bound == 3 * n * bound + (n - 1) * bound;
  }

  lemma ScaleSmallLast(n: nat, load: nat, bound: nat, least: nat)
    requires n > 0 && n * load <= n * bound + (n - 1) * least && 3 * least <= bound
    ensures 3 * n * load <= (4 * n - 1) * bound
  {
    MulMonotone(n - 1, 3 * least, bound);
    assert 3 * ((n - 1) * least) == (n - 1) * (3 * least);
    assert (4 * n - 1) * bound == 3 * (n * bound) + (n - 1) * bound;
    assert 3 * n * load == 3 * (n * load);
  }

  // ---------------------------------------------------------------- the files themselves

  function Sizes(files: seq<TestFile>): (p: seq<nat>)
    ensures |p| == |files| && forall k :: 0 <= k < |p| ==> p[k] == files[k].count
  {
    seq(|files|, k requires 0 <= k < |files| => files[k].count)
  }

  /** Insertion into a list ordered by decreasing count, behind the entries of equal count. */
  function Insert(f: TestFile, files: seq<TestFile>): (r: seq<TestFile>)
    ensures multiset(r) == multiset(files) + multiset{f}
    ensures |r| == |files| + 1
  {
    if files == [] then [f]
    else
      var last := |files| - 1;
      assert files == files[..last] + [files[last]];
      if f.count <= files[last].count then files + [f]
      else Insert(f, files[..last]) + [files[last]]
  }

  ghost predicate DecreasingFiles(files: seq<TestFile>) {
    forall i, j :: 0 <= i < j < |files| ==> files[j].count <= files[i].count
  }

  lemma InsertMembers(f: TestFile, files: seq<TestFile>, k: nat)
    requires k < |Insert(f, files)|
    ensures Insert(f, files)[k] == f || Insert(f, files)[k] in files
  {
    assert Insert(f, files)[k] in multiset(Insert(f, files));
  }

  lemma {:induction false} InsertDecreasing(f: TestFile, files: seq<TestFile>)
    requires DecreasingFiles(files)
    ensures DecreasingFiles(Insert(f, files))
  {
    if files != [] && f.count > files[|files| - 1].count {
      var front, last := files[..|files| - 1], files[|files| - 1];
      InsertDecreasing(f, front);
      var r := Insert(f, front);
      forall k | 0 <= k < |r| ensures last.count <= r[k].count {
        InsertMembers(f, front, k);
      }
    }
  }

  /** Python's stable `sorted(counts, key=..., reverse=True)`. */
  function SortDecreasing(files: seq<TestFile>): (r: seq<TestFile>)
    ensures multiset(r) == multiset(files)
    ensures |r| == |files|
  {
    if files == [] then []
    else
      var last := |files| - 1;
      assert files == files[..last] + [files[last]];
      Insert(files[last], SortDecreasing(files[..last]))
  }

  lemma {:induction false} SortedDecreasing(files: seq<TestFile>)
    ensures Decreasing(Sizes(SortDecreasing(files)))
  {
    SortedDecreasingFiles(files);
  }

  lemma {:induction false} SortedDecreasingFiles(files: seq<TestFile>)
    ensures DecreasingFiles(SortDecreasing(files))
  {
    if files != [] {
      SortedDecreasingFiles(files[..|files| - 1]);
      InsertDecreasing(files[|files| - 1], SortDecreasing(files[..|files| - 1]));
    }
  }

  /** The names of the files that `a` places in shard `i`, in processing order. */
  function Shard(files: seq<TestFile>, a: seq<nat>, i: nat): seq<string>
    requires |files| == |a|
  {
    if files == [] then []
    else
      var last := |files| - 1;
      var rest := Shard(files[..last], a[..last], i);
      if a[last] == i then rest + [files[last].name] else rest
  }

  function Shards(files: seq<TestFile>, a: seq<nat>, n: nat): (r: seq<seq<string>>)
    requires |files| == |a|
    ensures |r| == n && forall i :: 0 <= i < n ==> r[i] == Shard(files, a, i)
  {
    seq(n, i requires 0 <= i < n => Shard(files, a, i))
  }

  /** What `build_shards` returns for a positive shard count. */
  function Plan(counts: seq<TestFile>, n: nat): (r: seq<seq<string>>)
    requires n > 0
    ensures |r| == n
  {
    var files := SortDecreasing(counts);
    Shards(files, Greedy(Sizes(files), n), n)
  }

  method BuildShards(counts: seq<TestFile>, n: int) returns (r: Result<seq<seq<string>>, string>)
    ensures r.Failure? <==> n <= 0 && counts != []
    ensures r.Success? && n <= 0 ==> r.value == []
    ensures n > 0 ==> r == Success(Plan(counts, n))
  {
    if n <= 0 {
      return if counts == [] then Success([]) else Failure("min() arg is an empty sequence");
    }
    var files := SortDecreasing(counts);
    var shards: seq<seq<string>> := seq(n, _ => []);
    var totals: seq<nat> := seq(n, _ => 0);
    var k := 0;
    GreedyStart(files, n);
    hide Placed, Plan, SortDecreasing;
    while k < |files|
      invariant 0 <= k <= |files| && |shards| == |totals| == n
      invariant Placed(files, n, k, totals, shards)
    {
      var i := MinIndex(totals);
      GreedyAdvance(files, n, k, totals, shards, i);
      shards := shards[i := shards[i] + [files[k].name]];
      totals := totals[i := totals[i] + files[k].count];
      k := k + 1;
    }
    GreedyEnd(counts, n, totals, shards);
    return Success(shards);
  }

  /** The first `k` files stand in their shards. */
  ghost predicate Placed(files: seq<TestFile>, n: nat, k: nat, totals: seq<nat>, shards: seq<seq<string>>)
    requires k <= |files| && n > 0
  {
    var p := Sizes(files)[..k];
    totals == Loads(p, Greedy(p, n), n) && shards == Shards(files[..k], Greedy(p, n), n)
  }

  lemma GreedyStart(files: seq<TestFile>, n: nat)
    requires n > 0
    ensures Placed(files, n, 0, seq(n, _ => 0), seq(n, _ => []))
  {
    var none := Greedy(Sizes(files)[..0], n);
    assert forall i :: 0 <= i < n ==> Shard(files[..0], none, i) == [];
  }

  lemma GreedyEnd(counts: seq<TestFile>, n: nat, totals: seq<nat>, shards: seq<seq<string>>)
    requires n > 0 && Placed(SortDecreasing(counts), n, |SortDecreasing(counts)|, totals, shards)
    ensures shards == Plan(counts, n)
  {
    var files := SortDecreasing(counts);
    var p := Sizes(files);
    assert p[..|files|] == p && files[..|files|] == files;
  }

  /** One round of the loop: the lightest shard takes file `k`, in the list and in its total. */
  lemma GreedyAdvance(files: seq<TestFile>, n: nat, k: nat, totals: seq<nat>, shards: seq<seq<string>>, i: nat)
    requires k < |files| && n > 0 && Placed(files, n, k, totals, shards) && IsLightest(totals, i) && i < |shards|
    ensures Placed(files, n, k + 1, totals[i := totals[i] + files[k].count], shards[i := shards[i] + [files[k].name]])
  {
    var p := Sizes(files);
    var a := Greedy(p[..k], n);
    assert p[..k + 1][..k] == p[..k] && files[..k + 1][..k] == files[..k];
    LightestUnique(Loads(p[..k], a, n), i, Lightest(Loads(p[..k], a, n)));
    assert Greedy(p[..k + 1], n) == a + [i];
    assert (a + [i])[..k] == a;
  }

  lemma LightestUnique(loads: seq<nat>, i: nat, j: nat)
    requires IsLightest(loads, i) && IsLightest(loads, j)
    ensures i == j
  {
    assert loads[i] <= loads[j] && loads[j] <= loads[i];
  }

  /** `min(range(n), key=totals.__getitem__)`: the first index of a smallest total. */
  method MinIndex(totals: seq<nat>) returns (i: nat)
    requires totals != []
    ensures IsLightest(totals, i)
  {
    i := 0;
    for j := 1 to |totals|
      invariant i < j
      invariant forall k :: 0 <= k < j ==> totals[i] <= totals[k]
      invariant forall k :: 0 <= k < i ==> totals[i] < totals[k]
    {
      if totals[j] < totals[i] {
        i := j;
      }
    }
  }

  // ---------------------------------------------------------------- main results

  function Union(shards: seq<seq<string>>): multiset<string> {
    if shards == [] then multiset{} else Union(shards[..|shards| - 1]) + multiset(shards[|shards| - 1])
  }

  function Names(files: seq<TestFile>): multiset<string> {
    if files == [] then multiset{} else Names(files[..|files| - 1]) + multiset{files[|files| - 1].name}
  }

  lemma {:induction false} UnionUpdate(s: seq<seq<string>>, i: nat, name: string)
    requires i < |s|
    ensures Union(s[i := s[i] + [name]]) == Union(s) + multiset{name}
  {
    var t := s[i := s[i] + [name]];
    var last := |s| - 1;
    if i < last {
      UnionUpdate(s[..last], i, name);
      assert t[..last] == s[..last][i := s[..last][i] + [name]];
    } else {
      assert t[..last] == s[..last];
    }
  }

  lemma {:induction false} ShardsSplit(files: seq<TestFile>, a: seq<nat>, n: nat)
    requires |files| == |a| && Placement(a, n)
    ensures Union(Shards(files, a, n)) == Names(files)
  {
    if files == [] {
      EmptyUnion(Shards(files, a, n));
    } else {
      var last := |files| - 1;
      var before := Shards(files[..last], a[..last], n);
      ShardsSplit(files[..last], a[..last], n);
      UnionUpdate(before, a[last], files[last].name);
      assert Shards(files, a, n) == before[a[last] := before[a[last]] + [files[last].name]];
    }
  }

  lemma {:induction false} EmptyUnion(s: seq<seq<string>>)
    requires forall i :: 0 <= i < |s| ==> s[i] == []
    ensures Union(s) == multiset{}
  {
    if s != [] {
      EmptyUnion(s[..|s| - 1]);
    }
  }

  lemma {:induction false} InsertNames(f: TestFile, files: seq<TestFile>)
    ensures Names(Insert(f, files)) == Names(files) + multiset{f.name}
  {
    if files == [] {
      assert [f][..0] == [];
    } else {
      var last := |files| - 1;
      if f.count <= files[last].count {
        assert (files + [f])[..last + 1] == files;
      } else {
        InsertNames(f, files[..last]);
        var r := Insert(f, files[..last]);
        assert (r + [files[last]])[..|r|] == r;
      }
    }
  }

  lemma {:induction false} SortNames(files: seq<TestFile>)
    ensures Names(SortDecreasing(files)) == Names(files)
  {
    if files != [] {
      SortNames(files[..|files| - 1]);
      InsertNames(files[|files| - 1], SortDecreasing(files[..|files| - 1]));
    }
  }

  /** Every collected file lands in exactly one shard. */
  lemma PlanSplitsExactly(counts: seq<TestFile>, n: nat)
    requires n > 0
    ensures Union(Plan(counts, n)) == Names(counts)
  {
    var files := SortDecreasing(counts);
    SortNames(counts);
    ShardsSplit(files, Greedy(Sizes(files), n), n);
  }

  /** The number of tests in a shard, given each file's count. */
  function Tests(shard: seq<string>, size: string -> nat): nat {
    if shard == [] then 0 else Tests(shard[..|shard| - 1], size) + size(shard[|shard| - 1])
  }

  /** The number of tests a rival plan, given as a map from file to shard, puts in shard `i`. */
  function RivalTests(files: seq<TestFile>, rival: string -> nat, i: nat): nat {
    if files == [] then 0
    else
      var f := files[|files| - 1];
      RivalTests(files[..|files| - 1], rival, i) + (if rival(f.name) == i then f.count else 0)
  }

  lemma {:induction false} ShardTests(files: seq<TestFile>, a: seq<nat>, i: nat, size: string -> nat)
    requires |files| == |a| && forall k :: 0 <= k < |files| ==> size(files[k].name) == files[k].count
    ensures Tests(Shard(files, a, i), size) == Load(Sizes(files), a, i)
  {
    if files != [] {
      var last := |files| - 1;
      ShardTests(files[..last], a[..last], i, size);
      assert Sizes(files)[..last] == Sizes(files[..last]);
      var rest := Shard(files[..last], a[..last], i);
      assert (rest + [files[last].name])[..|rest|] == rest;
    }
  }

  lemma {:induction false} InsertRival(f: TestFile, files: seq<TestFile>, rival: string -> nat, i: nat)
    ensures RivalTests(Insert(f, files), rival, i)
         == RivalTests(files, rival, i) + (if rival(f.name) == i then f.count else 0)
  {
    if files == [] {
      assert [f][..0] == [];
    } else {
      var last := |files| - 1;
      if f.count <= files[last].count {
        assert (files + [f])[..last + 1] == files;
      } else {
        InsertRival(f, files[..last], rival, i);
        var r := Insert(f, files[..last]);
        assert (r + [files[last]])[..|r|] == r;
      }
    }
  }

  lemma {:induction false} SortRival(files: seq<TestFile>, rival: string -> nat, i: nat)
    ensures RivalTests(SortDecreasing(files), rival, i) == RivalTests(files, rival, i)
  {
    if files != [] {
      SortRival(files[..|files| - 1], rival, i);
      InsertRival(files[|files| - 1], SortDecreasing(files[..|files| - 1]), rival, i);
    }
  }

  function RivalPlacement(files: seq<TestFile>, rival: string -> nat): (a: seq<nat>)
    ensures |a| == |files| && forall k :: 0 <= k < |a| ==> a[k] == rival(files[k].name)
  {
    seq<nat>(|files|, k requires 0 <= k < |files| => rival(files[k].name))
  }

  lemma {:induction false} RivalLoad(files: seq<TestFile>, rival: string -> nat, i: nat)
    ensures Load(Sizes(files), RivalPlacement(files, rival), i) == RivalTests(files, rival, i)
  {
    if files != [] {
      var last := |files| - 1;
      RivalLoad(files[..last], rival, i);
      assert Sizes(files)[..last] == Sizes(files[..last]);
      assert RivalPlacement(files, rival)[..last] == RivalPlacement(files[..last], rival);
    }
  }

  lemma SortedMember(counts: seq<TestFile>, k: nat)
    requires k < |counts|
    ensures SortDecreasing(counts)[k] in counts
  {
    assert SortDecreasing(counts)[k] in multiset(SortDecreasing(counts));
  }

  /** No plan beats the one returned by more than the factor 4/3 - 1/(3n). */
  lemma PlanNearOptimal(counts: seq<TestFile>, n: nat, size: string -> nat, rival: string -> nat, bound: nat, i: nat)
    requires i < n
    requires forall f <- counts :: size(f.name) == f.count && rival(f.name) < n
    requires forall j :: 0 <= j < n ==> RivalTests(counts, rival, j) <= bound
    ensures 3 * n * Tests(Plan(counts, n)[i], size) <= (4 * n - 1) * bound
  {
    var files := SortDecreasing(counts);
    var p := Sizes(files);
    SortedDecreasing(counts);
    forall k | 0 <= k < |files| ensures files[k] in counts {
      SortedMember(counts, k);
    }
    var other := RivalPlacement(files, rival);
    forall j | 0 <= j < n ensures Load(p, other, j) <= bound {
      SortRival(counts, rival, j);
      RivalLoad(files, rival, j);
    }
    GreedyFourThirds(p, n, other, bound, i);
    ShardTests(files, Greedy(p, n), i, size);
  }

  /** Any two shards of the plan differ by at most the largest count. */
  lemma PlanBalanced(counts: seq<TestFile>, n: nat, size: string -> nat, largest: nat, i: nat, j: nat)
    requires i < n && j < n
    requires forall f <- counts :: size(f.name) == f.count && f.count <= largest
    ensures Tests(Plan(counts, n)[i], size) <= Tests(Plan(counts, n)[j], size) + largest
  {
    var files := SortDecreasing(counts);
    var p := Sizes(files);
    SortedDecreasing(counts);
    forall k | 0 <= k < |files| ensures files[k] in counts {
      SortedMember(counts, k);
    }
    GreedyBalanced(p, n, i, j);
    ShardTests(files, Greedy(p, n), i, size);
    ShardTests(files, Greedy(p, n), j, size);
  }
}
