/** The size-balanced test shards: the greedy longest-processing-time loop, and what it
    guarantees about every inventory. */
module Shards {
  import opened Outcomes
  import opened Bytes
  import opened Sorting
  import opened Sums
  import opened ShardPromises

  type Weights = map<bytes, nat>

  function WeightOf(weights: Weights, file: bytes): nat {
    if file in weights then weights[file] else 0
  }

  /** Heavier first, then by path. */
  predicate Before(weights: Weights, a: bytes, b: bytes) {
    WeightOf(weights, a) > WeightOf(weights, b) || (WeightOf(weights, a) == WeightOf(weights, b) && LexLess(a, b))
  }

  function Ordered(files: seq<bytes>, weights: Weights): seq<bytes> {
    Sort(files, (a, b) => Before(weights, a, b))
  }

  function WeightsOf(files: seq<bytes>, weights: Weights): (ws: seq<nat>)
    ensures |ws| == |files|
    ensures forall i :: 0 <= i < |ws| ==> ws[i] == WeightOf(weights, files[i])
  {
    seq(|files|, i requires 0 <= i < |files| => WeightOf(weights, files[i]))
  }

  // ---- assignments of jobs to machines ----

  /** The load of machine `k` when job `i` of size `ws[i]` runs on machine `a[i]`. */
  function Load(ws: seq<nat>, a: seq<nat>, k: nat): nat
    requires |ws| == |a|
  {
    if ws == [] then 0
    else
      var n := |ws| - 1;
      Load(ws[..n], a[..n], k) + (if a[n] == k then ws[n] else 0)
  }

  function Total(ws: seq<nat>): nat {
    if ws == [] then 0 else Total(ws[..|ws| - 1]) + ws[|ws| - 1]
  }

  predicate Assigns(a: seq<nat>, machines: nat) {
    forall i :: 0 <= i < |a| ==> a[i] < machines
  }

  function Loads(ws: seq<nat>, a: seq<nat>, machines: nat): (loads: seq<nat>)
    requires |ws| == |a|
    ensures |loads| == machines && forall k :: 0 <= k < machines ==> loads[k] == Load(ws, a, k)
  {
    seq(machines, k requires 0 <= k < machines => Load(ws, a, k))
  }

  /** `min(range(n), key=(loads[index], index))` */
  function LeastLoaded(loads: seq<nat>): (k: nat)
    requires loads != []
    ensures k < |loads|
    ensures forall i :: 0 <= i < |loads| ==> loads[k] <= loads[i]
    ensures forall i :: 0 <= i < k ==> loads[k] < loads[i]
  {
    if |loads| == 1 then 0
    else
      var k := LeastLoaded(loads[..|loads| - 1]);
      if loads[|loads| - 1] < loads[k] then |loads| - 1 else k
  }

  /** The greedy assignment: each job goes to the machine that is least loaded so far. */
  function Greedy(ws: seq<nat>, machines: nat): (a: seq<nat>)
    requires machines >= 1
    ensures |a| == |ws| && Assigns(a, machines)
  {
    if ws == [] then []
    else
      var n := |ws| - 1;
      var a := Greedy(ws[..n], machines);
      a + [LeastLoaded(Loads(ws[..n], a, machines))]
  }

  /** The jobs on machine `k`, in assignment order. */
  function Shard(files: seq<bytes>, a: seq<nat>, k: nat): seq<bytes>
    requires |files| == |a|
  {
    if files == [] then []
    else
      var n := |files| - 1;
      Shard(files[..n], a[..n], k) + (if a[n] == k then [files[n]] else [])
  }

  /** The partition as a function of the inventory and its weights. */
  function Partition(files: seq<bytes>, shardCount: nat, weights: Weights): (shards: seq<seq<bytes>>)
    requires shardCount >= 1
    ensures |shards| == shardCount
  {
    var ordered := Ordered(files, weights);
    var a := Greedy(WeightsOf(ordered, weights), shardCount);
    seq(shardCount, k requires 0 <= k < shardCount => Sort(Shard(ordered, a, k), LexLess))
  }

  // ---- the loop ----

  predicate ValidRequest(files: seq<bytes>, shardCount: int, weights: Option<map<bytes, int>>) {
    && shardCount >= 1 && files != [] && |set f | f in files| == |files| && shardCount <= |files|
    && (weights.Some? ==>
          weights.value.Keys == (set f | f in files) && forall f :: f in files ==> weights.value[f] >= 1)
  }

  /** The weights the loop works with: the given ones, or file sizes of at least one. */
  function NormalizedWeights(files: seq<bytes>, weights: Option<map<bytes, int>>, size: bytes -> nat): Weights
    requires weights.Some? ==> forall f :: f in files ==> f in weights.value && weights.value[f] >= 1
  {
    map f | f in files :: if weights.Some? then weights.value[f] else if size(f) < 1 then 1 else size(f)
  }

  /** `partition_test_files` */
  method PartitionTestFiles(files: seq<bytes>, shardCount: int, weights: Option<map<bytes, int>>, size: bytes -> nat)
    returns (r: Result<seq<seq<bytes>>>)
    ensures r.Ok? <==> ValidRequest(files, shardCount, weights)
    ensures r.Ok? ==> r.value == Partition(files, shardCount, NormalizedWeights(files, weights, size))
    ensures r.Ok? ==> |r.value| == shardCount && Covers(r.value, files)
    ensures r.Ok? ==> LeastLoadedEach(r.value, Cost(weights, size)) && NearOptimal(r.value, files, Cost(weights, size))
  {
    hide Covers, LeastLoadedEach, NearOptimal, Cost, Before;
    if shardCount < 1 {
      return Err("shard_count must be positive");
    }
    if files == [] {
      return Err("pytest file inventory must not be empty");
    }
    var unique := set f | f in files;
    if |unique| != |files| {
      return Err("pytest file inventory contains duplicates");
    }
    if shardCount > |files| {
      return Err("shard_count cannot exceed the pytest file count");
    }
    if weights.Some? {
      if weights.value.Keys != unique {
        return Err("pytest file weights must match the exact file inventory");
      }
      if exists f :: f in files && weights.value[f] < 1 {
        return Err("pytest file weights must be positive integers");
      }
    }
    var normalized := NormalizedWeights(files, weights, size);
    var shards := AssignShards(Ordered(files, normalized), shardCount, normalized);
    SizeDetectsDuplicates(files);
    WeightsAreCosts(files, weights, size);
    PartitionPromises(files, shardCount, normalized, Cost(weights, size));
    return Ok(seq(shardCount, k requires 0 <= k < shardCount => Sort(shards[k], LexLess)));
  }

  /** The assignment loop. */
  method AssignShards(ordered: seq<bytes>, shardCount: nat, weights: Weights) returns (shards: seq<seq<bytes>>)
    requires shardCount >= 1
    ensures |shards| == shardCount
    ensures forall k :: 0 <= k < shardCount ==>
      shards[k] == Shard(ordered, Greedy(WeightsOf(ordered, weights), shardCount), k)
  {
    hide Shard, Greedy, Load, LeastLoaded;
    ghost var ws := WeightsOf(ordered, weights);
    shards := seq(shardCount, k => []);
    var loads: seq<nat> := seq(shardCount, k => 0);
    ghost var a: seq<nat> := [];
    NothingAssigned(ordered, ws, shardCount);
    for index := 0 to |ordered|
      invariant |shards| == |loads| == shardCount && |a| == index
      invariant a == Greedy(ws[..index], shardCount)
      invariant loads == Loads(ws[..index], a, shardCount)
      invariant forall k :: 0 <= k < shardCount ==> shards[k] == Shard(ordered[..index], a, k)
    {
      var path := ordered[index];
      var target := LeastLoaded(loads);
      Extend(ordered, ws, a, index, target, shardCount);
      shards := shards[target := shards[target] + [path]];
      loads := loads[target := loads[target] + WeightOf(weights, path)];
      a := a + [target];
    }
    assert ws[..|ordered|] == ws && ordered[..|ordered|] == ordered;
  }

  lemma NothingAssigned(files: seq<bytes>, ws: seq<nat>, machines: nat)
    requires machines >= 1 && |ws| == |files|
    ensures Greedy(ws[..0], machines) == []
    ensures forall k :: 0 <= k < machines ==> Load(ws[..0], [], k) == 0 && Shard(files[..0], [], k) == []
  {
  }

  /** One more job extends the assignment, the loads and the shards. */
  lemma Extend(files: seq<bytes>, ws: seq<nat>, a: seq<nat>, index: nat, target: nat, machines: nat)
    requires machines >= 1 && |ws| == |files| && index < |ws| && a == Greedy(ws[..index], machines)
    requires target == LeastLoaded(Loads(ws[..index], a, machines))
    ensures Greedy(ws[..index + 1], machines) == a + [target]
    ensures forall k :: 0 <= k < machines ==>
      Load(ws[..index + 1], a + [target], k) == Load(ws[..index], a, k) + (if k == target then ws[index] else 0)
    ensures forall k :: 0 <= k < machines ==>
      Shard(files[..index + 1], a + [target], k)
      == Shard(files[..index], a, k) + (if k == target then [files[index]] else [])
  {
    assert ws[..index + 1][..index] == ws[..index];
    assert files[..index + 1][..index] == files[..index];
    assert (a + [target])[..index] == a;
  }

  // ---- totals ----

  function LoadSum(ws: seq<nat>, a: seq<nat>, machines: nat): nat
    requires |ws| == |a|
  {
    if machines == 0 then 0 else LoadSum(ws, a, machines - 1) + Load(ws, a, machines - 1)
  }

  lemma {:induction false} LoadSumStep(ws: seq<nat>, a: seq<nat>, machines: nat)
    requires |ws| == |a| && ws != []
    ensures var n := |ws| - 1;
      LoadSum(ws, a, machines) == LoadSum(ws[..n], a[..n], machines) + (if a[n] < machines then ws[n] else 0)
  {
    if machines > 0 {
      LoadSumStep(ws, a, machines - 1);
    }
  }

  /** Work is conserved: the loads add up to the total. */
  lemma {:induction false} LoadSumIsTotal(ws: seq<nat>, a: seq<nat>, machines: nat)
    requires |ws| == |a| && Assigns(a, machines)
    ensures LoadSum(ws, a, machines) == Total(ws)
  {
    if ws == [] {
      NoLoad(a, machines);
    } else {
      var n := |ws| - 1;
      LoadSumStep(ws, a, machines);
      LoadSumIsTotal(ws[..n], a[..n], machines);
    }
  }

  lemma {:induction false} NoLoad(a: seq<nat>, machines: nat)
    requires |a| == 0
    ensures LoadSum([], a, machines) == 0
  {
    if machines > 0 {
      NoLoad(a, machines - 1);
    }
  }

  lemma {:induction false} LoadSumAtLeast(ws: seq<nat>, a: seq<nat>, machines: nat, bound: nat)
    requires |ws| == |a| && forall k :: 0 <= k < machines ==> Load(ws, a, k) >= bound
    ensures LoadSum(ws, a, machines) >= machines * bound
  {
    if machines > 0 {
      LoadSumAtLeast(ws, a, machines - 1, bound);
      assert machines * bound == (machines - 1) * bound + bound;
    }
  }

  lemma {:induction false} LoadSumAtMost(ws: seq<nat>, a: seq<nat>, machines: nat, bound: nat)
    requires |ws| == |a| && forall k :: 0 <= k < machines ==> Load(ws, a, k) <= bound
    ensures LoadSum(ws, a, machines) <= machines * bound
  {
    if machines > 0 {
      LoadSumAtMost(ws, a, machines - 1, bound);
      assert machines * bound == (machines - 1) * bound + bound;
    }
  }

  /** Earlier jobs load a machine no more than all of them do. */
  lemma {:induction false} PrefixLoad(ws: seq<nat>, a: seq<nat>, n: nat, k: nat)
    requires |ws| == |a| && n <= |ws|
    ensures Load(ws[..n], a[..n], k) <= Load(ws, a, k)
    decreases |ws|
  {
    if n < |ws| {
      var last := |ws| - 1;
      PrefixLoad(ws[..last], a[..last], n, k);
      assert ws[..last][..n] == ws[..n] && a[..last][..n] == a[..n];
    } else {
      assert ws[..n] == ws && a[..n] == a;
    }
  }

  lemma {:induction false} GreedyPrefix(ws: seq<nat>, machines: nat, n: nat)
    requires machines >= 1 && n <= |ws|
    ensures Greedy(ws[..n], machines) == Greedy(ws, machines)[..n]
    decreases |ws|
  {
    if n < |ws| {
      var last := |ws| - 1;
      GreedyPrefix(ws[..last], machines, n);
      assert ws[..last][..n] == ws[..n];
    } else {
      assert ws[..n] == ws;
    }
  }

  // ---- the critical job ----

  /** The last job on machine `k`, and nothing after it. */
  lemma {:induction false} LastJob(ws: seq<nat>, a: seq<nat>, k: nat) returns (j: nat)
    requires |ws| == |a| && Load(ws, a, k) > 0
    ensures j < |ws| && a[j] == k
    ensures Load(ws, a, k) == Load(ws[..j], a[..j], k) + ws[j]
  {
    var n := |ws| - 1;
    if a[n] == k {
      j := n;
    } else {
      j := LastJob(ws[..n], a[..n], k);
      assert ws[..n][..j] == ws[..j] && a[..n][..j] == a[..j];
    }
  }

  /** When the greedy loop placed job `j`, its machine was least loaded. */
  lemma GreedyChoice(ws: seq<nat>, machines: nat, j: nat, q: nat)
    requires j < |ws| && q < machines
    ensures var a := Greedy(ws, machines);
      Load(ws[..j], a[..j], a[j]) <= Load(ws[..j], a[..j], q)
  {
    var a := Greedy(ws, machines);
    GreedyPrefix(ws, machines, j);
    GreedyPrefix(ws, machines, j + 1);
    assert ws[..j + 1][..j] == ws[..j];
    assert a[..j + 1][j] == a[j];
    var loads := Loads(ws[..j], a[..j], machines);
    assert a[j] == LeastLoaded(loads);
    assert loads[a[j]] <= loads[q];
  }

  /** An assignment that keeps every machine within `makespan`. */
  ghost predicate Within(ws: seq<nat>, other: seq<nat>, machines: nat, makespan: nat) {
    |other| == |ws| && Assigns(other, machines) && forall q :: 0 <= q < machines ==> Load(ws, other, q) <= makespan
  }

  lemma WithinPrefix(ws: seq<nat>, other: seq<nat>, machines: nat, makespan: nat, n: nat)
    requires Within(ws, other, machines, makespan) && n <= |ws|
    ensures |other| == |ws| && Assigns(other, machines)
    ensures Within(ws[..n], other[..n], machines, makespan)
  {
    hide Load;
    forall q | 0 <= q < machines
      ensures Load(ws[..n], other[..n], q) <= makespan
    {
      PrefixLoad(ws, other, n, q);
      assert Load(ws, other, q) <= makespan;
    }
  }

  lemma TotalWithin(ws: seq<nat>, other: seq<nat>, machines: nat, makespan: nat)
    requires Within(ws, other, machines, makespan)
    ensures Total(ws) <= machines * makespan
  {
    hide Load, Total;
    LoadSumIsTotal(ws, other, machines);
    LoadSumAtMost(ws, other, machines, makespan);
  }

  lemma JobWithin(ws: seq<nat>, other: seq<nat>, machines: nat, makespan: nat, j: nat)
    requires Within(ws, other, machines, makespan) && j < |ws|
    ensures ws[j] <= makespan
  {
    WithinPrefix(ws, other, machines, makespan, j + 1);
    var k := other[j];
    assert Load(ws[..j + 1], other[..j + 1], k) >= ws[j];
    assert Load(ws[..j + 1], other[..j + 1], k) <= makespan;
  }

  /** The list-scheduling step: the work before the critical job fits under any makespan. */
  lemma CriticalJob(ws: seq<nat>, machines: nat, other: seq<nat>, makespan: nat, j: nat)
    requires machines >= 1 && j < |ws| && Within(ws, other, machines, makespan)
    ensures var a := Greedy(ws, machines);
      machines * Load(ws[..j], a[..j], a[j]) + ws[j] <= machines * makespan
    ensures ws[j] <= makespan
  {
    hide Load, Greedy, Within;
    var a := Greedy(ws, machines);
    var before := Load(ws[..j], a[..j], a[j]);
    forall q | 0 <= q < machines
      ensures Load(ws[..j], a[..j], q) >= before
    {
      GreedyChoice(ws, machines, j, q);
    }
    LoadSumIsTotal(ws[..j], a[..j], machines);
    LoadSumAtLeast(ws[..j], a[..j], machines, before);
    WithinPrefix(ws, other, machines, makespan, j + 1);
    TotalWithin(ws[..j + 1], other[..j + 1], machines, makespan);
    JobWithin(ws, other, machines, makespan, j);
    assert ws[..j + 1][..j] == ws[..j];
    assert Total(ws[..j + 1]) == Total(ws[..j]) + ws[j];
  }

  // ---- when the critical job is large, greedy is optimal ----

  /** One for every job, two for a job that leaves no room for another of size `p`. */
  function Count(w: nat, p: nat, makespan: nat): nat {
    if w + p > makespan then 2 else 1
  }

  function Counts(ws: seq<nat>, p: nat, makespan: nat): (vs: seq<nat>)
    ensures |vs| == |ws|
    ensures forall i :: 0 <= i < |vs| ==> vs[i] == Count(ws[i], p, makespan)
  {
    seq(|ws|, i requires 0 <= i < |ws| => Count(ws[i], p, makespan))
  }

  /** A machine loaded beyond `makespan - p` has two jobs, or one that counts double. */
  lemma {:induction false} FullMachine(ws: seq<nat>, a: seq<nat>, k: nat, p: nat, makespan: nat)
    requires |ws| == |a| && p <= makespan
    ensures var v := Load(Counts(ws, p, makespan), a, k);
      (v == 0 ==> Load(ws, a, k) == 0) && (v == 1 ==> Load(ws, a, k) + p <= makespan)
  {
    if ws != [] {
      var n := |ws| - 1;
      FullMachine(ws[..n], a[..n], k, p, makespan);
      assert Counts(ws, p, makespan)[..n] == Counts(ws[..n], p, makespan);
    }
  }

  /** A machine whose jobs are all larger than a third of the makespan counts at most two. */
  lemma {:induction false} RoomForTwo(ws: seq<nat>, a: seq<nat>, k: nat, p: nat, makespan: nat)
    requires |ws| == |a| && p <= makespan < 3 * p
    requires forall i :: 0 <= i < |ws| ==> ws[i] >= p
    ensures var v := Load(Counts(ws, p, makespan), a, k); var w := Load(ws, a, k);
      (v == 1 ==> w >= p) && (v == 2 ==> w >= 2 * p || w + p > makespan) && (v >= 3 ==> w > makespan)
  {
    if ws != [] {
      var n := |ws| - 1;
      RoomForTwo(ws[..n], a[..n], k, p, makespan);
      assert Counts(ws, p, makespan)[..n] == Counts(ws[..n], p, makespan);
    }
  }

  ghost predicate Descending(ws: seq<nat>) {
    forall i, j :: 0 <= i < j < |ws| ==> ws[i] >= ws[j]
  }

  /** Counted this way, the jobs up to the critical one fit two to a machine elsewhere. */
  lemma CountsFit(ws: seq<nat>, machines: nat, other: seq<nat>, makespan: nat, p: nat)
    requires Within(ws, other, machines, makespan) && p <= makespan < 3 * p
    requires forall i :: 0 <= i < |ws| ==> ws[i] >= p
    ensures Total(Counts(ws, p, makespan)) <= machines * 2
  {
    hide Load, Total;
    var counts := Counts(ws, p, makespan);
    forall q {:trigger Load(counts, other, q)} | 0 <= q < machines
      ensures Load(counts, other, q) <= 2
    {
      assert Load(ws, other, q) <= makespan;
      RoomForTwo(ws, other, q, p, makespan);
    }
    LoadSumAtMost(counts, other, machines, 2);
    LoadSumIsTotal(counts, other, machines);
  }

  lemma CountsFill(ws: seq<nat>, machines: nat, a: seq<nat>, makespan: nat, p: nat)
    requires |a| == |ws| && Assigns(a, machines) && p <= makespan
    requires forall q :: 0 <= q < machines ==> Load(ws, a, q) + p > makespan
    ensures Total(Counts(ws, p, makespan)) >= machines * 2
  {
    hide Load, Total;
    var counts := Counts(ws, p, makespan);
    forall q {:trigger Load(counts, a, q)} | 0 <= q < machines
      ensures Load(counts, a, q) >= 2
    {
      assert Load(ws, a, q) + p > makespan;
      FullMachine(ws, a, q, p, makespan);
    }
    LoadSumAtLeast(counts, a, machines, 2);
    LoadSumIsTotal(counts, a, machines);
  }

  /** If the critical job is larger than a third of the best makespan, no machine exceeds it. */
  lemma LargeCriticalJob(ws: seq<nat>, machines: nat, other: seq<nat>, makespan: nat, j: nat)
    requires machines >= 1 && j < |ws| && Descending(ws) && Within(ws, other, machines, makespan)
    requires makespan < 3 * ws[j]
    ensures var a := Greedy(ws, machines);
      Load(ws[..j], a[..j], a[j]) + ws[j] <= makespan
  {
    hide Load, Greedy, Within;
    var a, p := Greedy(ws, machines), ws[j];
    var early, upTo := ws[..j], ws[..j + 1];
    var counts := Counts(upTo, p, makespan);
    JobWithin(ws, other, machines, makespan, j);
    WithinPrefix(ws, other, machines, makespan, j + 1);
    CountsFit(upTo, machines, other[..j + 1], makespan, p);
    assert counts[..j] == Counts(early, p, makespan);
    assert Total(counts) == Total(counts[..j]) + counts[j];
    if Load(early, a[..j], a[j]) + p > makespan {
      forall q | 0 <= q < machines
        ensures Load(early, a[..j], q) + p > makespan
      {
        GreedyChoice(ws, machines, j, q);
      }
      CountsFill(early, machines, a[..j], makespan, p);
    }
  }

  lemma ScaleBounds(machines: nat, before: nat, p: nat, makespan: nat)
    requires machines >= 1 && machines * before + p <= machines * makespan && p <= makespan
    ensures machines * (before + p) <= (2 * machines - 1) * makespan
    ensures 3 * p <= makespan ==> 3 * machines * (before + p) <= (4 * machines - 1) * makespan
  {
    assert machines * (before + p) == machines * before + machines * p;
    assert machines * p == (machines - 1) * p + p;
    Product(machines - 1, p, makespan);
    assert (2 * machines - 1) * makespan == machines * makespan + (machines - 1) * makespan;
    if 3 * p <= makespan {
      Product(machines - 1, 3 * p, makespan);
      assert (machines - 1) * (3 * p) == 3 * ((machines - 1) * p);
      assert (4 * machines - 1) * makespan == 3 * (machines * makespan) + (machines - 1) * makespan;
      assert 3 * machines * (before + p) == 3 * (machines * (before + p));
    }
  }

  lemma Product(k: nat, x: nat, y: nat)
    requires x <= y
    ensures k * x <= k * y
  {
  }

  /** The 2 - 1/m bound of list scheduling, which needs no order of the jobs. */
  lemma ListSchedulingBound(ws: seq<nat>, machines: nat, other: seq<nat>, makespan: nat, k: nat)
    requires machines >= 1 && Within(ws, other, machines, makespan)
    ensures machines * Load(ws, Greedy(ws, machines), k) <= (2 * machines - 1) * makespan
  {
    hide Load, Greedy, Within;
    var a := Greedy(ws, machines);
    if Load(ws, a, k) == 0 {
      assert machines * 0 == 0 && (2 * machines - 1) * makespan >= 0 * makespan by { Product(makespan, 0, 2 * machines - 1); }
    } else {
      var j := LastJob(ws, a, k);
      CriticalJob(ws, machines, other, makespan, j);
      ScaleBounds(machines, Load(ws[..j], a[..j], k), ws[j], makespan);
    }
  }

  /** Graham's bound 4/3 - 1/(3m) for jobs taken longest first. */
  lemma LongestFirstBound(ws: seq<nat>, machines: nat, other: seq<nat>, makespan: nat, k: nat)
    requires machines >= 1 && Descending(ws) && Within(ws, other, machines, makespan)
    ensures 3 * machines * Load(ws, Greedy(ws, machines), k) <= (4 * machines - 1) * makespan
  {
    hide Load, Greedy, Within;
    var a := Greedy(ws, machines);
    var load := Load(ws, a, k);
    if load > 0 {
      var j := LastJob(ws, a, k);
      CriticalJob(ws, machines, other, makespan, j);
      if 3 * ws[j] <= makespan {
        ScaleBounds(machines, Load(ws[..j], a[..j], k), ws[j], makespan);
      } else {
        LargeCriticalJob(ws, machines, other, makespan, j);
        OptimalBound(machines, load, makespan);
      }
    } else {
      OptimalBound(machines, load, makespan);
    }
  }

  lemma OptimalBound(machines: nat, load: nat, makespan: nat)
    requires machines >= 1 && load <= makespan
    ensures 3 * machines * load <= (4 * machines - 1) * makespan
  {
    Product(3 * machines, load, makespan);
    assert (4 * machines - 1) * makespan == 3 * machines * makespan + (machines - 1) * makespan;
  }

  // ---- the partition of files ----

  lemma BeforeIsOrder(weights: Weights)
    ensures StrictOrder((a, b) => Before(weights, a, b))
  {
    hide LexLess;
    forall a: bytes ensures !Before(weights, a, a) { LexTrichotomy(a, a); }
    forall a, b, c | Before(weights, a, b) && Before(weights, b, c)
      ensures Before(weights, a, c)
    {
      if LexLess(a, b) && LexLess(b, c) { LexTransitive(a, b, c); }
    }
  }

  lemma BeforeCompares(files: seq<bytes>, weights: Weights)
    ensures Comparable(files, (a, b) => Before(weights, a, b))
  {
    hide LexLess;
    forall x, y | x in files && y in files
      ensures x == y || Before(weights, x, y) || Before(weights, y, x)
    {
      LexTrichotomy(x, y);
    }
  }

  lemma LexIsOrder()
    ensures StrictOrder<bytes>(LexLess)
  {
    forall a: bytes ensures !LexLess(a, a) { LexTrichotomy(a, a); }
    forall a: bytes, b: bytes, c: bytes | LexLess(a, b) && LexLess(b, c) ensures LexLess(a, c) { LexTransitive(a, b, c); }
  }

  lemma OrderedDescends(files: seq<bytes>, weights: Weights)
    requires Distinct(files)
    ensures Descending(WeightsOf(Ordered(files, weights), weights))
  {
    hide LexLess, Sort;
    BeforeIsOrder(weights);
    BeforeCompares(files, weights);
    SortSorted(files, (a, b) => Before(weights, a, b));
  }

  /** The files of a shard are the ones assigned to it. */
  lemma {:induction false} ShardMembers(files: seq<bytes>, a: seq<nat>, k: nat, f: bytes)
    requires |files| == |a|
    ensures f in Shard(files, a, k) <==> exists i :: 0 <= i < |files| && files[i] == f && a[i] == k
  {
    if files != [] {
      var n := |files| - 1;
      ShardMembers(files[..n], a[..n], k, f);
      if i :| 0 <= i < |files| && files[i] == f && a[i] == k {
        assert i < n ==> files[..n][i] == f && a[..n][i] == k;
      }
    }
  }

  lemma {:induction false} ShardDistinct(files: seq<bytes>, a: seq<nat>, k: nat)
    requires |files| == |a| && Distinct(files)
    ensures Distinct(Shard(files, a, k))
  {
    if files != [] {
      var n := |files| - 1;
      ShardDistinct(files[..n], a[..n], k);
      ShardMembers(files[..n], a[..n], k, files[n]);
    }
  }

  /** The size check on the set of files finds exactly the repeated ones. */
  lemma {:induction false} SizeDetectsDuplicates(files: seq<bytes>)
    ensures |set f | f in files| <= |files|
    ensures |set f | f in files| == |files| <==> Distinct(files)
  {
    if files != [] {
      var n := |files| - 1;
      var rest, last := files[..n], files[n];
      SizeDetectsDuplicates(rest);
      assert files == rest + [last];
      assert (set f | f in files) == (set f | f in rest) + {last};
      DistinctExtends(rest, last);
      if last in rest { assert (set f | f in rest) + {last} == set f | f in rest; }
    }
  }

  lemma DistinctExtends(files: seq<bytes>, last: bytes)
    ensures Distinct(files + [last]) <==> Distinct(files) && last !in files
  {
    var more := files + [last];
    assert forall i :: 0 <= i < |files| ==> more[i] == files[i];
    assert more[|files|] == last;
    if last in files {
      var i :| 0 <= i < |files| && files[i] == last;
      assert more[i] == more[|files|];
    }
  }

  /** Exact cover: every file is in exactly one shard, each shard is in path order without
      repetition, and nothing else is in any of them. */
  lemma PartitionCovers(files: seq<bytes>, shardCount: nat, weights: Weights)
    requires shardCount >= 1 && Distinct(files)
    ensures var shards := Partition(files, shardCount, weights);
      && (forall f :: f in files <==> exists k :: 0 <= k < shardCount && f in shards[k])
      && (forall f, k, l :: 0 <= k < shardCount && 0 <= l < shardCount && f in shards[k] && f in shards[l] ==> k == l)
      && (forall k :: 0 <= k < shardCount ==> Sorted(shards[k], LexLess))
  {
    hide Shard, Greedy, LexLess, Sort;
    var ordered := Ordered(files, weights);
    var a := Greedy(WeightsOf(ordered, weights), shardCount);
    var shards := Partition(files, shardCount, weights);
    OrderedDistinct(files, weights);
    SortMembers(files, (a, b) => Before(weights, a, b));
    forall f, k | 0 <= k < shardCount
      ensures f in shards[k] <==> exists i :: 0 <= i < |ordered| && ordered[i] == f && a[i] == k
    {
      SortMembers(Shard(ordered, a, k), LexLess);
      ShardMembers(ordered, a, k, f);
    }
    forall f | f in files
      ensures exists k :: 0 <= k < shardCount && f in shards[k]
    {
      assert f in ordered;
      var i :| 0 <= i < |ordered| && ordered[i] == f;
      assert f in shards[a[i]];
    }
    LexIsOrder();
    forall k | 0 <= k < shardCount
      ensures Sorted(shards[k], LexLess)
    {
      ShardDistinct(ordered, a, k);
      LexCompares(Shard(ordered, a, k));
      SortSorted(Shard(ordered, a, k), LexLess);
    }
  }

  lemma LexCompares(names: seq<bytes>)
    ensures Comparable(names, LexLess)
  {
    hide LexLess;
    forall x, y | x in names && y in names
      ensures x == y || LexLess(x, y) || LexLess(y, x)
    {
      LexTrichotomy(x, y);
    }
  }

  lemma OrderedDistinct(files: seq<bytes>, weights: Weights)
    requires Distinct(files)
    ensures Distinct(Ordered(files, weights)) && |Ordered(files, weights)| == |files|
  {
    hide LexLess, Sort;
    var less := (a, b) => Before(weights, a, b);
    BeforeIsOrder(weights);
    BeforeCompares(files, weights);
    SortSorted(files, less);
    SortKeeps(files, less);
    var ordered := Ordered(files, weights);
    forall i, j | 0 <= i < j < |ordered| ensures ordered[i] != ordered[j] {
      assert less(ordered[i], ordered[j]);
    }
  }

  /** In the first round every machine is still idle, so job `i` goes to machine `i`. */
  lemma {:induction false} FirstRound(ws: seq<nat>, machines: nat)
    requires machines >= 1 && |ws| <= machines && forall i :: 0 <= i < |ws| ==> ws[i] >= 1
    ensures forall i :: 0 <= i < |ws| ==> Greedy(ws, machines)[i] == i
    ensures forall k :: 0 <= k < machines ==>
      (k < |ws| ==> Load(ws, Greedy(ws, machines), k) >= 1) && (k >= |ws| ==> Load(ws, Greedy(ws, machines), k) == 0)
  {
    if ws != [] {
      var n := |ws| - 1;
      FirstRound(ws[..n], machines);
      var a := Greedy(ws, machines);
      var loads := Loads(ws[..n], Greedy(ws[..n], machines), machines);
      assert loads[n] == 0;
      assert forall i :: 0 <= i < n ==> loads[i] >= 1;
      assert a[n] == LeastLoaded(loads) == n;
      assert a[..n] == Greedy(ws[..n], machines);
    }
  }

  /** With at least as many files as shards, no shard is empty. */
  lemma NoEmptyShard(files: seq<bytes>, shardCount: nat, weights: Weights, k: nat)
    requires 1 <= shardCount <= |files| && k < shardCount && Distinct(files)
    requires forall f :: f in files ==> WeightOf(weights, f) >= 1
    ensures Partition(files, shardCount, weights)[k] != []
  {
    hide Shard, Greedy, LexLess, Sort;
    var ordered := Ordered(files, weights);
    var ws := WeightsOf(ordered, weights);
    var a := Greedy(ws, shardCount);
    OrderedDistinct(files, weights);
    SortMembers(files, (a, b) => Before(weights, a, b));
    forall i | 0 <= i < |ws| ensures ws[i] >= 1 {
      assert ordered[i] in ordered;
    }
    GreedyPrefix(ws, shardCount, shardCount);
    FirstRound(ws[..shardCount], shardCount);
    assert a[..shardCount][k] == k;
    ShardMembers(ordered, a, k, ordered[k]);
    SortMembers(Shard(ordered, a, k), LexLess);
  }

  /** The order in which the files are given does not matter. */
  lemma PartitionOrderFree(files: seq<bytes>, files': seq<bytes>, shardCount: nat, weights: Weights)
    requires shardCount >= 1 && Distinct(files) && Distinct(files') && forall f :: f in files <==> f in files'
    ensures Partition(files, shardCount, weights) == Partition(files', shardCount, weights)
  {
    hide LexLess, Sort;
    BeforeIsOrder(weights);
    BeforeCompares(files, weights);
    SortOrderFree(files, files', (a, b) => Before(weights, a, b));
  }

  // ---- the bound, on files ----

  function Weighing(weights: Weights): bytes -> nat {
    f => WeightOf(weights, f)
  }

  function Work(files: seq<bytes>, weights: Weights): nat {
    SumOf(files, Weighing(weights))
  }

  lemma {:induction false} WorkOfShard(files: seq<bytes>, a: seq<nat>, k: nat, weights: Weights)
    requires |files| == |a|
    ensures Work(Shard(files, a, k), weights) == Load(WeightsOf(files, weights), a, k)
  {
    if files != [] {
      var n := |files| - 1;
      WorkOfShard(files[..n], a[..n], k, weights);
      assert WeightsOf(files, weights)[..n] == WeightsOf(files[..n], weights);
      var one := [files[n]];
      assert one[1..] == [];
      var earlier := Shard(files[..n], a[..n], k);
      Sums.SumConcat(earlier, one, Weighing(weights));
      assert SumOf(one, Weighing(weights)) == WeightOf(weights, files[n]) + SumOf(one[1..], Weighing(weights));
      assert earlier + [] == earlier;
    }
  }

  /** The work another assignment of the same files gives to shard `q`. */
  function OwnedWork(files: seq<bytes>, owner: bytes -> nat, weights: Weights, q: nat): nat {
    SumOf(files, OwnerCost(owner, Weighing(weights), q))
  }

  function Owners(files: seq<bytes>, owner: bytes -> nat): (a: seq<nat>)
    ensures |a| == |files| && forall i :: 0 <= i < |a| ==> a[i] == owner(files[i])
  {
    seq(|files|, i requires 0 <= i < |files| => owner(files[i]))
  }

  lemma {:induction false} OwnedIsLoad(files: seq<bytes>, owner: bytes -> nat, weights: Weights, q: nat)
    ensures OwnedWork(files, owner, weights, q) == Load(WeightsOf(files, weights), Owners(files, owner), q)
  {
    if files != [] {
      var n := |files| - 1;
      OwnedIsLoad(files[..n], owner, weights, q);
      assert WeightsOf(files, weights)[..n] == WeightsOf(files[..n], weights);
      assert Owners(files, owner)[..n] == Owners(files[..n], owner);
      var one := [files[n]];
      assert one[1..] == [];
      var owned := OwnerCost(owner, Weighing(weights), q);
      Sums.SumConcat(files[..n], one, owned);
      assert SumOf(one, owned) == owned(files[n]) + SumOf(one[1..], owned);
      assert files == files[..n] + one;
    }
  }

  /** However else the files are spread over the same number of shards, the heaviest shard
      of the partition is within 4/3 - 1/(3m) of the heaviest one there. */
  lemma PartitionBound(files: seq<bytes>, shardCount: nat, weights: Weights, owner: bytes -> nat, makespan: nat, k: nat)
    requires 1 <= shardCount && k < shardCount && Distinct(files)
    requires forall f :: f in files ==> owner(f) < shardCount
    requires forall q :: 0 <= q < shardCount ==> OwnedWork(files, owner, weights, q) <= makespan
    ensures 3 * shardCount * Work(Partition(files, shardCount, weights)[k], weights) <= (4 * shardCount - 1) * makespan
  {
    hide Shard, Greedy, LexLess, Sort, Load;
    var less := (a, b) => Before(weights, a, b);
    var ordered := Ordered(files, weights);
    var ws := WeightsOf(ordered, weights);
    var a, other := Greedy(ws, shardCount), Owners(ordered, owner);
    SortMembers(files, less);
    forall i | 0 <= i < |other| ensures other[i] < shardCount {
      assert ordered[i] in ordered;
    }
    forall q | 0 <= q < shardCount
      ensures Load(ws, other, q) <= makespan
    {
      SumSorted(files, less, OwnerCost(owner, Weighing(weights), q));
      assert OwnedWork(ordered, owner, weights, q) == OwnedWork(files, owner, weights, q) <= makespan;
      OwnedIsLoad(ordered, owner, weights, q);
    }
    OrderedDescends(files, weights);
    LongestFirstBound(ws, shardCount, other, makespan, k);
    WorkOfShard(ordered, a, k, weights);
    SumSorted(Shard(ordered, a, k), LexLess, Weighing(weights));
  }

  // ---- the promises, on the inputs of the call ----

  lemma WeightsAreCosts(files: seq<bytes>, weights: Option<map<bytes, int>>, size: bytes -> nat)
    requires weights.Some? ==> forall f :: f in files ==> f in weights.value && weights.value[f] >= 1
    ensures forall f :: f in files ==> WeightOf(NormalizedWeights(files, weights, size), f) == Cost(weights, size)(f)
  {
  }

  /** The files before index `i` of the order are those that are placed earlier. */
  lemma OrderIsEarlier(files: seq<bytes>, weights: Weights, cost: bytes -> nat, i: nat, j: nat)
    requires Distinct(files) && forall f :: f in files ==> WeightOf(weights, f) == cost(f)
    requires i < |Ordered(files, weights)| && j < |Ordered(files, weights)|
    ensures Earlier(Ordered(files, weights)[j], Ordered(files, weights)[i], cost) <==> j < i
  {
    hide LexLess, Sort, Precedes;
    var less, ordered := (a, b) => Before(weights, a, b), Ordered(files, weights);
    BeforeIsOrder(weights);
    BeforeCompares(files, weights);
    SortSorted(files, less);
    SortMembers(files, less);
    assert ordered[i] in ordered && ordered[j] in ordered;
    LexIsPrecedes(ordered[j], ordered[i]);
    assert j < i ==> less(ordered[j], ordered[i]);
    assert i < j ==> less(ordered[i], ordered[j]);
    LexTrichotomy(ordered[j], ordered[i]);
  }

  /** What a shard carries of the files before index `i` is its load when file `i` is placed. */
  lemma {:induction false} LoadBefore(files: seq<bytes>, a: seq<nat>, ws: seq<nat>, cost: bytes -> nat, i: nat, l: nat, n: nat)
    requires |files| == |a| == |ws| && i < |files| && n <= |files|
    requires forall j :: 0 <= j < |files| ==> ws[j] == cost(files[j]) && (Earlier(files[j], files[i], cost) <==> j < i)
    ensures var m := if n < i then n else i;
      SumOf(Shard(files[..n], a[..n], l), EarlierCost(files[i], cost)) == Load(ws[..m], a[..m], l)
  {
    hide Earlier;
    if n > 0 {
      LoadBefore(files, a, ws, cost, i, l, n - 1);
      var before, f := Shard(files[..n - 1], a[..n - 1], l), EarlierCost(files[i], cost);
      assert files[..n][..n - 1] == files[..n - 1] && a[..n][..n - 1] == a[..n - 1];
      if a[n - 1] == l {
        SumExtend(before, files[n - 1], f);
      } else {
        assert before + [] == before;
      }
      if n <= i { assert ws[..n][..n - 1] == ws[..n - 1]; }
    }
  }

  /** When the greedy loop placed job `j`, no earlier machine was as little loaded. */
  lemma GreedyTie(ws: seq<nat>, machines: nat, j: nat, q: nat)
    requires machines >= 1 && j < |ws| && q < Greedy(ws, machines)[j]
    ensures var a := Greedy(ws, machines);
      Load(ws[..j], a[..j], a[j]) < Load(ws[..j], a[..j], q)
  {
    var a := Greedy(ws, machines);
    GreedyPrefix(ws, machines, j);
    GreedyPrefix(ws, machines, j + 1);
    assert ws[..j + 1][..j] == ws[..j];
    assert a[..j + 1][j] == a[j];
    var loads := Loads(ws[..j], a[..j], machines);
    assert a[j] == LeastLoaded(loads);
    assert loads[a[j]] < loads[q];
  }

  lemma PartitionLeastLoaded(files: seq<bytes>, shardCount: nat, weights: Weights, cost: bytes -> nat, f: bytes, k: nat, l: nat)
    requires shardCount >= 1 && Distinct(files) && forall g :: g in files ==> WeightOf(weights, g) == cost(g)
    requires k < shardCount && l < shardCount && f in Partition(files, shardCount, weights)[k]
    ensures var shards := Partition(files, shardCount, weights);
      var own, other := SumOf(shards[k], EarlierCost(f, cost)), SumOf(shards[l], EarlierCost(f, cost));
      own < other || (own == other && k <= l)
  {
    hide Shard, Greedy, LexLess, Sort, Load, Earlier, EarlierCost, Ordered;
    var ordered := Ordered(files, weights);
    var ws := WeightsOf(ordered, weights);
    var a := Greedy(ws, shardCount);
    OrderedDistinct(files, weights);
    OrderedMembers(files, weights);
    SortMembers(Shard(ordered, a, k), LexLess);
    ShardMembers(ordered, a, k, f);
    var i :| 0 <= i < |ordered| && ordered[i] == f && a[i] == k;
    forall j | 0 <= j < |ordered| ensures ws[j] == cost(ordered[j]) && (Earlier(ordered[j], ordered[i], cost) <==> j < i) {
      assert ordered[j] in ordered;
      OrderIsEarlier(files, weights, cost, i, j);
    }
    LoadBefore(ordered, a, ws, cost, i, k, |ordered|);
    LoadBefore(ordered, a, ws, cost, i, l, |ordered|);
    assert ordered[..|ordered|] == ordered && a[..|ordered|] == a;
    SumSorted(Shard(ordered, a, k), LexLess, EarlierCost(f, cost));
    SumSorted(Shard(ordered, a, l), LexLess, EarlierCost(f, cost));
    GreedyChoice(ws, shardCount, i, l);
    if l < k { GreedyTie(ws, shardCount, i, l); }
  }

  lemma OrderedMembers(files: seq<bytes>, weights: Weights)
    ensures forall f :: f in Ordered(files, weights) <==> f in files
  {
    SortMembers(files, (a, b) => Before(weights, a, b));
  }

  lemma PartitionPromises(files: seq<bytes>, shardCount: nat, weights: Weights, cost: bytes -> nat)
    requires shardCount >= 1 && Distinct(files) && forall f :: f in files ==> WeightOf(weights, f) == cost(f)
    ensures var shards := Partition(files, shardCount, weights);
      Covers(shards, files) && LeastLoadedEach(shards, cost) && NearOptimal(shards, files, cost)
  {
    hide Partition, EarlierCost, Spread;
    var shards := Partition(files, shardCount, weights);
    PartitionIsCover(files, shardCount, weights);
    hide Covers;
    forall f, k: nat, l: nat | k < |shards| && l < |shards| && f in shards[k]
      ensures var own, other := SumOf(shards[k], EarlierCost(f, cost)), SumOf(shards[l], EarlierCost(f, cost));
        own < other || (own == other && k <= l)
    {
      PartitionLeastLoaded(files, shardCount, weights, cost, f, k, l);
    }
    forall owner: bytes -> nat, makespan: nat, k: nat | k < |shards| && Spread(files, owner, cost, |shards|, makespan)
      ensures 3 * |shards| * SumOf(shards[k], cost) <= (4 * |shards| - 1) * makespan
    {
      SpreadBound(files, shardCount, weights, cost, owner, makespan, k);
    }
  }

  lemma PartitionIsCover(files: seq<bytes>, shardCount: nat, weights: Weights)
    requires shardCount >= 1 && Distinct(files)
    ensures Covers(Partition(files, shardCount, weights), files)
  {
    hide Partition, LexLess, Precedes;
    var shards := Partition(files, shardCount, weights);
    PartitionCovers(files, shardCount, weights);
    forall k, i, j | 0 <= k < |shards| && 0 <= i < j < |shards[k]| ensures Precedes(shards[k][i], shards[k][j]) {
      LexIsPrecedes(shards[k][i], shards[k][j]);
    }
  }

  lemma SpreadBound(files: seq<bytes>, shardCount: nat, weights: Weights, cost: bytes -> nat, owner: bytes -> nat, makespan: nat, k: nat)
    requires shardCount >= 1 && Distinct(files) && k < shardCount && forall f :: f in files ==> WeightOf(weights, f) == cost(f)
    requires Spread(files, owner, cost, shardCount, makespan)
    ensures 3 * shardCount * SumOf(Partition(files, shardCount, weights)[k], cost) <= (4 * shardCount - 1) * makespan
  {
    hide Partition, LexLess;
    var shard := Partition(files, shardCount, weights)[k];
    forall q: nat | q < shardCount ensures OwnedWork(files, owner, weights, q) <= makespan {
      SumSame(files, OwnerCost(owner, cost, q), OwnerCost(owner, Weighing(weights), q));
    }
    PartitionBound(files, shardCount, weights, owner, makespan, k);
    PartitionCovers(files, shardCount, weights);
    SumSame(shard, cost, Weighing(weights));
  }
}
