/** What a partition of files into shards promises, said of the files, their costs and the shards
    alone. */
module ShardPromises {
  import opened Outcomes
  import opened Bytes
  import opened Sums

  /** A file's cost: its given weight, or its size but at least one. */
  function Cost(weights: Option<map<bytes, int>>, size: bytes -> nat): bytes -> nat {
    f =>
      if weights.None? then (if size(f) < 1 then 1 else size(f))
      else if f in weights.value && weights.value[f] >= 0 then weights.value[f] else 0
  }

  /** Heavier first, then by path. */
  predicate Earlier(g: bytes, f: bytes, cost: bytes -> nat) {
    cost(g) > cost(f) || (cost(g) == cost(f) && Precedes(g, f))
  }

  /** The cost of a file that is placed before `f`, and nothing for any other. */
  function EarlierCost(f: bytes, cost: bytes -> nat): bytes -> nat {
    g => if Earlier(g, f, cost) then cost(g) else 0
  }

  function OwnerCost(owner: bytes -> nat, cost: bytes -> nat, q: nat): bytes -> nat {
    f => if owner(f) == q then cost(f) else 0
  }

  /** Every file is in exactly one shard, nothing else is in any, and each is in path order. */
  ghost predicate Covers(shards: seq<seq<bytes>>, files: seq<bytes>) {
    && (forall f :: f in files <==> exists k :: 0 <= k < |shards| && f in shards[k])
    && (forall f, k, l :: 0 <= k < |shards| && 0 <= l < |shards| && f in shards[k] && f in shards[l] ==> k == l)
    && (forall k, i, j :: 0 <= k < |shards| && 0 <= i < j < |shards[k]| ==> Precedes(shards[k][i], shards[k][j]))
  }

  /** Among the files placed before it, each file's shard carried the least, and was the first to. */
  ghost predicate LeastLoadedEach(shards: seq<seq<bytes>>, cost: bytes -> nat) {
    forall f, k: nat, l: nat :: k < |shards| && l < |shards| && f in shards[k] ==>
      var own, other := SumOf(shards[k], EarlierCost(f, cost)), SumOf(shards[l], EarlierCost(f, cost));
      own < other || (own == other && k <= l)
  }

  /** This other spread of the files over `m` shards keeps every shard within `makespan`. */
  ghost predicate Spread(files: seq<bytes>, owner: bytes -> nat, cost: bytes -> nat, m: nat, makespan: nat) {
    && (forall f :: f in files ==> owner(f) < m)
    && forall q: nat :: q < m ==> SumOf(files, OwnerCost(owner, cost, q)) <= makespan
  }

  /** No shard costs more than 4/3 - 1/(3m) of what any other spread must allow. */
  ghost predicate NearOptimal(shards: seq<seq<bytes>>, files: seq<bytes>, cost: bytes -> nat) {
    forall owner: bytes -> nat, makespan: nat, k: nat :: k < |shards| && Spread(files, owner, cost, |shards|, makespan) ==>
      3 * |shards| * SumOf(shards[k], cost) <= (4 * |shards| - 1) * makespan
  }
}
