/**
 * How `main` splits the `n` input lines among worker threads
 * (cmd/main.c:132-134 and 166-175): `min(n, max_threads)` threads, the first
 * `n % num_threads` of them taking one line more than the others, shard `i`
 * starting where shard `i - 1` ended.
 */
module Partition {

  /** The half-open index range `[start, end)` given to one thread. */
  datatype Shard = Shard(start: int, end: int)

  /** `num_threads`: the smaller of the line count and the thread limit. */
  function NumThreads(n: nat, maxThreads: nat): nat
  {
    if n < maxThreads then n else maxThreads
  }

  lemma NumThreadsBounds(n: nat, maxThreads: nat)
    requires n >= 1 && maxThreads >= 1
    ensures 1 <= NumThreads(n, maxThreads) <= n && NumThreads(n, maxThreads) <= maxThreads
    ensures NumThreads(n, maxThreads) == n || NumThreads(n, maxThreads) == maxThreads
  {
  }

  /** Number of lines of shard `i`: `numbers_per_thread`, plus one for the first `remainder` shards. */
  function ShardSize(n: nat, t: nat, i: nat): nat
    requires t >= 1
  {
    n / t + (if i < n % t then 1 else 0)
  }

  /** Where shard `i` starts, in closed form: `i` full shares plus one line for each earlier long shard. */
  function ShardStart(n: nat, t: nat, i: nat): nat
    requires t >= 1
  {
    i * (n / t) + (if i < n % t then i else n % t)
  }

  /** The shard the loop builds for thread `i`. */
  function ShardOf(n: nat, t: nat, i: nat): Shard
    requires t >= 1
  {
    Shard(ShardStart(n, t, i), ShardStart(n, t, i + 1))
  }

  /** Consecutive starts differ by the size of the shard between them. */
  lemma StartStep(n: nat, t: nat, i: nat)
    requires t >= 1
    ensures ShardStart(n, t, i + 1) == ShardStart(n, t, i) + ShardSize(n, t, i)
  {
    assert (i + 1) * (n / t) == i * (n / t) + n / t;
  }

  /** The shards tile `[0, n)`: the first starts at 0 and the last ends at `n`. */
  lemma ShardsCover(n: nat, t: nat)
    requires t >= 1
    ensures ShardStart(n, t, 0) == 0 && ShardStart(n, t, t) == n
  {
    assert n == t * (n / t) + n % t;
  }

  /** Each shard has `n / t` or `n / t + 1` lines, so sizes differ by at most one, and none is empty. */
  lemma ShardSizes(n: nat, t: nat, i: nat, j: nat)
    requires 1 <= t <= n && i < t && j < t
    ensures n / t <= ShardSize(n, t, i) <= n / t + 1
    ensures ShardSize(n, t, i) >= 1
    ensures ShardSize(n, t, i) - ShardSize(n, t, j) <= 1
    ensures i < j ==> ShardSize(n, t, i) >= ShardSize(n, t, j)
  {
    assert n == t * (n / t) + n % t;
  }

  /** The sizes of the first `k` shards. */
  function SizeSum(n: nat, t: nat, k: nat): nat
    requires t >= 1
  {
    if k == 0 then 0 else SizeSum(n, t, k - 1) + ShardSize(n, t, k - 1)
  }

  /** The sizes of all `t` shards add up to `n`. */
  lemma {:induction false} SizesSum(n: nat, t: nat, k: nat)
    requires t >= 1
    ensures SizeSum(n, t, k) == ShardStart(n, t, k)
    ensures k == t ==> SizeSum(n, t, k) == n
  {
    if k > 0 {
      SizesSum(n, t, k - 1);
      StartStep(n, t, k - 1);
    }
    ShardsCover(n, t);
  }

  /**
   * The partition loop of `main`: `num_threads` entries, entry `i` running
   * from `current_start` to `current_start + numbers_per_thread + (i < remainder)`.
   */
  method Partition(n: nat, maxThreads: nat) returns (shards: seq<Shard>)
    requires n >= 1 && maxThreads >= 1
    ensures |shards| == NumThreads(n, maxThreads)
    ensures forall i :: 0 <= i < |shards| ==> shards[i] == ShardOf(n, |shards|, i)
    ensures shards[0].start == 0 && shards[|shards| - 1].end == n
    ensures forall i :: 0 <= i < |shards| - 1 ==> shards[i].end == shards[i + 1].start
    ensures forall i :: 0 <= i < |shards| ==> shards[i].end - shards[i].start == ShardSize(n, |shards|, i)
  {
    var numThreads := if n < maxThreads then n else maxThreads;
    var numbersPerThread := n / numThreads;
    var remainder := n % numThreads;
    var threadData := new Shard[numThreads](_ => Shard(0, 0));
    var currentStart := 0;
    for i := 0 to numThreads
      invariant currentStart == ShardStart(n, numThreads, i)
      invariant forall k :: 0 <= k < i ==> threadData[k] == ShardOf(n, numThreads, k)
    {
      StartStep(n, numThreads, i);
      threadData[i] := Shard(currentStart, currentStart + numbersPerThread + (if i < remainder then 1 else 0));
      currentStart := threadData[i].end;
    }
    shards := threadData[..];
    ShardsCover(n, numThreads);
    forall i | 0 <= i < numThreads
      ensures shards[i].end - shards[i].start == ShardSize(n, numThreads, i)
    {
      StartStep(n, numThreads, i);
    }
  }
}
