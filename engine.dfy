/**
 * The arithmetic of `main` around the workers (cmd/main.c:132-134,
 * 166-175, 188-198): partition the lines, run `process` for every shard in
 * shard order, then divide the total by the count when the count is
 * positive and format the average.
 */
module Engine {
  import opened Arith
  import opened Int512
  import opened Int512Add
  import opened Int512Div
  import opened Int512Format
  import opened Partition
  import opened Worker

  /** The largest value of the C `int` that holds the line count. */
  const INT_MAX: nat := 0x7fff_ffff

  /** Every shard lies within the `n` lines. */
  predicate ShardsWithin(shards: seq<Shard>, n: nat)
  {
    forall i :: 0 <= i < |shards| ==> 0 <= shards[i].start <= shards[i].end <= n
  }

  function ShardLines(numbers: seq<Line>, s: Shard): seq<Line>
    requires 0 <= s.start <= s.end <= |numbers|
  {
    numbers[s.start..s.end]
  }

  /** `total_sum` after the first `k` shards have been merged in index order. */
  function MergedSum(numbers: seq<Line>, shards: seq<Shard>, k: nat): Int512
    requires ShardsWithin(shards, |numbers|) && k <= |shards|
  {
    if k == 0 then Zero
    else Add(MergedSum(numbers, shards, k - 1), FoldSum(ShardLines(numbers, shards[k - 1])))
  }

  /** `total_count` after the first `k` shards have been merged. */
  function MergedCount(numbers: seq<Line>, shards: seq<Shard>, k: nat): nat
    requires ShardsWithin(shards, |numbers|) && k <= |shards|
  {
    if k == 0 then 0
    else MergedCount(numbers, shards, k - 1) + CountPresent(ShardLines(numbers, shards[k - 1]))
  }

  /** Neither a worker's fold nor a merge of the first `k` shards loses a carry. */
  predicate MergeExact(numbers: seq<Line>, shards: seq<Shard>, k: nat)
    requires ShardsWithin(shards, |numbers|) && k <= |shards|
  {
    k == 0 ||
    var last := ShardLines(numbers, shards[k - 1]);
    && MergeExact(numbers, shards, k - 1)
    && FoldExact(last)
    && AddIsExact(MergedSum(numbers, shards, k - 1), FoldSum(last))
  }

  /** The shards `main` hands to its `t` threads for `n` lines. */
  function AllShards(n: nat, t: nat): (r: seq<Shard>)
    requires t >= 1
    ensures |r| == t
  {
    seq(t, i requires 0 <= i < t => ShardOf(n, t, i))
  }

  /** What `main` prints as the average: zero without input, else the rounded quotient. */
  function Average(totalSum: Int512, totalCount: int): Int512
  {
    if totalCount > 0 then DivRound(totalSum, totalCount) else Zero
  }

  /** Every shard start lies in `[0, n]`. */
  lemma StartWithin(n: nat, t: nat, k: nat)
    requires 1 <= t && k <= t
    ensures ShardStart(n, t, k) <= n
  {
    MulMonotone(t, k, n / t);
    assert n == t * (n / t) + n % t;
  }

  /** Shards that lie within `[0, n)`, the first starting at 0 and each starting where the previous one ended. */
  ghost predicate Tiling(shards: seq<Shard>, n: nat)
  {
    && ShardsWithin(shards, n)
    && (|shards| > 0 ==> shards[0].start == 0 && shards[|shards| - 1].end == n)
    && (forall i {:trigger shards[i].end} :: 0 <= i < |shards| - 1 ==> shards[i].end == shards[i + 1].start)
  }

  /** The partition of `main` tiles the lines. */
  lemma AllShardsTile(n: nat, t: nat)
    requires t >= 1
    ensures Tiling(AllShards(n, t), n)
  {
    var shards := AllShards(n, t);
    forall i | 0 <= i < t
      ensures 0 <= shards[i].start <= shards[i].end <= n
    {
      StartStep(n, t, i);
      StartWithin(n, t, i + 1);
    }
    ShardsCover(n, t);
  }

  /** How far the first `k` shards of a tiling reach. */
  function Covered(shards: seq<Shard>, k: nat): int
    requires k <= |shards|
  {
    if k == 0 then 0 else shards[k - 1].end
  }

  /** Shard `k - 1` of a tiling covers the lines from `Covered(shards, k - 1)` to `Covered(shards, k)`. */
  lemma CoveredStep(shards: seq<Shard>, n: nat, k: nat)
    requires Tiling(shards, n) && 0 < k <= |shards|
    ensures 0 <= Covered(shards, k - 1) == shards[k - 1].start <= Covered(shards, k) == shards[k - 1].end <= n
  {
    if k > 1 {
      assert shards[k - 2].end == shards[k - 1].start;
    }
  }

  /** The first `k` shards of a tiling count the lines they reach. */
  lemma {:induction false} MergedCountPrefix(numbers: seq<Line>, shards: seq<Shard>, k: nat)
    requires Tiling(shards, |numbers|) && k <= |shards|
    ensures 0 <= Covered(shards, k) <= |numbers|
    ensures MergedCount(numbers, shards, k) == CountPresent(numbers[..Covered(shards, k)])
  {
    if k == 0 {
      assert numbers[..0] == [];
    } else {
      MergedCountPrefix(numbers, shards, k - 1);
      CoveredStep(shards, |numbers|, k);
      var a, b := Covered(shards, k - 1), Covered(shards, k);
      assert numbers[..b] == numbers[..a] + numbers[a..b];
      CountPresentConcat(numbers[..a], numbers[a..b]);
    }
  }

  /** Over a tiling, `total_count` is the number of non-NULL lines. */
  lemma MergedCountAll(numbers: seq<Line>, shards: seq<Shard>)
    requires Tiling(shards, |numbers|) && |shards| > 0
    ensures MergedCount(numbers, shards, |shards|) == CountPresent(numbers)
  {
    MergedCountPrefix(numbers, shards, |shards|);
    assert numbers[..|numbers|] == numbers;
  }

  lemma {:induction false} SumValuesConcat(xs: seq<Line>, ys: seq<Line>)
    ensures SumValues(xs + ys) == SumValues(xs) + SumValues(ys)
  {
    if |ys| > 0 {
      var n := |ys| - 1;
      assert (xs + ys)[..|xs + ys| - 1] == xs + ys[..n];
      SumValuesConcat(xs, ys[..n]);
    } else {
      assert xs + ys == xs;
    }
  }

  lemma ModSum(a: nat, b: nat, m: nat)
    requires m > 0
    ensures (a % m + b % m) % m == (a + b) % m
  {
    ModAddMod(a, b % m, m);
    ModAddMod(b, a, m);
  }

  /** One exact merge adds the exact sum of the shard's lines. */
  lemma MergeStep(prevSum: Int512, prevValues: nat, last: seq<Line>, values: nat)
    requires Val(prevSum) == prevValues % TWO512 && values == prevValues + SumValues(last)
    requires FoldExact(last) && AddIsExact(prevSum, FoldSum(last))
    ensures Val(Add(prevSum, FoldSum(last))) == values % TWO512
  {
    FoldSumValue(last);
    AddValue(prevSum, FoldSum(last));
    ModSum(prevValues, SumValues(last), TWO512);
  }

  lemma SumValuesSplit(numbers: seq<Line>, a: nat, b: nat)
    requires a <= b <= |numbers|
    ensures SumValues(numbers[..b]) == SumValues(numbers[..a]) + SumValues(numbers[a..b])
  {
    assert numbers[..b] == numbers[..a] + numbers[a..b];
    SumValuesConcat(numbers[..a], numbers[a..b]);
  }

  /** Merging shard `k - 1` of a tiling adds the fold of the lines between the two previous reaches. */
  lemma LastMerge(numbers: seq<Line>, shards: seq<Shard>, k: nat)
    requires Tiling(shards, |numbers|) && 0 < k <= |shards|
    requires MergeExact(numbers, shards, k)
    ensures 0 <= Covered(shards, k - 1) <= Covered(shards, k) <= |numbers|
    ensures MergeExact(numbers, shards, k - 1)
    ensures var last := numbers[Covered(shards, k - 1)..Covered(shards, k)];
            && FoldExact(last)
            && AddIsExact(MergedSum(numbers, shards, k - 1), FoldSum(last))
            && MergedSum(numbers, shards, k) == Add(MergedSum(numbers, shards, k - 1), FoldSum(last))
  {
    CoveredStep(shards, |numbers|, k);
  }

  /** Without a lost carry the first `k` merges give the exact sum of the lines they reach, modulo 2^512. */
  lemma {:induction false} MergedSumPrefix(numbers: seq<Line>, shards: seq<Shard>, k: nat)
    requires Tiling(shards, |numbers|) && k <= |shards|
    requires MergeExact(numbers, shards, k)
    ensures 0 <= Covered(shards, k) <= |numbers|
    ensures Val(MergedSum(numbers, shards, k)) == SumValues(numbers[..Covered(shards, k)]) % TWO512
  {
    if k == 0 {
      assert numbers[..0] == [];
      ValZero();
      assert SumValues(numbers[..0]) == 0;
      assert Val(MergedSum(numbers, shards, 0)) == 0;
    } else {
      LastMerge(numbers, shards, k);
      MergedSumPrefix(numbers, shards, k - 1);
      var a, b := Covered(shards, k - 1), Covered(shards, k);
      var prev, last := MergedSum(numbers, shards, k - 1), numbers[a..b];
      SumValuesSplit(numbers, a, b);
      MergeStep(prev, SumValues(numbers[..a]), last, SumValues(numbers[..b]));
      assert MergedSum(numbers, shards, k) == Add(prev, FoldSum(last));
    }
  }

  /**
   * Without a lost carry `total_sum` is the exact sum of all lines modulo
   * 2^512, for every tiling and so for every thread count.
   */
  lemma MergedSumAll(numbers: seq<Line>, shards: seq<Shard>)
    requires Tiling(shards, |numbers|) && |shards| > 0
    requires MergeExact(numbers, shards, |shards|)
    ensures Val(MergedSum(numbers, shards, |shards|)) == SumValues(numbers) % TWO512
  {
    MergedSumPrefix(numbers, shards, |shards|);
    assert numbers[..|numbers|] == numbers;
  }

  /** A positive count gives the nearest integer to `Val(sum) / count`, halves going up; otherwise zero. */
  lemma AverageNearest(totalSum: Int512, totalCount: int, r: nat)
    ensures totalCount <= 0 ==> Average(totalSum, totalCount) == Zero
    ensures totalCount > 0 ==> (r == Val(Average(totalSum, totalCount)) <==> Nearest(Val(totalSum), totalCount, r))
  {
    if totalCount > 0 {
      DivRoundNearest(totalSum, totalCount, r);
    }
  }

  /** The threads of `main`, one after another in shard order, each running `process`. */
  method RunWorkers(numbers: seq<Line>, shards: seq<Shard>) returns (totalSum: Int512, totalCount: int)
    requires ShardsWithin(shards, |numbers|)
    ensures totalSum == MergedSum(numbers, shards, |shards|)
    ensures totalCount == MergedCount(numbers, shards, |shards|)
  {
    var totals := new Totals();
    for i := 0 to |shards|
      invariant totals.totalSum == MergedSum(numbers, shards, i)
      invariant totals.totalCount == MergedCount(numbers, shards, i)
    {
      Process(numbers, shards[i], totals);
    }
    totalSum := totals.totalSum;
    totalCount := totals.totalCount;
  }

  /** The finalize step of `main` (cmd/main.c:195-198). */
  method Finalize(totalSum: Int512, totalCount: int) returns (average: Int512)
    requires totalCount <= TWO63
    ensures average == Average(totalSum, totalCount)
  {
    average := Zero;
    if totalCount > 0 {
      average := Int512Div.Int512Div(totalSum, totalCount);
    }
  }

  /**
   * The arithmetic of `main` from the line array to the text printed as the
   * average: partition, workers, finalize and `int512_to_hex`.
   */
  method ComputeAverage(numbers: seq<Line>, maxThreads: nat) returns (totalCount: int, averageHex: string)
    requires 1 <= |numbers| <= INT_MAX && maxThreads >= 1
    ensures totalCount == CountPresent(numbers)
    ensures var shards := AllShards(|numbers|, NumThreads(|numbers|, maxThreads));
            ShardsWithin(shards, |numbers|) &&
            averageHex == Format(Average(MergedSum(numbers, shards, |shards|), totalCount)) + ['\0']
  {
    var shards := Partition.Partition(|numbers|, maxThreads);
    NumThreadsBounds(|numbers|, maxThreads);
    assert shards == AllShards(|numbers|, |shards|);
    AllShardsTile(|numbers|, |shards|);
    MergedCountAll(numbers, shards);
    var totalSum;
    totalSum, totalCount := RunWorkers(numbers, shards);
    var average := Finalize(totalSum, totalCount);
    averageHex := Int512ToHex(average);
  }
}
