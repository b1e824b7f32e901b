/**
 * The worker thread `process` (cmd/main.c:20-47): it parses and adds up the
 * non-NULL lines of its shard into a local sum and count, starting from
 * zero, then adds both into the shared totals under the mutex.
 */
module Worker {
  import opened Int512
  import opened Int512Add
  import opened Int512Parse
  import opened Partition

  datatype Option<T> = None | Some(value: T)

  /** An entry of the `numbers` array: a line of the input, or NULL. */
  type Line = Option<string>

  /** The number of non-NULL entries. */
  function CountPresent(lines: seq<Line>): (r: nat)
    ensures r <= |lines|
  {
    if |lines| == 0 then 0
    else CountPresent(lines[..|lines| - 1]) + (if lines[|lines| - 1].Some? then 1 else 0)
  }

  /** `local_sum`: the left fold of `int512_add(acc, parse(line))` over the non-NULL entries, from zero. */
  function FoldSum(lines: seq<Line>): Int512
  {
    if |lines| == 0 then Zero
    else
      var acc := FoldSum(lines[..|lines| - 1]);
      match lines[|lines| - 1]
      case None => acc
      case Some(s) => Add(acc, ParseHex(s))
  }

  /** The exact sum of the numbers the non-NULL entries spell. */
  function SumValues(lines: seq<Line>): nat
  {
    if |lines| == 0 then 0
    else
      SumValues(lines[..|lines| - 1]) +
      match lines[|lines| - 1]
      case None => 0
      case Some(s) => Val(ParseHex(s))
  }

  /** No addition of the fold loses a carry. */
  predicate FoldExact(lines: seq<Line>)
  {
    |lines| == 0 ||
    (FoldExact(lines[..|lines| - 1]) &&
     match lines[|lines| - 1]
     case None => true
     case Some(s) => AddIsExact(FoldSum(lines[..|lines| - 1]), ParseHex(s)))
  }

  /** Appending one entry: a NULL entry changes neither fold, a line is added and counted. */
  lemma FoldAppend(lines: seq<Line>, x: Line)
    ensures x.None? ==> FoldSum(lines + [x]) == FoldSum(lines) && CountPresent(lines + [x]) == CountPresent(lines)
    ensures x.Some? ==> FoldSum(lines + [x]) == Add(FoldSum(lines), ParseHex(x.value))
    ensures x.Some? ==> CountPresent(lines + [x]) == CountPresent(lines) + 1
  {
    assert (lines + [x])[..|lines|] == lines;
  }

  /** Counting a concatenation counts each part. */
  lemma {:induction false} CountPresentConcat(xs: seq<Line>, ys: seq<Line>)
    ensures CountPresent(xs + ys) == CountPresent(xs) + CountPresent(ys)
  {
    if |ys| > 0 {
      var n := |ys| - 1;
      assert (xs + ys)[..|xs + ys| - 1] == xs + ys[..n];
      CountPresentConcat(xs, ys[..n]);
    } else {
      assert xs + ys == xs;
    }
  }

  /** Reducing the running sum modulo `m` before adding does not change the result modulo `m`. */
  lemma ModChain(r: nat, acc: nat, prev: nat, x: nat, total: nat, m: nat)
    requires m > 0 && acc == prev % m && r == (acc + x) % m && total == prev + x
    ensures r == total % m
  {
    Arith.ModAddMod(prev, x, m);
  }

  /** Without a lost carry the local sum is the exact sum modulo 2^512. */
  lemma {:induction false} FoldSumValue(lines: seq<Line>)
    requires FoldExact(lines)
    ensures Val(FoldSum(lines)) == SumValues(lines) % TWO512
  {
    if |lines| == 0 {
      ValZero();
    } else {
      var pre := lines[..|lines| - 1];
      FoldSumValue(pre);
      match lines[|lines| - 1]
      case None =>
      case Some(s) =>
        var acc, x := FoldSum(pre), ParseHex(s);
        AddValue(acc, x);
        assert FoldSum(lines) == Add(acc, x);
        assert SumValues(lines) == SumValues(pre) + Val(x);
        ModChain(Val(FoldSum(lines)), Val(acc), SumValues(pre), Val(x), SumValues(lines), TWO512);
    }
  }

  /** Adding the local results into the totals, as one step under the mutex. */
  class Totals {
    var totalSum: Int512
    var totalCount: int

    constructor ()
      ensures totalSum == Zero && totalCount == 0
    {
      totalSum := Zero;
      totalCount := 0;
    }

    /** The critical section of `process` (cmd/main.c:37-44): both totals move, nothing else. */
    method Merge(localSum: Int512, localCount: int)
      modifies this
      ensures totalSum == Add(old(totalSum), localSum)
      ensures totalCount == old(totalCount) + localCount
    {
      var newTotalSum := Int512Add.Int512Add(totalSum, localSum);
      totalSum := newTotalSum;
      totalCount := totalCount + localCount;
    }
  }

  /**
   * The body of the loop of `process` (cmd/main.c:26-34) for one entry: a
   * line is parsed and added into the local sum and counted, NULL is skipped.
   */
  method AddLine(ghost seen: seq<Line>, localSum: Int512, localCount: int, line: Line)
    returns (newSum: Int512, newCount: int)
    requires localSum == FoldSum(seen) && localCount == CountPresent(seen)
    ensures newSum == FoldSum(seen + [line]) && newCount == CountPresent(seen + [line])
  {
    FoldAppend(seen, line);
    newSum, newCount := localSum, localCount;
    if line.Some? {
      var currentNum := HexToInt512(line.value);
      newSum := Int512Add.Int512Add(localSum, currentNum);
      newCount := localCount + 1;
    }
  }

  lemma SliceStep(numbers: seq<Line>, start: int, i: int)
    requires 0 <= start <= i < |numbers|
    ensures numbers[start..i + 1] == numbers[start..i] + [numbers[i]]
  {
  }

  /** The loop of `process` (cmd/main.c:25-35) over `numbers[start..end)`. */
  method Accumulate(numbers: seq<Line>, start: int, end: int) returns (localSum: Int512, localCount: int)
    requires 0 <= start <= end <= |numbers|
    ensures localSum == FoldSum(numbers[start..end])
    ensures localCount == CountPresent(numbers[start..end])
  {
    localSum := Zero;
    localCount := 0;
    for i := start to end
      invariant localSum == FoldSum(numbers[start..i])
      invariant localCount == CountPresent(numbers[start..i])
    {
      SliceStep(numbers, start, i);
      localSum, localCount := AddLine(numbers[start..i], localSum, localCount, numbers[i]);
    }
  }

  /** `process`: fold the shard, then merge into the shared totals. */
  method Process(numbers: seq<Line>, shard: Shard, totals: Totals)
    requires 0 <= shard.start <= shard.end <= |numbers|
    modifies totals
    ensures totals.totalSum == Add(old(totals.totalSum), FoldSum(numbers[shard.start..shard.end]))
    ensures totals.totalCount == old(totals.totalCount) + CountPresent(numbers[shard.start..shard.end])
  {
    var localSum, localCount := Accumulate(numbers, shard.start, shard.end);
    totals.Merge(localSum, localCount);
  }
}
