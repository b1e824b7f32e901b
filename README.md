# Averaging 512-bit hexadecimal numbers

This project models the core of a small C program. The program reads a file of hexadecimal numbers, one per line, and spreads the lines over several POSIX threads. Each thread adds up its share as 512-bit integers, and the shared totals are merged under a mutex. At the end the program prints the average, rounded half up, as upper-case hexadecimal. It models two source files:

- `cmd/hex_int512_pkg.c`: the `int512` package.
  - An `int512` holds eight `uint64_t` limbs, and `parts[0]` is the most significant.
  - `hex_to_int512` parses text and `int512_add` adds.
  - `int512_div` divides by a 64-bit divisor and rounds half up.
  - `int512_to_hex` formats.
- `cmd/main.c`: the arithmetic of `main` and of the worker `process`.
  - Shard partition, the per-thread fold, and the merge into the shared total and count.
  - The guarded division, and formatting of the average.

Each package routine is a method that runs the C loops over a local array or sequence. Its `ensures` ties the result to a specification function: `ParseHex`, `Add`, `DivRound`, `Format`. `ParseHex` and `DivRound` are stated independently of the loops, on `Val`, the natural number that a limb sequence denotes. `Add` and `Format` follow the loops' own steps: `Add` recurses limb by limb with the source's carry test, and `Format` shifts and masks nibbles. Their meaning is proved separately, about `Val`: `AddValue`, `AddExactIff` and `LostCarryExample` for `Add`, and `FormatShape`, `FormatZero`, `NibblesValue` and `ParseFormat` for `Format`.

C's `uint64_t` is the subset type `u64` of naturals below 2^64. The shifts, masks and `|` of the package are stated arithmetically in module `Bits`: `Shl` reduces modulo 2^64, and `BitOr` works bit by bit. Each `|=` in the source is proved to be an addition, because the bits it sets are zero beforehand.

Modules, in dependency order:

- `Arith`, `Positional`, `Bits`: powers, base-b digit sequences, and `uint64_t` operators.
- `Int512`: the limb representation and its value.
- `Int512Parse`, `Int512Add`, `Int512Div`, `Int512Format`: the four package routines.
- `HexRoundTrip`: parsing and formatting invert each other.
- `Partition`, `Worker`, `Engine`: the driver in `main.c`.

Three behaviours of the code shape the model.

- **Addition.** A correct 512-bit addition is commutative. The code instead detects the carry with `sum < a->parts[i]`. That test misses the carry when a limb of `b` is 2^64-1 and a carry comes in. `Add` keeps this behaviour. `LostCarryExample` exhibits a pair of numbers with a lost carry, for which `Add(a, b) != Add(b, a)`. `AddExactIff` shows that the result is `(a + b) mod 2^512` exactly when no carry is lost. Statements about exact sums therefore carry the hypothesis `AddIsExact` (or `FoldExact`/`MergeExact` for folds): no carry is lost along the way.
- **Formatting zero.** The zero value formats as `"0"`, not as an empty string. The scan for leading zeros stops at index 127 (`FormatZero`).
- **Empty input.** With no lines, `main` divides by zero at `cmd/main.c:133`: it computes `count_lines / num_threads` with `num_threads == 0`. The model therefore requires at least one line.

## Model

| member | source | states |
|---|---|---|
| Int512.ValFromNat | cmd/hex_int512_pkg.c:5-7 | the eight limbs built from a number below 2^512 denote that number |
| Int512.FromNatVal | cmd/hex_int512_pkg.c:5-7 | every `int512` denotes a number below 2^512 and is the limb array built back from that number |
| Int512.ValInjective | cmd/hex_int512_pkg.c:5-7 | two `int512` values are equal exactly when they denote the same number |
| Int512Parse.HexToInt512 | cmd/hex_int512_pkg.c:10-38 | the parsed value is `ParseHex(hex)`: non-hex characters skipped, the last 128 hex digits read as base 16, limbs filled from `parts[7]` upwards |
| Int512Parse.ParseHexValue | cmd/hex_int512_pkg.c:10-38 | the parsed value is the number spelled by all the hex digits of the string, modulo 2^512 |
| Int512Parse.ParsedLimbs | cmd/hex_int512_pkg.c:33-37 | limbs whose value is that of the last 128 digits are exactly `ParseHex(hex)`: digits beyond 128 are dropped |
| Int512Parse.StoreNibble | cmd/hex_int512_pkg.c:30-37 | or-ing `digit << (shift*4)` into `parts[part_idx]` fits in 64 bits and appends the digit in front of those read so far, in the current or the next limb |
| Int512Parse.OrNibbleLimb | cmd/hex_int512_pkg.c:30 | the shifted digit lands above the limb's filled nibbles, so the `|=` adds `digit * 16^shift` without overflow |
| Int512Parse.InsertNonHex | cmd/hex_int512_pkg.c:25-27 | inserting a non-hex character anywhere in the text leaves the parsed value unchanged |
| Int512Parse.CaseInsensitiveDigit | cmd/hex_int512_pkg.c:19-24 | a character and its upper-case form are both hex digits or neither, with the same digit value; `a`-`f` are worth 10-15 |
| Int512Parse.ParseUpperCase | cmd/hex_int512_pkg.c:19-24 | upper-casing the text does not change the parsed value |
| Int512Add.Int512Add | cmd/hex_int512_pkg.c:41-49 | the result is `Add(a, b)`, the limb loop from `parts[7]` to `parts[0]` with the source's carry test; its value is `(a + b) mod 2^512` exactly when no carry is lost |
| Int512Add.AddExactIff | cmd/hex_int512_pkg.c:41-49 | `Val(Add(a, b)) == (Val(a) + Val(b)) mod 2^512` if and only if no carry is lost |
| Int512Add.LostCarryLimb | cmd/hex_int512_pkg.c:45-47 | when the `b` limb is 2^64-1 and the carry in is 1, the limb overflows yet keeps the `a` limb and the test `sum < a` reports no carry |
| Int512Add.LimbIdentity | cmd/hex_int512_pkg.c:45-47 | for every limb, `a + b + carry` is the stored limb plus 2^64 times the reported carry and the lost carry |
| Int512Add.AddWithCarryExact | cmd/hex_int512_pkg.c:44-48 | for any number of limbs, the operands and incoming carry add up to the result, plus the weight of the lost carries, plus the carry dropped above the top limb |
| Int512Add.LostWeightZero | cmd/hex_int512_pkg.c:45-47 | the lost carries weigh nothing exactly when no carry is lost |
| Int512Add.LostWeightBound | cmd/hex_int512_pkg.c:44-48 | the lost carries weigh at most 2^(64·limbs) - 2^64, below the range of the result |
| Int512Add.CarryTest | cmd/hex_int512_pkg.c:45-47 | the test `sum < a` yields the true carry out of a limb, except when the `b` limb is 2^64-1 and the incoming carry is 1 |
| Int512Add.AddWithCarryValue | cmd/hex_int512_pkg.c:44-48 | without a lost carry, the limb loop over any number of limbs yields the sum plus the incoming carry, modulo 2^(64·limbs) |
| Int512Add.AddValue | cmd/hex_int512_pkg.c:41-49 | without a lost carry, `Val(Add(a, b)) == (Val(a) + Val(b)) mod 2^512` |
| Int512Add.NoMaxLimbNoLostCarry | cmd/hex_int512_pkg.c:44-48 | when no limb of `b` other than `parts[0]` is 2^64-1, no carry is lost |
| Int512Add.AddZero | cmd/hex_int512_pkg.c:41-49 | the zero value is a left and right identity of the addition |
| Int512Add.LostCarryExample | cmd/hex_int512_pkg.c:45-47 | for a = 2^64-1 and b = (2^64-1)·2^64 + 1, `Add(a, b)` is zero and not `(a + b) mod 2^512`, while `Add(b, a)` is exact: the addition is not commutative |
| Int512Div.Int512Div | cmd/hex_int512_pkg.c:51-86 | the result is `DivRound(a, divisor)`: all zero for divisor 0, otherwise the quotient rounded half up |
| Int512Div.DivideLimb | cmd/hex_int512_pkg.c:61-72 | the 64 bit steps over one limb leave a remainder below the divisor, with `ost·2^64 + current_part == divisor·quotient_limb + remainder`; other limbs are untouched |
| Int512Div.ShiftInBit | cmd/hex_int512_pkg.c:65 | with `ost < divisor <= 2^63`, shifting `ost` left by one and or-ing in the next bit gives `2·ost + bit` without overflow |
| Int512Div.DividingSubtract | cmd/hex_int512_pkg.c:67-70 | subtracting the divisor and setting quotient bit `bit_idx` keeps the long-division invariant |
| Int512Div.DividingKeep | cmd/hex_int512_pkg.c:64-71 | a step that does not subtract keeps the long-division invariant |
| Int512Div.DividingDone | cmd/hex_int512_pkg.c:64-71 | after bit 0, the limb satisfies the division identity |
| Int512Div.RoundUp | cmd/hex_int512_pkg.c:75-84 | the carry loop from `parts[7]` upwards adds exactly one to the value |
| Int512Div.CarryStep | cmd/hex_int512_pkg.c:76-84 | one step of the carry loop: a non-zero limb ends the carry with the value complete; a limb that wrapped to zero passes the carry to the next limb |
| Int512Div.RoundedFits | cmd/hex_int512_pkg.c:74-85 | the rounded quotient of a 512-bit value is below 2^512, so the carry never leaves `parts[0]` |
| Int512Div.DivRoundValue | cmd/hex_int512_pkg.c:51-86 | for a positive divisor, the value of the result is `v / d`, plus one when twice the remainder reaches `d` |
| Int512Div.NearestIsFloor | cmd/hex_int512_pkg.c:74 | the nearest integer with halves rounded up is `(2v + d) / 2d` |
| Int512Div.DivRoundNearest | cmd/hex_int512_pkg.c:51-86 | `r` is the value of the result exactly when `r - 1/2 <= v/d < r + 1/2` |
| Int512Div.DivByOne | cmd/hex_int512_pkg.c:51-86 | dividing by one returns the dividend |
| Int512Div.DivExact | cmd/hex_int512_pkg.c:51-86 | dividing a value that is exactly `n·v` by `n` returns `v`, without rounding drift |
| Int512Format.Int512ToHex | cmd/hex_int512_pkg.c:88-109 | the characters written are `Format(num)` followed by NUL |
| Int512Format.RenderDigits | cmd/hex_int512_pkg.c:89-98 | `temp[0..128]` holds the 128 nibbles of the eight limbs, most significant first, as `0-9A-F` |
| Int512Format.TrimCopy | cmd/hex_int512_pkg.c:100-109 | the copy is the buffer with leading `'0'` removed, keeping at least one character, then NUL |
| Int512Format.StripScanned | cmd/hex_int512_pkg.c:100-103 | the index where the scan stops is where the stripped text begins |
| Int512Format.StripZerosShape | cmd/hex_int512_pkg.c:100-103 | stripping keeps a non-empty suffix, drops only `'0'`, and leaves no leading `'0'` on a longer result |
| Int512Format.FormatShape | cmd/hex_int512_pkg.c:88-109 | the text has 1 to 128 upper-case hex digits and starts with `'0'` only when it is exactly `"0"` |
| Int512Format.NibblesValue | cmd/hex_int512_pkg.c:92-98 | the 128 rendered nibbles, read in base 16, are the value |
| Int512Format.FormatZero | cmd/hex_int512_pkg.c:100-103 | the text is `"0"` exactly for the zero value |
| HexRoundTrip.ParseFormat | cmd/hex_int512_pkg.c:88-109 | parsing the formatted text gives back the value |
| HexRoundTrip.FormatParse | cmd/hex_int512_pkg.c:10-38 | for 1 to 128 hex digits, formatting the parsed value gives the text upper-cased with leading zeros stripped |
| Partition.NumThreadsBounds | cmd/main.c:132 | for at least one line, the thread count is between 1 and both the line count and the thread limit, and equals one of them |
| Partition.ShardSizes | cmd/main.c:170 | each shard has `n / t` or `n / t + 1` lines (at least one), sizes differ by at most one, and the longer shards come first |
| Partition.ShardsCover | cmd/main.c:166-175 | the first shard starts at 0 and the last ends at `n` |
| Partition.SizesSum | cmd/main.c:166-175 | the sizes of the first `k` shards add up to the start of shard `k`, and all of them to `n` |
| Partition.Partition | cmd/main.c:166-175 | the loop builds `min(n, max_threads)` shards starting at 0, each starting where the previous ended, the last ending at `n`, with the sizes above |
| Engine.AllShardsTile | cmd/main.c:166-175 | the partition tiles `[0, n)`: contiguous shards from 0 to `n` |
| Worker.FoldAppend | cmd/main.c:26-34 | a NULL entry changes neither the local sum nor the count; a line is parsed, added and counted |
| Worker.AddLine | cmd/main.c:26-34 | one loop step extends the local sum and count by the entry |
| Worker.Accumulate | cmd/main.c:25-35 | the local sum is the fold of `int512_add` over the parsed non-NULL lines of the shard from zero, and the count is the number of those lines |
| Worker.FoldSumValue | cmd/main.c:25-35 | when no addition of the fold loses a carry, the local sum is the exact sum of the lines' values modulo 2^512 |
| Worker.CountPresentConcat | cmd/main.c:25-35 | counts of consecutive ranges add up |
| Worker.Totals.constructor | cmd/main.c:161-162 | the totals start at zero |
| Worker.Totals.Merge | cmd/main.c:37-44 | under the mutex, the total sum becomes `int512_add(total, local)` and the count grows by the local count; nothing else changes |
| Worker.Process | cmd/main.c:20-47 | one worker adds the fold of its shard to the total sum and the number of its non-NULL lines to the total count |
| Engine.RunWorkers | cmd/main.c:166-190 | after all workers have run in shard order, the totals are the shard-by-shard merges of the local results |
| Engine.MergedCountAll | cmd/main.c:166-190 | for shards that tile the input, the total count is the number of non-NULL lines |
| Engine.MergedSumAll | cmd/main.c:166-190 | for shards that tile the input, when no carry is lost, the total sum is the exact sum of all values modulo 2^512 |
| Engine.AverageNearest | cmd/main.c:195-198 | a non-positive count gives zero; otherwise the average is the nearest integer to sum/count, halves rounded up |
| Engine.Finalize | cmd/main.c:195-198 | the average is zero without a positive count, and otherwise `int512_div(total_sum, total_count)` |
| Engine.ComputeAverage | cmd/main.c:132-201 | partition, workers, finalize and `int512_to_hex` produce the count of non-NULL lines and the formatted average of the merged sum |

## Left out

- Int512Div: requires `divisor <= 2^63`. For larger divisors, `ost << 1` at `cmd/hex_int512_pkg.c:65` can drop the remainder's top bit. The divisors `main` passes are `int` counts, far below this bound.
- Int512Div: the `fprintf` to stderr on a zero divisor is not modelled, only the zero result.
- Engine.ComputeAverage: requires at least one line, because `main` divides by zero at `cmd/main.c:133` otherwise. It also requires at most `INT_MAX` lines, the range of the C `int` counters.
- Engine.Finalize: requires `total_count <= 2^63`, which the `int` count always meets. The implicit conversion of the `int` count to `uint64_t` is not modelled.
- Engine.RunWorkers: the threads run one after another in shard order. The mutex makes each merge atomic, but the source does not fix the merge order. The model shows the result is the exact sum modulo 2^512 when no carry is lost (`MergedSumAll`). With a lost carry, a different merge order can give a different total, because `Add` is not commutative then (`LostCarryExample`).
- Strings are modelled as the characters before the terminating NUL, as `strlen` at `cmd/hex_int512_pkg.c:13` sees them. The lines `main` passes contain no NUL, because `strtok` ends each token at one.
- The `printf` output is not modelled: thread counts, totals, timing and performance figures, memory use and the usage message.
- `gettimeofday` and all floating-point arithmetic in `main.c` are not modelled.
- The command-line handling (`argc`, `atoi`, the checks on `max_threads` and `max_memory_mb`) is not modelled. `max_threads >= 1` is a precondition instead.
- The file I/O is not modelled (`fopen`, `fseek`/`ftell`, the size limit, `fread`). Neither are the `malloc`/`realloc` failure paths, `strtok` line splitting or `free`. The lines reach the model as a sequence of optional strings.
- Thread creation and join failures, and mutex initialisation, are not modelled.
- The data generator `generate_data.c` is not part of this model.
