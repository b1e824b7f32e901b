/**
 * `hex_to_int512` (cmd/hex_int512_pkg.c:10-38): a best-effort hex reader. It
 * scans the string from its last character back, ORs each hex digit into the
 * next free nibble (limb 7 first), skips every other character without using
 * a nibble, and stops once all 128 nibbles are filled.
 */
module Int512Parse {
  import opened Arith
  import opened Positional
  import opened Bits
  import opened Int512

  predicate IsHexDigit(c: char)
  {
    '0' <= c <= '9' || 'a' <= c <= 'f' || 'A' <= c <= 'F'
  }

  type Nibble = x: nat | x < 16

  function DigitValue(c: char): Nibble
    requires IsHexDigit(c)
  {
    if '0' <= c <= '9' then c as int - '0' as int
    else if 'a' <= c <= 'f' then c as int - 'a' as int + 10
    else c as int - 'A' as int + 10
  }

  /** The nibble values of the hex digits of `s`, left to right, other characters deleted. */
  function HexDigits(s: string): seq<Nibble>
  {
    if |s| == 0 then []
    else (if IsHexDigit(s[0]) then [DigitValue(s[0])] else []) + HexDigits(s[1..])
  }

  /** The last `n` elements of `d`, or all of `d` when it is shorter. */
  function LastDigits(d: seq<Nibble>, n: nat): seq<Nibble>
  {
    if |d| <= n then d else d[|d| - n..]
  }

  lemma NibblesBelow(d: seq<Nibble>)
    ensures AllBelow(16, d)
  {
  }

  /** ASCII `toupper`. */
  function ToUpper(c: char): char
  {
    if 'a' <= c <= 'z' then (c as int - 32) as char else c
  }

  function UpperCase(s: string): string
  {
    seq(|s|, i requires 0 <= i < |s| => ToUpper(s[i]))
  }

  /** What the parser yields: the number written by the last (at most) 128 hex digits of `s`. */
  function ParseHex(s: string): Int512
  {
    FromDigits(HexDigits(s))
  }

  /** The limbs holding the last (at most) 128 of the nibbles `d`. */
  function FromDigits(d: seq<Nibble>): Int512
  {
    var last := LastDigits(d, 128);
    NibblesBelow(last);
    ValOfBound(16, last);
    PowMonotone(16, |last|, 128);
    PowersOf2();
    FromNat(ValOf(16, last))
  }

  lemma {:induction false} HexDigitsConcat(s: string, t: string)
    ensures HexDigits(s + t) == HexDigits(s) + HexDigits(t)
  {
    if |s| == 0 {
      assert s + t == t;
    } else {
      assert (s + t)[1..] == s[1..] + t;
      HexDigitsConcat(s[1..], t);
    }
  }

  lemma HexDigitsFrom(s: string, i: nat)
    requires i < |s|
    ensures HexDigits(s[i..]) == (if IsHexDigit(s[i]) then [DigitValue(s[i])] else []) + HexDigits(s[i + 1..])
  {
    assert s[i..][1..] == s[i + 1..];
  }

  /** Shifting a nibble into the empty slot `shift` of a limb is adding it there. */
  lemma OrNibbleLimb(x: u64, shift: nat, digit: u64)
    requires shift < 16 && digit < 16 && x < Pow(16, shift)
    ensures Shl(digit, shift * 4) == digit * Pow(16, shift)
    ensures BitOr(x, Shl(digit, shift * 4)) == x + digit * Pow(16, shift)
    ensures x + digit * Pow(16, shift) < Pow(16, shift + 1) <= TWO64
  {
    var w := Pow(16, shift);
    NibbleWeight(shift);
    assert shift * 4 == 4 * shift;
    MulMonotone(15, digit, w);
    assert x + digit * w < 16 * w;
    PowMonotone(16, shift + 1, 16);
    PowersOf2();
    ShlNoWrap(digit, shift * 4);
    BitOrDisjoint(x, digit, 4 * shift);
  }

  /** Adding `digit` at nibble `shift` of limb `p` prepends it to the digits read so far. */
  lemma OrNibbleValue(s: seq<u64>, p: nat, shift: nat, digit: u64, x: u64, d: seq<nat>)
    requires |s| == 8 && p < 8 && shift < 16
    requires x == s[p] + digit * Pow(16, shift)
    requires |d| == 16 * (7 - p) + shift && Val(s) == ValOf(16, d)
    ensures Val(s[p := x]) == ValOf(16, [digit] + d)
  {
    var w: int, lw: int := Pow(16, shift), Pow(TWO64, 7 - p);
    ValOfUpdate(TWO64, s, p, x);
    ValOfCons(16, digit, d);
    assert w * lw == Pow(16, |d|) by {
      LimbWeight(7 - p);
      PowAdd(16, shift, 16 * (7 - p));
    }
    Reweigh(Val(s), Val(s[p := x]), s[p], digit, w, lw);
  }

  /**
   * Raising limb `limb`, of weight `lw`, by `digit` at nibble weight `w`
   * raises the whole value by `digit` at weight `w * lw`.
   */
  lemma Reweigh(before: int, after: int, limb: int, digit: int, w: int, lw: int)
    requires after + limb * lw == before + (limb + digit * w) * lw
    ensures after == before + digit * (w * lw)
  {
    assert (limb + digit * w) * lw == limb * lw + digit * (w * lw);
  }

  /** Once 128 digits have been read from position `i` on, they are the last 128 of the string. */
  lemma FullSuffix(s: string, i: nat)
    requires i <= |s| && |HexDigits(s[i..])| == 128
    ensures LastDigits(HexDigits(s), 128) == HexDigits(s[i..])
  {
    assert s == s[..i] + s[i..];
    HexDigitsConcat(s[..i], s[i..]);
  }

  /**
   * The state of the loop after reading the digits `read`: they fill limb
   * `p` up to nibble `shift` and every limb below it, the limbs above `p`
   * are still zero, and the limbs hold their number.
   */
  ghost predicate Filling(limbs: seq<u64>, p: int, shift: nat, read: seq<Nibble>)
  {
    && |limbs| == 8 && 0 <= p <= 7 && shift < 16
    && |read| == 16 * (7 - p) + shift
    && Val(limbs) == ValOf(16, read)
    && limbs[p] < Pow(16, shift)
    && forall k :: 0 <= k < p ==> limbs[k] == 0
  }

  /** One hex digit of the loop: the `|=` adds it at nibble `shift` of limb `p`, and the slot advances. */
  lemma StoreNibble(before: seq<u64>, p: nat, shift: nat, digit: Nibble, read: seq<Nibble>) returns (x: nat)
    requires Filling(before, p, shift, read)
    ensures x < TWO64 && BitOr(before[p], Shl(digit, shift * 4)) == x
    ensures shift + 1 < 16 ==> Filling(before[p := x], p, shift + 1, [digit] + read)
    ensures shift + 1 == 16 && p > 0 ==> Filling(before[p := x], p - 1, 0, [digit] + read)
    ensures Val(before[p := x]) == ValOf(16, [digit] + read) && |[digit] + read| == 16 * (7 - p) + shift + 1
  {
    x := before[p] + digit * Pow(16, shift);
    OrNibbleLimb(before[p], shift, digit);
    OrNibbleValue(before, p, shift, digit, x, read);
    assert Pow(16, 0) == 1;
  }

  /** Reading a non-digit at position `i` adds nothing to the digits read. */
  lemma SkipChar(s: string, i: nat)
    requires i < |s| && !IsHexDigit(s[i])
    ensures HexDigits(s[i..]) == HexDigits(s[i + 1..])
  {
    HexDigitsFrom(s, i);
  }

  /** Reading a digit at position `i` prepends its value to the digits read. */
  lemma TakeDigit(s: string, i: nat, digit: nat)
    requires i < |s| && IsHexDigit(s[i]) && digit == DigitValue(s[i])
    ensures HexDigits(s[i..]) == [digit] + HexDigits(s[i + 1..])
  {
    HexDigitsFrom(s, i);
  }

  /** After the loop the limbs hold the last (at most) 128 digits. */
  lemma ParsedLimbs(hex: string, parts: Int512)
    requires Val(parts) == ValOf(16, LastDigits(HexDigits(hex), 128))
    ensures parts == ParseHex(hex)
  {
    FromNatVal(parts);
  }

  /** hex_to_int512, with `i`, `part_idx` and `shift` as in the source. */
  method HexToInt512(hex: string) returns (result: Int512)
    ensures result == ParseHex(hex)
  {
    var parts := new u64[8](_ => 0);
    var partIdx := 7;
    var shift := 0;
    var i := |hex| - 1;
    ghost var read: seq<Nibble> := [];
    assert parts[..] == Zeros(8);
    ValOfZeros(TWO64, 8);
    assert hex[|hex|..] == [];
    while i >= 0
      invariant -1 <= i < |hex|
      invariant read == HexDigits(hex[i + 1..])
      invariant Filling(parts[..], partIdx, shift, read)
    {
      var c := hex[i];
      var digit: u64;
      if '0' <= c <= '9' {
        digit := c as int - '0' as int;
      } else if 'a' <= c <= 'f' {
        digit := c as int - 'a' as int + 10;
      } else if 'A' <= c <= 'F' {
        digit := c as int - 'A' as int + 10;
      } else {
        SkipChar(hex, i);
        i := i - 1;
        continue;
      }
      TakeDigit(hex, i, digit);
      ghost var before := parts[..];
      ghost var x := StoreNibble(before, partIdx, shift, digit, read);
      parts[partIdx] := BitOr(parts[partIdx], Shl(digit, shift * 4));
      assert parts[..] == before[partIdx := x];
      read := [digit] + read;
      shift := shift + 1;
      if shift == 16 {
        shift := 0;
        partIdx := partIdx - 1;
        if partIdx < 0 {
          FullSuffix(hex, i);
          assert Val(parts[..]) == ValOf(16, LastDigits(HexDigits(hex), 128));
          break;
        }
      }
      i := i - 1;
    }
    if i < 0 {
      assert hex[i + 1..] == hex;
    }
    assert Val(parts[..]) == ValOf(16, LastDigits(HexDigits(hex), 128));
    result := parts[..];
    ParsedLimbs(hex, result);
  }

  /** The result is the whole digit string's number reduced modulo 2^512. */
  lemma ParseHexValue(s: string)
    ensures Val(ParseHex(s)) == ValOf(16, HexDigits(s)) % TWO512
  {
    var all := HexDigits(s);
    var d := LastDigits(all, 128);
    NibblesBelow(d);
    ValOfBound(16, d);
    PowMonotone(16, |d|, 128);
    PowersOf2();
    ValFromNat(ValOf(16, d));
    if |all| <= 128 {
      DivModUnique(ValOf(16, all), TWO512, 0, ValOf(16, all));
    } else {
      var k := |all| - 128;
      assert all == all[..k] + d;
      ValOfConcat(16, all[..k], d);
      DivModUnique(ValOf(16, all), TWO512, ValOf(16, all[..k]), ValOf(16, d));
    }
  }

  /** A character that is not a hex digit, inserted anywhere, changes nothing. */
  lemma InsertNonHex(s: string, k: nat, c: char)
    requires k <= |s| && !IsHexDigit(c)
    ensures ParseHex(s[..k] + [c] + s[k..]) == ParseHex(s)
  {
    InsertNonHexDigits(s, k, c);
  }

  lemma InsertNonHexDigits(s: string, k: nat, c: char)
    requires k <= |s| && !IsHexDigit(c)
    ensures HexDigits(s[..k] + [c] + s[k..]) == HexDigits(s)
  {
    var pre, post := s[..k], s[k..];
    assert s == pre + post;
    HexDigitsConcat(pre + [c], post);
    HexDigitsConcat(pre, [c]);
    HexDigitsConcat(pre, post);
    assert HexDigits([c]) == [] by {
      assert [c][1..] == [];
    }
    assert HexDigits(pre + [c]) == HexDigits(pre);
  }

  /** Lower- and upper-case letters a..f name the nibble values 10..15 alike. */
  lemma CaseInsensitiveDigit(c: char)
    ensures IsHexDigit(ToUpper(c)) == IsHexDigit(c)
    ensures IsHexDigit(c) ==> DigitValue(ToUpper(c)) == DigitValue(c)
    ensures 'a' <= c <= 'f' ==> 10 <= DigitValue(c) <= 15 && ToUpper(c) == (c as int - 32) as char
  {
  }

  lemma {:induction false} UpperCaseDigits(s: string)
    ensures HexDigits(UpperCase(s)) == HexDigits(s)
  {
    if |s| > 0 {
      assert UpperCase(s)[1..] == UpperCase(s[1..]);
      CaseInsensitiveDigit(s[0]);
      UpperCaseDigits(s[1..]);
    }
  }

  /** Parsing is case-insensitive. */
  lemma ParseUpperCase(s: string)
    ensures ParseHex(UpperCase(s)) == ParseHex(s)
  {
    UpperCaseDigits(s);
  }
}
