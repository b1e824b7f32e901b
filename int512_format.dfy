/**
 * `int512_to_hex` (cmd/hex_int512_pkg.c:88-109): writes the 128 nibbles of a
 * value as upper-case hex digits, limb 0 first and the high nibble of each
 * limb first, then drops leading '0' characters while keeping at least one
 * digit, and terminates the text with a NUL character.
 */
module Int512Format {
  import opened Arith
  import opened Positional
  import opened Bits
  import opened Int512

  const HexAlphabet: string := "0123456789ABCDEF"

  /** Nibble `k` of the value, counting from the most significant: `(parts[i] >> (60 - j*4)) & 0xF`. */
  function NibbleAt(x: Int512, k: nat): (r: nat)
    requires k < 128
    ensures r < 16
  {
    Shr(x[k / 16], 60 - (k % 16) * 4) % 16
  }

  function Nibbles(x: Int512): (r: seq<nat>)
    ensures |r| == 128 && AllBelow(16, r)
  {
    seq(128, k requires 0 <= k < 128 => NibbleAt(x, k))
  }

  function HexChar(n: nat): char
    requires n < 16
  {
    HexAlphabet[n]
  }

  /** The 128-character buffer before leading zeros are dropped. */
  function Render(x: Int512): (r: string)
    ensures |r| == 128
  {
    seq(128, k requires 0 <= k < 128 => HexChar(NibbleAt(x, k)))
  }

  /** Drops leading '0' characters as long as more than one character is left. */
  function StripZeros(s: string): string
  {
    if |s| > 1 && s[0] == '0' then StripZeros(s[1..]) else s
  }

  /**
   * The result is a suffix of `s`, everything dropped is '0', a non-empty
   * input leaves a non-empty result, and a result longer than one character
   * does not start with '0'.
   */
  lemma {:induction false} StripZerosShape(s: string)
    ensures |StripZeros(s)| <= |s| && StripZeros(s) == s[|s| - |StripZeros(s)|..]
    ensures forall i :: 0 <= i < |s| - |StripZeros(s)| ==> s[i] == '0'
    ensures |s| >= 1 ==> |StripZeros(s)| >= 1
    ensures |StripZeros(s)| > 1 ==> StripZeros(s)[0] != '0'
  {
    if |s| > 1 && s[0] == '0' {
      StripZerosShape(s[1..]);
      assert s[1..][|s| - 1 - |StripZeros(s)|..] == s[|s| - |StripZeros(s)|..];
      forall i | 1 <= i < |s| - |StripZeros(s)|
        ensures s[i] == '0'
      {
        assert s[1..][i - 1] == s[i];
      }
    }
  }

  /** The text `int512_to_hex` produces, without its NUL terminator. */
  function Format(x: Int512): string
  {
    StripZeros(Render(x))
  }

  predicate IsUpperHex(c: char)
  {
    '0' <= c <= '9' || 'A' <= c <= 'F'
  }

  lemma HexAlphabetChars(n: nat)
    requires n < 16
    ensures IsUpperHex(HexChar(n))
    ensures HexChar(n) == '0' <==> n == 0
  {
  }

  /** The output has 1 to 128 upper-case hex digits, with no leading '0' unless it is exactly "0". */
  lemma FormatShape(x: Int512)
    ensures 1 <= |Format(x)| <= 128
    ensures forall i :: 0 <= i < |Format(x)| ==> IsUpperHex(Format(x)[i])
    ensures Format(x)[0] == '0' ==> Format(x) == "0"
  {
    var r, f := Render(x), Format(x);
    StripZerosShape(r);
    forall i | 0 <= i < |f|
      ensures IsUpperHex(f[i])
    {
      HexAlphabetChars(NibbleAt(x, 128 - |f| + i));
      assert f[i] == r[128 - |f| + i];
    }
  }

  /** The nibbles of one limb, most significant first, are its 16 base-16 digits. */
  lemma LimbNibbles(x: Int512, i: nat)
    requires i < 8
    ensures Nibbles(x)[16 * i..16 * i + 16] == ToDigits(16, x[i], 16)
  {
    forall j | 0 <= j < 16
      ensures Nibbles(x)[16 * i + j] == ToDigits(16, x[i], 16)[j]
    {
      NibbleDigit(x, i, j);
    }
  }

  /** Nibble `j` of limb `i` is base-16 digit `j` of that limb. */
  lemma NibbleDigit(x: Int512, i: nat, j: nat)
    requires i < 8 && j < 16
    ensures NibbleAt(x, 16 * i + j) == ToDigits(16, x[i], 16)[j]
  {
    DivModUnique(16 * i + j, 16, i, j);
    NibbleWeight(15 - j);
    assert 60 - j * 4 == 4 * (15 - j);
  }

  /** The first `m` limbs have the value of the first `16 m` nibbles. */
  lemma {:induction false} NibblesPrefix(x: Int512, m: nat)
    requires m <= 8
    ensures ValOf(16, Nibbles(x)[..16 * m]) == ValOf(TWO64, x[..m])
  {
    if m == 0 {
      assert Nibbles(x)[..0] == [] && x[..0] == [];
    } else {
      var n := Nibbles(x);
      var limb, digits := x[m - 1], ToDigits(16, x[m - 1], 16);
      NibblesPrefix(x, m - 1);
      var high: int := ValOf(TWO64, x[..m - 1]);
      LimbNibbles(x, m - 1);
      assert n[..16 * m] == n[..16 * (m - 1)] + digits;
      ValOfConcat(16, n[..16 * (m - 1)], digits);
      ValOfToDigits(16, limb, 16);
      PowersOf2();
      DivModUnique(limb, TWO64, 0, limb);
      assert ValOf(16, n[..16 * m]) == high * TWO64 + limb;
      ValOfPrefixStep(TWO64, x, m);
    }
  }

  /** Read as base-16 digits, the rendered nibbles are the value. */
  lemma NibblesValue(x: Int512)
    ensures ValOf(16, Nibbles(x)) == Val(x)
  {
    NibblesPrefix(x, 8);
    assert Nibbles(x)[..128] == Nibbles(x) && x[..8] == x;
  }

  /** Only zero renders as "0". */
  lemma FormatZero(x: Int512)
    ensures Format(x) == "0" <==> x == Zero
  {
    var r := Render(x);
    StripZerosShape(r);
    if x == Zero {
      ZeroRendersZeros();
      assert r[127] == '0';
    }
    if Format(x) == "0" {
      forall k | 0 <= k < 128
        ensures r[k] == '0'
      {
        if k == 127 {
          assert Format(x)[0] == r[127];
        }
      }
      ZerosRenderZero(x);
    }
  }

  lemma ZeroRendersZeros()
    ensures forall k :: 0 <= k < 128 ==> Render(Zero)[k] == '0'
  {
    forall k | 0 <= k < 128
      ensures Render(Zero)[k] == '0'
    {
      var sh := 60 - (k % 16) * 4;
      assert Zero[k / 16] == 0;
      assert Pow(2, sh) >= 1;
      assert Shr(0, sh) == 0;
      assert NibbleAt(Zero, k) == 0;
      assert HexChar(0) == '0';
    }
  }

  lemma ZerosRenderZero(x: Int512)
    requires forall k :: 0 <= k < 128 ==> Render(x)[k] == '0'
    ensures x == Zero
  {
    forall k | 0 <= k < 128
      ensures Nibbles(x)[k] == 0
    {
      assert Render(x)[k] == HexChar(NibbleAt(x, k)) == '0';
      HexAlphabetChars(NibbleAt(x, k));
    }
    assert Nibbles(x) == Zeros(128);
    NibblesValue(x);
    ValOfZeros(16, 128);
    ValOfZeros(TWO64, 8);
    assert Zero == Zeros(8);
    ValInjective(x, Zero);
  }

  /** Character `j` of limb `i` in the rendered buffer. */
  lemma RenderAt(x: Int512, i: nat, j: nat)
    requires i < 8 && j < 16
    ensures Render(x)[16 * i + j] == HexAlphabet[Shr(x[i], 60 - j * 4) % 16]
  {
    DivModUnique(16 * i + j, 16, i, j);
  }

  /** The digit loops of `int512_to_hex` (cmd/hex_int512_pkg.c:89-98): fill `temp[0..128]`. */
  method RenderDigits(num: Int512) returns (temp: array<char>)
    ensures fresh(temp) && temp.Length == 129 && temp[..128] == Render(num)
  {
    temp := new char[129](_ => '\0');
    var pos := 0;
    for i := 0 to 8
      modifies temp
      invariant pos == 16 * i
      invariant forall k :: 0 <= k < pos ==> temp[k] == Render(num)[k]
    {
      for j := 0 to 16
        modifies temp
        invariant forall k :: 0 <= k < pos + j ==> temp[k] == Render(num)[k]
      {
        var digit := Shr(num[i], 60 - j * 4) % 16;
        RenderAt(num, i, j);
        temp[pos + j] := HexAlphabet[digit];
      }
      pos := pos + 16;
    }
  }

  /** Dropping the leading zeros found by the scan for the first non-'0' character. */
  lemma {:induction false} StripScanned(s: string, start: nat)
    requires start < |s| && forall k :: 0 <= k < start ==> s[k] == '0'
    requires s[start] != '0' || start == |s| - 1
    ensures StripZeros(s) == s[start..]
  {
    if start > 0 {
      assert s[1..][start - 1] == s[start];
      StripScanned(s[1..], start - 1);
      assert s[1..][start - 1..] == s[start..];
    }
  }

  /**
   * The tail of `int512_to_hex` (cmd/hex_int512_pkg.c:100-108): skip leading
   * '0' characters of the buffer while fewer than 127 have been skipped, copy
   * the rest to the result and terminate it with NUL.
   */
  method TrimCopy(temp: array<char>) returns (result: string)
    requires temp.Length == 129
    ensures result == StripZeros(temp[..128]) + ['\0']
  {
    var start := 0;
    while temp[start] == '0' && start < 127
      invariant 0 <= start <= 127
      invariant forall k :: 0 <= k < start ==> temp[k] == '0'
    {
      start := start + 1;
    }
    StripScanned(temp[..128], start);
    ghost var text := temp[start..128];
    var out := new char[129];
    for i := start to 128
      modifies out
      invariant out[..i - start] == text[..i - start]
    {
      out[i - start] := temp[i];
    }
    out[128 - start] := '\0';
    assert out[..128 - start] == text;
    result := out[..129 - start];
    assert result == out[..128 - start] + [out[128 - start]];
  }

  /** `int512_to_hex`: the characters written to `result`, NUL included. */
  method Int512ToHex(num: Int512) returns (result: string)
    ensures result == Format(num) + ['\0']
  {
    var temp := RenderDigits(num);
    result := TrimCopy(temp);
  }
}
