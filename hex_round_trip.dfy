/**
 * How `hex_to_int512` and `int512_to_hex` (cmd/hex_int512_pkg.c:10-38 and
 * 88-109) fit together: formatting and reading back gives the value again,
 * and reading at most 128 hex digits then formatting gives those digits in
 * upper case with leading zeros dropped.
 */
module HexRoundTrip {
  import opened Arith
  import opened Positional
  import opened Int512
  import opened Int512Parse
  import opened Int512Format

  predicate AllHexDigits(s: string)
  {
    forall i :: 0 <= i < |s| ==> IsHexDigit(s[i])
  }

  /** The nibble values of a string made only of hex digits, position by position. */
  function DigitValues(s: string): (r: seq<Nibble>)
    requires AllHexDigits(s)
    ensures |r| == |s|
  {
    seq(|s|, i requires 0 <= i < |s| => DigitValue(s[i]))
  }

  function ZeroChars(n: nat): (r: string)
    ensures |r| == n
  {
    seq(n, _ => '0')
  }

  /** When every character is a hex digit, none is skipped. */
  lemma {:induction false} HexDigitsAll(s: string)
    requires AllHexDigits(s)
    ensures HexDigits(s) == DigitValues(s)
  {
    if |s| > 0 {
      HexDigitsAll(s[1..]);
      assert DigitValues(s) == [DigitValue(s[0])] + DigitValues(s[1..]);
    }
  }

  /** The output alphabet is read back as the nibble it was written for. */
  lemma HexCharDigit(n: nat)
    requires n < 16
    ensures IsHexDigit(HexChar(n)) && DigitValue(HexChar(n)) == n
  {
  }

  /** Writing the nibble of a hex digit gives the digit in upper case. */
  lemma DigitHexChar(c: char)
    requires IsHexDigit(c)
    ensures HexChar(DigitValue(c)) == ToUpper(c)
  {
  }

  /** Leading '0' characters in front of a non-empty string are all dropped. */
  lemma {:induction false} StripLeading(n: nat, t: string)
    requires |t| >= 1
    ensures StripZeros(ZeroChars(n) + t) == StripZeros(t)
  {
    var s := ZeroChars(n) + t;
    if n > 0 {
      assert |s| > 1 && s[0] == '0';
      assert s[1..] == ZeroChars(n - 1) + t;
      StripLeading(n - 1, t);
    } else {
      assert s == t;
    }
  }

  /** The formatted text is the nibbles after the dropped ones, written as hex digits. */
  lemma FormatDigits(x: Int512)
    ensures |Format(x)| <= 128
    ensures HexDigits(Format(x)) == Nibbles(x)[128 - |Format(x)|..]
  {
    var r, f, n := Render(x), Format(x), Nibbles(x);
    StripZerosShape(r);
    var z := 128 - |f|;
    assert f == r[z..];
    forall i | 0 <= i < |f|
      ensures IsHexDigit(f[i]) && DigitValue(f[i]) == n[z + i]
    {
      assert f[i] == HexChar(n[z + i]);
      HexCharDigit(n[z + i]);
    }
    HexDigitsAll(f);
  }

  /** The nibbles whose characters were dropped are zero. */
  lemma DroppedNibbles(x: Int512)
    ensures |Format(x)| <= 128
    ensures Nibbles(x) == Zeros(128 - |Format(x)|) + Nibbles(x)[128 - |Format(x)|..]
  {
    var r, f, n := Render(x), Format(x), Nibbles(x);
    StripZerosShape(r);
    var z := 128 - |f|;
    forall i | 0 <= i < z
      ensures n[i] == 0
    {
      assert r[i] == HexChar(n[i]) == '0';
      HexAlphabetChars(n[i]);
    }
    assert n == Zeros(z) + n[z..];
  }

  /** Formatting then parsing returns the value. */
  lemma ParseFormat(x: Int512)
    ensures ParseHex(Format(x)) == x
  {
    var f, n := Format(x), Nibbles(x);
    var z := 128 - |f|;
    FormatDigits(x);
    DroppedNibbles(x);
    LeadingZeros(16, z, n[z..]);
    NibblesValue(x);
    assert LastDigits(n[z..], 128) == n[z..];
    FromNatVal(x);
  }

  /** The number read from at most 128 hex digits is their value, with no reduction. */
  lemma ParsedValue(s: string)
    requires |s| <= 128 && AllHexDigits(s)
    ensures Val(ParseHex(s)) == ValOf(16, DigitValues(s))
  {
    var d := DigitValues(s);
    HexDigitsAll(s);
    ParseHexValue(s);
    NibblesBelow(d);
    ValOfBound(16, d);
    PowMonotone(16, |d|, 128);
    PowersOf2();
    DivModUnique(ValOf(16, d), TWO512, 0, ValOf(16, d));
  }

  lemma ZerosThen(n: nat, d: seq<nat>)
    requires AllBelow(16, d)
    ensures AllBelow(16, Zeros(n) + d) && ValOf(16, Zeros(n) + d) == ValOf(16, d)
  {
    LeadingZeros(16, n, d);
  }

  /** The nibbles of the number read from 1 to 128 hex digits: zeros, then the digits. */
  lemma ParsedNibbles(s: string)
    requires |s| <= 128 && AllHexDigits(s)
    ensures Nibbles(ParseHex(s)) == Zeros(128 - |s|) + DigitValues(s)
  {
    var d := DigitValues(s);
    var x := ParseHex(s);
    var n := Nibbles(x);
    ParsedValue(s);
    NibblesValue(x);
    NibblesBelow(d);
    ZerosThen(128 - |s|, d);
    ValOfInjective(16, n, Zeros(128 - |s|) + d);
  }

  /** Parsing 1 to 128 hex digits then formatting gives them in upper case without leading zeros. */
  lemma FormatParse(s: string)
    requires 1 <= |s| <= 128 && AllHexDigits(s)
    ensures Format(ParseHex(s)) == StripZeros(UpperCase(s))
  {
    var x := ParseHex(s);
    var z := 128 - |s|;
    ParsedNibbles(s);
    forall k | 0 <= k < 128
      ensures Render(x)[k] == (ZeroChars(z) + UpperCase(s))[k]
    {
      assert Render(x)[k] == HexChar(Nibbles(x)[k]);
      if k >= z {
        DigitHexChar(s[k - z]);
      }
    }
    assert Render(x) == ZeroChars(z) + UpperCase(s);
    StripLeading(z, UpperCase(s));
  }
}
