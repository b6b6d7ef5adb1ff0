/** Hexadecimal text: Python's rendering `hex(i)[2:].upper()` and the
    base-16 reading `int(s, 16)` restricted to strings of hex digits. */
module Hex {

  /** Powers of sixteen. */
  function Pow16(k: nat): (p: nat)
    ensures p >= 1
  {
    if k == 0 then 1 else 16 * Pow16(k - 1)
  }

  /** The uppercase digit for a value below sixteen. */
  function HexDigit(d: nat): (c: char)
    requires d < 16
    ensures IsUpperHexDigit(c) && DigitValue(c) == d
  {
    if d < 10 then '0' + d as char else 'A' + (d - 10) as char
  }

  predicate IsUpperHexDigit(c: char)
  {
    '0' <= c <= '9' || 'A' <= c <= 'F'
  }

  /** The characters `int(s, 16)` accepts as digits: both cases. */
  predicate IsHexDigit(c: char)
  {
    '0' <= c <= '9' || 'A' <= c <= 'F' || 'a' <= c <= 'f'
  }

  function DigitValue(c: char): (d: nat)
    requires IsHexDigit(c)
    ensures d < 16
  {
    if '0' <= c <= '9' then c as int - '0' as int
    else if 'A' <= c <= 'F' then c as int - 'A' as int + 10
    else c as int - 'a' as int + 10
  }

  /** A string `int(s, 16)` reads without raising: one or more hex digits. */
  predicate IsHexString(s: string)
  {
    |s| >= 1 && forall k :: 0 <= k < |s| ==> IsHexDigit(s[k])
  }

  predicate IsUpperHexString(s: string)
  {
    forall k :: 0 <= k < |s| ==> IsUpperHexDigit(s[k])
  }

  /** The base-16 value of a string of hex digits, most significant first. */
  function FromHex(s: string): nat
    requires forall k :: 0 <= k < |s| ==> IsHexDigit(s[k])
  {
    if s == [] then 0 else 16 * FromHex(s[..|s| - 1]) + DigitValue(s[|s| - 1])
  }

  /** `hex(n)[2:].upper()` for `n >= 0`: uppercase digits, no leading zero. */
  function ToHex(n: nat): string
  {
    if n < 16 then [HexDigit(n)] else ToHex(n / 16) + [HexDigit(n % 16)]
  }

  /** `hex(i)[2:].upper()`.  For a negative `i` Python renders `-0x…`, so
      dropping two characters leaves the `x`, which `upper` turns into `X`. */
  function HexValue(i: int): string
  {
    if i >= 0 then ToHex(i) else "X" + ToHex(-i)
  }

  /** `ToHex(n)` is a non-empty string of uppercase digits, without a
      leading zero unless it is `"0"`, that reads back as `n`. */
  lemma {:induction false} ToHexRoundTrip(n: nat)
    ensures |ToHex(n)| >= 1 && IsUpperHexString(ToHex(n))
    ensures (ToHex(n)[0] == '0') == (n == 0)
    ensures forall k :: 0 <= k < |ToHex(n)| ==> IsHexDigit(ToHex(n)[k])
    ensures FromHex(ToHex(n)) == n
  {
    if n >= 16 {
      ToHexRoundTrip(n / 16);
      var s := ToHex(n);
      assert s[..|s| - 1] == ToHex(n / 16);
      assert s[0] == ToHex(n / 16)[0];
    }
  }

  /** `ToHex(n)` has at most `k` digits exactly when `n < 16^k`. */
  lemma {:induction false} ToHexLength(n: nat, k: nat)
    requires k >= 1
    ensures |ToHex(n)| <= k <==> n < Pow16(k)
  {
    if n >= 16 {
      if k == 1 {
        ToHexRoundTrip(n / 16);
      } else {
        ToHexLength(n / 16, k - 1);
      }
    } else if k > 1 {
      PowMonotone(1, k);
    }
  }

  lemma {:induction false} PowMonotone(j: nat, k: nat)
    requires j <= k
    ensures Pow16(j) <= Pow16(k)
  {
    if j < k { PowMonotone(j, k - 1); }
  }

  /** Non-negative rendering: the properties promised of `hexValue`. */
  lemma HexValueNonNegative(i: int)
    requires i >= 0
    ensures |HexValue(i)| >= 1 && IsUpperHexString(HexValue(i))
    ensures 'X' !in HexValue(i) && 'x' !in HexValue(i)
    ensures IsHexString(HexValue(i)) && FromHex(HexValue(i)) == i
    ensures |HexValue(i)| > 1 ==> HexValue(i)[0] != '0'
  {
    ToHexRoundTrip(i);
    var s := HexValue(i);
    assert forall k :: 0 <= k < |s| ==> s[k] != 'X' && s[k] != 'x' by {
      forall k | 0 <= k < |s| ensures s[k] != 'X' && s[k] != 'x' { assert IsUpperHexDigit(s[k]); }
    }
  }

  /** A negative value is rendered as `X` followed by the digits of its
      magnitude, which is not a hex string. */
  lemma HexValueNegative(i: int)
    requires i < 0
    ensures HexValue(i)[0] == 'X' && HexValue(i)[1..] == HexValue(-i)
    ensures !IsHexString(HexValue(i))
  {
    assert !IsHexDigit(HexValue(i)[0]);
  }

  /** Distinct non-negative values have distinct renderings. */
  lemma HexValueInjective(i: int, j: int)
    requires i >= 0 && j >= 0 && HexValue(i) == HexValue(j)
    ensures i == j
  {
    HexValueNonNegative(i);
    HexValueNonNegative(j);
  }

  /** Zeros prepended to a digit string do not change its value. */
  lemma {:induction false} FromHexLeadingZeros(z: string, s: string)
    requires forall k :: 0 <= k < |z| ==> z[k] == '0'
    requires forall k :: 0 <= k < |s| ==> IsHexDigit(s[k])
    ensures forall k :: 0 <= k < |z + s| ==> IsHexDigit((z + s)[k])
    ensures FromHex(z + s) == FromHex(s)
  {
    if s == [] {
      assert z + s == z;
      if z != [] {
        FromHexLeadingZeros(z[..|z| - 1], []);
        assert z[..|z| - 1] + [] == z[..|z| - 1];
      }
    } else {
      var s' := s[..|s| - 1];
      FromHexLeadingZeros(z, s');
      assert (z + s)[..|z + s| - 1] == z + s';
    }
  }

  /** A run of `k` zeros. */
  function Zeros(k: nat): (r: string)
    ensures |r| == k && forall i :: 0 <= i < k ==> r[i] == '0'
  {
    if k == 0 then "" else "0" + Zeros(k - 1)
  }

  /** `s` left-padded with `'0'` to at least `w` characters. */
  function ZeroPad(s: string, w: nat): string
  {
    if |s| >= w then s else Zeros(w - |s|) + s
  }

  /** The end of a padding loop that puts `'0'` in front of `digits` until
      there are at least `w` characters: the result is `ZeroPad(digits, w)`. */
  lemma PaddingDone(padded: string, digits: string, w: nat)
    requires |padded| >= |digits| && padded == Zeros(|padded| - |digits|) + digits
    requires |padded| >= w && (|padded| <= w || padded == digits)
    ensures padded == ZeroPad(digits, w)
  {
    if |digits| < w {
      assert |padded| == w;
    } else {
      assert |padded| - |digits| == 0;
    }
  }
}
