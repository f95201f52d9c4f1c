/** Digit strings as Python's `int(text)` and `int(text, 16)` read them and
    `format` writes them: ASCII digits, with the letters `a`-`f` in either
    case in hexadecimal, written in lower case, with `0`s to fill a width. */
module Digits {
  import opened Wire

  /** The two bases the codecs read and write. */
  datatype Radix = Decimal | Hex

  function Base(radix: Radix): nat {
    if radix == Decimal then 10 else 16
  }

  /** The value of an ASCII digit or letter `a`-`f`/`A`-`F`; -1 for anything else. */
  function DigitValue(c: char): (r: int)
    ensures -1 <= r < 16
  {
    if '0' <= c <= '9' then c as int - '0' as int
    else if 'a' <= c <= 'f' then c as int - 'a' as int + 10
    else if 'A' <= c <= 'F' then c as int - 'A' as int + 10
    else -1
  }

  predicate IsDigit(c: char, radix: Radix) {
    0 <= DigitValue(c) < Base(radix)
  }

  predicate AllDigits(s: string, radix: Radix) {
    forall i :: 0 <= i < |s| ==> IsDigit(s[i], radix)
  }

  /** The number a string of digits denotes, most significant first. */
  function ValueOf(s: string, radix: Radix): nat
    requires AllDigits(s, radix)
    decreases |s|
  {
    if |s| == 0 then 0
    else
      var init := s[..|s| - 1];
      assert AllDigits(init, radix) by {
        forall i | 0 <= i < |init| ensures IsDigit(init[i], radix) {
          assert init[i] == s[i];
        }
      }
      Base(radix) * ValueOf(init, radix) + DigitValue(s[|s| - 1])
  }

  /** A digit as `format` writes it: `0`-`9` or a lower-case `a`-`f`. */
  predicate IsLowerDigit(c: char) {
    '0' <= c <= '9' || 'a' <= c <= 'f'
  }

  predicate AllLower(s: string) {
    forall i :: 0 <= i < |s| ==> IsLowerDigit(s[i])
  }

  /** The lower-case character of a digit. */
  function DigitChar(d: nat): (c: char)
    requires d < 16
    ensures DigitValue(c) == d
    ensures IsLowerDigit(c)
  {
    if d < 10 then ('0' as int + d) as char else ('a' as int + d - 10) as char
  }

  /** The shortest digit string of `v`, `"0"` for zero, as `format` writes it. */
  function Format(v: nat, radix: Radix): (r: string)
    ensures |r| >= 1
    ensures AllDigits(r, radix)
    ensures AllLower(r)
    decreases v
  {
    var b := Base(radix);
    if v < b then [DigitChar(v)]
    else
      var r := Format(v / b, radix) + [DigitChar(v % b)];
      assert forall i :: 0 <= i < |r| - 1 ==> r[i] == Format(v / b, radix)[i];
      r
  }

  function Zeros(k: nat): (r: string)
    ensures |r| == k && forall i :: 0 <= i < k ==> r[i] == '0'
  {
    if k == 0 then "" else "0" + Zeros(k - 1)
  }

  /** `format(v, "0<width>")` for a non-negative `v`: the digits, with
      leading zeros up to `width` characters. */
  function Padded(v: nat, radix: Radix, width: int): (r: string)
    ensures |r| >= width && |r| >= 1
    ensures AllDigits(r, radix)
    ensures AllLower(r)
  {
    var digits := Format(v, radix);
    if |digits| >= width then digits
    else
      var r := Zeros(width - |digits|) + digits;
      assert forall i :: width - |digits| <= i < |r| ==> r[i] == digits[i - (width - |digits|)];
      r
  }

  /** `format(v, "0<width>x")` for any `v`: a negative value is a minus
      sign and then its magnitude padded to one less than `width`. */
  function FormatHex(v: int, width: int): string {
    if v < 0 then "-" + Padded(-v, Hex, width - 1) else Padded(v, Hex, width)
  }

  /** `v` is its quotient and remainder by the base, recombined. */
  lemma DivMod(v: nat, radix: Radix)
    ensures v == Base(radix) * (v / Base(radix)) + v % Base(radix)
    ensures v >= Base(radix) ==> v / Base(radix) < v
  {
    if radix == Decimal {
      assert v == 10 * (v / 10) + v % 10;
    } else {
      assert v == 16 * (v / 16) + v % 16;
    }
  }

  /** Reading a formatted number gives the number back. */
  lemma {:induction false} ValueOfFormat(v: nat, radix: Radix)
    ensures ValueOf(Format(v, radix), radix) == v
    decreases v
  {
    var b := Base(radix);
    if v < b {
      ValueOfAppend("", DigitChar(v), radix);
      assert "" + [DigitChar(v)] == Format(v, radix);
    } else {
      var q, d := v / b, v % b;
      DivMod(v, radix);
      ValueOfFormat(q, radix);
      ValueOfAppend(Format(q, radix), DigitChar(d), radix);
    }
  }

  /** Appending a digit multiplies by the base and adds the digit. */
  lemma ValueOfAppend(s: string, c: char, radix: Radix)
    requires AllDigits(s, radix) && IsDigit(c, radix)
    ensures AllDigits(s + [c], radix)
    ensures ValueOf(s + [c], radix) == Base(radix) * ValueOf(s, radix) + DigitValue(c)
  {
    var r := s + [c];
    assert forall i :: 0 <= i < |s| ==> r[i] == s[i];
    assert r[..|r| - 1] == s;
  }

  /** Leading zeros do not change the value. */
  lemma {:induction false} ValueOfLeadingZeros(k: nat, s: string, radix: Radix)
    requires AllDigits(s, radix)
    ensures AllDigits(Zeros(k) + s, radix)
    ensures ValueOf(Zeros(k) + s, radix) == ValueOf(s, radix)
    decreases |s|
  {
    var z := Zeros(k) + s;
    assert forall i :: 0 <= i < |z| ==> z[i] == if i < k then '0' else s[i - k];
    if |s| == 0 {
      assert z == Zeros(k);
      ZerosAreZero(k, radix);
    } else {
      var init := s[..|s| - 1];
      assert z[..|z| - 1] == Zeros(k) + init;
      assert AllDigits(init, radix) by {
        forall i | 0 <= i < |init| ensures IsDigit(init[i], radix) {
          assert init[i] == s[i];
        }
      }
      ValueOfLeadingZeros(k, init, radix);
    }
  }

  lemma {:induction false} ZerosAreZero(k: nat, radix: Radix)
    ensures AllDigits(Zeros(k), radix)
    ensures ValueOf(Zeros(k), radix) == 0
    decreases k
  {
    if k > 0 {
      var z := Zeros(k);
      var init := z[..k - 1];
      assert init == Zeros(k - 1) by {
        assert forall i :: 0 <= i < k - 1 ==> init[i] == '0';
      }
      ZerosAreZero(k - 1, radix);
    }
  }

  /** Reading a padded number gives the number back. */
  lemma ValueOfPadded(v: nat, radix: Radix, width: int)
    ensures ValueOf(Padded(v, radix, width), radix) == v
  {
    var digits := Format(v, radix);
    ValueOfFormat(v, radix);
    if |digits| < width {
      var k := width - |digits|;
      ValueOfLeadingZeros(k, digits, radix);
      assert Padded(v, radix, width) == Zeros(k) + digits;
    } else {
      assert Padded(v, radix, width) == digits;
    }
  }

  /** `base^k`. */
  function Power(radix: Radix, k: nat): (r: nat)
    ensures r >= 1
  {
    if k == 0 then 1 else Base(radix) * Power(radix, k - 1)
  }

  /** A number below `base^k` has at most `k` digits, so padding it to a
      width `k` writes exactly `k` characters. */
  lemma {:induction false} FormatLength(v: nat, radix: Radix, k: nat)
    requires 1 <= k && v < Power(radix, k)
    ensures |Format(v, radix)| <= k
    ensures |Padded(v, radix, k)| == k
    decreases v
  {
    var b := Base(radix);
    if v >= b {
      DivMod(v, radix);
      assert Power(radix, 1) == b;
      assert Power(radix, k) == b * Power(radix, k - 1);
      assert b * (v / b) < b * Power(radix, k - 1);
      FormatLength(v / b, radix, k - 1);
    }
  }

  /** The texts `int(s)` reads in the model: one or more decimal digits,
      optionally after a sign. */
  predicate IsDecimalLiteral(s: string) {
    || (|s| > 0 && AllDigits(s, Decimal))
    || (|s| > 1 && (s[0] == '-' || s[0] == '+') && AllDigits(s[1..], Decimal))
  }

  /** The texts `int(s, 16)` reads after the `0x` test of `__call__`:
      `0x`, then one or more hexadecimal digits. */
  predicate IsHexLiteral(s: string) {
    |s| > 2 && s[..2] == "0x" && AllDigits(s[2..], Hex)
  }

  /** `int(s)` for the texts the model accepts: an optional sign, then one
      or more decimal digits. */
  function ParseDecimal(s: string): (r: Option<int>)
    ensures r.Some? ==> |s| >= 1
  {
    if |s| > 0 && (s[0] == '-' || s[0] == '+') then
      var digits := s[1..];
      if |digits| > 0 && AllDigits(digits, Decimal) then
        Some(if s[0] == '-' then -(ValueOf(digits, Decimal) as int) else ValueOf(digits, Decimal))
      else None
    else if |s| > 0 && AllDigits(s, Decimal) then Some(ValueOf(s, Decimal))
    else None
  }

  /** `int(s, 16)` for a text that starts with `0x`: the prefix, then one or
      more hexadecimal digits in either case. */
  function ParseHexLiteral(s: string): (r: Option<nat>)
    requires |s| >= 2 && s[..2] == "0x"
  {
    var digits := s[2..];
    if |digits| > 0 && AllDigits(digits, Hex) then Some(ValueOf(digits, Hex)) else None
  }

  /** `str(v)`. */
  function DecimalString(v: int): string {
    if v < 0 then "-" + Format(-v, Decimal) else Format(v, Decimal)
  }

  /** Every integer's decimal text reads back as the integer. */
  lemma ParseDecimalString(v: int)
    ensures ParseDecimal(DecimalString(v)) == Some(v)
  {
    var s := DecimalString(v);
    if v < 0 {
      var m: nat := -v;
      ValueOfFormat(m, Decimal);
      assert s[1..] == Format(m, Decimal);
    } else {
      ValueOfFormat(v, Decimal);
      assert IsDigit(s[0], Decimal);
    }
  }

  /** `0x` and the hexadecimal digits of `v`, padded to any width, read
      back as `v`. */
  lemma ParseHexPadded(v: nat, width: int)
    ensures var s := "0x" + Padded(v, Hex, width);
            s[..2] == "0x" && ParseHexLiteral(s) == Some(v)
  {
    var s := "0x" + Padded(v, Hex, width);
    assert s[2..] == Padded(v, Hex, width);
    ValueOfPadded(v, Hex, width);
  }

  /** A decimal text never starts with `0x`. */
  lemma DecimalIsNotHex(v: int)
    ensures var s := DecimalString(v); !(|s| >= 2 && s[..2] == "0x")
  {
    var s := DecimalString(v);
    assert |s| >= 2 ==> s[..2][0] == s[0] && s[..2][1] == s[1];
    if v >= 0 {
      assert |s| >= 2 ==> IsDigit(s[1], Decimal);
    }
  }
}
