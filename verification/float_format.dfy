/** The bit-level conversion `BaseFloat._convert_format` between the
    packed layouts `sign | exponent | fraction` of `Half` (5, 10),
    `Single` (8, 23) and `Double` (11, 52). It is integer bit surgery and
    is modelled on naturals; no floating-point value appears.

    The original biases exponents by `2^(E-1)` (IEEE 754 uses
    `2^(E-1) - 1`) and clamps ordinary exponents into
    `[2 - 2^(E-1), 2^(E-1) - 2]`, so the biased exponent 1 is never
    produced. `ConvertFormat` is the conversion as written;
    `ConvertFormatCorrected` lowers the floor to `1 - 2^(E-1)`. */
module FloatFormat {
  import opened Bits

  /** A `BaseFloat` subclass: `_exponent_bits` and `_fraction_bits`. */
  datatype Format = Format(exponentBits: nat, fractionBits: nat)

  const Half := Format(5, 10)
  const Single := Format(8, 23)
  const Double := Format(11, 52)

  /** `__init_subclass__` asserts a whole number of bytes; `2 ** (E - 1)`
      is an integer only for a non-empty exponent field. */
  predicate ValidFormat(f: Format) {
    f.exponentBits >= 1 && (1 + f.exponentBits + f.fractionBits) % 8 == 0
  }

  function AllOnes(bits: nat): nat {
    Pow2(bits) - 1
  }

  /** The exponent bias used throughout the original: `2^(E-1)`. */
  function Bias(f: Format): nat
    requires f.exponentBits >= 1
  {
    Pow2(f.exponentBits - 1)
  }

  // The three fields of a packed word, read arithmetically.

  function SignOf(f: Format, n: nat): nat {
    Shr(n, f.exponentBits + f.fractionBits)
  }

  function BiasedExponentOf(f: Format, n: nat): nat {
    Shr(n, f.fractionBits) % Pow2(f.exponentBits)
  }

  function FractionOf(f: Format, n: nat): nat {
    n % Pow2(f.fractionBits)
  }

  /** The word with the given fields. */
  function Word(f: Format, sign: nat, biased: nat, frac: nat): nat {
    sign * Pow2(f.exponentBits + f.fractionBits) + biased * Pow2(f.fractionBits) + frac
  }

  /** Python's `min(max(lo, x), hi)`. */
  function Clamp(lo: int, x: int, hi: int): int {
    var m := if lo >= x then lo else x;
    if m <= hi then m else hi
  }

  /** Lowest ordinary exponent the original allows: `2 - 2^(E-1)`. */
  function LowestExponent(f: Format): int
    requires f.exponentBits >= 1
  {
    2 - Bias(f)
  }

  /** Lowest exponent whose biased form is not all zeros: `1 - 2^(E-1)`. */
  function LowestExponentCorrected(f: Format): int
    requires f.exponentBits >= 1
  {
    1 - Bias(f)
  }

  /** Highest exponent whose biased form is not all ones: `2^(E-1) - 2`. */
  function HighestExponent(f: Format): int
    requires f.exponentBits >= 1
  {
    Bias(f) - 2
  }

  /** The destination's biased exponent: all ones and all zeros carry over;
      any other exponent is unbiased, clamped into `[lowest, highest]` and
      re-biased. */
  function TargetExponent(src: Format, dst: Format, srcBiased: nat, lowest: int): (r: nat)
    requires src.exponentBits >= 1 && dst.exponentBits >= 1
    requires lowest >= -(Bias(dst) as int)
    ensures r < Pow2(dst.exponentBits)
  {
    assert Pow2(dst.exponentBits) == 2 * Bias(dst);
    if srcBiased == AllOnes(src.exponentBits) then AllOnes(dst.exponentBits)
    else if srcBiased == 0 then 0
    else Clamp(lowest, srcBiased - Bias(src), HighestExponent(dst)) + Bias(dst)
  }

  /** Fraction bits are dropped from the right when narrowing and zeros
      appended on the right when widening. */
  function ResizeFraction(src: Format, dst: Format, frac: nat): nat {
    if src.fractionBits > dst.fractionBits then Shr(frac, src.fractionBits - dst.fractionBits)
    else Shl(frac, dst.fractionBits - src.fractionBits)
  }

  lemma ResizeFractionBound(src: Format, dst: Format, frac: nat)
    requires frac < Pow2(src.fractionBits)
    ensures ResizeFraction(src, dst, frac) < Pow2(dst.fractionBits)
  {
    if src.fractionBits > dst.fractionBits {
      var k := src.fractionBits - dst.fractionBits;
      Pow2Add(dst.fractionBits, k);
      ShrIsDiv(frac, k);
      DivBelow(frac, Pow2(dst.fractionBits), Pow2(k));
    } else {
      var k := dst.fractionBits - src.fractionBits;
      Pow2Add(src.fractionBits, k);
      MulLess(frac, Pow2(src.fractionBits), Pow2(k));
    }
  }

  /** Reading the fields of an assembled word gives back its parts. */
  lemma FieldsOfWord(f: Format, sign: nat, biased: nat, frac: nat)
    requires biased < Pow2(f.exponentBits) && frac < Pow2(f.fractionBits)
    ensures SignOf(f, Word(f, sign, biased, frac)) == sign
    ensures BiasedExponentOf(f, Word(f, sign, biased, frac)) == biased
    ensures FractionOf(f, Word(f, sign, biased, frac)) == frac
  {
    var w := Word(f, sign, biased, frac);
    ShrIsDiv(w, f.exponentBits + f.fractionBits);
    ShrIsDiv(w, f.fractionBits);
    Pow2Add(f.exponentBits, f.fractionBits);
    SplitDigits(sign, biased, frac, Pow2(f.exponentBits), Pow2(f.fractionBits));
  }

  /** Every word is the assembly of its own fields. */
  lemma WordOfFields(f: Format, n: nat)
    ensures n == Word(f, SignOf(f, n), BiasedExponentOf(f, n), FractionOf(f, n))
  {
    ShrIsDiv(n, f.exponentBits + f.fractionBits);
    ShrIsDiv(n, f.fractionBits);
    Pow2Add(f.exponentBits, f.fractionBits);
    JoinDigits(n, Pow2(f.exponentBits), Pow2(f.fractionBits));
  }

  /** The original's `a << (E + F) | b << F | c` on fields that fit is
      their arithmetic assembly. */
  lemma OrAssemble(f: Format, sign: nat, biased: nat, frac: nat)
    requires biased < Pow2(f.exponentBits) && frac < Pow2(f.fractionBits)
    ensures Or(Or(Shl(sign, f.exponentBits + f.fractionBits), Shl(biased, f.fractionBits)), frac)
            == Word(f, sign, biased, frac)
  {
    OrHighFields(f, sign, biased);
    HighFieldsAligned(f, sign, biased);
    OrDisjoint(Word(f, sign, biased, 0), frac, f.fractionBits);
  }

  /** The sign and exponent fields, or-ed, are their sum. */
  lemma OrHighFields(f: Format, sign: nat, biased: nat)
    requires biased < Pow2(f.exponentBits)
    ensures Or(Shl(sign, f.exponentBits + f.fractionBits), Shl(biased, f.fractionBits))
            == Word(f, sign, biased, 0)
  {
    var pe := Pow2(f.exponentBits);
    var pf := Pow2(f.fractionBits);
    Pow2Add(f.exponentBits, f.fractionBits);
    ShlLowBitsClear(sign, f.exponentBits + f.fractionBits);
    MulLess(biased, pe, pf);
    OrDisjoint(Shl(sign, f.exponentBits + f.fractionBits), Shl(biased, f.fractionBits), f.exponentBits + f.fractionBits);
  }

  /** The sign and exponent fields leave the fraction bits clear. */
  lemma HighFieldsAligned(f: Format, sign: nat, biased: nat)
    ensures Word(f, sign, biased, 0) % Pow2(f.fractionBits) == 0
  {
    var pe := Pow2(f.exponentBits);
    var pf := Pow2(f.fractionBits);
    Pow2Add(f.exponentBits, f.fractionBits);
    Regroup(sign, biased, pe, pf);
    DivModUnique(Word(f, sign, biased, 0), pf, sign * pe + biased, 0);
  }

  /** The conversion with the ordinary-exponent floor `lowest` as a
      parameter; the original passes `LowestExponent(dst)`. */
  function Reformat(src: Format, dst: Format, n: nat, lowest: int): (r: nat)
    requires ValidFormat(src) && ValidFormat(dst)
    requires lowest >= -(Bias(dst) as int)
    ensures SignOf(dst, r) == SignOf(src, n)
    ensures BiasedExponentOf(dst, r)
            == TargetExponent(src, dst, BiasedExponentOf(src, n), lowest)
    ensures FractionOf(dst, r) == ResizeFraction(src, dst, FractionOf(src, n))
  {
    var sign := Shr(n, src.exponentBits + src.fractionBits);
    var frac := And(n, Pow2(src.fractionBits) - 1);
    var biased := And(Shr(n, src.fractionBits), Pow2(src.exponentBits) - 1);
    AndLowMask(n, src.fractionBits);
    AndLowMask(Shr(n, src.fractionBits), src.exponentBits);
    var dstBiased := TargetExponent(src, dst, biased, lowest);
    var dstFrac := ResizeFraction(src, dst, frac);
    ResizeFractionBound(src, dst, frac);
    OrAssemble(dst, sign, dstBiased, dstFrac);
    FieldsOfWord(dst, sign, dstBiased, dstFrac);
    Or(Or(Shl(sign, dst.exponentBits + dst.fractionBits), Shl(dstBiased, dst.fractionBits)), dstFrac)
  }

  /** `BaseFloat._convert_format(src=src, dst=dst, n=n)` as written. */
  function ConvertFormat(src: Format, dst: Format, n: nat): (r: nat)
    requires ValidFormat(src) && ValidFormat(dst)
    ensures SignOf(dst, r) == SignOf(src, n)
    ensures BiasedExponentOf(dst, r)
            == TargetExponent(src, dst, BiasedExponentOf(src, n), LowestExponent(dst))
    ensures FractionOf(dst, r) == ResizeFraction(src, dst, FractionOf(src, n))
  {
    Reformat(src, dst, n, LowestExponent(dst))
  }

  /** The conversion with the floor the all-zeros comment calls for, so
      that the smallest normal exponent is representable. */
  function ConvertFormatCorrected(src: Format, dst: Format, n: nat): (r: nat)
    requires ValidFormat(src) && ValidFormat(dst)
    ensures SignOf(dst, r) == SignOf(src, n)
    ensures BiasedExponentOf(dst, r)
            == TargetExponent(src, dst, BiasedExponentOf(src, n), LowestExponentCorrected(dst))
    ensures FractionOf(dst, r) == ResizeFraction(src, dst, FractionOf(src, n))
  {
    Reformat(src, dst, n, LowestExponentCorrected(dst))
  }

  /** The special exponents carry over in both directions, and any other
      exponent lands strictly between them, never on biased 1. */
  lemma ConvertExponentClasses(src: Format, dst: Format, n: nat)
    requires ValidFormat(src) && ValidFormat(dst) && dst.exponentBits >= 2
    ensures var b := BiasedExponentOf(src, n);
            var b' := BiasedExponentOf(dst, ConvertFormat(src, dst, n));
            && (b' == AllOnes(dst.exponentBits) <==> b == AllOnes(src.exponentBits))
            && (b' == 0 <==> b == 0)
            && (b != 0 && b != AllOnes(src.exponentBits) ==>
                  2 <= b' <= AllOnes(dst.exponentBits) - 1
                  && b' == Clamp(LowestExponent(dst), b - Bias(src), HighestExponent(dst)) + Bias(dst))
  {
    var b := BiasedExponentOf(src, n);
    assert Pow2(dst.exponentBits) == 2 * Bias(dst);
    assert Bias(dst) >= 2 by {
      Pow2Monotone(1, dst.exponentBits - 1);
    }
  }

  /** Zeros appended to a fraction are dropped again. */
  lemma ResizeWidenNarrow(src: Format, dst: Format, frac: nat)
    requires src.fractionBits <= dst.fractionBits
    ensures ResizeFraction(dst, src, ResizeFraction(src, dst, frac)) == frac
  {
    var k := dst.fractionBits - src.fractionBits;
    if k > 0 {
      ShrIsDiv(frac * Pow2(k), k);
      DivModUnique(frac * Pow2(k), Pow2(k), frac, 0);
    } else {
      assert Pow2(0) == 1;
    }
  }

  /** An exponent carried to a format at least as wide and back is
      restored when both floors admit it. */
  lemma TargetWidenNarrow(src: Format, dst: Format, b: nat, lowDst: int, lowSrc: int)
    requires src.exponentBits >= 1 && src.exponentBits <= dst.exponentBits
    requires lowDst >= -(Bias(dst) as int) && lowSrc >= -(Bias(src) as int)
    requires b < Pow2(src.exponentBits)
    requires b != 0 && b != AllOnes(src.exponentBits) ==>
               lowDst <= b - Bias(src) && lowSrc <= b - Bias(src)
    ensures TargetExponent(dst, src, TargetExponent(src, dst, b, lowDst), lowSrc) == b
  {
    Pow2Monotone(src.exponentBits - 1, dst.exponentBits - 1);
    assert Pow2(src.exponentBits) == 2 * Bias(src);
    assert Pow2(dst.exponentBits) == 2 * Bias(dst);
  }

  /** Widening and then narrowing back restores the word when the floors
      of both directions admit its exponent. */
  lemma ReformatWidenNarrow(src: Format, dst: Format, n: nat, lowDst: int, lowSrc: int)
    requires ValidFormat(src) && ValidFormat(dst)
    requires src.exponentBits <= dst.exponentBits && src.fractionBits <= dst.fractionBits
    requires lowDst >= -(Bias(dst) as int) && lowSrc >= -(Bias(src) as int)
    requires var b := BiasedExponentOf(src, n);
             b != 0 && b != AllOnes(src.exponentBits) ==>
               lowDst <= b - Bias(src) && lowSrc <= b - Bias(src)
    ensures Reformat(dst, src, Reformat(src, dst, n, lowDst), lowSrc) == n
  {
    var back := Reformat(dst, src, Reformat(src, dst, n, lowDst), lowSrc);
    ResizeWidenNarrow(src, dst, FractionOf(src, n));
    TargetWidenNarrow(src, dst, BiasedExponentOf(src, n), lowDst, lowSrc);
    WordOfFields(src, n);
    WordOfFields(src, back);
  }

  /** As written, widening then narrowing restores every word except those
      with biased exponent 1. */
  lemma WidenThenNarrow(src: Format, dst: Format, n: nat)
    requires ValidFormat(src) && ValidFormat(dst)
    requires src.exponentBits <= dst.exponentBits && src.fractionBits <= dst.fractionBits
    requires BiasedExponentOf(src, n) != 1
    ensures ConvertFormat(dst, src, ConvertFormat(src, dst, n)) == n
  {
    var b := BiasedExponentOf(src, n);
    var lowDst, lowSrc := LowestExponent(dst), LowestExponent(src);
    assert Bias(src) <= Bias(dst) by {
      Pow2Monotone(src.exponentBits - 1, dst.exponentBits - 1);
    }
    assert b != 0 ==> lowDst <= b - Bias(src) && lowSrc <= b - Bias(src);
    ReformatWidenNarrow(src, dst, n, lowDst, lowSrc);
  }

  /** As written, biased exponent 1 is carried to a format at least as
      wide and comes back as 2. */
  lemma TargetSmallestNormal(src: Format, dst: Format)
    requires src.exponentBits >= 2 && src.exponentBits <= dst.exponentBits
    ensures TargetExponent(dst, src, TargetExponent(src, dst, 1, LowestExponent(dst)), LowestExponent(src)) == 2
  {
    Pow2Monotone(src.exponentBits - 1, dst.exponentBits - 1);
    Pow2Monotone(1, src.exponentBits - 1);
    assert Pow2(src.exponentBits) == 2 * Bias(src);
    assert Pow2(dst.exponentBits) == 2 * Bias(dst);
  }

  /** As written, a word with biased exponent 1 comes back with biased
      exponent 2, its sign and fraction unchanged: it grows by `2^F`. */
  lemma WidenThenNarrowSmallestNormal(src: Format, dst: Format, n: nat)
    requires ValidFormat(src) && ValidFormat(dst) && src.exponentBits >= 2
    requires src.exponentBits <= dst.exponentBits && src.fractionBits <= dst.fractionBits
    requires BiasedExponentOf(src, n) == 1
    ensures ConvertFormat(dst, src, ConvertFormat(src, dst, n)) == n + Pow2(src.fractionBits)
  {
    var back := ConvertFormat(dst, src, ConvertFormat(src, dst, n));
    var sign, frac := SignOf(src, n), FractionOf(src, n);
    ResizeWidenNarrow(src, dst, frac);
    TargetSmallestNormal(src, dst);
    assert SignOf(src, back) == sign && BiasedExponentOf(src, back) == 2 && FractionOf(src, back) == frac;
    WordOfFields(src, n);
    WordOfFields(src, back);
    NextExponent(src, sign, frac);
  }

  /** Raising the biased exponent from 1 to 2 adds `2^F` to the word. */
  lemma NextExponent(f: Format, sign: nat, frac: nat)
    ensures Word(f, sign, 2, frac) == Word(f, sign, 1, frac) + Pow2(f.fractionBits)
  {
  }

  /** `Half` bytes `00 04` (the smallest normal half, 2^-14) widened to
      `Double` and narrowed back become `00 08` (2^-13). */
  lemma HalfSmallestNormalDrifts()
    ensures ConvertFormat(Double, Half, ConvertFormat(Half, Double, 0x0400)) == 0x0800
  {
    assert Pow2(10) == 0x0400;
    assert BiasedExponentOf(Half, 0x0400) == 1;
    WidenThenNarrowSmallestNormal(Half, Double, 0x0400);
  }

  /** With the corrected floor, widening then narrowing restores every word. */
  lemma CorrectedWidenThenNarrow(src: Format, dst: Format, n: nat)
    requires ValidFormat(src) && ValidFormat(dst)
    requires src.exponentBits <= dst.exponentBits && src.fractionBits <= dst.fractionBits
    ensures ConvertFormatCorrected(dst, src, ConvertFormatCorrected(src, dst, n)) == n
  {
    var b := BiasedExponentOf(src, n);
    var lowDst, lowSrc := LowestExponentCorrected(dst), LowestExponentCorrected(src);
    assert Bias(src) <= Bias(dst) by {
      Pow2Monotone(src.exponentBits - 1, dst.exponentBits - 1);
    }
    assert b != 0 ==> lowDst <= b - Bias(src) && lowSrc <= b - Bias(src);
    ReformatWidenNarrow(src, dst, n, lowDst, lowSrc);
  }

  /** With the corrected floor every ordinary exponent keeps a biased
      form strictly between all zeros and all ones, including 1. */
  lemma CorrectedExponentRange(src: Format, dst: Format, n: nat)
    requires ValidFormat(src) && ValidFormat(dst) && dst.exponentBits >= 2
    ensures var b := BiasedExponentOf(src, n);
            var b' := BiasedExponentOf(dst, ConvertFormatCorrected(src, dst, n));
            b != 0 && b != AllOnes(src.exponentBits) ==>
              1 <= b' <= AllOnes(dst.exponentBits) - 1
  {
    assert Pow2(dst.exponentBits) == 2 * Bias(dst);
  }

  /** Narrowing and widening back keeps the sign and the fraction's high
      bits and clears only the fraction bits the narrow format lacks. */
  lemma NarrowThenWidenFraction(src: Format, dst: Format, n: nat)
    requires ValidFormat(src) && ValidFormat(dst)
    requires dst.fractionBits <= src.fractionBits
    ensures var back := ConvertFormat(dst, src, ConvertFormat(src, dst, n));
            var f := FractionOf(src, n);
            && SignOf(src, back) == SignOf(src, n)
            && FractionOf(src, back) == f - f % Pow2(src.fractionBits - dst.fractionBits)
  {
    ResizeNarrowWiden(src, dst, FractionOf(src, n));
  }

  /** Dropping fraction bits and appending zeros in their place clears
      the dropped bits. */
  lemma ResizeNarrowWiden(src: Format, dst: Format, frac: nat)
    requires dst.fractionBits <= src.fractionBits
    ensures ResizeFraction(dst, src, ResizeFraction(src, dst, frac))
            == frac - frac % Pow2(src.fractionBits - dst.fractionBits)
  {
    var k := src.fractionBits - dst.fractionBits;
    if k == 0 {
      DivModUnique(frac, 1, frac, 0);
    } else {
      ShrIsDiv(frac, k);
      assert frac == (frac / Pow2(k)) * Pow2(k) + frac % Pow2(k);
    }
  }

  /** A word whose exponent is all ones and fraction zero (an infinity)
      converts to the infinity of the same sign in the other format. */
  lemma InfinityConverts(src: Format, dst: Format, sign: nat)
    requires ValidFormat(src) && ValidFormat(dst)
    ensures ConvertFormat(src, dst, Word(src, sign, AllOnes(src.exponentBits), 0))
            == Word(dst, sign, AllOnes(dst.exponentBits), 0)
  {
    var n := Word(src, sign, AllOnes(src.exponentBits), 0);
    FieldsOfWord(src, sign, AllOnes(src.exponentBits), 0);
    var r := ConvertFormat(src, dst, n);
    WordOfFields(dst, r);
    if src.fractionBits > dst.fractionBits {
      var k := src.fractionBits - dst.fractionBits;
      ShrIsDiv(0, k);
      DivModUnique(0, Pow2(k), 0, 0);
    }
  }

  /** The positive infinities: `Double` `0x7FF0000000000000` and `Half` `0x7C00`. */
  lemma InfinityExample()
    ensures ConvertFormat(Double, Half, 0x7FF0_0000_0000_0000) == 0x7C00
    ensures ConvertFormat(Half, Double, 0x7C00) == 0x7FF0_0000_0000_0000
  {
    DoubleInfinityWord();
    HalfInfinityWord();
    InfinityConverts(Double, Half, 0);
    InfinityConverts(Half, Double, 0);
  }

  lemma DoubleInfinityWord()
    ensures Word(Double, 0, AllOnes(11), 0) == 0x7FF0_0000_0000_0000
  {
    Pow2Of52();
    assert Pow2(11) == 0x800 by {
      assert Pow2(3) == 8;
      Pow2Of8();
      Pow2Add(8, 3);
    }
    assert Word(Double, 0, 0x7FF, 0) == 0x7FF * Pow2(52);
  }

  lemma HalfInfinityWord()
    ensures Word(Half, 0, AllOnes(5), 0) == 0x7C00
  {
    assert Pow2(10) == 0x400 && Pow2(5) == 0x20;
  }
}
