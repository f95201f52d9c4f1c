/** Python's integer bit operations on non-negative integers, and the
    division facts the codecs' proofs rest on. `n >> k` is `n / 2^k`,
    `n << k` is `n * 2^k`; `&` and `|` are defined bit by bit. */
module Bits {

  function Pow2(k: nat): (r: nat)
    ensures r >= 1
  {
    if k == 0 then 1 else 2 * Pow2(k - 1)
  }

  /** Python `n >> k` for non-negative `n`, one bit at a time. */
  function Shr(n: nat, k: nat): nat
    decreases k
  {
    if k == 0 then n else Shr(n / 2, k - 1)
  }

  /** Python `n << k`. */
  function Shl(n: nat, k: nat): nat {
    n * Pow2(k)
  }

  /** Python `a & b` for non-negative operands, lowest bit first. */
  function And(a: nat, b: nat): nat
    decreases a
  {
    if a == 0 || b == 0 then 0
    else 2 * And(a / 2, b / 2) + (if a % 2 == 1 && b % 2 == 1 then 1 else 0)
  }

  /** Python `a | b` for non-negative operands, lowest bit first. */
  function Or(a: nat, b: nat): nat
    decreases a + b
  {
    if a == 0 then b
    else if b == 0 then a
    else 2 * Or(a / 2, b / 2) + (if a % 2 == 1 || b % 2 == 1 then 1 else 0)
  }

  lemma {:induction false} Pow2Add(a: nat, b: nat)
    ensures Pow2(a + b) == Pow2(a) * Pow2(b)
  {
    if a > 0 {
      Pow2Add(a - 1, b);
      assert Pow2(a + b) == 2 * Pow2(a - 1 + b);
    }
  }

  // Powers of two used as constants, built up by doubling the exponent.

  lemma Pow2Of4() ensures Pow2(4) == 16 { assert Pow2(2) == 4; }
  lemma Pow2Of8() ensures Pow2(8) == 0x100 { Pow2Of4(); Pow2Add(4, 4); }
  lemma Pow2Of16() ensures Pow2(16) == 0x1_0000 { Pow2Of8(); Pow2Add(8, 8); }
  lemma Pow2Of32() ensures Pow2(32) == 0x1_0000_0000 { Pow2Of16(); Pow2Add(16, 16); }
  lemma Pow2Of52() ensures Pow2(52) == 0x10_0000_0000_0000 {
    Pow2Of4(); Pow2Of16(); Pow2Of32();
    Pow2Add(32, 16);
    Pow2Add(48, 4);
  }

  lemma {:induction false} Pow2Monotone(a: nat, b: nat)
    requires a <= b
    ensures Pow2(a) <= Pow2(b)
  {
    if a < b {
      Pow2Monotone(a, b - 1);
    }
  }

  /** Quotient and remainder are determined by any decomposition with a
      remainder in range. */
  lemma DivModUnique(x: int, m: int, q: int, r: int)
    requires m > 0 && 0 <= r < m && x == q * m + r
    ensures x / m == q && x % m == r
  {
    var q' := x / m;
    var r' := x % m;
    assert (q - q') * m == r' - r;
    if q - q' >= 1 {
      MulAtLeast(q - q', m);
    } else if q' - q >= 1 {
      MulAtLeast(q' - q, m);
    }
  }

  lemma MulAtLeast(a: int, m: int)
    requires a >= 1 && m > 0
    ensures a * m >= m
  {
  }

  /** Dividing by `a * b` is dividing by `a` and then by `b`; the remainder
      splits into a low part modulo `a` and the next digit base `b`. */
  lemma DivModProduct(v: nat, a: nat, b: nat)
    requires a > 0 && b > 0
    ensures v / (a * b) == (v / a) / b
    ensures v % (a * b) == v % a + a * ((v / a) % b)
  {
    var q, r := v / a, v % a;
    var q2, r2 := q / b, q % b;
    Nest(v, a, b, q, r, q2, r2);
    DivModUnique(v, a * b, q2, a * r2 + r);
  }

  /** The two-level decomposition of `v` by `a` and then `b`, flattened. */
  lemma Nest(v: int, a: int, b: int, q: int, r: int, q2: int, r2: int)
    requires a > 0 && b > 0
    requires v == q * a + r && 0 <= r < a
    requires q == q2 * b + r2 && 0 <= r2 < b
    ensures v == q2 * (a * b) + (a * r2 + r)
    ensures 0 <= a * r2 + r < a * b
  {
    assert q * a == q2 * (a * b) + a * r2;
    assert a * r2 <= a * (b - 1) by {
      MulMonotone(b - 1, r2, a);
    }
  }

  /** Shifting right by `k` is dividing by `2^k`. */
  lemma {:induction false} ShrIsDiv(n: nat, k: nat)
    ensures Shr(n, k) == n / Pow2(k)
    decreases k
  {
    if k == 0 {
      DivModUnique(n, 1, n, 0);
    } else {
      ShrIsDiv(n / 2, k - 1);
      DivModProduct(n, 2, Pow2(k - 1));
    }
  }

  /** The low `k` bits of `n`, collected bit by bit as `&` does. */
  function LowBits(n: nat, k: nat): nat
    decreases k
  {
    if k == 0 || n == 0 then 0 else 2 * LowBits(n / 2, k - 1) + n % 2
  }

  /** Masking with `2^k - 1` keeps the low `k` bits. */
  lemma AndLowMask(n: nat, k: nat)
    ensures And(n, Pow2(k) - 1) == n % Pow2(k)
  {
    AndMaskIsLowBits(n, k);
    LowBitsIsMod(n, k);
  }

  lemma {:induction false} AndMaskIsLowBits(n: nat, k: nat)
    ensures And(n, Pow2(k) - 1) == LowBits(n, k)
    decreases k
  {
    if k > 0 && n > 0 {
      var mask := Pow2(k) - 1;
      assert mask % 2 == 1 && mask / 2 == Pow2(k - 1) - 1;
      AndMaskIsLowBits(n / 2, k - 1);
    }
  }

  lemma {:induction false} LowBitsIsMod(n: nat, k: nat)
    ensures LowBits(n, k) == n % Pow2(k)
    decreases k
  {
    if k > 0 && n > 0 {
      var p := Pow2(k - 1);
      LowBitsIsMod(n / 2, k - 1);
      DivModProduct(n, 2, p);
    } else if k == 0 {
      DivModUnique(n, 1, n, 0);
    } else {
      DivModUnique(0, Pow2(k), 0, 0);
    }
  }

  /** Or-ing a value whose low `k` bits are clear with one below `2^k` adds them. */
  lemma {:induction false} OrDisjoint(a: nat, b: nat, k: nat)
    requires a % Pow2(k) == 0 && b < Pow2(k)
    ensures Or(a, b) == a + b
  {
    if k > 0 && a > 0 && b > 0 {
      DivModProduct(a, 2, Pow2(k - 1));
      DivModProduct(b, 2, Pow2(k - 1));
      OrDisjoint(a / 2, b / 2, k - 1);
    }
  }

  /** A shifted value occupies only the bits at and above the shift. */
  lemma ShlLowBitsClear(n: nat, k: nat)
    ensures Shl(n, k) % Pow2(k) == 0
  {
    DivModUnique(Shl(n, k), Pow2(k), n, 0);
  }

  lemma MulLess(b: nat, a: nat, c: nat)
    requires b < a && c > 0
    ensures b * c < a * c
  {
    assert a * c - b * c == (a - b) * c;
    MulAtLeast(a - b, c);
  }

  lemma MulMonotone(q: nat, a: nat, b: nat)
    ensures q >= a ==> q * b >= a * b
  {
    if q > a && b > 0 {
      MulLess(a, q, b);
    }
  }

  /** A value below `a * b`, divided by `b`, is below `a`. */
  lemma DivBelow(x: nat, a: nat, b: nat)
    requires b > 0 && x < a * b
    ensures x / b < a
  {
    assert (x / b) * b <= x;
    MulMonotone(x / b, a, b);
  }

  lemma Regroup(s: nat, b: nat, pe: nat, pf: nat)
    ensures s * (pe * pf) + b * pf == (s * pe + b) * pf
  {
    assert s * (pe * pf) == (s * pe) * pf;
  }

  /** A number written with digits `s`, `b`, `fr` in the mixed radix
      `pf`, `pe` has exactly those digits. */
  lemma SplitDigits(s: nat, b: nat, fr: nat, pe: nat, pf: nat)
    requires b < pe && fr < pf
    ensures (s * (pe * pf) + b * pf + fr) / pf == s * pe + b
    ensures (s * (pe * pf) + b * pf + fr) % pf == fr
    ensures ((s * (pe * pf) + b * pf + fr) / pf) % pe == b
    ensures (s * (pe * pf) + b * pf + fr) / (pe * pf) == s
  {
    var w := s * (pe * pf) + b * pf + fr;
    Regroup(s, b, pe, pf);
    DivModUnique(w, pf, s * pe + b, fr);
    DivModUnique(s * pe + b, pe, s, b);
    assert b * pf + fr < pe * pf by {
      assert b <= pe - 1;
      MulMonotone(pe - 1, b, pf);
      assert (pe - 1) * pf == pe * pf - pf;
    }
    DivModUnique(w, pe * pf, s, b * pf + fr);
  }

  /** Every number is the assembly of its mixed-radix digits. */
  lemma JoinDigits(n: nat, pe: nat, pf: nat)
    requires pe > 0 && pf > 0
    ensures n == (n / (pe * pf)) * (pe * pf) + ((n / pf) % pe) * pf + n % pf
  {
    var q, r := n / pf, n % pf;
    var q2, r2 := q / pe, q % pe;
    Nest(n, pf, pe, q, r, q2, r2);
    DivModUnique(n, pf * pe, q2, pf * r2 + r);
    assert pf * pe == pe * pf && pf * r2 == r2 * pf;
  }
}
