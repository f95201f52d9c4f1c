/** Little-endian byte strings and the unsigned numbers they denote, as
    used by `int.to_bytes(n, "little")` and `int.from_bytes(b, "little")`. */
module LittleEndian {
  import opened Wire
  import opened Bits

  function Pow256(n: nat): (r: nat)
    ensures r >= 1
  {
    if n == 0 then 1 else 256 * Pow256(n - 1)
  }

  /** The unsigned number a little-endian byte string denotes. */
  function FromLE(bs: Bytes): (r: nat)
    ensures r < Pow256(|bs|)
  {
    if |bs| == 0 then 0 else bs[0] + 256 * FromLE(bs[1..])
  }

  /** The `n` low-order bytes of `v`, least significant first. */
  function ToLE(v: nat, n: nat): (r: Bytes)
    ensures |r| == n
  {
    if n == 0 then [] else [v % 256] + ToLE(v / 256, n - 1)
  }

  /** Encoding keeps exactly the value modulo `256^n`. */
  lemma {:induction false} FromToLE(v: nat, n: nat)
    ensures FromLE(ToLE(v, n)) == v % Pow256(n)
  {
    if n > 0 {
      var bs := ToLE(v, n);
      assert bs[1..] == ToLE(v / 256, n - 1);
      FromToLE(v / 256, n - 1);
      DivModProduct(v, 256, Pow256(n - 1));
    }
  }

  /** Every byte string is the encoding of the number it denotes. */
  lemma {:induction false} ToFromLE(bs: Bytes)
    ensures ToLE(FromLE(bs), |bs|) == bs
  {
    if |bs| > 0 {
      var v := FromLE(bs);
      DivModUnique(v, 256, FromLE(bs[1..]), bs[0]);
      ToFromLE(bs[1..]);
    }
  }

  /** Values below `256^n` encode without loss. */
  lemma FromToLEInRange(v: nat, n: nat)
    requires v < Pow256(n)
    ensures FromLE(ToLE(v, n)) == v
  {
    FromToLE(v, n);
    DivModUnique(v, Pow256(n), 0, v);
  }

  /** `256^n` is `2^(8n)`. */
  lemma {:induction false} Pow256IsPow2(n: nat)
    ensures Pow256(n) == Pow2(8 * n)
  {
    if n > 0 {
      Pow256IsPow2(n - 1);
      Pow2Add(8, 8 * (n - 1));
      assert Pow2(8) == 256;
    }
  }
}
