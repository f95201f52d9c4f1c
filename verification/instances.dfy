/** Concrete instances of the generic wrappers: the `data8` .. `data64`
    types (`FixedList[uint8_t, n]`), and small worked cases of the list and
    optional types over fixed-width integers. */
module Instances {
  import opened Wire
  import FixedInt
  import Collections
  import OptionalType
  import LittleEndian

  type DataWidth = n: nat | 1 <= n <= 8 witness 1

  /** A `uint8_t` encodes as the single byte it is. */
  lemma SerializeByte(x: Byte)
    ensures FixedInt.Serialize(FixedInt.UInt8, x) == Success([x])
  {
    assert FixedInt.Modulus(FixedInt.UInt8) == 256;
    assert FixedInt.InRange(FixedInt.UInt8, x);
    assert LittleEndian.ToLE(x, 1) == [x % 256] + LittleEndian.ToLE(x / 256, 0) == [x];
  }

  /** The byte-sized integer codec encodes a sequence of bytes as itself. */
  lemma {:induction false} BytesEncodeAsThemselves(xs: Bytes)
    ensures Collections.EncodeItems(FixedInt.IntCodec(FixedInt.UInt8), xs) == Success(xs)
    decreases |xs|
  {
    if |xs| > 0 {
      SerializeByte(xs[0]);
      BytesEncodeAsThemselves(xs[1..]);
      assert [xs[0]] + xs[1..] == xs;
    }
  }

  /** `data<8n>`: `n` bytes encode as themselves, any other number of bytes
      is refused, and decoding takes exactly `n` bytes back. */
  lemma DataBytes(n: DataWidth, xs: Bytes, rest: Bytes)
    ensures var codec := FixedInt.IntCodec(FixedInt.UInt8);
            && (|xs| != n ==> Collections.FixedListSerialize(codec, n, xs) == Failure(Validation))
            && (|xs| == n ==> Collections.FixedListSerialize(codec, n, xs) == Success(xs))
            && (|xs| == n ==> Collections.FixedListDeserialize(codec, n, xs + rest) == Ok(xs, rest))
  {
    var codec := FixedInt.IntCodec(FixedInt.UInt8);
    BytesEncodeAsThemselves(xs);
    if |xs| == n {
      FixedInt.IntCodecWellBehaved(FixedInt.UInt8);
      Collections.FixedListRoundTrip(codec, n, xs, rest);
    }
  }

  /** `List[uint8_t]` reads `01 02 03` as three items. */
  lemma ListExample()
    ensures Collections.ListDeserialize(FixedInt.IntCodec(FixedInt.UInt8), [1, 2, 3]) == Ok([1, 2, 3], [])
  {
    FixedInt.IntCodecWellBehaved(FixedInt.UInt8);
    BytesEncodeAsThemselves([1, 2, 3]);
    Collections.ListRoundTrip(FixedInt.IntCodec(FixedInt.UInt8), [1, 2, 3]);
  }

  /** `List[uint16_t]` fails on `01 02 03`: the last item is cut short. */
  lemma ListTruncatedExample()
    ensures Collections.ListDeserialize(FixedInt.IntCodec(FixedInt.UInt16), [1, 2, 3]) == Err(Truncated)
  {
    var data: Bytes := [1, 2, 3];
    var u16 := FixedInt.IntCodec(FixedInt.UInt16);
    assert data[2..] == [3];
    var first := FixedInt.Deserialize(FixedInt.UInt16, data);
    assert FixedInt.UInt16.size == 2 && |data| == 3;
    assert first.Ok? && first.rest == data[2..];
    assert u16.decode(data) == first;
    assert u16.decode([3]) == FixedInt.Deserialize(FixedInt.UInt16, [3]) == Err(Truncated);
  }

  /** `LVList[uint8_t, uint8_t]` of `[7, 8]` is `02 07 08`. */
  lemma LVListExample()
    ensures Collections.LVListSerialize(FixedInt.IntCodec(FixedInt.UInt8), FixedInt.UInt8, [7, 8]) == Success([2, 7, 8])
  {
    BytesEncodeAsThemselves([7, 8]);
    SerializeByte(2);
    assert FixedInt.InRange(FixedInt.UInt8, |[7, 8]|);
    assert [2] + [7, 8] == [2, 7, 8];
  }

  /** `Optional(uint16_t)` on the single byte `01` gives no value and
      discards the byte, so a `uint8_t` that would have decoded from it
      finds nothing left. */
  lemma OptionalDiscardsInput()
    ensures OptionalType.Deserialize(FixedInt.IntCodec(FixedInt.UInt16), [0x01]) == Ok(None, [])
    ensures FixedInt.Deserialize(FixedInt.UInt8, [0x01]) == Ok(1, [])
    ensures FixedInt.Deserialize(FixedInt.UInt8, []) == Err(Truncated)
  {
    var b: Bytes := [0x01];
    assert b[..1] == [0x01] && b[1..] == [];
    var r := FixedInt.Deserialize(FixedInt.UInt8, b);
    assert FixedInt.Serialize(FixedInt.UInt8, r.value) == Success([0x01]);
    assert FixedInt.Serialize(FixedInt.UInt8, 1) == Success([0x01]) by {
      var e := FixedInt.Serialize(FixedInt.UInt8, 1).value;
      assert |e| == 1 && e[1..] == [];
    }
    FixedInt.RoundTrip(FixedInt.UInt8, r.value, []);
    FixedInt.RoundTrip(FixedInt.UInt8, 1, []);
  }
}
