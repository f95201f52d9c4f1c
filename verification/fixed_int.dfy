/** Fixed-width integers (`FixedIntType` and its sixteen subclasses
    `int8s` .. `int64s`, `uint8_t` .. `uint64_t`): little-endian, one to
    eight bytes, signed (two's complement) or unsigned. Construction
    validates the range by serializing, so construction and `serialize`
    fail on exactly the same values. */
module FixedInt {
  import opened Wire
  import opened Bits
  import opened LittleEndian

  type Width = n: nat | 1 <= n <= 8 witness 1

  /** A concrete fixed-width integer type: `_size` in bytes and `_signed`. */
  datatype IntType = IntType(size: Width, signed: bool)

  const Int8s := IntType(1, true)
  const Int16s := IntType(2, true)
  const Int24s := IntType(3, true)
  const Int32s := IntType(4, true)
  const Int40s := IntType(5, true)
  const Int48s := IntType(6, true)
  const Int56s := IntType(7, true)
  const Int64s := IntType(8, true)
  const UInt8 := IntType(1, false)
  const UInt16 := IntType(2, false)
  const UInt24 := IntType(3, false)
  const UInt32 := IntType(4, false)
  const UInt40 := IntType(5, false)
  const UInt48 := IntType(6, false)
  const UInt56 := IntType(7, false)
  const UInt64 := IntType(8, false)

  /** Number of distinct bit patterns of the type: `256^size`. */
  function Modulus(t: IntType): nat {
    Pow256(t.size)
  }

  function MinValue(t: IntType): int {
    if t.signed then -(Pow2(8 * t.size - 1) as int) else 0
  }

  function MaxValue(t: IntType): int {
    if t.signed then Pow2(8 * t.size - 1) - 1 else Modulus(t) - 1
  }

  predicate InRange(t: IntType, v: int) {
    MinValue(t) <= v <= MaxValue(t)
  }

  /** The signed range is the modulus split in half. */
  lemma HalfModulus(t: IntType)
    ensures 2 * Pow2(8 * t.size - 1) == Modulus(t)
  {
    Pow256IsPow2(t.size);
  }

  /** How `int.from_bytes(..., signed=t.signed)` reads an unsigned pattern. */
  function FromPattern(t: IntType, u: nat): int {
    if t.signed && u >= Pow2(8 * t.size - 1) then u - Modulus(t) else u
  }

  /** `int.to_bytes(t.size, "little", signed=t.signed)`: fails exactly
      outside the type's range; otherwise `size` bytes that read back as `v`. */
  function Serialize(t: IntType, v: int): (r: Result<Bytes>)
    ensures r.Success? <==> InRange(t, v)
    ensures r.Failure? ==> r.error == RangeError
    ensures r.Success? ==> |r.value| == t.size && FromPattern(t, FromLE(r.value)) == v
  {
    if !InRange(t, v) then Failure(RangeError)
    else
      HalfModulus(t);
      var pattern: nat := if v < 0 then v + Modulus(t) else v;
      FromToLEInRange(pattern, t.size);
      Success(ToLE(pattern, t.size))
  }

  /** `FixedIntType.__new__`: construction succeeds exactly when the value
      serializes, and then keeps the value. */
  function Construct(t: IntType, v: int): (r: Result<int>)
    ensures r.Success? <==> InRange(t, v)
    ensures r.Success? ==> r.value == v
    ensures r.Failure? ==> r.error == RangeError
  {
    match Serialize(t, v)
    case Success(_) => Success(v)
    case Failure(e) => Failure(e)
  }

  /** `deserialize`: fails exactly when fewer than `size` bytes are given;
      otherwise the value whose encoding is the first `size` bytes, and the
      bytes after them. */
  function Deserialize(t: IntType, data: Bytes): (r: Decoded<int>)
    ensures r.Err? <==> |data| < t.size
    ensures r.Err? ==> r.error == Truncated
    ensures r.Ok? ==> InRange(t, r.value) && r.rest == data[t.size..]
    ensures r.Ok? ==> Serialize(t, r.value) == Success(data[..t.size])
  {
    if |data| < t.size then Err(Truncated)
    else
      var u := FromLE(data[..t.size]);
      SerializeFromPattern(t, u);
      ToFromLE(data[..t.size]);
      Ok(FromPattern(t, u), data[t.size..])
  }

  /** Every bit pattern reads as an in-range value whose encoding is that
      pattern. */
  lemma SerializeFromPattern(t: IntType, u: nat)
    requires u < Modulus(t)
    ensures InRange(t, FromPattern(t, u))
    ensures Serialize(t, FromPattern(t, u)) == Success(ToLE(u, t.size))
  {
    HalfModulus(t);
  }

  /** Decoding the encoding of an in-range value, followed by anything,
      returns the value and exactly what followed. */
  lemma RoundTrip(t: IntType, v: int, rest: Bytes)
    requires InRange(t, v)
    ensures Serialize(t, v).Success?
    ensures Deserialize(t, Serialize(t, v).value + rest) == Ok(v, rest)
  {
    var b := Serialize(t, v).value;
    assert (b + rest)[..t.size] == b;
    assert (b + rest)[t.size..] == rest;
  }

  /** The type as a codec for the collection and optional wrappers. */
  function IntCodec(t: IntType): Codec<int> {
    Codec((v: int) => Serialize(t, v), (data: Bytes) => Deserialize(t, data))
  }

  lemma IntCodecWellBehaved(t: IntType)
    ensures RoundTrips(IntCodec(t))
    ensures NonEmptyEncodings(IntCodec(t))
    ensures ReturnsSuffix(IntCodec(t))
  {
    forall v: int, data: Bytes | Serialize(t, v).Success? && Serialize(t, v).value <= data
      ensures Deserialize(t, data) == Ok(v, data[|Serialize(t, v).value|..])
    {
      var b := Serialize(t, v).value;
      assert data == b + data[|b|..];
      RoundTrip(t, v, data[|b|..]);
    }
  }

  /** `uint16_t(0x1234)` encodes as `34 12`; decoding `34 12 FF` yields it
      and leaves `FF`. */
  lemma Examples()
    ensures Serialize(UInt16, 0x1234) == Success([0x34, 0x12])
    ensures Deserialize(UInt16, [0x34, 0x12, 0xFF]) == Ok(0x1234, [0xFF])
  {
    assert Modulus(UInt16) == 65536;
    var b: Bytes := [0x34, 0x12, 0xFF];
    assert b[..2] == [0x34, 0x12];
    assert FromLE([0x34, 0x12]) == 0x1234 by {
      assert [0x34, 0x12][1..] == [0x12];
      assert [0x12][1..] == [];
    }
    assert ToLE(0x1234, 2) == [0x34, 0x12] by {
      assert ToLE(0x12, 1) == [0x12] + ToLE(0, 0);
    }
  }

  /** Signed types use two's complement: `int16s(-2)` encodes as `FE FF`. */
  lemma SignedExample()
    ensures Serialize(Int16s, -2) == Success([0xFE, 0xFF])
  {
    HalfModulus(Int16s);
    assert Modulus(Int16s) == 65536;
    assert ToLE(0xFFFE, 2) == [0xFE, 0xFF] by {
      assert ToLE(0xFF, 1) == [0xFF] + ToLE(0, 0);
    }
  }

  /** One past either end of a type's range is refused. */
  lemma RangeExamples()
    ensures Serialize(UInt8, 256) == Failure(RangeError)
    ensures Serialize(UInt8, -1) == Failure(RangeError)
    ensures Serialize(Int8s, -129) == Failure(RangeError)
  {
    HalfModulus(Int8s);
    assert Modulus(Int8s) == 256;
  }
}
