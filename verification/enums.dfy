/** Integer enumerations built by `enum_factory(int_type, undefined)`:
    `enum8` over `uint8_t` and `enum16` over `uint16_t`. A value that names
    no member is still accepted when the underlying integer type can hold
    it, as a pseudo-member named `<undefined>_0x<hex>`; calling the type on
    a text reads `0x...` as hexadecimal and anything else as decimal. The
    wire format is the underlying integer type's. */
module Enums {
  import opened Wire
  import FixedInt
  import Digits
  import LittleEndian

  /** An enum class: its integer type, its members by value, and the stem
      of the names given to values that are not members. */
  datatype EnumType = EnumType(base: FixedInt.IntType, members: map<int, string>, undefined: string)

  /** An enum value: a declared member, or a pseudo-member for a value
      with no member. */
  datatype EnumValue = Known(name: string, value: int) | Unknown(value: int)

  /** What the type can be called with: an integer or a text. */
  datatype EnumArg = Number(n: int) | Text(s: string)

  const Enum8 := EnumType(FixedInt.UInt8, map[], "undefined")
  const Enum16 := EnumType(FixedInt.UInt16, map[], "undefined")

  /** Every declared member's value is one the integer type can hold. */
  predicate ValidEnum(t: EnumType) {
    forall v :: v in t.members ==> FixedInt.InRange(t.base, v)
  }

  /** The name `_missing_` gives a value: the stem, `_0x`, then the value in
      lower-case hexadecimal padded to two digits per byte. */
  function UndefinedName(t: EnumType, v: int): string {
    t.undefined + "_0x" + Digits.FormatHex(v, 2 * t.base.size)
  }

  function Name(t: EnumType, e: EnumValue): string {
    match e
    case Known(name, _) => name
    case Unknown(v) => UndefinedName(t, v)
  }

  /** `Enum.__new__` with `_missing_`: the member with that value when there
      is one; otherwise a pseudo-member when the integer type can hold the
      value; otherwise the integer type's range error. */
  function Lookup(t: EnumType, v: int): (r: Result<EnumValue>)
    ensures r.Success? ==> r.value.value == v
    ensures r.Success? && r.value.Known? ==> v in t.members && r.value.name == t.members[v]
    ensures r.Success? && r.value.Unknown? ==> v !in t.members && FixedInt.InRange(t.base, v)
    ensures r.Failure? <==> v !in t.members && !FixedInt.InRange(t.base, v)
    ensures r.Failure? ==> r.error == RangeError
  {
    if v in t.members then Success(Known(t.members[v], v))
    else
      match FixedInt.Construct(t.base, v)
      case Failure(e) => Failure(e)
      case Success(_) => Success(Unknown(v))
  }

  /** `_IntEnumMeta.__call__`: a text starting with `0x` is read as
      hexadecimal, any other text as decimal, and the integer is looked up. */
  function Call(t: EnumType, arg: EnumArg): (r: Result<EnumValue>)
    ensures arg.Number? ==> r == Lookup(t, arg.n)
    ensures arg.Text? && Digits.IsHexLiteral(arg.s) ==>
              r == Lookup(t, Digits.ValueOf(arg.s[2..], Digits.Hex))
    ensures arg.Text? && |arg.s| > 0 && Digits.AllDigits(arg.s, Digits.Decimal) ==>
              r == Lookup(t, Digits.ValueOf(arg.s, Digits.Decimal))
    ensures arg.Text? && |arg.s| > 1 && arg.s[0] == '-' && Digits.AllDigits(arg.s[1..], Digits.Decimal) ==>
              r == Lookup(t, -(Digits.ValueOf(arg.s[1..], Digits.Decimal) as int))
    ensures arg.Text? && |arg.s| > 1 && arg.s[0] == '+' && Digits.AllDigits(arg.s[1..], Digits.Decimal) ==>
              r == Lookup(t, Digits.ValueOf(arg.s[1..], Digits.Decimal))
    ensures r == Failure(InvalidLiteral) <==>
              arg.Text? && !Digits.IsHexLiteral(arg.s) && !Digits.IsDecimalLiteral(arg.s)
  {
    match arg
    case Number(n) => Lookup(t, n)
    case Text(s) =>
      var parsed := if |s| >= 2 && s[..2] == "0x" then Digits.ParseHexLiteral(s) else Digits.ParseDecimal(s);
      match parsed
      case None => Failure(InvalidLiteral)
      case Some(n) => Lookup(t, n)
  }

  /** The integer type's encoding of the value. */
  function Serialize(t: EnumType, e: EnumValue): (r: Result<Bytes>)
    ensures r.Success? <==> FixedInt.InRange(t.base, e.value)
    ensures r.Success? ==> FixedInt.Deserialize(t.base, r.value) == Ok(e.value, [])
  {
    var r := FixedInt.Serialize(t.base, e.value);
    if r.Success? then
      FixedInt.RoundTrip(t.base, e.value, []);
      assert r.value + [] == r.value;
      r
    else r
  }

  /** `deserialize`, inherited from the integer type, whose `from_bytes`
      calls the enum class: never fails once `size` bytes are present, and
      the value it returns encodes back to exactly the bytes it read. */
  function Deserialize(t: EnumType, data: Bytes): (r: Decoded<EnumValue>)
    requires ValidEnum(t)
    ensures r.Err? <==> |data| < t.base.size
    ensures r.Err? ==> r.error == Truncated
    ensures r.Ok? ==> r.rest == data[t.base.size..]
    ensures r.Ok? ==> Serialize(t, r.value) == Success(data[..t.base.size])
    ensures r.Ok? ==> (r.value.Known? <==> r.value.value in t.members)
  {
    match FixedInt.Deserialize(t.base, data)
    case Err(e) => Err(e)
    case Ok(v, rest) =>
      match Lookup(t, v)
      case Success(e) => Ok(e, rest)
      case Failure(e) => assert false; Err(e)
  }

  /** Decoding an encoded value, followed by anything, returns the value
      and what followed. */
  lemma RoundTrip(t: EnumType, e: EnumValue, rest: Bytes)
    requires ValidEnum(t)
    requires Lookup(t, e.value) == Success(e)
    ensures Serialize(t, e).Success?
    ensures Deserialize(t, Serialize(t, e).value + rest) == Ok(e, rest)
  {
    FixedInt.RoundTrip(t.base, e.value, rest);
  }

  /** The name of a pseudo-member for a non-negative value carries the
      value: after the stem and `_`, it is a `0x` text of lower-case
      digits, exactly two per byte when the integer type holds the value,
      that reads back as the value. */
  lemma UndefinedNameCarriesValue(t: EnumType, v: nat)
    ensures var hex := "0x" + Digits.FormatHex(v, 2 * t.base.size);
            && UndefinedName(t, v) == t.undefined + "_" + hex
            && |hex| >= 2 + 2 * t.base.size
            && (v < FixedInt.Modulus(t.base) ==> |hex| == 2 + 2 * t.base.size)
            && Digits.AllLower(hex[2..])
            && hex[..2] == "0x"
            && Digits.ParseHexLiteral(hex) == Some(v)
  {
    var hex := "0x" + Digits.FormatHex(v, 2 * t.base.size);
    assert hex[2..] == Digits.Padded(v, Digits.Hex, 2 * t.base.size);
    Digits.ParseHexPadded(v, 2 * t.base.size);
    if v < FixedInt.Modulus(t.base) {
      BytesAreHexPairs(t.base.size);
      Digits.FormatLength(v, Digits.Hex, 2 * t.base.size);
    }
  }

  /** Each byte is two hexadecimal digits: `256^n == 16^(2n)`. */
  lemma {:induction false} BytesAreHexPairs(n: nat)
    ensures LittleEndian.Pow256(n) == Digits.Power(Digits.Hex, 2 * n)
  {
    if n > 0 {
      BytesAreHexPairs(n - 1);
      assert Digits.Power(Digits.Hex, 2 * n) == 16 * (16 * Digits.Power(Digits.Hex, 2 * (n - 1)));
    }
  }

  /** Calling the type on the hexadecimal part of a pseudo-member's name,
      in any width, gives back a value equal to the lookup of the number. */
  lemma CallHex(t: EnumType, v: nat, width: int)
    ensures Call(t, Text("0x" + Digits.Padded(v, Digits.Hex, width))) == Lookup(t, v)
  {
    Digits.ParseHexPadded(v, width);
  }

  /** Calling the type on an integer's decimal text equals calling it on
      the integer. */
  lemma CallDecimal(t: EnumType, v: int)
    ensures Call(t, Text(Digits.DecimalString(v))) == Call(t, Number(v))
  {
    Digits.DecimalIsNotHex(v);
    Digits.ParseDecimalString(v);
  }

  /** `enum8(5)` without a member 5 is a pseudo-member named
      `undefined_0x05`. */
  lemma Enum8Example()
    ensures Lookup(Enum8, 5) == Success(Unknown(5))
    ensures Name(Enum8, Unknown(5)) == "undefined_0x05"
  {
    assert Digits.Format(5, Digits.Hex) == "5";
    assert Digits.Padded(5, Digits.Hex, 2) == "05";
  }

  /** `enum16`'s value 0x1234 is named `undefined_0x1234`. */
  lemma Enum16Example()
    ensures Name(Enum16, Unknown(0x1234)) == "undefined_0x1234"
  {
    assert Digits.Format(0x12, Digits.Hex) == "12" by {
      assert Digits.Format(1, Digits.Hex) == "1";
    }
    assert Digits.Format(0x123, Digits.Hex) == "123";
    assert Digits.Format(0x1234, Digits.Hex) == "1234";
  }

  /** `enum8("0x1F")` is 31; `enum8("0x")` and `enum8(256)` fail. */
  lemma CallExamples()
    ensures Call(Enum8, Text("0x1F")) == Success(Unknown(31))
    ensures Call(Enum8, Text("0x")) == Failure(InvalidLiteral)
    ensures Call(Enum8, Number(256)) == Failure(RangeError)
  {
    var s := "0x1F";
    assert s[..2] == "0x" && s[2..] == "1F";
    assert Digits.ValueOf("1F", Digits.Hex) == 31 by {
      assert "1F"[..1] == "1";
      assert "1"[..0] == "";
    }
    assert "0x"[..2] == "0x" && "0x"[2..] == "";
  }
}
