/** `Optional(item_type)`: encodes as the item type does; a decode that
    fails with `ValueError` yields no value and discards the whole input,
    including anything that would have followed the item. */
module OptionalType {
  import opened Wire

  /** `Optional.deserialize`: the item's decode when it succeeds; no value
      and an empty remainder when it fails with `ValueError`; any other
      failure passes through. */
  function Deserialize<T>(c: Codec<T>, data: Bytes): (r: Decoded<Option<T>>)
    ensures r.Err? <==> c.decode(data) == Err(NoProgress)
    ensures r.Ok? && r.value.Some? <==> c.decode(data).Ok?
    ensures r.Ok? && r.value.Some? ==> c.decode(data) == Ok(r.value.value, r.rest)
    ensures r.Ok? && r.value.None? ==> r.rest == []
  {
    match c.decode(data)
    case Ok(v, rest) => Ok(Some(v), rest)
    case Err(e) => if IsValueError(e) then Ok(None, []) else Err(e)
  }

  /** The optional type as a codec: the item's encoding, the optional
      decode. An absent value has no encoding. */
  function OptionalCodec<T>(c: Codec<T>): Codec<Option<T>> {
    Codec((o: Option<T>) => if o.Some? then c.encode(o.value) else Failure(Validation),
          (data: Bytes) => Deserialize(c, data))
  }

  /** A present value round-trips through the optional type exactly as
      through the item type. */
  lemma RoundTrip<T(!new)>(c: Codec<T>, v: T, rest: Bytes)
    requires RoundTrips(c)
    requires c.encode(v).Success?
    ensures Deserialize(c, c.encode(v).value + rest) == Ok(Some(v), rest)
  {
    DecodeEncoded(c, v, rest);
  }

  /** The optional codec round-trips whenever the item codec does. */
  lemma OptionalCodecRoundTrips<T(!new)>(c: Codec<T>)
    requires RoundTrips(c)
    ensures RoundTrips(OptionalCodec(c))
  {
    forall o: Option<T>, data: Bytes | OptionalCodec(c).encode(o).Success? && OptionalCodec(c).encode(o).value <= data
      ensures OptionalCodec(c).decode(data) == Ok(o, data[|OptionalCodec(c).encode(o).value|..])
    {
      var b := c.encode(o.value).value;
      assert data == b + data[|b|..];
      RoundTrip(c, o.value, data[|b|..]);
    }
  }
}
