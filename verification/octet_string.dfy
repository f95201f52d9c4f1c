/** Length-prefixed byte strings: `LVBytes` (one-byte little-endian count)
    and `LongOctetString` (two-byte count). The count read from the prefix
    is trusted on decode; on encode a payload of `256^p - 1` bytes or more
    is refused, although such a count would fit in the prefix. */
module OctetString {
  import opened Wire
  import opened LittleEndian

  /** `_prefix_length` in bytes. */
  type PrefixWidth = p: nat | 1 <= p <= 2 witness 1

  const LVBytes: PrefixWidth := 1
  const LongOctetString: PrefixWidth := 2

  /** Longest payload `serialize` accepts: one less than the prefix's largest count. */
  function MaxPayload(p: PrefixWidth): nat {
    Pow256(p) - 2
  }

  /** The largest count the prefix can hold. */
  function MaxCount(p: PrefixWidth): nat {
    Pow256(p) - 1
  }

  /** `LVBytes.serialize`: refuses payloads of `256^p - 1` bytes or more;
      otherwise the payload's length in `p` little-endian bytes, then the payload. */
  function Serialize(p: PrefixWidth, payload: Bytes): (r: Result<Bytes>)
    ensures r.Failure? <==> |payload| >= Pow256(p) - 1
    ensures r.Failure? ==> r.error == LengthExceeded
    ensures r.Success? ==> |r.value| == p + |payload|
    ensures r.Success? ==> FromLE(r.value[..p]) == |payload| && r.value[p..] == payload
  {
    if |payload| >= Pow256(p) - 1 then Failure(LengthExceeded)
    else
      FromToLEInRange(|payload|, p);
      Success(ToLE(|payload|, p) + payload)
  }

  /** `LVBytes.deserialize`: fails when the prefix is missing or the input
      is shorter than the prefix plus the count it holds; otherwise the
      payload is exactly as long as the count, and the input is the prefix,
      the payload and the remainder, in that order. */
  function Deserialize(p: PrefixWidth, data: Bytes): (r: Decoded<Bytes>)
    ensures r.Err? <==> |data| < p || |data| < p + FromLE(data[..p])
    ensures r.Err? ==> r.error == Truncated
    ensures r.Ok? ==> |r.value| == FromLE(data[..p])
    ensures r.Ok? ==> data == ToLE(|r.value|, p) + r.value + r.rest
  {
    if |data| < p then Err(Truncated)
    else
      var count := FromLE(data[..p]);
      if |data| < p + count then Err(Truncated)
      else
        ToFromLE(data[..p]);
        assert data == data[..p] + data[p..p + count] + data[p + count..];
        Ok(data[p..p + count], data[p + count..])
  }

  /** Decoding an encoded payload followed by anything returns the payload
      and exactly what followed. */
  lemma RoundTrip(p: PrefixWidth, payload: Bytes, rest: Bytes)
    requires |payload| <= MaxPayload(p)
    ensures Serialize(p, payload).Success?
    ensures Deserialize(p, Serialize(p, payload).value + rest) == Ok(payload, rest)
  {
    var b := Serialize(p, payload).value;
    var data := b + rest;
    assert data[..p] == b[..p];
    assert data[p..p + |payload|] == payload;
    assert data[p + |payload|..] == rest;
  }

  /** Whatever follows the prefix, the count alone decides where the
      payload ends. */
  lemma CountFramesPayload(p: PrefixWidth, count: nat, following: Bytes)
    requires count <= |following| && count < Pow256(p)
    ensures Deserialize(p, ToLE(count, p) + following) == Ok(following[..count], following[count..])
  {
    var data := ToLE(count, p) + following;
    assert data[..p] == ToLE(count, p);
    FromToLEInRange(count, p);
    assert data[p..p + count] == following[..count];
    assert data[p + count..] == following[count..];
  }

  /** A decoded payload re-encodes to the bytes it came from exactly when
      it is shorter than the prefix's largest count; a payload announced
      with the largest count decodes but cannot be encoded again. */
  lemma DecodeThenEncode(p: PrefixWidth, data: Bytes)
    requires Deserialize(p, data).Ok?
    ensures var d := Deserialize(p, data);
            && (Serialize(p, d.value).Success? <==> |d.value| <= MaxPayload(p))
            && (Serialize(p, d.value).Success? ==>
                  Serialize(p, d.value).value == data[..|data| - |d.rest|])
  {
    var d := Deserialize(p, data);
    assert data[..|data| - |d.rest|] == ToLE(|d.value|, p) + d.value;
  }

  /** The limits fall exactly at 255 and 65535 bytes. */
  lemma Limits()
    ensures MaxPayload(LVBytes) == 254 && MaxPayload(LongOctetString) == 65534
  {
  }

  function LVBytesCodec(p: PrefixWidth): Codec<Bytes> {
    Codec((b: Bytes) => Serialize(p, b), (data: Bytes) => Deserialize(p, data))
  }

  lemma LVBytesCodecWellBehaved(p: PrefixWidth)
    ensures RoundTrips(LVBytesCodec(p))
    ensures NonEmptyEncodings(LVBytesCodec(p))
    ensures ReturnsSuffix(LVBytesCodec(p))
  {
    forall v: Bytes, data: Bytes | Serialize(p, v).Success? && Serialize(p, v).value <= data
      ensures Deserialize(p, data) == Ok(v, data[|Serialize(p, v).value|..])
    {
      var b := Serialize(p, v).value;
      assert data == b + data[|b|..];
      RoundTrip(p, v, data[|b|..]);
    }
    forall data: Bytes | Deserialize(p, data).Ok?
      ensures IsSuffix(Deserialize(p, data).rest, data)
    {
      var d := Deserialize(p, data);
      assert data == (ToLE(|d.value|, p) + d.value) + d.rest;
    }
  }
}
