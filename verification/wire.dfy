/** Shared vocabulary of the wire codecs: bytes, the ways a codec can fail,
    the two result shapes every codec returns, and a codec as a pair of
    functions so that the collection and optional wrappers can be generic
    over their item type. */
module Wire {

  type Byte = x: int | 0 <= x < 256
  type Bytes = seq<Byte>

  /** Failures a codec reports. The first four are all `ValueError` in the
      original (`OverflowError` from `int.to_bytes` is re-raised as one);
      NoProgress stands for a greedy list decode whose item decoder consumes
      nothing, where the original loops forever. */
  datatype Error =
    | RangeError       // a number outside the range of its fixed-width type
    | Truncated        // fewer bytes available than the type needs
    | LengthExceeded   // a payload too long for its prefix or declared maximum
    | Validation       // a fixed-count list holding the wrong number of items
    | InvalidLiteral   // text that `int()` does not accept
    | NoProgress       // the original would not terminate

  datatype Option<+T> = None | Some(value: T)

  /** True for the failures the original raises as `ValueError`. */
  predicate IsValueError(e: Error) {
    !e.NoProgress?
  }

  /** Outcome of `serialize` (and of construction, which serializes). */
  datatype Result<+T> = Success(value: T) | Failure(error: Error)

  /** Outcome of `deserialize`: the value and the unconsumed remainder. */
  datatype Decoded<+T> = Ok(value: T, rest: Bytes) | Err(error: Error)

  /** A wire type as its two operations. */
  datatype Codec<!T> = Codec(encode: T -> Result<Bytes>, decode: Bytes -> Decoded<T>)

  /** Decoding any input that starts with the encoding of `v` yields `v`
      and exactly the bytes after that encoding. */
  ghost predicate RoundTrips<T(!new)>(c: Codec<T>) {
    forall v, data :: c.encode(v).Success? && c.encode(v).value <= data ==>
      c.decode(data) == Ok(v, data[|c.encode(v).value|..])
  }

  /** The round-trip property at one value: the encoding of `v`, followed
      by anything, decodes to `v` and what followed. */
  lemma DecodeEncoded<T(!new)>(c: Codec<T>, v: T, rest: Bytes)
    requires RoundTrips(c)
    requires c.encode(v).Success?
    ensures c.decode(c.encode(v).value + rest) == Ok(v, rest)
  {
    var b := c.encode(v).value;
    assert b <= b + rest;
    assert (b + rest)[|b|..] == rest;
  }

  /** Every successful encoding occupies at least one byte. */
  ghost predicate NonEmptyEncodings<T(!new)>(c: Codec<T>) {
    forall v :: c.encode(v).Success? ==> |c.encode(v).value| > 0
  }

  predicate IsSuffix(rest: Bytes, data: Bytes) {
    |rest| <= |data| && data[|data| - |rest|..] == rest
  }

  /** A successful decode returns a suffix of its input as the remainder. */
  ghost predicate ReturnsSuffix<T>(c: Codec<T>) {
    forall data :: c.decode(data).Ok? ==> IsSuffix(c.decode(data).rest, data)
  }
}
