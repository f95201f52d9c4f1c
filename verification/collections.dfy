/** The three list codecs, generic over the item codec: `List[item]`
    (decodes items until the input is empty), `LVList[item, length]`
    (a count in the fixed-width `length` type, then that many items) and
    `FixedList[item, n]` (exactly `n` items, no prefix). All three encode
    items by concatenating their encodings in order; the first item that
    fails to encode, or to decode, fails the whole list. */
module Collections {
  import opened Wire
  import FixedInt

  /** The items' encodings, concatenated in order. */
  function EncodeItems<T>(c: Codec<T>, xs: seq<T>): (r: Result<Bytes>)
    ensures r.Success? <==> forall i :: 0 <= i < |xs| ==> c.encode(xs[i]).Success?
    ensures r.Failure? ==> exists i :: 0 <= i < |xs| && c.encode(xs[i]) == Failure(r.error)
    decreases |xs|
  {
    if |xs| == 0 then Success([])
    else
      match c.encode(xs[0])
      case Failure(e) => Failure(e)
      case Success(head) =>
        var tail := EncodeItems(c, xs[1..]);
        assert forall i :: 1 <= i < |xs| ==> xs[i] == xs[1..][i - 1];
        match tail
        case Failure(e) => Failure(e)
        case Success(rest) => Success(head + rest)
  }

  /** Exactly `n` items, one after the other, then whatever is left. */
  function DecodeCount<T>(c: Codec<T>, n: nat, data: Bytes): (r: Decoded<seq<T>>)
    ensures r.Ok? ==> |r.value| == n
    ensures n == 0 ==> r == Ok([], data)
    ensures n > 0 && c.decode(data).Err? ==> r == Err(c.decode(data).error)
    decreases n
  {
    if n == 0 then Ok([], data)
    else
      match c.decode(data)
      case Err(e) => Err(e)
      case Ok(x, rest) =>
        match DecodeCount(c, n - 1, rest)
        case Err(e) => Err(e)
        case Ok(xs, rest') => Ok([x] + xs, rest')
  }

  /** Items until the input is empty (`while data:`). An item decode that
      consumes nothing would repeat forever; the model reports NoProgress
      there. A successful decode always consumes the whole input. */
  function DecodeGreedy<T>(c: Codec<T>, data: Bytes): (r: Decoded<seq<T>>)
    ensures r.Ok? ==> r.rest == []
    ensures |data| > 0 && c.decode(data).Err? ==> r == Err(c.decode(data).error)
    decreases |data|
  {
    if |data| == 0 then Ok([], data)
    else
      match c.decode(data)
      case Err(e) => Err(e)
      case Ok(x, rest) =>
        if |rest| >= |data| then Err(NoProgress)
        else
          match DecodeGreedy(c, rest)
          case Err(e) => Err(e)
          case Ok(xs, rest') => Ok([x] + xs, rest')
  }

  // List[item_type]

  function ListSerialize<T>(c: Codec<T>, xs: seq<T>): Result<Bytes> {
    EncodeItems(c, xs)
  }

  function ListDeserialize<T>(c: Codec<T>, data: Bytes): Decoded<seq<T>> {
    DecodeGreedy(c, data)
  }

  // LVList[item_type, length_type]

  /** `LVList.serialize`: the item count as a `lengthType` value, then the
      items; a count the length type cannot hold fails first. */
  function LVListSerialize<T>(c: Codec<T>, lengthType: FixedInt.IntType, xs: seq<T>): (r: Result<Bytes>)
    ensures !FixedInt.InRange(lengthType, |xs|) ==> r == Failure(RangeError)
    ensures r.Success? <==>
              FixedInt.InRange(lengthType, |xs|) && EncodeItems(c, xs).Success?
    ensures r.Success? ==>
              r.value == FixedInt.Serialize(lengthType, |xs|).value + EncodeItems(c, xs).value
  {
    match FixedInt.Serialize(lengthType, |xs|)
    case Failure(e) => Failure(e)
    case Success(prefix) =>
      match EncodeItems(c, xs)
      case Failure(e) => Failure(e)
      case Success(items) => Success(prefix + items)
  }

  /** `LVList.deserialize`: the count, then that many items (none for a
      negative count, as `range` gives). */
  function LVListDeserialize<T>(c: Codec<T>, lengthType: FixedInt.IntType, data: Bytes): (r: Decoded<seq<T>>)
    ensures |data| < lengthType.size ==> r == Err(Truncated)
    ensures r.Ok? ==>
              && |data| >= lengthType.size
              && var count := FixedInt.Deserialize(lengthType, data).value;
                 |r.value| == (if count < 0 then 0 else count)
    ensures (&& |data| >= lengthType.size
             && FixedInt.Deserialize(lengthType, data).value > 0
             && c.decode(data[lengthType.size..]).Err?) ==>
              r == Err(c.decode(data[lengthType.size..]).error)
  {
    match FixedInt.Deserialize(lengthType, data)
    case Err(e) => Err(e)
    case Ok(count, rest) => DecodeCount(c, if count < 0 then 0 else count, rest)
  }

  // FixedList[item_type, length]

  /** `FixedList.serialize`: refuses a list of the wrong length. */
  function FixedListSerialize<T>(c: Codec<T>, length: nat, xs: seq<T>): (r: Result<Bytes>)
    ensures |xs| != length ==> r == Failure(Validation)
    ensures r.Success? <==> |xs| == length && EncodeItems(c, xs).Success?
  {
    if |xs| != length then Failure(Validation)
    else EncodeItems(c, xs)
  }

  function FixedListDeserialize<T>(c: Codec<T>, length: nat, data: Bytes): (r: Decoded<seq<T>>)
    ensures r.Ok? ==> |r.value| == length
    ensures length > 0 && c.decode(data).Err? ==> r == Err(c.decode(data).error)
  {
    DecodeCount(c, length, data)
  }

  // Properties over every item codec that round-trips.

  /** Decoding `|xs|` items from the encoding of `xs`, followed by anything,
      returns `xs` and exactly what followed. */
  lemma {:induction false} DecodeCountRoundTrip<T(!new)>(c: Codec<T>, xs: seq<T>, rest: Bytes)
    requires RoundTrips(c)
    requires EncodeItems(c, xs).Success?
    ensures DecodeCount(c, |xs|, EncodeItems(c, xs).value + rest) == Ok(xs, rest)
    decreases |xs|
  {
    if |xs| > 0 {
      var head := c.encode(xs[0]).value;
      var tail := EncodeItems(c, xs[1..]).value;
      assert EncodeItems(c, xs).value + rest == head + (tail + rest);
      DecodeEncoded(c, xs[0], tail + rest);
      DecodeCountRoundTrip(c, xs[1..], rest);
      assert [xs[0]] + xs[1..] == xs;
    }
  }

  /** Greedy decoding of the encoding of `xs` returns `xs`, provided no
      item encodes to nothing. */
  lemma {:induction false} DecodeGreedyRoundTrip<T(!new)>(c: Codec<T>, xs: seq<T>)
    requires RoundTrips(c) && NonEmptyEncodings(c)
    requires EncodeItems(c, xs).Success?
    ensures DecodeGreedy(c, EncodeItems(c, xs).value) == Ok(xs, [])
    decreases |xs|
  {
    if |xs| > 0 {
      var head := c.encode(xs[0]).value;
      var tail := EncodeItems(c, xs[1..]).value;
      assert EncodeItems(c, xs).value == head + tail;
      DecodeEncoded(c, xs[0], tail);
      DecodeGreedyRoundTrip(c, xs[1..]);
      assert [xs[0]] + xs[1..] == xs;
    }
  }

  /** The items of `xs + ys` encode as those of `xs` followed by those of
      `ys`, and fail exactly when some item of either fails. */
  lemma {:induction false} EncodeItemsAppend<T>(c: Codec<T>, xs: seq<T>, ys: seq<T>)
    ensures EncodeItems(c, xs + ys).Success? <==>
              EncodeItems(c, xs).Success? && EncodeItems(c, ys).Success?
    ensures EncodeItems(c, xs + ys).Success? ==>
              EncodeItems(c, xs + ys).value == EncodeItems(c, xs).value + EncodeItems(c, ys).value
    decreases |xs|
  {
    if |xs| == 0 {
      assert xs + ys == ys;
    } else {
      assert (xs + ys)[0] == xs[0];
      assert (xs + ys)[1..] == xs[1..] + ys;
      EncodeItemsAppend(c, xs[1..], ys);
    }
  }

  /** After the encoded items `xs`, a counted decode goes on exactly as it
      would on what follows: a failure at any later item fails the whole
      decode, and a success appends the later items to `xs`. */
  lemma {:induction false} DecodeCountAppend<T(!new)>(c: Codec<T>, xs: seq<T>, n: nat, tail: Bytes)
    requires RoundTrips(c)
    requires EncodeItems(c, xs).Success?
    ensures DecodeCount(c, |xs| + n, EncodeItems(c, xs).value + tail)
            == Prepend(xs, DecodeCount(c, n, tail))
    decreases |xs|
  {
    if |xs| == 0 {
      assert EncodeItems(c, xs).value + tail == tail;
      PrependNothing(DecodeCount(c, n, tail));
    } else {
      var head := c.encode(xs[0]).value;
      var after := EncodeItems(c, xs[1..]).value + tail;
      assert EncodeItems(c, xs).value + tail == head + after;
      DecodeEncoded(c, xs[0], after);
      DecodeCountStep(c, |xs| + n, head + after, xs[0], after);
      DecodeCountAppend(c, xs[1..], n, tail);
      assert |xs[1..]| + n == |xs| + n - 1;
      PrependTwice(xs[0], xs[1..], DecodeCount(c, n, tail));
      assert [xs[0]] + xs[1..] == xs;
    }
  }

  /** After the encoded items `xs`, a greedy decode goes on exactly as it
      would on what follows: a failure at any later item fails the whole
      list, and a success appends the later items to `xs`. */
  lemma {:induction false} DecodeGreedyAppend<T(!new)>(c: Codec<T>, xs: seq<T>, tail: Bytes)
    requires RoundTrips(c) && NonEmptyEncodings(c)
    requires EncodeItems(c, xs).Success?
    ensures DecodeGreedy(c, EncodeItems(c, xs).value + tail) == Prepend(xs, DecodeGreedy(c, tail))
    decreases |xs|
  {
    if |xs| == 0 {
      assert EncodeItems(c, xs).value + tail == tail;
      PrependNothing(DecodeGreedy(c, tail));
    } else {
      var head := c.encode(xs[0]).value;
      var after := EncodeItems(c, xs[1..]).value + tail;
      assert EncodeItems(c, xs).value + tail == head + after;
      DecodeEncoded(c, xs[0], after);
      assert |head| > 0;
      DecodeGreedyStep(c, head + after, xs[0], after);
      DecodeGreedyAppend(c, xs[1..], tail);
      PrependTwice(xs[0], xs[1..], DecodeGreedy(c, tail));
      assert [xs[0]] + xs[1..] == xs;
    }
  }

  /** Items decoded before `d`'s, kept in front of them; a failure stays
      the same failure. */
  function Prepend<T>(xs: seq<T>, d: Decoded<seq<T>>): (r: Decoded<seq<T>>)
    ensures r.Err? <==> d.Err?
    ensures r.Err? ==> r.error == d.error
    ensures r.Ok? ==> |r.value| == |xs| + |d.value|
    ensures r.Ok? ==> r.value[..|xs|] == xs && r.value[|xs|..] == d.value && r.rest == d.rest
  {
    match d
    case Err(e) => Err(e)
    case Ok(ys, rest) => Ok(xs + ys, rest)
  }

  /** One item of a counted decode, then the rest of the count. */
  lemma DecodeCountStep<T>(c: Codec<T>, n: nat, data: Bytes, x: T, after: Bytes)
    requires n > 0 && c.decode(data) == Ok(x, after)
    ensures DecodeCount(c, n, data) == Prepend([x], DecodeCount(c, n - 1, after))
  {
  }

  /** One item of a greedy decode that consumes something, then the rest. */
  lemma DecodeGreedyStep<T>(c: Codec<T>, data: Bytes, x: T, after: Bytes)
    requires c.decode(data) == Ok(x, after) && |after| < |data|
    ensures DecodeGreedy(c, data) == Prepend([x], DecodeGreedy(c, after))
  {
  }

  lemma PrependNothing<T>(d: Decoded<seq<T>>)
    ensures Prepend([], d) == d
  {
    if d.Ok? {
      assert [] + d.value == d.value;
    }
  }

  lemma PrependTwice<T>(x: T, xs: seq<T>, d: Decoded<seq<T>>)
    ensures Prepend([x] + xs, d) == Prepend([x], Prepend(xs, d))
  {
    if d.Ok? {
      assert [x] + xs + d.value == [x] + (xs + d.value);
    }
  }

  lemma ListRoundTrip<T(!new)>(c: Codec<T>, xs: seq<T>)
    requires RoundTrips(c) && NonEmptyEncodings(c)
    requires ListSerialize(c, xs).Success?
    ensures ListDeserialize(c, ListSerialize(c, xs).value) == Ok(xs, [])
  {
    DecodeGreedyRoundTrip(c, xs);
  }

  /** An `LVList` round-trips its count and its items. */
  lemma LVListRoundTrip<T(!new)>(c: Codec<T>, lengthType: FixedInt.IntType, xs: seq<T>, rest: Bytes)
    requires RoundTrips(c)
    requires LVListSerialize(c, lengthType, xs).Success?
    ensures LVListDeserialize(c, lengthType, LVListSerialize(c, lengthType, xs).value + rest)
            == Ok(xs, rest)
  {
    var prefix := FixedInt.Serialize(lengthType, |xs|).value;
    var items := EncodeItems(c, xs).value;
    var data := LVListSerialize(c, lengthType, xs).value + rest;
    assert data == prefix + (items + rest);
    FixedInt.RoundTrip(lengthType, |xs|, items + rest);
    assert FixedInt.Deserialize(lengthType, data) == Ok(|xs|, items + rest);
    DecodeCountRoundTrip(c, xs, rest);
  }

  lemma FixedListRoundTrip<T(!new)>(c: Codec<T>, length: nat, xs: seq<T>, rest: Bytes)
    requires RoundTrips(c)
    requires FixedListSerialize(c, length, xs).Success?
    ensures FixedListDeserialize(c, length, FixedListSerialize(c, length, xs).value + rest)
            == Ok(xs, rest)
  {
    DecodeCountRoundTrip(c, xs, rest);
  }

  /** With an item codec that returns suffixes, a counted decode returns a
      suffix of its input. */
  lemma {:induction false} DecodeCountReturnsSuffix<T>(c: Codec<T>, n: nat, data: Bytes)
    requires ReturnsSuffix(c)
    requires DecodeCount(c, n, data).Ok?
    ensures IsSuffix(DecodeCount(c, n, data).rest, data)
    decreases n
  {
    if n > 0 {
      var rest := c.decode(data).rest;
      DecodeCountReturnsSuffix(c, n - 1, rest);
      var rest' := DecodeCount(c, n - 1, rest).rest;
      assert data[|data| - |rest'|..] == rest[|rest| - |rest'|..];
    }
  }

  /** With an item codec that returns suffixes, an `LVList` decode leaves
      a suffix of what follows the count. */
  lemma LVListReturnsSuffix<T>(c: Codec<T>, lengthType: FixedInt.IntType, data: Bytes)
    requires ReturnsSuffix(c)
    requires LVListDeserialize(c, lengthType, data).Ok?
    ensures IsSuffix(LVListDeserialize(c, lengthType, data).rest, data[lengthType.size..])
  {
    var count := FixedInt.Deserialize(lengthType, data).value;
    DecodeCountReturnsSuffix(c, if count < 0 then 0 else count, data[lengthType.size..]);
  }

  /** An item decode is stuck on `d` when it consumes nothing of it, or
      itself reports NoProgress. */
  ghost predicate StuckOn<T>(c: Codec<T>, d: Bytes) {
    |d| > 0 &&
    match c.decode(d)
    case Ok(_, rest) => rest == d
    case Err(e) => e == NoProgress
  }

  /** With an item codec that returns suffixes, NoProgress arises only
      where the original would loop forever: after some number `k` of
      successful item decodes, the `while data:` loop reaches a remainder
      on which the item decode is stuck. */
  lemma {:induction false} NoProgressOnlyWhenStuck<T>(c: Codec<T>, data: Bytes)
    requires ReturnsSuffix(c)
    requires DecodeGreedy(c, data) == Err(NoProgress)
    ensures exists k: nat :: DecodeCount(c, k, data).Ok? && StuckOn(c, DecodeCount(c, k, data).rest)
    decreases |data|
  {
    match c.decode(data)
    case Err(e) =>
      assert DecodeCount(c, 0, data).rest == data;
      assert StuckOn(c, data);
    case Ok(x, rest) =>
      if |rest| >= |data| {
        assert rest == data;
        assert DecodeCount(c, 0, data).rest == data;
        assert StuckOn(c, data);
      } else {
        NoProgressOnlyWhenStuck(c, rest);
        var k: nat :| DecodeCount(c, k, rest).Ok? && StuckOn(c, DecodeCount(c, k, rest).rest);
        DecodeCountStep(c, k + 1, data, x, rest);
        assert DecodeCount(c, k + 1, data).rest == DecodeCount(c, k, rest).rest;
      }
  }
}
