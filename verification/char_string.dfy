/** Length-prefixed character strings: `CharacterString` (one-byte prefix),
    `LongCharacterString` (two-byte prefix) and `LimitedCharString(max_len)`.

    `serialize` writes the number of CHARACTERS as the prefix and then the
    UTF-8 bytes, so the prefix agrees with the payload only for ASCII text.
    `deserialize` frames the payload exactly as `LVBytes` does, keeps it as
    `raw`, and decodes the part before the first zero byte. Lossy UTF-8
    decoding is the host's codec and enters the model as the parameter
    `decode`. `SerializeByteCount` is the encoding with a byte-count
    prefix, under which every text without zero characters round-trips. */
module CharString {
  import opened Wire
  import opened LittleEndian
  import OctetString

  type PrefixWidth = OctetString.PrefixWidth

  const CharacterStringPrefix: PrefixWidth := 1
  const LongCharacterStringPrefix: PrefixWidth := 2

  /** A decoded string: its text and the untruncated payload (`.raw`). */
  datatype CharacterString = CharacterString(text: string, raw: Bytes)

  predicate IsAscii(s: string) {
    forall i :: 0 <= i < |s| ==> s[i] as int < 0x80
  }

  predicate HasNoNul(s: string) {
    forall i :: 0 <= i < |s| ==> s[i] != '\0'
  }

  /** The UTF-8 encoding of one Unicode scalar value. */
  function Utf8Char(c: char): (r: Bytes)
    ensures 1 <= |r| <= 4
    ensures |r| == 1 <==> c as int < 0x80
    ensures |r| == 1 ==> r[0] == c as int
    ensures c != '\0' ==> forall i :: 0 <= i < |r| ==> r[i] != 0
  {
    var v := c as int;
    if v < 0x80 then [v]
    else if v < 0x800 then [0xC0 + v / 0x40, 0x80 + v % 0x40]
    else if v < 0x1_0000 then [0xE0 + v / 0x1000, 0x80 + (v / 0x40) % 0x40, 0x80 + v % 0x40]
    else [0xF0 + v / 0x4_0000, 0x80 + (v / 0x1000) % 0x40, 0x80 + (v / 0x40) % 0x40, 0x80 + v % 0x40]
  }

  /** `str.encode("utf8")`: never shorter than the text, and as long as it
      exactly when the text is ASCII, in which case byte i is character i. */
  function Utf8Encode(s: string): (r: Bytes)
    ensures |r| >= |s|
    ensures |r| == |s| <==> IsAscii(s)
    ensures IsAscii(s) ==> forall i :: 0 <= i < |s| ==> r[i] == s[i] as int
    ensures HasNoNul(s) ==> forall i :: 0 <= i < |r| ==> r[i] != 0
  {
    if |s| == 0 then []
    else
      var head := Utf8Char(s[0]);
      var tail := Utf8Encode(s[1..]);
      assert HasNoNul(s) ==> HasNoNul(s[1..]) by {
        if HasNoNul(s) {
          forall i | 0 <= i < |s[1..]| ensures s[1..][i] != '\0' {
            assert s[1..][i] == s[i + 1];
          }
        }
      }
      assert IsAscii(s) <==> s[0] as int < 0x80 && IsAscii(s[1..]) by {
        if s[0] as int < 0x80 && IsAscii(s[1..]) {
          forall i | 0 <= i < |s| ensures s[i] as int < 0x80 {
            if i > 0 {
              assert s[i] == s[1..][i - 1];
            }
          }
        }
      }
      head + tail
  }

  /** `raw.split(b"\x00")[0]`: the longest prefix without a zero byte. */
  function UntilNul(raw: Bytes): (r: Bytes)
    ensures r <= raw
    ensures forall i :: 0 <= i < |r| ==> r[i] != 0
    ensures |r| < |raw| ==> raw[|r|] == 0
  {
    if |raw| == 0 || raw[0] == 0 then []
    else [raw[0]] + UntilNul(raw[1..])
  }

  /** `CharacterString.serialize`: refuses texts of `256^p - 1` characters
      or more; otherwise the character count in `p` little-endian bytes,
      then the UTF-8 bytes. */
  function Serialize(p: PrefixWidth, s: string): (r: Result<Bytes>)
    ensures r.Failure? <==> |s| >= Pow256(p) - 1
    ensures r.Failure? ==> r.error == LengthExceeded
    ensures r.Success? ==> |r.value| == p + |Utf8Encode(s)|
    ensures r.Success? ==> FromLE(r.value[..p]) == |s| && r.value[p..] == Utf8Encode(s)
  {
    if |s| >= Pow256(p) - 1 then Failure(LengthExceeded)
    else
      FromToLEInRange(|s|, p);
      Success(ToLE(|s|, p) + Utf8Encode(s))
  }

  /** `CharacterString.deserialize`: fails exactly as `LVBytes` does;
      otherwise the input is the prefix, the raw payload and the remainder,
      and the text is the decoding of the raw payload up to its first zero. */
  function Deserialize(p: PrefixWidth, decode: Bytes -> string, data: Bytes): (r: Decoded<CharacterString>)
    ensures r.Err? <==> |data| < p || |data| < p + FromLE(data[..p])
    ensures r.Err? ==> r.error == Truncated
    ensures r.Ok? ==> |r.value.raw| == FromLE(data[..p])
    ensures r.Ok? ==> data == ToLE(|r.value.raw|, p) + r.value.raw + r.rest
    ensures r.Ok? ==> r.value.text == decode(UntilNul(r.value.raw))
  {
    match OctetString.Deserialize(p, data)
    case Err(e) => Err(e)
    case Ok(raw, rest) => Ok(CharacterString(decode(UntilNul(raw)), raw), rest)
  }

  /** `LimitedCharString(max_len).serialize`: refuses texts longer than
      `maxLen`, then behaves as the one-byte-prefix `serialize`. */
  function LimitedSerialize(maxLen: int, s: string): (r: Result<Bytes>)
    ensures r.Failure? <==> |s| > maxLen || |s| >= 255
    ensures r.Failure? ==> r.error == LengthExceeded
    ensures r.Success? ==> r == Serialize(CharacterStringPrefix, s)
  {
    if |s| > maxLen then Failure(LengthExceeded)
    else Serialize(CharacterStringPrefix, s)
  }

  /** The host decoder undoes UTF-8 encoding of any text. */
  ghost predicate InvertsUtf8(decode: Bytes -> string) {
    forall s :: decode(Utf8Encode(s)) == s
  }

  /** A text without zero characters encodes without zero bytes, so the
      decoder's cut at the first zero keeps the whole encoding. */
  lemma NoNulKeepsWholeEncoding(s: string)
    requires HasNoNul(s)
    ensures UntilNul(Utf8Encode(s)) == Utf8Encode(s)
  {
    var b := Utf8Encode(s);
    if |UntilNul(b)| < |b| {
      assert false;
    }
  }

  /** An ASCII text without zero characters survives encoding and decoding,
      followed by anything, and `raw` holds its bytes. */
  lemma RoundTrip(p: PrefixWidth, decode: Bytes -> string, s: string, rest: Bytes)
    requires InvertsUtf8(decode)
    requires IsAscii(s) && HasNoNul(s) && |s| <= OctetString.MaxPayload(p)
    ensures Serialize(p, s).Success?
    ensures Deserialize(p, decode, Serialize(p, s).value + rest)
            == Ok(CharacterString(s, Utf8Encode(s)), rest)
  {
    var b := Serialize(p, s).value;
    assert b == ToLE(|Utf8Encode(s)|, p) + Utf8Encode(s);
    OctetString.RoundTrip(p, Utf8Encode(s), rest);
    NoNulKeepsWholeEncoding(s);
  }

  /** A text within both limits survives `LimitedCharString` encoding and
      decoding exactly as it survives `CharacterString`'s. */
  lemma LimitedRoundTrip(maxLen: int, decode: Bytes -> string, s: string, rest: Bytes)
    requires InvertsUtf8(decode)
    requires IsAscii(s) && HasNoNul(s) && |s| <= maxLen && |s| <= OctetString.MaxPayload(CharacterStringPrefix)
    ensures LimitedSerialize(maxLen, s).Success?
    ensures Deserialize(CharacterStringPrefix, decode, LimitedSerialize(maxLen, s).value + rest)
            == Ok(CharacterString(s, Utf8Encode(s)), rest)
  {
    RoundTrip(CharacterStringPrefix, decode, s, rest);
  }

  /** The encoding with the prefix counting BYTES, which is what the
      decoder reads it as: the UTF-8 bytes framed as an `LVBytes`. */
  function SerializeByteCount(p: PrefixWidth, s: string): (r: Result<Bytes>)
    ensures r.Failure? <==> |Utf8Encode(s)| >= Pow256(p) - 1
    ensures r.Failure? ==> r.error == LengthExceeded
    ensures r.Success? ==> |r.value| == p + |Utf8Encode(s)|
    ensures r.Success? ==> FromLE(r.value[..p]) == |Utf8Encode(s)| && r.value[p..] == Utf8Encode(s)
    ensures IsAscii(s) ==> r == Serialize(p, s)
  {
    OctetString.Serialize(p, Utf8Encode(s))
  }

  /** With a byte-count prefix every text without zero characters, ASCII
      or not, survives encoding and decoding, followed by anything. */
  lemma RoundTripByteCount(p: PrefixWidth, decode: Bytes -> string, s: string, rest: Bytes)
    requires InvertsUtf8(decode)
    requires HasNoNul(s) && |Utf8Encode(s)| <= OctetString.MaxPayload(p)
    ensures SerializeByteCount(p, s).Success?
    ensures Deserialize(p, decode, SerializeByteCount(p, s).value + rest)
            == Ok(CharacterString(s, Utf8Encode(s)), rest)
  {
    OctetString.RoundTrip(p, Utf8Encode(s), rest);
    NoNulKeepsWholeEncoding(s);
  }

  /** A non-ASCII text is announced with fewer bytes than it occupies:
      decoding its encoding keeps only the first `|s|` payload bytes and
      leaves the rest of the text in the remainder. */
  lemma NonAsciiSplitsPayload(p: PrefixWidth, decode: Bytes -> string, s: string, rest: Bytes)
    requires !IsAscii(s) && |s| <= OctetString.MaxPayload(p)
    ensures Serialize(p, s).Success?
    ensures var e := Utf8Encode(s);
            var d := Deserialize(p, decode, Serialize(p, s).value + rest);
            && |e| > |s|
            && d.Ok?
            && d.value.raw == e[..|s|]
            && d.rest == e[|s|..] + rest
  {
    var e := Utf8Encode(s);
    assert Serialize(p, s).value == ToLE(|s|, p) + e;
    ShortCount(p, decode, |s|, e, rest);
  }

  /** A prefix announcing `n` bytes frames `n` bytes, whatever follows. */
  lemma ShortCount(p: PrefixWidth, decode: Bytes -> string, n: nat, e: Bytes, rest: Bytes)
    requires n <= |e| && n <= OctetString.MaxCount(p)
    ensures var d := Deserialize(p, decode, ToLE(n, p) + e + rest);
            d.Ok? && d.value.raw == e[..n] && d.rest == e[n..] + rest
  {
    CountFramesBytes(p, n, e, rest);
    FramedText(p, decode, ToLE(n, p) + e + rest);
  }

  /** The same framing of the raw payload. */
  lemma CountFramesBytes(p: PrefixWidth, n: nat, e: Bytes, rest: Bytes)
    requires n <= |e| && n <= OctetString.MaxCount(p)
    ensures OctetString.Deserialize(p, ToLE(n, p) + e + rest) == Ok(e[..n], e[n..] + rest)
  {
    var following := e + rest;
    assert ToLE(n, p) + e + rest == ToLE(n, p) + following;
    assert following[..n] == e[..n] && following[n..] == e[n..] + rest;
    OctetString.CountFramesPayload(p, n, following);
  }

  /** A text decodes wherever its raw payload does, from the same bytes. */
  lemma FramedText(p: PrefixWidth, decode: Bytes -> string, data: Bytes)
    requires OctetString.Deserialize(p, data).Ok?
    ensures Deserialize(p, decode, data).Ok?
    ensures Deserialize(p, decode, data).value.raw == OctetString.Deserialize(p, data).value
    ensures Deserialize(p, decode, data).rest == OctetString.Deserialize(p, data).rest
  {
  }

  /** `"é"` encodes as `01 C3 A9`; decoding reads the one byte `C3` and
      leaves `A9` behind. */
  lemma NonAsciiExample(decode: Bytes -> string)
    ensures Serialize(CharacterStringPrefix, "\U{E9}") == Success([0x01, 0xC3, 0xA9])
    ensures Deserialize(CharacterStringPrefix, decode, [0x01, 0xC3, 0xA9])
            == Ok(CharacterString(decode([0xC3]), [0xC3]), [0xA9])
  {
    assert Utf8Char('\U{E9}') == [0xC3, 0xA9];
    assert Utf8Encode("\U{E9}") == [0xC3, 0xA9] by {
      assert "\U{E9}"[0] == '\U{E9}' && "\U{E9}"[1..] == "";
    }
    assert ToLE(1, 1) == [0x01] && Pow256(1) == 256;
    assert Serialize(CharacterStringPrefix, "\U{E9}").value == [0x01] + [0xC3, 0xA9];
    assert [0x01] + [0xC3, 0xA9] == [0x01, 0xC3, 0xA9];
    var data: Bytes := [0x01, 0xC3, 0xA9];
    assert data[..1] == [0x01] && FromLE([0x01]) == 1;
    assert data[1..2] == [0xC3] && data[2..] == [0xA9];
    assert UntilNul([0xC3]) == [0xC3] by {
      assert [0xC3][1..] == [];
    }
  }
}
