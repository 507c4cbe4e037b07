/**
 BBQr encoding and decoding (src/krux/bbqr.py:108-164) and the whole transport: encode, split, show in
 any order, reassemble, decode part by part.
 */
module Bbqr {
  import opened Bytes
  import opened Base32
  import opened KeySum
  import opened QrParser
  import opened QrTransport
  import opened QrSizes

  const ALWAYS_COMPRESS_THRESHOLD := 5000

  // The deflate module: decompression undoes compression.
  datatype Deflate = Deflate(compress: bytes -> bytes, decompress: bytes -> Option<bytes>) {
    ghost predicate Valid() { forall x :: decompress(compress(x)) == Some(x) }
  }

  // ---------------------------------------------------------------- hexadecimal

  function HexChar(n: int): char
    requires 0 <= n < 16
  {
    if n < 10 then ('0' as int + n) as char else ('A' as int + n - 10) as char
  }

  function HexDigit(c: char): Option<int> {
    if '0' <= c <= '9' then Some(c as int - '0' as int)
    else if 'A' <= c <= 'F' then Some(c as int - 'A' as int + 10)
    else if 'a' <= c <= 'f' then Some(c as int - 'a' as int + 10)
    else None
  }

  // hexlify(data).decode().upper()
  function Hexlify(data: bytes): (s: string)
    ensures |s| == 2 * |data|
  {
    if data == [] then [] else [HexChar(data[0] / 16), HexChar(data[0] % 16)] + Hexlify(data[1..])
  }

  // unhexlify: None where it raises.
  function Unhexlify(s: string): Option<bytes> {
    if s == [] then Some([])
    else if |s| == 1 then None
    else
      var high, low, rest := HexDigit(s[0]), HexDigit(s[1]), Unhexlify(s[2..]);
      if high.None? || low.None? || rest.None? then None
      else
        assert 0 <= 16 * high.value + low.value < 256;
        Some([16 * high.value + low.value] + rest.value)
  }

  lemma HexDigitOfChar(n: int)
    requires 0 <= n < 16
    ensures HexDigit(HexChar(n)) == Some(n)
  {
  }

  lemma {:induction false} UnhexlifyOfHexlify(data: bytes)
    ensures Unhexlify(Hexlify(data)) == Some(data)
  {
    if data != [] {
      UnhexlifyOfHexlify(data[1..]);
      HexDigitOfChar(data[0] / 16);
      HexDigitOfChar(data[0] % 16);
      assert [data[0]] + data[1..] == data;
      assert Hexlify(data)[2..] == Hexlify(data[1..]);
    }
  }

  // ---------------------------------------------------------------- one part, all parts

  function DecodePart(encoding: char, part: string): Option<bytes> {
    if encoding == 'H' then Unhexlify(part)
    else
      var s := StripPadding(part);
      if forall i | 0 <= i < |s| :: QuintOf(s[i]).Some? then
        assert IsText(s);
        Some(Decoded(s))
      else None
  }

  function DecodeParts(encoding: char, parts: seq<string>): Option<bytes> {
    if parts == [] then Some([])
    else
      var first, rest := DecodePart(encoding, parts[0]), DecodeParts(encoding, parts[1..]);
      if first.None? || rest.None? then None else Some(first.value + rest.value)
  }

  lemma {:induction false} UnhexlifyByParts(a: string, b: string)
    requires |a| % 2 == 0 && Unhexlify(a + b).Some?
    ensures Unhexlify(a).Some? && Unhexlify(b).Some?
    ensures Unhexlify(a + b).value == Unhexlify(a).value + Unhexlify(b).value
  {
    if a == [] {
      assert a + b == b;
    } else {
      assert (a + b)[2..] == a[2..] + b;
      UnhexlifyByParts(a[2..], b);
    }
  }

  lemma TextParts(a: string, b: string)
    requires IsText(a + b)
    ensures IsText(a) && IsText(b)
  {
    assert forall c | c in a || c in b :: c in a + b;
  }

  lemma {:induction false} StripPadded(s: string, n: nat)
    ensures StripPadding(s + seq(n, _ => '=')) == StripPadding(s)
  {
    var t := s + seq(n, _ => '=');
    if n == 0 {
      assert t == s;
    } else {
      assert t[..|t| - 1] == s + seq(n - 1, _ => '=');
      StripPadded(s, n - 1);
    }
  }

  lemma TextIsUnpadded(s: string)
    requires IsText(s)
    ensures StripPadding(s) == s
  {
    if s != [] {
      assert s[|s| - 1] in s;
    }
  }

  lemma DecodePartOfText(encoding: char, part: string)
    requires encoding != 'H'
    ensures var s := StripPadding(part);
            if IsText(s) then DecodePart(encoding, part) == Some(Decoded(s)) else DecodePart(encoding, part) == None
    ensures IsText(part) ==> DecodePart(encoding, part) == Some(Decoded(part))
  {
    hide Decoded;
    var s := StripPadding(part);
    if IsText(part) {
      TextIsUnpadded(part);
    }
    if IsText(s) {
      assert forall i | 0 <= i < |s| :: s[i] in s;
    }
  }

  /** Decoding by parts is decoding the whole, as long as every part but the last has a multiple of eight characters. */
  lemma {:induction false} DecodeByParts(encoding: char, parts: seq<string>)
    requires forall i | 0 <= i < |parts| - 1 :: |parts[i]| % 8 == 0
    requires Decodable(encoding, Concat(parts))
    ensures DecodeParts(encoding, parts) == DecodePart(encoding, Concat(parts))
  {
    hide Unhexlify, Decoded, DecodePart, Decodable;
    if parts == [] {
      EmptyPart(encoding);
    } else {
      var first, rest := parts[0], Concat(parts[1..]);
      DecodableDecodes(encoding, Concat(parts));
      if |parts| == 1 {
        assert parts[1..] == [] && first + rest == first;
        var d := DecodePart(encoding, first);
        assert d.Some? ==> d.value + [] == d.value;
      } else {
        SplitPart(encoding, first, rest);
        DecodeByParts(encoding, parts[1..]);
      }
    }
  }

  // Text a payload consists of: base32 characters, or hexadecimal pairs.
  ghost predicate Decodable(encoding: char, s: string) {
    if encoding == 'H' then Unhexlify(s).Some? else IsText(s)
  }

  lemma DecodableDecodes(encoding: char, s: string)
    requires Decodable(encoding, s)
    ensures DecodePart(encoding, s).Some?
  {
    hide Decoded;
    if encoding != 'H' {
      DecodePartOfText(encoding, s);
    }
  }

  lemma EmptyPart(encoding: char)
    ensures DecodePart(encoding, []) == Some([])
  {
    if encoding != 'H' {
      assert Quints([]) == [];
    }
  }

  lemma SplitPart(encoding: char, a: string, b: string)
    requires |a| % 8 == 0 && Decodable(encoding, a + b)
    ensures Decodable(encoding, b) && DecodePart(encoding, a + b).Some?
    ensures DecodePart(encoding, a).Some? && DecodePart(encoding, b).Some?
    ensures DecodePart(encoding, a + b).value == DecodePart(encoding, a).value + DecodePart(encoding, b).value
  {
    hide Decoded, Unhexlify, StripPadding;
    if encoding == 'H' {
      UnhexlifyByParts(a, b);
    } else {
      DecodePartOfText(encoding, a + b);
      TextParts(a, b);
      DecodePartOfText(encoding, a);
      DecodePartOfText(encoding, b);
      DecodedByParts(a, b);
    }
  }

  // ---------------------------------------------------------------- codec

  datatype Code = Code(payload: string, encoding: char)

  // The choice between compressed and plain base32, and the text.
  function EncodeBbqr(deflate: Deflate, data: bytes, encoding: char): Code
    requires KnownEncoding(encoding)
  {
    if encoding == 'H' then Code(Hexlify(data), 'H')
    else if encoding == '2' then Code(Encoded(data), '2')
    else
      var packed := deflate.compress(data);
      if |data| <= ALWAYS_COMPRESS_THRESHOLD && |packed| >= |data| then Code(Encoded(data), '2')
      else Code(Encoded(packed), 'Z')
  }

  // What follows the parts: decompression for Z.  None where decompression raises.
  function Unpacked(deflate: Deflate, encoding: char, data: bytes): Option<bytes> {
    if encoding == 'Z' then deflate.decompress(data) else Some(data)
  }

  /** decode_bbqr of the parts in key order, for the binary file types. */
  method DecodeBbqr(deflate: Deflate, parts: seq<string>, encoding: char) returns (r: Option<bytes>)
    ensures r == match DecodeParts(encoding, parts)
                 case None => None
                 case Some(data) => Unpacked(deflate, encoding, data)
  {
    hide DecodePart;
    var data: bytes := [];
    assert parts[0..] == parts;
    assert DecodeParts(encoding, parts).Some? ==> [] + DecodeParts(encoding, parts).value == DecodeParts(encoding, parts).value;
    for i := 0 to |parts|
      invariant DecodeParts(encoding, parts) ==
                match DecodeParts(encoding, parts[i..])
                case None => None
                case Some(rest) => Some(data + rest)
    {
      var part := parts[i];
      assert parts[i..][0] == part && parts[i..][1..] == parts[i + 1..];
      var decoded := DecodeOne(encoding, part);
      if decoded.None? {
        return None;
      }
      ghost var rest := DecodeParts(encoding, parts[i + 1..]);
      assert rest.Some? ==> data + (decoded.value + rest.value) == data + decoded.value + rest.value;
      data := data + decoded.value;
    }
    assert parts[|parts|..] == [];
    assert data + [] == data;
    return Unpacked(deflate, encoding, data);
  }

  // One part: hexadecimal, or base32 after padding it to a multiple of eight.
  method DecodeOne(encoding: char, part: string) returns (r: Option<bytes>)
    ensures r == DecodePart(encoding, part)
  {
    if encoding == 'H' {
      return Unhexlify(part);
    }
    var padding := (8 - |part| % 8) % 8;
    r := Decode(part + seq(padding, _ => '='));
    StripPadded(part, padding);
    DecodePartOfText(encoding, part);
  }

  // ---------------------------------------------------------------- the whole transport

  lemma CodeIsDecodable(deflate: Deflate, data: bytes, encoding: char)
    requires deflate.Valid() && KnownEncoding(encoding)
    ensures var code := EncodeBbqr(deflate, data, encoding);
            && KnownEncoding(code.encoding)
            && Decodable(code.encoding, code.payload)
            && DecodePart(code.encoding, code.payload).Some?
            && Unpacked(deflate, code.encoding, DecodePart(code.encoding, code.payload).value) == Some(data)
  {
    hide Encoded, Decoded, Hexlify, Unhexlify, DecodePart;
    var code := EncodeBbqr(deflate, data, encoding);
    UnhexlifyOfHexlify(data);
    var packed := deflate.compress(data);
    DecodedOfEncoded(data);
    DecodedOfEncoded(packed);
    DecodableDecodes(code.encoding, code.payload);
    if code.encoding == 'H' {
      HexPart(code.payload);
    } else {
      DecodePartOfText(code.encoding, code.payload);
    }
  }

  /**
   The choice of encoding: H and 2 are kept; Z becomes 2 exactly for data of at most 5000 bytes that compression does
   not shorten, and otherwise carries the compressed data; for data of at most 5000 bytes the text is then never longer
   than without compression.
   */
  lemma EncodingChoice(deflate: Deflate, data: bytes, encoding: char)
    requires KnownEncoding(encoding)
    ensures var code := EncodeBbqr(deflate, data, encoding);
            && (encoding != 'Z' ==> code.encoding == encoding)
            && (encoding == 'Z' ==>
                  && (code.encoding == '2' <==> |data| <= 5000 && |deflate.compress(data)| >= |data|)
                  && (code.encoding == '2' || code.encoding == 'Z')
                  && (|data| <= 5000 ==> |code.payload| <= |EncodeBbqr(deflate, data, '2').payload|))
            && (code.encoding == '2' ==> IsText(code.payload) && Decoded(code.payload) == data)
            && (code.encoding == 'Z' ==> IsText(code.payload) && Decoded(code.payload) == deflate.compress(data))
            && (code.encoding == 'H' ==> |code.payload| == 2 * |data| && Unhexlify(code.payload) == Some(data) &&
                                         forall c | c in code.payload :: '0' <= c <= '9' || 'A' <= c <= 'F')
  {
    hide Encoded, Decoded, Hexlify, Unhexlify, IsText;
    var packed := deflate.compress(data);
    DecodedOfEncoded(data);
    DecodedOfEncoded(packed);
    EncodedLength(data);
    EncodedLength(packed);
    UnhexlifyOfHexlify(data);
    HexIsUpper(data);
  }

  lemma {:induction false} HexIsUpper(data: bytes)
    ensures forall c | c in Hexlify(data) :: '0' <= c <= '9' || 'A' <= c <= 'F'
  {
    if data != [] {
      HexIsUpper(data[1..]);
    }
  }

  lemma HexPart(s: string)
    ensures DecodePart('H', s) == Unhexlify(s)
  {
  }

  lemma SplitIsAligned(payload: string, capacity: nat)
    requires capacity >= 16
    ensures var s := SplitBBQr(|payload|, capacity);
            && s.count > 0
            && forall i | 0 <= i < s.count - 1 :: |PartsOf(payload, s.count, s.size)[i]| % 8 == 0
  {
    SplitBBQrFacts(|payload|, capacity);
    var s := SplitBBQr(|payload|, capacity);
    hide SplitBBQr, PartsOf;
    forall i | 0 <= i < s.count - 1
      ensures |PartsOf(payload, s.count, s.size)[i]| % 8 == 0
    {
      InnerPart(payload, s.count, s.size, i);
    }
  }

  /**
   BBQr end to end: for H, 2 and Z, including the switch from Z to 2 when compression does not pay, and for
   every screen width, the frames of the split, shown in any order until every part has been seen,
   decode to the data.
   */
  lemma BBQrTransport(deflate: Deflate, data: bytes, encoding: char, fileType: char, maxWidth: int, order: seq<nat>)
    requires deflate.Valid() && KnownEncoding(encoding) && KnownFileType(fileType)
    requires var code := EncodeBbqr(deflate, data, encoding);
             var split := SplitBBQr(|code.payload|, Capacity(maxWidth));
             && split.count <= 1295 && InRange(order, split.count)
             && (forall i: nat | i < split.count :: i in order) && order != []
    ensures var code := EncodeBbqr(deflate, data, encoding);
            var split := SplitBBQr(|code.payload|, Capacity(maxWidth));
            var frames := BBQrCycle(code.encoding, fileType, code.payload, split.count, split.size);
            var parts := PartsOf(code.payload, split.count, split.size);
            && Feed(FRESH, frames, order).Some?
            && var s := Feed(FRESH, frames, order).value;
            && Complete(s) && s.kind == Some(BBQr(code.encoding, fileType))
            && s.parts.Keys == Range(0, |parts|) && (forall i | 0 <= i < |parts| :: s.parts[i] == parts[i])
            && DecodeParts(code.encoding, parts).Some?
            && Unpacked(deflate, code.encoding, DecodeParts(code.encoding, parts).value) == Some(data)
  {
    hide EncodeBbqr, SplitBBQr, BBQrCycle, PartsOf, DecodeParts, DecodePart, Decodable, Joined, Concat, Complete, Family;
    var code := EncodeBbqr(deflate, data, encoding);
    var capacity := Capacity(maxWidth);
    var split := SplitBBQr(|code.payload|, capacity);
    var parts := PartsOf(code.payload, split.count, split.size);
    var frames := BBQrCycle(code.encoding, fileType, code.payload, split.count, split.size);
    CodeIsDecodable(deflate, data, encoding);
    SplitIsAligned(code.payload, capacity);
    BBQrFamily(code.encoding, fileType, code.payload, split.count, split.size);
    OrderFree(BBQr(code.encoding, fileType), frames, parts, order);
    FeedHolds(BBQr(code.encoding, fileType), frames, parts, order);
    DecodeByParts(code.encoding, parts);
  }
}
