/** Base64 over bytes, with the standard alphabet and `=` padding of section 4
    of RFC 4648 — what `Buffer.toString('base64')` and `btoa` produce. */
module Base64 {
  import opened Js

  /** The alphabet character for a six-bit value. */
  function CharOf(v: bv8): (c: char)
    requires v < 64
  {
    if v < 26 then (('A' as int) + v as int) as char
    else if v < 52 then (('a' as int) + (v as int - 26)) as char
    else if v < 62 then (('0' as int) + (v as int - 52)) as char
    else if v == 62 then '+'
    else '/'
  }

  predicate IsAlphabetChar(c: char) {
    ('A' <= c <= 'Z') || ('a' <= c <= 'z') || ('0' <= c <= '9') || c == '+' || c == '/'
  }

  /** The six-bit value of an alphabet character. */
  function SextetOf(c: char): (v: bv8)
    requires IsAlphabetChar(c)
    ensures v < 64
  {
    if 'A' <= c <= 'Z' then ((c as int) - ('A' as int)) as bv8
    else if 'a' <= c <= 'z' then ((c as int) - ('a' as int) + 26) as bv8
    else if '0' <= c <= '9' then ((c as int) - ('0' as int) + 52) as bv8
    else if c == '+' then 62
    else 63
  }

  /** Every six-bit value is written with an alphabet character that reads back as it. */
  lemma CharOfSextet(v: bv8)
    requires v < 64
    ensures IsAlphabetChar(CharOf(v)) && SextetOf(CharOf(v)) == v
  {
  }

  /** Three bytes as four characters. */
  function EncodeBlock(a: bv8, b: bv8, c: bv8): (r: string)
    ensures |r| == 4
  {
    [CharOf(a >> 2), CharOf(((a & 3) << 4) | (b >> 4)), CharOf(((b & 15) << 2) | (c >> 6)), CharOf(c & 63)]
  }

  /** The base64 text of `bytes`. */
  function Encode(bytes: seq<bv8>): (r: string)
    ensures |r| == 4 * ((|bytes| + 2) / 3)
    decreases |bytes|
  {
    if |bytes| == 0 then ""
    else if |bytes| == 1 then
      [CharOf(bytes[0] >> 2), CharOf((bytes[0] & 3) << 4), '=', '=']
    else if |bytes| == 2 then
      [CharOf(bytes[0] >> 2), CharOf(((bytes[0] & 3) << 4) | (bytes[1] >> 4)), CharOf((bytes[1] & 15) << 2), '=']
    else EncodeBlock(bytes[0], bytes[1], bytes[2]) + Encode(bytes[3..])
  }

  /** Four alphabet characters as three bytes. */
  function DecodeBlock(c0: char, c1: char, c2: char, c3: char): seq<bv8>
    requires IsAlphabetChar(c0) && IsAlphabetChar(c1) && IsAlphabetChar(c2) && IsAlphabetChar(c3)
  {
    var s0, s1, s2, s3 := SextetOf(c0), SextetOf(c1), SextetOf(c2), SextetOf(c3);
    [(s0 << 2) | (s1 >> 4), ((s1 & 15) << 4) | (s2 >> 2), ((s2 & 3) << 6) | s3]
  }

  /** The last group of four characters, which may end in one or two `=`. */
  function DecodeFinal(c0: char, c1: char, c2: char, c3: char): Option<seq<bv8>> {
    if !IsAlphabetChar(c0) || !IsAlphabetChar(c1) then None
    else if c2 == '=' && c3 == '=' then Some([(SextetOf(c0) << 2) | (SextetOf(c1) >> 4)])
    else if !IsAlphabetChar(c2) then None
    else if c3 == '=' then
      Some([(SextetOf(c0) << 2) | (SextetOf(c1) >> 4), ((SextetOf(c1) & 15) << 4) | (SextetOf(c2) >> 2)])
    else if IsAlphabetChar(c3) then Some(DecodeBlock(c0, c1, c2, c3))
    else None
  }

  /** The bytes of a base64 text, or `None` for text that is not base64. */
  function Decode(s: string): Option<seq<bv8>>
    decreases |s|
  {
    if |s| == 0 then Some([])
    else if |s| < 4 then None
    else if |s| == 4 then DecodeFinal(s[0], s[1], s[2], s[3])
    else if !(IsAlphabetChar(s[0]) && IsAlphabetChar(s[1]) && IsAlphabetChar(s[2]) && IsAlphabetChar(s[3])) then None
    else match Decode(s[4..])
      case None => None
      case Some(rest) => Some(DecodeBlock(s[0], s[1], s[2], s[3]) + rest)
  }

  /** A full block decodes back to its three bytes. */
  lemma BlockRoundTrip(a: bv8, b: bv8, c: bv8)
    ensures var e := EncodeBlock(a, b, c);
      && IsAlphabetChar(e[0]) && IsAlphabetChar(e[1]) && IsAlphabetChar(e[2]) && IsAlphabetChar(e[3])
      && DecodeBlock(e[0], e[1], e[2], e[3]) == [a, b, c]
  {
    var s0, s1, s2, s3 := a >> 2, ((a & 3) << 4) | (b >> 4), ((b & 15) << 2) | (c >> 6), c & 63;
    CharOfSextet(s0);
    CharOfSextet(s1);
    CharOfSextet(s2);
    CharOfSextet(s3);
    DecodeOfSextets(CharOf(s0), CharOf(s1), CharOf(s2), CharOf(s3), s0, s1, s2, s3);
    SextetsRejoin(a, b, c);
  }

  /** Four alphabet characters decode by their six-bit values. */
  lemma DecodeOfSextets(c0: char, c1: char, c2: char, c3: char, s0: bv8, s1: bv8, s2: bv8, s3: bv8)
    requires IsAlphabetChar(c0) && IsAlphabetChar(c1) && IsAlphabetChar(c2) && IsAlphabetChar(c3)
    requires SextetOf(c0) == s0 && SextetOf(c1) == s1 && SextetOf(c2) == s2 && SextetOf(c3) == s3
    ensures DecodeBlock(c0, c1, c2, c3) == [(s0 << 2) | (s1 >> 4), ((s1 & 15) << 4) | (s2 >> 2), ((s2 & 3) << 6) | s3]
  {
  }

  /** The four sextets of three bytes put back together give the bytes. */
  lemma SextetsRejoin(a: bv8, b: bv8, c: bv8)
    ensures var s0, s1, s2, s3 := a >> 2, ((a & 3) << 4) | (b >> 4), ((b & 15) << 2) | (c >> 6), c & 63;
      && (s0 << 2) | (s1 >> 4) == a
      && ((s1 & 15) << 4) | (s2 >> 2) == b
      && ((s2 & 3) << 6) | s3 == c
  {
  }

  /** A final group holding one byte decodes back to it. */
  lemma OneByteRoundTrip(a: bv8)
    ensures Decode(Encode([a])) == Some([a])
  {
    CharOfSextet(a >> 2);
    CharOfSextet((a & 3) << 4);
  }

  /** The sextets of two bytes put the bytes back together. */
  lemma TwoBytesBits(a: bv8, b: bv8)
    ensures var s1 := ((a & 3) << 4) | (b >> 4);
      && ((a >> 2) << 2) | (s1 >> 4) == a
      && ((s1 & 15) << 4) | (((b & 15) << 2) >> 2) == b
  {
  }

  /** How a final group ending in one `=` decodes. */
  lemma DecodeFinalTwo(c0: char, c1: char, c2: char)
    requires IsAlphabetChar(c0) && IsAlphabetChar(c1) && IsAlphabetChar(c2)
    ensures DecodeFinal(c0, c1, c2, '=')
         == Some([(SextetOf(c0) << 2) | (SextetOf(c1) >> 4), ((SextetOf(c1) & 15) << 4) | (SextetOf(c2) >> 2)])
  {
  }

  /** A final group holding two bytes decodes back to them. */
  lemma TwoBytesRoundTrip(a: bv8, b: bv8)
    ensures Decode(Encode([a, b])) == Some([a, b])
  {
    EncodeTwo(a, b);
    DecodeTwo(a, b);
  }

  /** The text of two bytes. */
  lemma EncodeTwo(a: bv8, b: bv8)
    ensures Encode([a, b]) == [CharOf(a >> 2), CharOf(((a & 3) << 4) | (b >> 4)), CharOf((b & 15) << 2), '=']
  {
  }

  /** Decoding the text of two bytes. */
  lemma DecodeTwo(a: bv8, b: bv8)
    ensures Decode([CharOf(a >> 2), CharOf(((a & 3) << 4) | (b >> 4)), CharOf((b & 15) << 2), '=']) == Some([a, b])
  {
    var s0, s1, s2 := a >> 2, ((a & 3) << 4) | (b >> 4), (b & 15) << 2;
    CharOfSextet(s0);
    CharOfSextet(s1);
    CharOfSextet(s2);
    var c0, c1, c2 := CharOf(s0), CharOf(s1), CharOf(s2);
    assert Decode([c0, c1, c2, '=']) == DecodeFinal(c0, c1, c2, '=');
    DecodeFinalTwo(c0, c1, c2);
    TwoBytesBits(a, b);
  }

  /** A final group holding three bytes decodes back to them. */
  lemma ThreeBytesRoundTrip(a: bv8, b: bv8, c: bv8)
    ensures Decode(Encode([a, b, c])) == Some([a, b, c])
  {
    BlockRoundTrip(a, b, c);
    var e := EncodeBlock(a, b, c);
    assert Encode([a, b, c]) == e + Encode([]);
    assert DecodeFinal(e[0], e[1], e[2], e[3]) == Some(DecodeBlock(e[0], e[1], e[2], e[3]));
  }

  /** Decoding the base64 text of any bytes gives those bytes back. */
  lemma {:induction false} DecodeEncode(bytes: seq<bv8>)
    ensures Decode(Encode(bytes)) == Some(bytes)
    decreases |bytes|
  {
    if |bytes| == 1 {
      assert bytes == [bytes[0]];
      OneByteRoundTrip(bytes[0]);
    } else if |bytes| == 2 {
      assert bytes == [bytes[0], bytes[1]];
      TwoBytesRoundTrip(bytes[0], bytes[1]);
    } else if |bytes| == 3 {
      assert bytes == [bytes[0], bytes[1], bytes[2]];
      ThreeBytesRoundTrip(bytes[0], bytes[1], bytes[2]);
    } else if |bytes| > 3 {
      var s := Encode(bytes);
      BlockRoundTrip(bytes[0], bytes[1], bytes[2]);
      DecodeEncode(bytes[3..]);
      assert s[..4] == EncodeBlock(bytes[0], bytes[1], bytes[2]);
      assert s[4..] == Encode(bytes[3..]);
      assert bytes == [bytes[0], bytes[1], bytes[2]] + bytes[3..];
    }
  }

  /** Different byte strings have different base64 texts. */
  lemma EncodeInjective(a: seq<bv8>, b: seq<bv8>)
    ensures Encode(a) == Encode(b) <==> a == b
  {
    DecodeEncode(a);
    DecodeEncode(b);
  }
}
