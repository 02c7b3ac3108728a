/** The bitfield class the parsers use: ten bytes, updated in place, whose text
    is the base64 of the UTF-8 encoding of the bytes read as characters. */
module Bitfield {
  import opened Js
  import opened Bits
  import Base64

  /** The number of bytes the constructor allocates. */
  const Size: nat := 10

  /** The UTF-8 bytes `Buffer.from` writes for a character with code `c < 256`. */
  function Utf8Char(c: bv8): seq<bv8> {
    if c < 0x80 then [c] else [0xC0 | (c >> 6), 0x80 | (c & 0x3F)]
  }

  /** The UTF-8 bytes of a string whose characters have the codes `chars`. */
  function Utf8(chars: seq<bv8>): seq<bv8>
    decreases |chars|
  {
    if chars == [] then [] else Utf8Char(chars[0]) + Utf8(chars[1..])
  }

  /** Reads back a UTF-8 byte string of characters below 256, or `None`. */
  function FromUtf8(bytes: seq<bv8>): Option<seq<bv8>>
    decreases |bytes|
  {
    if bytes == [] then Some([])
    else if bytes[0] < 0x80 then
      match FromUtf8(bytes[1..])
      case None => None
      case Some(rest) => Some([bytes[0]] + rest)
    else if |bytes| >= 2 && (bytes[0] == 0xC2 || bytes[0] == 0xC3) && bytes[1] & 0xC0 == 0x80 then
      match FromUtf8(bytes[2..])
      case None => None
      case Some(rest) => Some([((bytes[0] & 3) << 6) | (bytes[1] & 0x3F)] + rest)
    else None
  }

  /** The two-byte form of a character from 0x80 to 0xFF. */
  lemma Utf8CharBits(c: bv8)
    requires c >= 0x80
    ensures var b0, b1 := 0xC0 | (c >> 6), 0x80 | (c & 0x3F);
      && (b0 == 0xC2 || b0 == 0xC3) && b1 & 0xC0 == 0x80
      && ((b0 & 3) << 6) | (b1 & 0x3F) == c
  {
  }

  /** Reading back the UTF-8 bytes gives the character codes. */
  lemma {:induction false} FromUtf8OfUtf8(chars: seq<bv8>)
    ensures FromUtf8(Utf8(chars)) == Some(chars)
    decreases |chars|
  {
    if chars != [] {
      var c := chars[0];
      var u := Utf8(chars);
      FromUtf8OfUtf8(chars[1..]);
      assert chars == [c] + chars[1..];
      if c < 0x80 {
        assert u[1..] == Utf8(chars[1..]);
      } else {
        Utf8CharBits(c);
        assert u[2..] == Utf8(chars[1..]);
      }
    }
  }

  /** Characters below 0x80 are written as themselves. */
  lemma {:induction false} Utf8OfAscii(chars: seq<bv8>)
    requires forall k :: 0 <= k < |chars| ==> chars[k] < 0x80
    ensures Utf8(chars) == chars
    decreases |chars|
  {
    if chars != [] {
      Utf8OfAscii(chars[1..]);
      assert chars == [chars[0]] + chars[1..];
    }
  }

  /** The text `toBase64` returns for the bytes `data`. */
  function Encoded(data: seq<bv8>): string {
    Base64.Encode(Utf8(TrimTrailingZeros(data)))
  }

  /** The text always decodes to the trimmed bytes, in UTF-8 form. */
  lemma EncodedCarriesBytes(data: seq<bv8>)
    ensures Base64.Decode(Encoded(data)).Some?
    ensures FromUtf8(Base64.Decode(Encoded(data)).value) == Some(TrimTrailingZeros(data))
  {
    Base64.DecodeEncode(Utf8(TrimTrailingZeros(data)));
    FromUtf8OfUtf8(TrimTrailingZeros(data));
  }

  /** While no byte reaches 0x80 (no code that is a multiple of 8 is set) the
      text is the one phpBB stores. */
  lemma EncodedIsPhpbbWhenAscii(data: seq<bv8>)
    requires forall k :: 0 <= k < |data| ==> data[k] < 0x80
    ensures Encoded(data) == PhpbbText(data)
  {
    var t := TrimTrailingZeros(data);
    Utf8OfAscii(t);
  }

  /** Whenever a byte kept after trimming reaches 0x80 the text is not the one
      phpBB stores: UTF-8 widens that byte to two. */
  lemma EncodedIsNotPhpbbWhenHighByte(data: seq<bv8>, k: nat)
    requires k < |TrimTrailingZeros(data)| && TrimTrailingZeros(data)[k] >= 0x80
    ensures Encoded(data) != PhpbbText(data)
  {
    var t := TrimTrailingZeros(data);
    Utf8Longer(t, k);
    Base64.EncodeInjective(Utf8(t), t);
  }

  /** UTF-8 of characters with a code of at least 0x80 is longer than the codes. */
  lemma {:induction false} Utf8Longer(chars: seq<bv8>, k: nat)
    requires k < |chars| && chars[k] >= 0x80
    ensures |Utf8(chars)| > |chars|
    decreases |chars|
  {
    Utf8NotShorter(chars[1..]);
    if k > 0 {
      Utf8Longer(chars[1..], k - 1);
    }
  }

  /** UTF-8 never shortens. */
  lemma {:induction false} Utf8NotShorter(chars: seq<bv8>)
    ensures |Utf8(chars)| >= |chars|
    decreases |chars|
  {
    if chars != [] {
      Utf8NotShorter(chars[1..]);
    }
  }

  /** A bitfield with no code set gives the empty text. */
  lemma EmptyText()
    ensures Encoded(seq(Size, _ => 0 as bv8)) == ""
  {
    var z := seq(Size, _ => 0 as bv8);
    assert TrimTrailingZeros(z) == [] by {
      assert forall k :: 0 <= k < |z| ==> z[k] == 0;
    }
  }

  /** Codes 1 and 7 (`b` and `u`) make the single byte 0x41, written `QQ==`. */
  lemma BoldUnderlineText()
    ensures Layout({1, 7}, Size) == [0x41] + seq(Size - 1, _ => 0 as bv8)
    ensures Encoded(Layout({1, 7}, Size)) == "QQ=="
  {
    var bytes := [0x41] + seq(Size - 1, _ => 0 as bv8);
    forall i | 0 <= i < Size ensures ByteOf({1, 7}, i) == bytes[i] {
      if i > 0 {
        assert 8 * i >= 8;
      }
    }
    assert TrimTrailingZeros(bytes) == [0x41] by {
      assert TrimTrailingZeros(bytes[..1]) == [0x41];
      TrimStopsAtNonZero(bytes, 1);
    }
    assert Utf8([0x41]) == [0x41];
  }

  /** Codes 0, 1, 2 and 8 (`quote`, `b`, `i`, `code`) make the bytes E0 80. */
  lemma QuoteBoldItalicCodeLayout()
    ensures Layout({0, 1, 2, 8}, Size) == [0xE0, 0x80] + seq(Size - 2, _ => 0 as bv8)
  {
    var codes: set<nat> := {0, 1, 2, 8};
    var bytes := [0xE0, 0x80] + seq(Size - 2, _ => 0 as bv8);
    forall i | 0 <= i < Size ensures ByteOf(codes, i) == bytes[i] {
      if i > 1 {
        assert 8 * i >= 16;
      }
    }
  }

  /** phpBB stores the bitfield of codes 0, 1, 2 and 8 as `4IA=`; this class
      writes `w6DCgA==`, the base64 of the UTF-8 bytes C3 A0 C2 80. */
  lemma QuoteBoldItalicCodeText()
    ensures PhpbbText(Layout({0, 1, 2, 8}, Size)) == "4IA="
    ensures Encoded(Layout({0, 1, 2, 8}, Size)) == "w6DCgA=="
  {
    var bytes := [0xE0, 0x80] + seq(Size - 2, _ => 0 as bv8);
    QuoteBoldItalicCodeLayout();
    assert TrimTrailingZeros(bytes) == [0xE0, 0x80] by {
      assert TrimTrailingZeros(bytes[..2]) == [0xE0, 0x80];
      TrimStopsAtNonZero(bytes, 2);
    }
    assert Utf8([0xE0, 0x80]) == [0xC3, 0xA0, 0xC2, 0x80] by {
      assert Utf8([0x80]) == [0xC2, 0x80];
    }
    assert Base64.Encode([0xC3, 0xA0, 0xC2, 0x80]) == "w6DCgA==" by {
      assert [0xC3, 0xA0, 0xC2, 0x80][3..] == [0x80 as bv8];
    }
  }

  /** The ten-byte bitfield, updated in place. */
  class Bitfield {
    const data: array<bv8>

    /** Ten zero bytes. */
    constructor ()
      ensures fresh(data)
      ensures data[..] == seq(Size, _ => 0 as bv8)
    {
      data := new bv8[Size](_ => 0);
    }

    /** Switches on code `n` in byte `n / 8`. */
    method Set(n: nat)
      requires n / 8 < data.Length
      modifies data
      ensures data[..] == SetBit(old(data[..]), n)
    {
      var i := n / 8;
      var d := n % 8;
      data[i] := data[i] | Mask(d);
    }

    /** The bitfield text of the current bytes: base64 whose bytes, read as
        UTF-8, are the bytes with the trailing zeros cut. */
    function ToBase64(): (r: string)
      reads data
      ensures Base64.Decode(r).Some? && FromUtf8(Base64.Decode(r).value) == Some(TrimTrailingZeros(data[..]))
    {
      EncodedCarriesBytes(data[..]);
      Encoded(data[..])
    }
  }
}
