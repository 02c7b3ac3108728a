/** The second bitfield class: it starts with thirty bytes, grows when a code
    lies past its end, and writes the base64 of its bytes with every zero byte
    left out. */
module ParsersBitfield {
  import opened Js
  import opened Bits
  import Base64

  /** The number of bytes the constructor allocates. */
  const InitialSize: nat := 30

  /** The bytes padded with zeros to at least `len` bytes
      (`data.concat(new Array(diff).fill(0))` when `diff > 0`). */
  function Grown(bytes: seq<bv8>, len: nat): (r: seq<bv8>)
    ensures |r| == if len > |bytes| then len else |bytes|
    ensures r[..|bytes|] == bytes
    ensures forall k :: |bytes| <= k < |r| ==> r[k] == 0
  {
    if len > |bytes| then bytes + seq(len - |bytes|, _ => 0 as bv8) else bytes
  }

  /** Growing adds no code. */
  lemma GrownKeepsCodes(bytes: seq<bv8>, len: nat, m: nat)
    ensures HasBit(Grown(bytes, len), m) <==> HasBit(bytes, m)
  {
    var r := Grown(bytes, len);
    if m / 8 < |bytes| {
      assert r[m / 8] == r[..|bytes|][m / 8];
    } else if m / 8 < |r| {
      assert r[m / 8] == 0;
    }
  }

  /** What `set(n)` does to the bytes: grow to hold byte `n / 8`, then switch on `n`. */
  function SetGrowing(bytes: seq<bv8>, n: nat): (r: seq<bv8>)
    ensures |r| >= n / 8 + 1 && |r| >= |bytes|
  {
    SetBit(Grown(bytes, n / 8 + 1), n)
  }

  /** After `set(n)` exactly the codes that were on, plus `n`, are on. */
  lemma SetGrowingHas(bytes: seq<bv8>, n: nat, m: nat)
    ensures HasBit(SetGrowing(bytes, n), m) <==> HasBit(bytes, m) || m == n
  {
    SetBitHas(Grown(bytes, n / 8 + 1), n, m);
    GrownKeepsCodes(bytes, n / 8 + 1, m);
  }

  /** Setting a code twice is setting it once. */
  lemma SetGrowingIdempotent(bytes: seq<bv8>, n: nat)
    ensures SetGrowing(SetGrowing(bytes, n), n) == SetGrowing(bytes, n)
  {
    var once := SetGrowing(bytes, n);
    forall m: nat ensures HasBit(SetGrowing(once, n), m) <==> HasBit(once, m) {
      SetGrowingHas(once, n, m);
      SetGrowingHas(bytes, n, m);
    }
    SameBitsEqual(SetGrowing(once, n), once);
  }

  /** The order in which two codes are set does not matter, growth included. */
  lemma SetGrowingCommutes(bytes: seq<bv8>, n: nat, p: nat)
    ensures SetGrowing(SetGrowing(bytes, n), p) == SetGrowing(SetGrowing(bytes, p), n)
  {
    var np, pn := SetGrowing(SetGrowing(bytes, n), p), SetGrowing(SetGrowing(bytes, p), n);
    forall m: nat ensures HasBit(np, m) <==> HasBit(pn, m) {
      SetGrowingHas(bytes, n, m);
      SetGrowingHas(bytes, p, m);
      SetGrowingHas(SetGrowing(bytes, n), p, m);
      SetGrowingHas(SetGrowing(bytes, p), n, m);
    }
    SameBitsEqual(np, pn);
  }

  /** The bytes with every zero byte left out (`.filter(c => c !== '\x00')`). */
  function NonZero(bytes: seq<bv8>): (r: seq<bv8>)
    ensures forall k :: 0 <= k < |r| ==> r[k] != 0
    ensures |r| <= |bytes|
    decreases |bytes|
  {
    if bytes == [] then []
    else (if bytes[0] == 0 then [] else [bytes[0]]) + NonZero(bytes[1..])
  }

  /** Filtering distributes over concatenation. */
  lemma {:induction false} NonZeroAppend(a: seq<bv8>, b: seq<bv8>)
    ensures NonZero(a + b) == NonZero(a) + NonZero(b)
    decreases |a|
  {
    if a != [] {
      NonZeroAppend(a[1..], b);
      assert (a + b)[1..] == a[1..] + b;
    } else {
      assert a + b == b;
    }
  }

  /** Bytes without a zero byte pass unchanged. */
  lemma {:induction false} NonZeroKeepsNonZero(bytes: seq<bv8>)
    requires forall k :: 0 <= k < |bytes| ==> bytes[k] != 0
    ensures NonZero(bytes) == bytes
    decreases |bytes|
  {
    if bytes != [] {
      NonZeroKeepsNonZero(bytes[1..]);
      assert bytes == [bytes[0]] + bytes[1..];
    }
  }

  /** A zero byte is dropped, so the result is shorter. */
  lemma {:induction false} NonZeroDropsZero(bytes: seq<bv8>, k: nat)
    requires k < |bytes| && bytes[k] == 0
    ensures |NonZero(bytes)| < |bytes|
    decreases |bytes|
  {
    if k > 0 {
      NonZeroDropsZero(bytes[1..], k - 1);
    }
  }

  /** Only zeros: nothing is left. */
  lemma {:induction false} NonZeroOfZeros(bytes: seq<bv8>)
    requires forall k :: 0 <= k < |bytes| ==> bytes[k] == 0
    ensures NonZero(bytes) == []
    decreases |bytes|
  {
    if bytes != [] {
      NonZeroOfZeros(bytes[1..]);
    }
  }

  /** The text `toBase64` returns for the bytes `data` (`btoa` reads each
      character code below 256 as one byte). */
  function Encoded(data: seq<bv8>): string {
    Base64.Encode(NonZero(data))
  }

  /** The text never encodes a zero byte, and carries the non-zero bytes in order. */
  lemma EncodedCarriesNonZeroBytes(data: seq<bv8>)
    ensures Base64.Decode(Encoded(data)) == Some(NonZero(data))
    ensures forall k :: 0 <= k < |NonZero(data)| ==> NonZero(data)[k] != 0
  {
    Base64.DecodeEncode(NonZero(data));
  }

  /** Filtering agrees with trimming, so the text is the one phpBB stores,
      exactly while no zero byte sits before the last non-zero byte. */
  lemma EncodedIsPhpbbIffNoInteriorZero(data: seq<bv8>)
    ensures Encoded(data) == PhpbbText(data)
        <==> forall k :: 0 <= k < |TrimTrailingZeros(data)| ==> TrimTrailingZeros(data)[k] != 0
  {
    var t := TrimTrailingZeros(data);
    var tail := data[|t|..];
    assert data == t + tail;
    NonZeroAppend(t, tail);
    NonZeroOfZeros(tail);
    assert NonZero(data) == NonZero(t);
    Base64.EncodeInjective(NonZero(t), t);
    if forall k :: 0 <= k < |t| ==> t[k] != 0 {
      NonZeroKeepsNonZero(t);
    } else {
      var k :| 0 <= k < |t| && t[k] == 0;
      NonZeroDropsZero(t, k);
      assert NonZero(t) != t;
      assert Encoded(data) != PhpbbText(data);
      assert TrimTrailingZeros(data)[k] == 0;
    }
  }

  /** The thirty-byte layouts of the codes {0, 1, 2, 8} and {8}. */
  lemma SmallLayouts()
    ensures Layout({0, 1, 2, 8}, InitialSize) == [0xE0, 0x80] + seq(InitialSize - 2, _ => 0 as bv8)
    ensures Layout({8}, InitialSize) == [0x00, 0x80] + seq(InitialSize - 2, _ => 0 as bv8)
  {
    var zeros := seq(InitialSize - 2, _ => 0 as bv8);
    forall i | 0 <= i < InitialSize
      ensures ByteOf({0, 1, 2, 8}, i) == ([0xE0, 0x80] + zeros)[i]
      ensures ByteOf({8}, i) == ([0x00, 0x80] + zeros)[i]
    {
      if i > 1 {
        assert 8 * i >= 16;
      }
    }
  }

  /** The text of two non-trailing bytes followed by zeros is that of their non-zero ones. */
  lemma EncodedOfPair(a: bv8, b: bv8)
    ensures Encoded([a, b] + seq(InitialSize - 2, _ => 0 as bv8)) == Base64.Encode(NonZero([a, b]))
  {
    NonZeroAppend([a, b], seq(InitialSize - 2, _ => 0 as bv8));
    NonZeroOfZeros(seq(InitialSize - 2, _ => 0 as bv8));
  }

  /** Codes 0, 1, 2 and 8 make the bytes E0 80, written `4IA=`. */
  lemma QuoteBoldItalicCodeText()
    ensures Encoded(Layout({0, 1, 2, 8}, InitialSize)) == "4IA="
  {
    SmallLayouts();
    EncodedOfPair(0xE0, 0x80);
    NonZeroKeepsNonZero([0xE0, 0x80]);
  }

  /** Code 8 alone makes the bytes 00 80. The zero byte is dropped, so the text
      is `gA==` (the byte 80 alone) where phpBB stores `AIA=`. */
  lemma CodeOnlyText()
    ensures Encoded(Layout({8}, InitialSize)) == "gA=="
    ensures PhpbbText(Layout({8}, InitialSize)) == "AIA="
  {
    SmallLayouts();
    EncodedOfPair(0x00, 0x80);
    assert NonZero([0x00, 0x80]) == [0x80] by {
      assert [0x00 as bv8, 0x80][1..] == [0x80];
    }
    TrimStopsAtNonZero([0x00, 0x80] + seq(InitialSize - 2, _ => 0 as bv8), 2);
  }

  /** The growing bitfield. */
  class Bitfield {
    var data: seq<bv8>

    /** Thirty zero bytes. */
    constructor ()
      ensures data == seq(InitialSize, _ => 0 as bv8)
    {
      data := seq(InitialSize, _ => 0 as bv8);
    }

    /** Grows the bytes to hold byte `n / 8` if needed, then switches on code `n`. */
    method Set(n: nat)
      modifies this
      ensures data == SetGrowing(old(data), n)
    {
      var i := n / 8;
      var d := n % 8;
      var diff := i + 1 - |data|;
      if diff > 0 {
        data := data + seq(diff, _ => 0 as bv8);
      }
      data := data[i := data[i] | Mask(d)];
    }

    /** The bitfield text of the current bytes: the base64 of exactly the
        non-zero ones. */
    function ToBase64(): (r: string)
      reads this
      ensures Base64.Decode(r) == Some(NonZero(data))
    {
      EncodedCarriesNonZeroBytes(data);
      Encoded(data)
    }
  }
}
