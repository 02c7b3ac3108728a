/** The phpBB bbcode bitfield layout shared by both bitfield classes: code `n`
    lives in byte `n / 8`, at bit `7 - n % 8` counted from the least significant
    bit, so code 0 is the top bit of the first byte. */
module Bits {
  import Base64

  /** `1 << (7 - d)` for a bit position `d` inside a byte. */
  function Mask(d: nat): (m: bv8)
    requires d < 8
  {
    (1 as bv8) << (7 - d)
  }

  /** The byte array with code `n` switched on: `data[i] |= 1 << (7 - d)`. */
  function SetBit(bytes: seq<bv8>, n: nat): (r: seq<bv8>)
    requires n / 8 < |bytes|
    ensures |r| == |bytes|
  {
    bytes[n / 8 := bytes[n / 8] | Mask(n % 8)]
  }

  /** Whether code `m` is switched on in `bytes`. */
  predicate HasBit(bytes: seq<bv8>, m: nat) {
    m / 8 < |bytes| && bytes[m / 8] & Mask(m % 8) != 0
  }

  /** OR-ing in one mask switches on that bit and leaves the other seven. */
  lemma MaskOr(x: bv8, d: nat, e: nat)
    requires d < 8 && e < 8
    ensures (x | Mask(d)) & Mask(e) != 0 <==> x & Mask(e) != 0 || d == e
  {
  }

  /** After `SetBit(bytes, n)` exactly the codes that were on, plus `n`, are on. */
  lemma SetBitHas(bytes: seq<bv8>, n: nat, m: nat)
    requires n / 8 < |bytes|
    ensures HasBit(SetBit(bytes, n), m) <==> HasBit(bytes, m) || m == n
  {
    if m / 8 < |bytes| {
      MaskOr(bytes[m / 8], n % 8, m % 8);
      if m / 8 == n / 8 {
        assert m == n <==> m % 8 == n % 8;
      }
    }
  }

  /** `bytes` switches on exactly the codes in `codes`. */
  ghost predicate Encodes(bytes: seq<bv8>, codes: set<nat>) {
    && (forall m :: m in codes ==> m / 8 < |bytes|)
    && (forall m :: HasBit(bytes, m) <==> m in codes)
  }

  /** The byte at index `i` of the layout of `codes`. */
  function ByteOf(codes: set<nat>, i: nat): bv8 {
    (if 8 * i + 0 in codes then Mask(0) else 0)
    | (if 8 * i + 1 in codes then Mask(1) else 0)
    | (if 8 * i + 2 in codes then Mask(2) else 0)
    | (if 8 * i + 3 in codes then Mask(3) else 0)
    | (if 8 * i + 4 in codes then Mask(4) else 0)
    | (if 8 * i + 5 in codes then Mask(5) else 0)
    | (if 8 * i + 6 in codes then Mask(6) else 0)
    | (if 8 * i + 7 in codes then Mask(7) else 0)
  }

  /** The `len`-byte layout of `codes`, independent of any order of setting. */
  function Layout(codes: set<nat>, len: nat): (r: seq<bv8>)
    ensures |r| == len
  {
    seq(len, i requires 0 <= i => ByteOf(codes, i))
  }

  /** Bit `d` of `ByteOf(codes, i)` is on exactly when code `8 * i + d` is in `codes`. */
  lemma ByteOfBit(codes: set<nat>, i: nat, d: nat)
    requires d < 8
    ensures ByteOf(codes, i) & Mask(d) != 0 <==> 8 * i + d in codes
  {
    var b0, b1, b2, b3 := 8 * i + 0 in codes, 8 * i + 1 in codes, 8 * i + 2 in codes, 8 * i + 3 in codes;
    var b4, b5, b6, b7 := 8 * i + 4 in codes, 8 * i + 5 in codes, 8 * i + 6 in codes, 8 * i + 7 in codes;
    if d == 0 { assert 8 * i + d == 8 * i + 0; }
    else if d == 1 { assert 8 * i + d == 8 * i + 1; }
    else if d == 2 { assert 8 * i + d == 8 * i + 2; }
    else if d == 3 { assert 8 * i + d == 8 * i + 3; }
    else if d == 4 { assert 8 * i + d == 8 * i + 4; }
    else if d == 5 { assert 8 * i + d == 8 * i + 5; }
    else if d == 6 { assert 8 * i + d == 8 * i + 6; }
    else { assert 8 * i + d == 8 * i + 7; }
  }

  /** The layout switches on exactly the codes below `8 * len`. */
  lemma LayoutEncodes(codes: set<nat>, len: nat)
    requires forall m :: m in codes ==> m / 8 < len
    ensures Encodes(Layout(codes, len), codes)
  {
    var bytes := Layout(codes, len);
    forall m: nat ensures HasBit(bytes, m) <==> m in codes {
      if m / 8 < len {
        ByteOfBit(codes, m / 8, m % 8);
        assert 8 * (m / 8) + m % 8 == m;
      }
    }
  }

  /** Two bytes that agree on all eight bits are equal. */
  lemma ByteFromBits(x: bv8, y: bv8)
    requires forall d :: 0 <= d < 8 ==> (x & Mask(d) != 0 <==> y & Mask(d) != 0)
    ensures x == y
  {
    assert x & Mask(0) != 0 <==> y & Mask(0) != 0;
    assert x & Mask(1) != 0 <==> y & Mask(1) != 0;
    assert x & Mask(2) != 0 <==> y & Mask(2) != 0;
    assert x & Mask(3) != 0 <==> y & Mask(3) != 0;
    assert x & Mask(4) != 0 <==> y & Mask(4) != 0;
    assert x & Mask(5) != 0 <==> y & Mask(5) != 0;
    assert x & Mask(6) != 0 <==> y & Mask(6) != 0;
    assert x & Mask(7) != 0 <==> y & Mask(7) != 0;
  }

  /** Two byte arrays of one length that switch on the same codes are equal. */
  lemma SameBitsEqual(a: seq<bv8>, b: seq<bv8>)
    requires |a| == |b|
    requires forall m: nat :: HasBit(a, m) <==> HasBit(b, m)
    ensures a == b
  {
    forall i | 0 <= i < |a| ensures a[i] == b[i] {
      forall d | 0 <= d < 8 ensures a[i] & Mask(d) != 0 <==> b[i] & Mask(d) != 0 {
        var m := 8 * i + d;
        assert m / 8 == i && m % 8 == d;
        assert HasBit(a, m) <==> HasBit(b, m);
      }
      ByteFromBits(a[i], b[i]);
    }
  }

  /** A byte array is determined by its length and the set of codes it switches on. */
  lemma EncodesUnique(a: seq<bv8>, b: seq<bv8>, codes: set<nat>)
    requires |a| == |b| && Encodes(a, codes) && Encodes(b, codes)
    ensures a == b
  {
    SameBitsEqual(a, b);
  }

  /** Setting a code twice is setting it once. */
  lemma SetBitIdempotent(bytes: seq<bv8>, n: nat)
    requires n / 8 < |bytes|
    ensures SetBit(SetBit(bytes, n), n) == SetBit(bytes, n)
  {
    forall m: nat ensures HasBit(SetBit(SetBit(bytes, n), n), m) <==> HasBit(SetBit(bytes, n), m) {
      SetBitHas(SetBit(bytes, n), n, m);
    }
    SameBitsEqual(SetBit(SetBit(bytes, n), n), SetBit(bytes, n));
  }

  /** The order in which two codes are set does not matter. */
  lemma SetBitCommutes(bytes: seq<bv8>, n: nat, p: nat)
    requires n / 8 < |bytes| && p / 8 < |bytes|
    ensures SetBit(SetBit(bytes, n), p) == SetBit(SetBit(bytes, p), n)
  {
    forall m: nat ensures HasBit(SetBit(SetBit(bytes, n), p), m) <==> HasBit(SetBit(SetBit(bytes, p), n), m) {
      SetBitHas(bytes, n, m);
      SetBitHas(bytes, p, m);
      SetBitHas(SetBit(bytes, n), p, m);
      SetBitHas(SetBit(bytes, p), n, m);
    }
    SameBitsEqual(SetBit(SetBit(bytes, n), p), SetBit(SetBit(bytes, p), n));
  }

  /** Setting a code keeps `Encodes` in step with adding it to the set. */
  lemma SetBitEncodes(bytes: seq<bv8>, codes: set<nat>, n: nat)
    requires n / 8 < |bytes| && Encodes(bytes, codes)
    ensures Encodes(SetBit(bytes, n), codes + {n})
  {
    forall m: nat ensures HasBit(SetBit(bytes, n), m) <==> m in codes + {n} {
      SetBitHas(bytes, n, m);
    }
  }

  /** An all-zero array switches on no code. */
  lemma ZerosEncodeNothing(len: nat)
    ensures Encodes(seq(len, _ => 0 as bv8), {})
  {
    var z := seq(len, _ => 0 as bv8);
    forall m: nat ensures !HasBit(z, m) {
      if m / 8 < len {
        assert z[m / 8] == 0;
      }
    }
  }

  /** The bytes without their trailing zero bytes (`.replace(/\0+$/, '')`,
      PHP's `rtrim($s, "\0")`). */
  function TrimTrailingZeros(bytes: seq<bv8>): (r: seq<bv8>)
    ensures |r| <= |bytes| && r == bytes[..|r|]
    ensures r == [] || r[|r| - 1] != 0
    ensures forall k :: |r| <= k < |bytes| ==> bytes[k] == 0
    decreases |bytes|
  {
    if bytes == [] || bytes[|bytes| - 1] != 0 then bytes
    else TrimTrailingZeros(bytes[..|bytes| - 1])
  }

  /** The bitfield text phpBB stores for a byte array: the base64 of the bytes
      with the trailing zero bytes removed. Both bitfield classes are measured
      against it. */
  function PhpbbText(bytes: seq<bv8>): string {
    Base64.Encode(TrimTrailingZeros(bytes))
  }

  /** Trailing zero bytes switch on no code, so trimming them keeps the codes. */
  lemma TrimKeepsCodes(bytes: seq<bv8>, m: nat)
    ensures HasBit(TrimTrailingZeros(bytes), m) <==> HasBit(bytes, m)
  {
    var r := TrimTrailingZeros(bytes);
    if m / 8 < |bytes| && |r| <= m / 8 {
      assert bytes[m / 8] == 0;
    }
  }

  /** Trimming stops at the last non-zero byte: zeros after a prefix ending in a
      non-zero byte are all removed. */
  lemma {:induction false} TrimStopsAtNonZero(bytes: seq<bv8>, n: nat)
    requires 0 < n <= |bytes| && bytes[n - 1] != 0
    requires forall k :: n <= k < |bytes| ==> bytes[k] == 0
    ensures TrimTrailingZeros(bytes) == bytes[..n]
    decreases |bytes|
  {
    if |bytes| > n {
      assert bytes[..|bytes| - 1][..n] == bytes[..n];
      TrimStopsAtNonZero(bytes[..|bytes| - 1], n);
    }
  }
}
