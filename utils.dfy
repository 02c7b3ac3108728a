/** `cleanUsername`, the key under which users are registered: the name in
    lower case. Case mapping is modelled on the ASCII letters; every other
    character is kept. */
module Utils {

  predicate IsUpper(c: char) { 'A' <= c <= 'Z' }

  /** The lower-case form of one character. */
  function LowerChar(c: char): (r: char)
    ensures !IsUpper(r)
    ensures IsUpper(c) ==> r as int == c as int + 32
    ensures !IsUpper(c) ==> r == c
  {
    if IsUpper(c) then (c as int + 32) as char else c
  }

  /** `cleanUsername`: `str.toLowerCase()`. The key has the name's length,
      holds no upper-case letter, and differs from the name only where the
      name has an upper-case letter. */
  function CleanUsername(s: string): (r: string)
    ensures |r| == |s|
    ensures forall k :: 0 <= k < |r| ==> !IsUpper(r[k])
    ensures forall k :: 0 <= k < |r| ==> (r[k] == s[k] <==> !IsUpper(s[k]))
  {
    seq(|s|, k requires 0 <= k < |s| => LowerChar(s[k]))
  }

  /** Cleaning a key again changes nothing. */
  lemma CleanIdempotent(s: string)
    ensures CleanUsername(CleanUsername(s)) == CleanUsername(s)
  {
    var r := CleanUsername(s);
    forall k | 0 <= k < |r| ensures CleanUsername(r)[k] == r[k] {
      assert !IsUpper(r[k]);
    }
  }

  /** Two characters that are the same letter in either case, or the same
      character. */
  predicate SameLetter(c: char, d: char) {
    || c == d
    || ('a' <= c <= 'z' && d as int == c as int - 32)
    || ('a' <= d <= 'z' && c as int == d as int - 32)
  }

  /** Two names that differ only in the case of their letters. */
  predicate SameIgnoringCase(a: string, b: string) {
    |a| == |b| && forall k :: 0 <= k < |a| ==> SameLetter(a[k], b[k])
  }

  /** Two names have the same key exactly when they differ only in letter
      case. */
  lemma CleanIffSameIgnoringCase(a: string, b: string)
    ensures CleanUsername(a) == CleanUsername(b) <==> SameIgnoringCase(a, b)
  {
    if CleanUsername(a) == CleanUsername(b) {
      forall k | 0 <= k < |a| ensures SameLetter(a[k], b[k]) {
        assert LowerChar(a[k]) == CleanUsername(a)[k] == CleanUsername(b)[k] == LowerChar(b[k]);
      }
    }
    if SameIgnoringCase(a, b) {
      forall k | 0 <= k < |a| ensures CleanUsername(a)[k] == CleanUsername(b)[k] {
        assert SameLetter(a[k], b[k]);
      }
    }
  }
}
