/** String operations with the meaning JavaScript gives them (`indexOf`, `split`,
    `join`, `replace` with a string pattern, `slice`, `trim`), on strings as
    sequences of characters. */
module Text {

  /** `pat` occurs in `s` starting at index `j`. */
  predicate OccursAt(s: string, pat: string, j: int) {
    0 <= j && j + |pat| <= |s| && s[j..j + |pat|] == pat
  }

  /** `s.indexOf(pat)`: the first index at which `pat` occurs, or -1. */
  function IndexOf(s: string, pat: string): (i: int)
    ensures -1 <= i <= |s|
    ensures i >= 0 ==> OccursAt(s, pat, i)
    ensures i >= 0 ==> forall j :: 0 <= j < i ==> !OccursAt(s, pat, j)
    ensures i < 0 ==> forall j :: !OccursAt(s, pat, j)
    decreases |s|
  {
    if |pat| > |s| then -1
    else if s[..|pat|] == pat then 0
    else
      var r := IndexOf(s[1..], pat);
      assert forall j :: j >= 1 ==> (OccursAt(s, pat, j) <==> OccursAt(s[1..], pat, j - 1)) by {
        forall j | j >= 1 ensures OccursAt(s, pat, j) <==> OccursAt(s[1..], pat, j - 1) {
          if j + |pat| <= |s| {
            assert s[1..][j - 1..j - 1 + |pat|] == s[j..j + |pat|];
          }
        }
      }
      if r < 0 then -1 else r + 1
  }

  /** `s.includes(pat)`, written in the source as `s.indexOf(pat) > -1`. */
  predicate Contains(s: string, pat: string) {
    IndexOf(s, pat) >= 0
  }

  /** `s.split(sep)` for a non-empty separator. */
  function Split(s: string, sep: string): (parts: seq<string>)
    requires sep != ""
    ensures |parts| >= 1
    decreases |s|
  {
    var i := IndexOf(s, sep);
    if i < 0 then [s] else [s[..i]] + Split(s[i + |sep|..], sep)
  }

  /** `parts.join(sep)`. */
  function Join(parts: seq<string>, sep: string): string
    decreases |parts|
  {
    if |parts| == 0 then ""
    else if |parts| == 1 then parts[0]
    else parts[0] + sep + Join(parts[1..], sep)
  }

  /** The last element of a non-empty sequence (`array.pop()` of a split result). */
  function Last<T>(xs: seq<T>): T
    requires |xs| > 0
  {
    xs[|xs| - 1]
  }

  /** Splitting and joining again with the same separator gives the string back. */
  lemma {:induction false} JoinSplit(s: string, sep: string)
    requires sep != ""
    ensures Join(Split(s, sep), sep) == s
    decreases |s|
  {
    if IndexOf(s, sep) < 0 {
      JoinSplitNone(s, sep);
    } else {
      var rest := AfterFirst(s, sep);
      JoinSplit(rest, sep);
      JoinSplitStep(s, sep, rest);
    }
  }

  /** A text without the separator is one piece, which joins back to it. */
  lemma JoinSplitNone(s: string, sep: string)
    requires sep != "" && IndexOf(s, sep) < 0
    ensures Join(Split(s, sep), sep) == s
  {
    assert Split(s, sep) == [s];
  }

  /** One step of `JoinSplit`: if the text after the first separator comes back,
      so does the whole text. */
  lemma JoinSplitStep(s: string, sep: string, rest: string)
    requires sep != "" && IndexOf(s, sep) >= 0 && rest == AfterFirst(s, sep)
    requires Join(Split(rest, sep), sep) == rest
    ensures Join(Split(s, sep), sep) == s
  {
    var i := IndexOf(s, sep);
    var parts := Split(rest, sep);
    SplitAtFirst(s, sep);
    JoinCons(s[..i], parts, sep);
    AroundOccurrence(s, sep, i);
  }

  /** Joining a piece in front of at least one more piece puts a separator
      between it and the join of the rest. */
  lemma JoinCons(p: string, parts: seq<string>, sep: string)
    requires |parts| >= 1
    ensures Join([p] + parts, sep) == p + sep + Join(parts, sep)
  {
    assert ([p] + parts)[1..] == parts;
  }

  /** A string is the text before an occurrence, the occurrence and the text
      after it. */
  lemma AroundOccurrence(s: string, pat: string, i: int)
    requires OccursAt(s, pat, i)
    ensures s == s[..i] + pat + s[i + |pat|..]
  {
    assert s == s[..i] + s[i..i + |pat|] + s[i + |pat|..];
  }

  /** The pieces of a split never contain the separator. */
  lemma {:induction false} SplitPiecesAvoidSep(s: string, sep: string)
    requires sep != ""
    ensures forall k :: 0 <= k < |Split(s, sep)| ==> !Contains(Split(s, sep)[k], sep)
    decreases |s|
  {
    var i := IndexOf(s, sep);
    if i >= 0 {
      SplitPiecesAvoidSep(s[i + |sep|..], sep);
      PrefixBeforeFirstAvoidsSep(s, sep);
    }
  }

  /** The text before the first occurrence of `sep` does not contain it. */
  lemma PrefixBeforeFirstAvoidsSep(s: string, sep: string)
    requires sep != "" && IndexOf(s, sep) >= 0
    ensures !Contains(s[..IndexOf(s, sep)], sep)
  {
    var i := IndexOf(s, sep);
    var head := s[..i];
    forall j ensures !OccursAt(head, sep, j) {
      if 0 <= j && j + |sep| <= |head| {
        assert j < i;
        assert !OccursAt(s, sep, j);
        assert head[j..j + |sep|] == s[j..j + |sep|];
      }
    }
  }

  /** `Join(Split(s, sep)[1..], sep)`: everything after the first separator, or
      the empty string when the separator does not occur. */
  function AfterFirst(s: string, sep: string): (r: string)
    requires sep != ""
    ensures IndexOf(s, sep) < 0 ==> r == ""
    ensures IndexOf(s, sep) >= 0 ==> s == s[..IndexOf(s, sep)] + sep + r
  {
    var i := IndexOf(s, sep);
    if i < 0 then "" else s[i + |sep|..]
  }

  /** `s.split(sep).slice(1).join(sep)` is the text after the first separator. */
  lemma {:induction false} JoinTailOfSplit(s: string, sep: string)
    requires sep != ""
    ensures Join(Split(s, sep)[1..], sep) == AfterFirst(s, sep)
  {
    var i := IndexOf(s, sep);
    if i >= 0 {
      var rest := s[i + |sep|..];
      assert Split(s, sep)[1..] == Split(rest, sep);
      JoinSplit(rest, sep);
    }
  }

  /** A single-character separator that no part contains: splitting the join
      gives the parts back. */
  lemma {:induction false} SplitJoin(parts: seq<string>, sep: string)
    requires |parts| >= 1 && sep != ""
    requires forall k :: 0 <= k < |parts| ==> sep[0] !in parts[k]
    ensures Split(Join(parts, sep), sep) == parts
    decreases |parts|
  {
    var s := Join(parts, sep);
    var p := parts[0];
    if |parts| == 1 {
      NoOccurrenceWithoutFirstChar(p, sep);
    } else {
      var rest := Join(parts[1..], sep);
      assert s == p + sep + rest;
      FirstOccurrenceAfterPrefix(p, sep, rest);
      assert s[|p| + |sep|..] == rest;
      assert s[..|p|] == p;
      SplitJoin(parts[1..], sep);
    }
  }

  lemma NoOccurrenceWithoutFirstChar(p: string, sep: string)
    requires sep != "" && sep[0] !in p
    ensures IndexOf(p, sep) < 0
  {
    forall j ensures !OccursAt(p, sep, j) {
      if 0 <= j && j + |sep| <= |p| {
        assert p[j..j + |sep|][0] == p[j];
      }
    }
  }

  lemma FirstOccurrenceAfterPrefix(p: string, sep: string, rest: string)
    requires sep != "" && sep[0] !in p
    ensures IndexOf(p + sep + rest, sep) == |p|
  {
    var s := p + sep + rest;
    assert s[|p|..|p| + |sep|] == sep;
    assert OccursAt(s, sep, |p|);
    forall j | 0 <= j < |p| ensures !OccursAt(s, sep, j) {
      if j + |sep| <= |s| {
        assert s[j..j + |sep|][0] == s[j] == p[j];
      }
    }
  }

  /** A first occurrence stays first when text is appended. */
  lemma IndexOfAppend(a: string, pat: string, x: string)
    requires IndexOf(a, pat) >= 0
    ensures IndexOf(a + x, pat) == IndexOf(a, pat)
  {
    var i := IndexOf(a, pat);
    var s := a + x;
    assert s[i..i + |pat|] == a[i..i + |pat|];
    assert OccursAt(s, pat, i);
    forall j | 0 <= j < i ensures !OccursAt(s, pat, j) {
      assert !OccursAt(a, pat, j);
      assert s[j..j + |pat|] == a[j..j + |pat|];
    }
  }

  /** Splitting at the first occurrence of the separator. */
  lemma SplitAtFirst(s: string, sep: string)
    requires sep != "" && IndexOf(s, sep) >= 0
    ensures Split(s, sep) == [s[..IndexOf(s, sep)]] + Split(s[IndexOf(s, sep) + |sep|..], sep)
  {
  }

  /** Splitting around the first occurrence of a character that `a` lacks. */
  lemma SplitAroundFirst(a: string, c: char, b: string)
    requires c !in a
    ensures Split(a + [c] + b, [c]) == [a] + Split(b, [c])
    ensures Split(a, [c]) == [a]
  {
    var s := a + [c] + b;
    FirstOccurrenceAfterPrefix(a, [c], b);
    NoOccurrenceWithoutFirstChar(a, [c]);
    SplitAtFirst(s, [c]);
    assert s[..|a|] == a;
    assert s[|a| + 1..] == b;
  }

  /** Splitting on one character around an occurrence of it splits each side. */
  lemma {:induction false} SplitAround(a: string, c: char, b: string)
    ensures Split(a + [c] + b, [c]) == Split(a, [c]) + Split(b, [c])
    decreases |a|
  {
    CharNotContained(a, c);
    if c !in a {
      SplitAroundFirst(a, c, b);
    } else {
      var s := a + [c] + b;
      var i := IndexOf(a, [c]);
      var rest := a[i + 1..];
      IndexOfAppend(a, [c], [c] + b);
      assert a + ([c] + b) == s;
      assert IndexOf(s, [c]) == i;
      assert s[..i] == a[..i];
      assert s[i + 1..] == rest + [c] + b;
      calc {
        Split(s, [c]);
        { SplitAtFirst(s, [c]); }
        [a[..i]] + Split(rest + [c] + b, [c]);
        { SplitAround(rest, c, b); }
        [a[..i]] + (Split(rest, [c]) + Split(b, [c]));
        { SplitAtFirst(a, [c]); }
        Split(a, [c]) + Split(b, [c]);
      }
    }
  }

  /** The last piece of a split on a single character is the suffix after the
      last occurrence of that character (the whole string when it is absent). */
  lemma {:induction false} LastPieceIsSuffix(s: string, c: char)
    ensures var last := Last(Split(s, [c]));
      && c !in last
      && |last| <= |s|
      && s[|s| - |last|..] == last
      && (|last| < |s| ==> s[|s| - |last| - 1] == c)
      && (|last| == |s| <==> c !in s)
    decreases |s|
  {
    var i := IndexOf(s, [c]);
    CharNotContained(s, c);
    if i >= 0 {
      var rest := s[i + 1..];
      LastPieceStep(s, [c]);
      FirstChar(s, c);
      LastPieceIsSuffix(rest, c);
      var last := Last(Split(rest, [c]));
      assert Last(Split(s, [c])) == last;
      SuffixOfRest(s, i, last, c);
      assert c in s by { assert s[i] == c; }
      assert |last| < |s|;
    } else {
      assert Split(s, [c]) == [s];
    }
  }

  /** A suffix of the text after index `i`, where `c` stands, is a suffix of the
      whole text, and is preceded by `c`. */
  lemma SuffixOfRest(s: string, i: int, last: string, c: char)
    requires 0 <= i < |s| && s[i] == c
    requires |last| <= |s| - i - 1 && s[i + 1..][|s| - i - 1 - |last|..] == last
    requires |last| < |s| - i - 1 ==> s[i + 1..][|s| - i - 1 - |last| - 1] == c
    ensures |last| < |s| && s[|s| - |last|..] == last && s[|s| - |last| - 1] == c
  {
    var rest := s[i + 1..];
    var n := |s| - |last|;
    assert |rest| - |last| == n - i - 1;
    forall k | 0 <= k < |last| ensures s[n + k] == last[k] {
      assert rest[n - i - 1 + k] == last[k];
    }
    if |last| < |rest| {
      assert rest[n - i - 2] == c;
    }
  }

  /** The last piece is that of the text after the first occurrence. */
  lemma LastPieceStep(s: string, sep: string)
    requires sep != "" && IndexOf(s, sep) >= 0
    ensures Last(Split(s, sep)) == Last(Split(s[IndexOf(s, sep) + |sep|..], sep))
  {
    SplitAtFirst(s, sep);
    LastOfAppend([s[..IndexOf(s, sep)]], Split(s[IndexOf(s, sep) + |sep|..], sep));
  }

  /** The last element of a concatenation is that of its non-empty second part. */
  lemma LastOfAppend<T>(a: seq<T>, b: seq<T>)
    requires |b| > 0
    ensures Last(a + b) == Last(b)
  {
  }

  /** For one character, "does not occur" and "is not an element" agree. */
  lemma CharNotContained(s: string, c: char)
    ensures !Contains(s, [c]) <==> c !in s
  {
    forall j | 0 <= j < |s| ensures OccursAt(s, [c], j) <==> s[j] == c {
      assert s[j..j + 1] == [s[j]];
    }
  }

  /** `s.replace(pat, rep)` with a string pattern: only the first occurrence is
      replaced. */
  function ReplaceFirst(s: string, pat: string, rep: string): (r: string)
  {
    var i := IndexOf(s, pat);
    if i < 0 then s else s[..i] + rep + s[i + |pat|..]
  }

  /** A replacement leaves the text before the first occurrence alone, writes
      `rep` there, and leaves everything after that occurrence alone, later
      occurrences included. */
  lemma ReplaceFirstOnlyFirst(s: string, pat: string, rep: string)
    ensures var i := IndexOf(s, pat);
      && (i < 0 ==> ReplaceFirst(s, pat, rep) == s)
      && (i >= 0 ==>
            && ReplaceFirst(s, pat, rep)[..i] == s[..i]
            && ReplaceFirst(s, pat, rep)[i..i + |rep|] == rep
            && ReplaceFirst(s, pat, rep)[i + |rep|..] == s[i + |pat|..]
            && forall j :: 0 <= j < i ==> !OccursAt(s, pat, j))
  {
  }

  /** `s.slice(from)` for a non-negative `from`. */
  function SliceFrom(s: string, from: nat): string {
    if from >= |s| then "" else s[from..]
  }

  /** `s.slice(0, -k)` for `k > 0`: drops the last `k` characters. */
  function DropLast(s: string, k: nat): (r: string)
    ensures |r| == if |s| >= k then |s| - k else 0
    ensures r == s[..|r|]
  {
    if |s| >= k then s[..|s| - k] else ""
  }

  /** `s.slice(0, k)` for `k >= 0`: the first `k` characters, or all of them. */
  function Take(s: string, k: nat): string {
    if |s| <= k then s else s[..k]
  }

  /** `s.endsWith(t)`, written in the source as `s.slice(-t.length) === t`. */
  predicate EndsWith(s: string, t: string) {
    |t| <= |s| && s[|s| - |t|..] == t
  }

  /** `s.startsWith(t)`. */
  predicate StartsWith(s: string, t: string) {
    |t| <= |s| && s[..|t|] == t
  }

  /** The characters `String.prototype.trim` removes: the ECMAScript
      WhiteSpace and LineTerminator code points. */
  predicate IsSpace(c: char) {
    || c == '\t' || c == '\n' || c == '\U{000B}' || c == '\U{000C}' || c == '\r'
    || c == ' ' || c == '\U{00A0}' || c == '\U{1680}'
    || ('\U{2000}' <= c <= '\U{200A}')
    || c == '\U{2028}' || c == '\U{2029}' || c == '\U{202F}' || c == '\U{205F}'
    || c == '\U{3000}' || c == '\U{FEFF}'
  }

  function TrimStart(s: string): (r: string)
    ensures |r| <= |s|
    ensures r == [] || !IsSpace(r[0])
    ensures forall k :: 0 <= k < |s| - |r| ==> IsSpace(s[k])
    decreases |s|
  {
    if |s| > 0 && IsSpace(s[0]) then TrimStart(s[1..]) else s
  }

  /** What `TrimStart` keeps is a suffix of its argument. */
  lemma {:induction false} TrimStartSuffix(s: string)
    ensures TrimStart(s) == s[|s| - |TrimStart(s)|..]
    decreases |s|
  {
    if |s| > 0 && IsSpace(s[0]) {
      TrimStartSuffix(s[1..]);
    }
  }

  function TrimEnd(s: string): (r: string)
    ensures |r| <= |s| && r == s[..|r|]
    ensures r == [] || !IsSpace(r[|r| - 1])
    ensures forall k :: |r| <= k < |s| ==> IsSpace(s[k])
    decreases |s|
  {
    if |s| > 0 && IsSpace(s[|s| - 1]) then TrimEnd(s[..|s| - 1]) else s
  }

  /** `s.trim()`. */
  function Trim(s: string): (r: string)
    ensures r == [] || (!IsSpace(r[0]) && !IsSpace(r[|r| - 1]))
  {
    TrimEnd(TrimStart(s))
  }

  /** A string that neither starts nor ends with white space is its own trim. */
  lemma TrimNoSpace(s: string)
    requires s == [] || (!IsSpace(s[0]) && !IsSpace(s[|s| - 1]))
    ensures Trim(s) == s
  {
  }

  /** Counts the occurrences of a character. */
  function CountChar(s: string, c: char): nat
    decreases |s|
  {
    if s == [] then 0 else (if s[0] == c then 1 else 0) + CountChar(s[1..], c)
  }

  lemma {:induction false} CountCharAppend(a: string, b: string, c: char)
    ensures CountChar(a + b, c) == CountChar(a, c) + CountChar(b, c)
    decreases |a|
  {
    if a != [] {
      assert (a + b)[0] == a[0];
      assert (a + b)[1..] == a[1..] + b;
      assert CountChar(a + b, c) == (if a[0] == c then 1 else 0) + CountChar(a[1..] + b, c);
      CountCharAppend(a[1..], b, c);
    } else {
      assert a + b == b;
    }
  }

  lemma {:induction false} CountCharAbsent(s: string, c: char)
    requires c !in s
    ensures CountChar(s, c) == 0
    decreases |s|
  {
    if s != [] {
      CountCharAbsent(s[1..], c);
    }
  }

  /** A string holds one occurrence of `c` fewer than the pieces it splits into. */
  lemma {:induction false} CountIsPiecesMinusOne(s: string, c: char)
    ensures CountChar(s, c) == |Split(s, [c])| - 1
    decreases |s|
  {
    var i := IndexOf(s, [c]);
    if i < 0 {
      CharNotContained(s, c);
      CountCharAbsent(s, c);
    } else {
      var rest := s[i + 1..];
      CountIsPiecesMinusOne(rest, c);
      var head := s[..i];
      PrefixBeforeFirstAvoidsSep(s, [c]);
      CharNotContained(head, c);
      CountCharAbsent(head, c);
      assert s[i..i + 1] == [c];
      assert s == head + [c] + rest;
      CountCharAppend(head + [c], rest, c);
      CountCharAppend(head, [c], c);
    }
  }

  /** An occurrence with none before it is the first one. */
  lemma IndexOfIs(s: string, pat: string, i: nat)
    requires OccursAt(s, pat, i)
    requires forall j :: 0 <= j < i ==> !OccursAt(s, pat, j)
    ensures IndexOf(s, pat) == i
  {
    var k := IndexOf(s, pat);
    assert k >= 0 by {
      assert OccursAt(s, pat, i);
    }
    assert !(k > i);
  }

  /** Splitting a string whose first separator ends the prefix `a`. */
  lemma SplitAfter(a: string, sep: string, rest: string)
    requires sep != "" && IndexOf(a + sep + rest, sep) == |a|
    ensures Split(a + sep + rest, sep) == [a] + Split(rest, sep)
  {
    var s := a + sep + rest;
    SplitAtFirst(s, sep);
    assert s[..|a|] == a;
    assert s[|a| + |sep|..] == rest;
  }

  /** With no separator starting among the first `k` characters, the first piece
      of the split begins with those characters. */
  lemma FirstPieceKeeps(s: string, sep: string, k: nat)
    requires sep != "" && k <= |s|
    requires forall j :: 0 <= j < k ==> !OccursAt(s, sep, j)
    ensures k <= |Split(s, sep)[0]| && Split(s, sep)[0][..k] == s[..k]
  {
    var i := IndexOf(s, sep);
    if i >= 0 {
      assert i >= k;
      assert Split(s, sep)[0] == s[..i];
    }
  }

  /** A string without the separator's first character splits into itself. */
  lemma SplitWithout(s: string, sep: string)
    requires sep != "" && sep[0] !in s
    ensures Split(s, sep) == [s]
  {
    NoOccurrenceWithoutFirstChar(s, sep);
  }

  /** Trimming a string that neither starts nor ends with white space, with one
      white-space character appended, removes only that character. */
  lemma TrimTrailingSpace(s: string, c: char)
    requires s != [] && !IsSpace(s[0]) && !IsSpace(s[|s| - 1]) && IsSpace(c)
    ensures Trim(s + [c]) == s
  {
    var t := s + [c];
    assert TrimStart(t) == t;
    assert t[..|t| - 1] == s;
    assert TrimEnd(t) == TrimEnd(s);
  }

  /** The first occurrence of a character holds it, and no character before it does. */
  lemma FirstChar(s: string, c: char)
    requires IndexOf(s, [c]) >= 0
    ensures s[IndexOf(s, [c])] == c && c !in s[..IndexOf(s, [c])]
  {
    var i := IndexOf(s, [c]);
    assert s[i..i + 1] == [c];
    forall k | 0 <= k < i ensures s[k] != c {
      assert !OccursAt(s, [c], k);
      assert s[k..k + 1] == [s[k]];
    }
  }

  /** Splitting `a + sep + b` where neither side holds the separator's first
      character gives the two sides. */
  lemma SplitPair(a: string, sep: string, b: string)
    requires sep != "" && sep[0] !in a && sep[0] !in b
    ensures Split(a + sep + b, sep) == [a, b]
  {
    FirstOccurrenceAfterPrefix(a, sep, b);
    SplitAfter(a, sep, b);
    SplitWithout(b, sep);
  }

  /** The first space-separated word of a text that starts with the word `w`
      and a space. */
  lemma FirstWord(q: string, w: string)
    requires ' ' !in w && |w| < |q| && q[..|w| + 1] == w + " "
    ensures Split(q, " ")[0] == w
  {
    assert q[|w|..|w| + 1] == q[..|w| + 1][|w|..];
    forall j | 0 <= j < |w| ensures !OccursAt(q, " ", j) {
      assert q[j] == w[j];
      assert q[j..j + 1] == [q[j]];
    }
    IndexOfIs(q, " ", |w|);
    assert q[..|w|] == q[..|w| + 1][..|w|];
  }

  /** The first piece of a text that starts with `d` and then the separator,
      when `d` does not hold the separator. */
  lemma FirstPieceIs(p: string, d: string, sep: string)
    requires sep != "" && |d| + |sep| <= |p| && p[..|d| + |sep|] == d + sep
    requires IndexOf(d + sep, sep) == |d|
    ensures Split(p, sep)[0] == d
  {
    var tail := p[|d| + |sep|..];
    assert p == (d + sep) + tail;
    IndexOfAppend(d + sep, sep, tail);
    assert p[..|d|] == d;
  }

  /** Trimming a string that neither starts nor ends with white space, with one
      white-space character put before it, removes only that character. */
  lemma TrimLeadingSpace(c: char, s: string)
    requires s != [] && !IsSpace(s[0]) && !IsSpace(s[|s| - 1]) && IsSpace(c)
    ensures Trim([c] + s) == s
  {
    var t := [c] + s;
    assert t[1..] == s;
    assert TrimStart(t) == TrimStart(s) == s;
  }

  /** Replacing the first occurrence when it ends the prefix `p`. */
  lemma ReplaceFirstAt(p: string, pat: string, rest: string, rep: string)
    requires IndexOf(p + pat + rest, pat) == |p|
    ensures ReplaceFirst(p + pat + rest, pat, rep) == p + rep + rest
  {
    var s := p + pat + rest;
    assert s[..|p|] == p;
    assert s[|p| + |pat|..] == rest;
  }

  /** No separator starts within `x` or at the stop character after it, when
      `x` holds none and the separator lacks the stop character. */
  lemma NoSepBeforeStop(x: string, stop: char, rest: string, sep: string)
    requires sep != "" && stop !in sep && !Contains(x, sep)
    ensures forall j :: 0 <= j <= |x| ==> !OccursAt(x + [stop] + rest, sep, j)
  {
    var s := x + [stop] + rest;
    forall j | 0 <= j <= |x|
      ensures !OccursAt(s, sep, j)
    {
      if j + |sep| <= |x| {
        assert s[j..j + |sep|] == x[j..j + |sep|];
        assert !OccursAt(x, sep, j);
      } else if j + |sep| <= |s| {
        assert s[j..j + |sep|][|x| - j] == stop;
        assert sep[|x| - j] != stop;
      }
    }
  }

  /** Reading the first piece of a split up to the first `stop` gives the text
      before that stop, when the text holds neither the stop nor the
      separator and the separator lacks the stop. */
  lemma UpToStop(x: string, stop: char, rest: string, sep: string)
    requires sep != "" && stop !in sep && stop !in x && !Contains(x, sep)
    ensures Split(Split(x + [stop] + rest, sep)[0], [stop])[0] == x
  {
    var s := x + [stop] + rest;
    NoSepBeforeStop(x, stop, rest, sep);
    FirstPieceKeeps(s, sep, |x| + 1);
    assert s[..|x| + 1] == x + [stop];
    var p := Split(s, sep)[0];
    assert p == x + [stop] + p[|x| + 1..];
    SplitAroundFirst(x, stop, p[|x| + 1..]);
  }

  /** The piece after the first separator, read up to the first `stop`, is
      the text `x` put there, when `x` holds neither the stop nor the
      separator and the separator lacks the stop. */
  lemma SecondPieceUpToStop(pre: string, sep: string, x: string, stop: char, rest: string)
    requires sep != "" && IndexOf(pre + sep, sep) == |pre|
    requires stop !in sep && stop !in x && !Contains(x, sep)
    ensures var parts := Split(pre + sep + x + [stop] + rest, sep);
      |parts| >= 2 && Split(parts[1], [stop])[0] == x
  {
    var tail := x + [stop] + rest;
    IndexOfAppend(pre + sep, sep, tail);
    assert pre + sep + x + [stop] + rest == pre + sep + tail;
    SplitAfter(pre, sep, tail);
    UpToStop(x, stop, rest, sep);
  }

  /** A string that holds a pattern holds each prefix of it. */
  lemma ContainsPrefix(s: string, pat: string, k: nat)
    requires Contains(s, pat) && k <= |pat|
    ensures Contains(s, pat[..k])
  {
    var i := IndexOf(s, pat);
    assert s[i..i + k] == pat[..k];
    assert OccursAt(s, pat[..k], i);
  }

  /** The piece after the first separator begins with the text `x` put
      there and the stop after it, when `x` holds no separator and the
      separator lacks the stop. */
  lemma SecondPieceStartsWith(pre: string, sep: string, x: string, stop: char, rest: string)
    requires sep != "" && IndexOf(pre + sep, sep) == |pre|
    requires stop !in sep && !Contains(x, sep)
    ensures var parts := Split(pre + sep + x + [stop] + rest, sep);
      |parts| >= 2 && |x| < |parts[1]| && parts[1][..|x| + 1] == x + [stop]
  {
    var tail := x + [stop] + rest;
    IndexOfAppend(pre + sep, sep, tail);
    assert pre + sep + x + [stop] + rest == pre + sep + tail;
    SplitAfter(pre, sep, tail);
    NoSepBeforeStop(x, stop, rest, sep);
    FirstPieceKeeps(tail, sep, |x| + 1);
    assert tail[..|x| + 1] == x + [stop];
  }

  /** Concatenation regrouped: three middle parts read as one. */
  lemma Regroup(a: string, b: string, c: string, d: string, e: string, f: string, g: string)
    ensures a + b + c + d + e + f + g == a + b + (c + d + e) + f + g
  {
  }
}
