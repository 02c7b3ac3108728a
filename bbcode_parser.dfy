/** The newer BBCode parser: it converts a post body to BBCode with an outside
    converter, appends `:uid` to every recognised opening and closing tag, and
    makes the bitfield of the opening tags it met. */
module BBCodeParser {
  import opened Js
  import opened Text
  import opened Bits
  import Bitfield
  import opened Parser

  /** `s.slice(-n)`: the last `n` characters, or all of `s` when `n` is 0 or
      at least `|s|`. */
  function SliceLast(s: string, n: nat): (r: string)
    ensures n <= |s| && n > 0 ==> r == s[|s| - n..]
    ensures n == 0 || n >= |s| ==> r == s
  {
    if n == 0 || n >= |s| then s else s[|s| - n..]
  }

  /** `s.slice(0, end)` for an end that may be negative. */
  function SliceTo(s: string, end: int): string {
    if end >= 0 then Take(s, end) else DropLast(s, -end)
  }

  /** `endsWithTag(str, t)`: `str` ends with `t`, or `[` followed by the start
      of the text after the last `[` of `str` is `t`. */
  predicate EndsWithTag(str: string, t: string) {
    SliceLast(str, |t|) == t || "[" + SliceTo(Last(Split(str, "[")), |t| - 1) == t
  }

  /** A fragment that ends with the tag matches it. */
  lemma EndsWithTagOfSuffix(str: string, t: string)
    requires t != [] && EndsWith(str, t)
    ensures EndsWithTag(str, t)
  {
  }

  /** A tag name right after the last `[` matches, whatever follows it, so
      `[url` and `[url=x` both match `[url`. */
  lemma EndsWithTagAfterLastBracket(p: string, name: string, rest: string)
    requires '[' !in name && '[' !in rest
    ensures EndsWithTag(p + "[" + name + rest, "[" + name)
  {
    var s := p + "[" + name + rest;
    LastAfterLastBracket(p, name + rest);
    assert s == p + "[" + (name + rest);
    assert Take(name + rest, |name|) == name;
  }

  /** The text after the last `[` of `p + "[" + tail` is `tail` when `tail` has no `[`. */
  lemma LastAfterLastBracket(p: string, tail: string)
    requires '[' !in tail
    ensures Last(Split(p + "[" + tail, "[")) == tail
  {
    SplitAround(p, '[', tail);
    NoSepOneSplit(tail);
  }

  /** Exactly when it matches: a non-empty name matches `[name` when the
      fragment ends with `[name` or the text after its last `[` starts with
      `name`. */
  lemma EndsWithTagIff(str: string, name: string)
    requires name != []
    ensures EndsWithTag(str, "[" + name)
        <==> EndsWith(str, "[" + name) || StartsWith(Last(Split(str, "[")), name)
  {
    var t := "[" + name;
    var last := Last(Split(str, "["));
    assert SliceTo(last, |t| - 1) == Take(last, |name|);
    assert "[" + Take(last, |name|) == t <==> Take(last, |name|) == name by {
      if "[" + Take(last, |name|) == t {
        assert Take(last, |name|) == ("[" + Take(last, |name|))[1..];
      }
    }
  }

  /** A fragment with no `[` at all matches a tag it starts with: `url` matches
      `[url`. */
  lemma BareNameMatches()
    ensures EndsWithTag("url", "[url")
  {
    NoSepOneSplit("url");
  }

  /** `[img` matches `[i`, because only the first letters are compared. */
  lemma PrefixTagMatches()
    ensures EndsWithTag("[img", "[i")
  {
    LastAfterLastBracket("", "img");
    assert "" + "[" + "img" == "[img";
  }

  /** A string without `[` is one piece. */
  lemma NoSepOneSplit(s: string)
    requires '[' !in s
    ensures Split(s, "[") == [s]
  {
    CharNotContained(s, '[');
  }

  /** `keys.find(c => endsWithTag(lb, prefix + c))`: the first key in order
      whose tag matches, or `undefined`. */
  function FindTag(keys: seq<string>, lb: string, prefix: string): (r: Option<string>)
    ensures r.None? <==> forall k :: 0 <= k < |keys| ==> !EndsWithTag(lb, prefix + keys[k])
    ensures r.Some? ==> r.value in keys && EndsWithTag(lb, prefix + r.value)
    decreases |keys|
  {
    if keys == [] then None
    else if EndsWithTag(lb, prefix + keys[0]) then Some(keys[0])
    else FindTag(keys[1..], lb, prefix)
  }

  /** JavaScript truthiness of a found key: found, and not the empty string. */
  predicate Truthy(found: Option<string>) {
    found.Some? && found.value != ""
  }

  /** The id an opening tag adds for one fragment, if it is one. */
  function OpenCode(codes: Table, lb: string): (r: Option<nat>)
    ensures r.Some? ==> exists k :: 0 <= k < |codes| && codes[k].code == r.value
    ensures r.Some? <==> Truthy(FindTag(Keys(codes), lb, "["))
  {
    var cs := FindTag(Keys(codes), lb, "[");
    if Truthy(cs) then Lookup(codes, cs.value) else None
  }

  /** What one fragment becomes: `lb + ':' + uid` after an opening or closing
      tag, `lb` otherwise. */
  function TagFragment(codes: Table, lb: string, uid: string): string {
    var keys := Keys(codes);
    if Truthy(FindTag(keys, lb, "[")) || Truthy(FindTag(keys, lb, "[/")) then lb + ":" + uid else lb
  }

  /** The fragments, each tagged. */
  function TagFragments(codes: Table, fragments: seq<string>, uid: string): (r: seq<string>)
    ensures |r| == |fragments|
    ensures forall k :: 0 <= k < |r| ==> r[k] == TagFragment(codes, fragments[k], uid)
  {
    seq(|fragments|, k requires 0 <= k < |fragments| => TagFragment(codes, fragments[k], uid))
  }

  /** The ids of the opening tags among the fragments, in order, repeats kept. */
  function OpenCodes(codes: Table, fragments: seq<string>): (r: seq<nat>)
    ensures forall x :: x in r ==> exists k :: 0 <= k < |codes| && codes[k].code == x
    decreases |fragments|
  {
    if fragments == [] then []
    else
      var init := OpenCodes(codes, fragments[..|fragments| - 1]);
      match OpenCode(codes, fragments[|fragments| - 1])
      case Some(c) => init + [c]
      case None => init
  }

  /** Tagging one more fragment appends its tagged form. */
  lemma TagFragmentsSnoc(codes: Table, fragments: seq<string>, j: nat, uid: string)
    requires j < |fragments|
    ensures TagFragments(codes, fragments[..j + 1], uid)
         == TagFragments(codes, fragments[..j], uid) + [TagFragment(codes, fragments[j], uid)]
  {
  }

  /** One more fragment appends its opening id, if any. */
  lemma OpenCodesSnoc(codes: Table, fragments: seq<string>, j: nat)
    requires j < |fragments|
    ensures OpenCodes(codes, fragments[..j + 1])
         == if OpenCode(codes, fragments[j]).Some?
            then OpenCodes(codes, fragments[..j]) + [OpenCode(codes, fragments[j]).value]
            else OpenCodes(codes, fragments[..j])
  {
    assert fragments[..j + 1][..j] == fragments[..j];
  }

  /** Adding a value to a JavaScript `Set`: kept only when it is new. */
  lemma DedupSnoc(xs: seq<nat>, x: nat)
    ensures Dedup(xs + [x]) == if x in Dedup(xs) then Dedup(xs) else Dedup(xs) + [x]
  {
    assert (xs + [x])[..|xs|] == xs;
  }

  /** `addTagUIDs(str, uid)`: splits on `]`, tags each fragment, joins on `]`,
      and returns the ids of the opening tags, each once, in order of first
      appearance. */
  method AddTagUIDs(codes: Table, str: string, uid: string) returns (body: string, idxs: seq<nat>)
    ensures body == Join(TagFragments(codes, Split(str, "]"), uid), "]")
    ensures idxs == Dedup(OpenCodes(codes, Split(str, "]")))
  {
    var fragments := Split(str, "]");
    var keys := Keys(codes);
    var tis: seq<nat> := [];
    var out: seq<string> := [];
    for j := 0 to |fragments|
      invariant out == TagFragments(codes, fragments[..j], uid)
      invariant tis == Dedup(OpenCodes(codes, fragments[..j]))
    {
      var lb := fragments[j];
      TagFragmentsSnoc(codes, fragments, j, uid);
      OpenCodesSnoc(codes, fragments, j);
      var cs := FindTag(keys, lb, "[");
      if Truthy(cs) {
        var c := Lookup(codes, cs.value).value;
        assert OpenCode(codes, lb) == Some(c);
        assert TagFragment(codes, lb, uid) == lb + ":" + uid;
        DedupSnoc(OpenCodes(codes, fragments[..j]), c);
        if c !in tis {
          tis := tis + [c];
        }
        out := out + [lb + ":" + uid];
      } else {
        assert OpenCode(codes, lb) == None;
        var ce := FindTag(keys, lb, "[/");
        assert TagFragment(codes, lb, uid) == if Truthy(ce) then lb + ":" + uid else lb;
        if !Truthy(ce) {
          out := out + [lb];
        } else {
          out := out + [lb + ":" + uid];
        }
      }
    }
    assert fragments[..|fragments|] == fragments;
    body := Join(out, "]");
    idxs := tis;
  }

  /** A body in which no fragment meets a tag comes back unchanged. */
  lemma UntaggedUnchanged(codes: Table, str: string, uid: string)
    requires forall k :: 0 <= k < |Split(str, "]")| ==> TagFragment(codes, Split(str, "]")[k], uid) == Split(str, "]")[k]
    ensures Join(TagFragments(codes, Split(str, "]"), uid), "]") == str
  {
    assert TagFragments(codes, Split(str, "]"), uid) == Split(str, "]");
    JoinSplit(str, "]");
  }

  /** With a uid free of `]`, the tagged body splits back into the tagged
      fragments and keeps the number of `]` characters. */
  lemma TaggedFragmentsRecovered(codes: Table, str: string, uid: string)
    requires ']' !in uid
    ensures Split(Join(TagFragments(codes, Split(str, "]"), uid), "]"), "]") == TagFragments(codes, Split(str, "]"), uid)
    ensures CountChar(Join(TagFragments(codes, Split(str, "]"), uid), "]"), ']') == CountChar(str, ']')
  {
    var fragments := Split(str, "]");
    var tagged := TagFragments(codes, fragments, uid);
    SplitPiecesAvoidSep(str, "]");
    forall k | 0 <= k < |tagged| ensures ']' !in tagged[k] {
      CharNotContained(fragments[k], ']');
      assert ']' !in fragments[k];
    }
    SplitJoin(tagged, "]");
    CountIsPiecesMinusOne(Join(tagged, "]"), ']');
    CountIsPiecesMinusOne(str, ']');
  }

  /** A fragment that matches no opening tag adds no id, even when it closes a tag. */
  lemma ClosingAddsNoCode(codes: Table, lb: string)
    requires !Truthy(FindTag(Keys(codes), lb, "["))
    ensures OpenCode(codes, lb).None?
  {
  }

  /** The converted body and the tagging, as `parse` returns them. */
  datatype ParsedBBCode = ParsedBBCode(uid: string, bbcbody: string, uidbody: string, bitfield: string)

  /** `parse(body)`: `uid` stands for the random uid and `feed` for the HTML to
      BBCode converter. */
  method Parse(codes: Table, feed: string -> string, uid: string, body: string) returns (r: ParsedBBCode)
    requires forall k :: 0 <= k < |codes| ==> codes[k].code / 8 < Bitfield.Size
    ensures r.uid == uid && r.bbcbody == feed(body)
    ensures r.uidbody == Join(TagFragments(codes, Split(feed(body), "]"), uid), "]")
    ensures r.bitfield == Bitfield.Encoded(Layout(Elements(OpenCodes(codes, Split(feed(body), "]"))), Bitfield.Size))
  {
    var bbcbody := feed(body);
    var uidbody, bidxs := AddTagUIDs(codes, bbcbody, uid);
    forall k | 0 <= k < |bidxs| ensures bidxs[k] / 8 < Bitfield.Size {
      assert bidxs[k] in OpenCodes(codes, Split(bbcbody, "]"));
    }
    var bitfield := GenBitfield(bidxs);
    assert Elements(bidxs) == Elements(OpenCodes(codes, Split(bbcbody, "]")));
    r := ParsedBBCode(uid, bbcbody, uidbody, bitfield);
  }
}
