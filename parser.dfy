/** The base of the newer parsers: the bbcode tag table (a JavaScript object
    from tag name to bbcode id, kept in key order), the merge of caller tags
    over the defaults, and the bitfield of a list of bbcode ids. */
module Parser {
  import opened Js
  import opened Bits
  import Bitfield

  /** One key of the tag table: a tag name without `[` and its bbcode id. */
  datatype Entry = Entry(tag: string, code: nat)

  /** A tag table in key order. */
  type Table = seq<Entry>

  /** The tag names of a table, in key order (`Object.keys`). */
  function Keys(t: Table): (r: seq<string>)
    ensures |r| == |t|
    ensures forall k :: 0 <= k < |t| ==> r[k] == t[k].tag
  {
    seq(|t|, k requires 0 <= k < |t| => t[k].tag)
  }

  /** No tag name occurs twice, as in any JavaScript object. */
  predicate KeysUnique(t: Table) {
    forall j, k :: 0 <= j < k < |t| ==> t[j].tag != t[k].tag
  }

  /** `t[tag]`: the id stored under `tag`, or `None` when it is not a key. */
  function Lookup(t: Table, tag: string): (r: Option<nat>)
    ensures r.None? <==> tag !in Keys(t)
    ensures r.Some? ==> Entry(tag, r.value) in t
    decreases |t|
  {
    if t == [] then None
    else if t[0].tag == tag then Some(t[0].code)
    else Lookup(t[1..], tag)
  }

  /** With unique keys, the lookup finds the entry stored under the key. */
  lemma {:induction false} LookupAt(t: Table, k: nat)
    requires KeysUnique(t) && k < |t|
    ensures Lookup(t, t[k].tag) == Some(t[k].code)
    decreases k
  {
    if k > 0 {
      assert t[0].tag != t[k].tag;
      LookupAt(t[1..], k - 1);
    }
  }

  /** `t[e.tag] = e.code`: an existing key keeps its place and takes the new id;
      a new key goes last. */
  function Put(t: Table, e: Entry): (r: Table)
    ensures Keys(r) == if e.tag in Keys(t) then Keys(t) else Keys(t) + [e.tag]
    ensures forall tag :: Lookup(r, tag) == if tag == e.tag then Some(e.code) else Lookup(t, tag)
    decreases |t|
  {
    if t == [] then [e]
    else if t[0].tag == e.tag then [e] + t[1..]
    else [t[0]] + Put(t[1..], e)
  }

  /** `{...base, ...over}`: the entries of `over` assigned into `base` in order. */
  function Merge(base: Table, over: Table): Table
    decreases |over|
  {
    if over == [] then base else Merge(Put(base, over[0]), over[1..])
  }

  /** The first key of a table with unique keys is not among the others, and
      the others are unique. */
  lemma UniqueTail(t: Table)
    requires KeysUnique(t) && t != []
    ensures KeysUnique(t[1..])
    ensures t[0].tag !in Keys(t[1..])
    ensures Keys(t) == [t[0].tag] + Keys(t[1..])
  {
    forall k | 0 <= k < |t| - 1 ensures Keys(t[1..])[k] != t[0].tag {
      assert t[k + 1].tag != t[0].tag;
    }
  }

  /** A caller's entry wins over a default; a key the caller does not give keeps
      its default. */
  lemma {:induction false} MergeLookup(base: Table, over: Table, tag: string)
    requires KeysUnique(over)
    ensures Lookup(Merge(base, over), tag)
         == if tag in Keys(over) then Lookup(over, tag) else Lookup(base, tag)
    decreases |over|
  {
    if over != [] {
      UniqueTail(over);
      MergeLookup(Put(base, over[0]), over[1..], tag);
    }
  }

  /** The keys of `base` keep their order at the front of the merge. */
  lemma {:induction false} MergeKeepsKeyOrder(base: Table, over: Table)
    ensures |Merge(base, over)| >= |base|
    ensures Keys(Merge(base, over))[..|base|] == Keys(base)
    decreases |over|
  {
    if over != [] {
      var next := Put(base, over[0]);
      MergeKeepsKeyOrder(next, over[1..]);
      assert Keys(next)[..|base|] == Keys(base);
      assert Keys(Merge(base, over))[..|base|] == Keys(Merge(next, over[1..]))[..|next|][..|base|];
    }
  }

  /** The default tags, in the key order of the object literal. */
  const DefaultTags: Table := [
    Entry("code", 8), Entry("quote", 0), Entry("attachment", 12), Entry("b", 1),
    Entry("i", 2), Entry("url", 3), Entry("img", 4), Entry("size", 5),
    Entry("color", 6), Entry("u", 7), Entry("list", 9), Entry("email", 10),
    Entry("flash", 11)
  ]

  /** The ids of a table, in key order. */
  function CodesOf(t: Table): (r: seq<nat>)
    ensures |r| == |t| && forall k :: 0 <= k < |t| ==> r[k] == t[k].code
  {
    seq(|t|, k requires 0 <= k < |t| => t[k].code)
  }

  /** The default tag names are thirteen distinct keys. */
  lemma DefaultTagsUnique()
    ensures KeysUnique(DefaultTags)
  {
    // each default tag is told apart by its length and first letter
    forall j, k | 0 <= j < k < |DefaultTags| ensures DefaultTags[j].tag != DefaultTags[k].tag {
      var a, b := DefaultTags[j].tag, DefaultTags[k].tag;
      assert |a| != |b| || a[0] != b[0];
    }
  }

  /** The default ids are the distinct numbers 0 to 12. */
  lemma DefaultCodesDistinct()
    ensures forall j, k :: 0 <= j < k < |DefaultTags| ==> DefaultTags[j].code != DefaultTags[k].code
    ensures forall n: nat :: n in CodesOf(DefaultTags) <==> n <= 12
  {
    var codes := CodesOf(DefaultTags);
    assert codes == [8, 0, 12, 1, 2, 3, 4, 5, 6, 7, 9, 10, 11];
    forall n: nat | n <= 12 ensures n in codes {
      var k := if n == 8 then 0 else if n == 0 then 1 else if n == 12 then 2
        else if n <= 7 then n + 2 else n + 1;
      assert codes[k] == n;
    }
  }

  /** The tag table of a parser built with the caller's tags `bbcodes`. */
  function ParserCodes(bbcodes: Table): Table {
    Merge(DefaultTags, bbcodes)
  }

  /** `[...new Set(xs)]`: the values of `xs` in order of first appearance. */
  function Dedup(xs: seq<nat>): (r: seq<nat>)
    ensures forall j, k :: 0 <= j < k < |r| ==> r[j] != r[k]
    ensures forall x :: x in r <==> x in xs
    decreases |xs|
  {
    if xs == [] then []
    else
      var rest := Dedup(xs[..|xs| - 1]);
      assert xs == xs[..|xs| - 1] + [xs[|xs| - 1]];
      if xs[|xs| - 1] in rest then rest else rest + [xs[|xs| - 1]]
  }

  /** The set of values in a list. */
  function Elements(xs: seq<nat>): set<nat> {
    set x | x in xs
  }

  /** `genBitfield(idxs)`: a fresh bitfield with each distinct id set once,
      then its text. The text depends only on the set of ids, so repeating or
      reordering ids does not change it. */
  method GenBitfield(idxs: seq<nat>) returns (r: string)
    requires forall k :: 0 <= k < |idxs| ==> idxs[k] / 8 < Bitfield.Size
    ensures r == Bitfield.Encoded(Layout(Elements(idxs), Bitfield.Size))
  {
    var bitField := new Bitfield.Bitfield();
    var unique := Dedup(idxs);
    ZerosEncodeNothing(Bitfield.Size);
    for j := 0 to |unique|
      invariant bitField.data.Length == Bitfield.Size
      invariant Encodes(bitField.data[..], Elements(unique[..j]))
    {
      assert unique[j] in idxs;
      SetBitEncodes(bitField.data[..], Elements(unique[..j]), unique[j]);
      bitField.Set(unique[j]);
      assert Elements(unique[..j + 1]) == Elements(unique[..j]) + {unique[j]} by {
        assert unique[..j + 1] == unique[..j] + [unique[j]];
      }
    }
    assert unique[..|unique|] == unique;
    assert Elements(unique) == Elements(idxs);
    LayoutEncodes(Elements(idxs), Bitfield.Size);
    EncodesUnique(bitField.data[..], Layout(Elements(idxs), Bitfield.Size), Elements(idxs));
    r := bitField.ToBase64();
  }

  /** No id at all gives the empty text. */
  lemma NoCodesText()
    ensures Bitfield.Encoded(Layout({}, Bitfield.Size)) == ""
  {
    assert Layout({}, Bitfield.Size) == seq(Bitfield.Size, _ => 0 as bv8);
    Bitfield.EmptyText();
  }
}
