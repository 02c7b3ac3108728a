/** The older post parser: tag names are deleted from the rendered HTML before
    conversion to BBCode, rewritten with a uid afterwards, and the bitfield is
    built from the literal opening tags found. The parser keeps
    `Object.keys` of its tag array, so its codes are the array's indices
    written in decimal, not the tag names. */
module PhpbbPostParser {
  import opened Js
  import opened Text
  import opened Bits
  import opened Dom
  import Bitfield
  import PostParser

  /** The tags a parser is built with by default, in code order. */
  const DefaultTags: seq<string> :=
    ["quote", "b", "i", "url", "img", "size", "color", "u", "code", "list", "email", "flash", "attachment"]

  /** The separator between author and date on the page. */
  const AuthorSeparator: string := "\U{00BB}"

  /** The body of a post: the uid, the bitfield text, the body with uids, the
      rendered HTML and its BBCode. */
  datatype PostBody = PostBody(uid: string, bitfield: string, uidbody: string, htmlbody: string, bbcbody: string)
  datatype Post = Post(body: PostBody, edits: PostParser.PostEdits, info: PostParser.PostInfo)

  /** The constructor's `Object.keys(bbcodes)` on an array: its indices as
      decimal strings. */
  function Codes(bbcodes: seq<string>): (r: seq<string>)
    ensures |r| == |bbcodes|
    ensures forall i :: 0 <= i < |r| ==> r[i] == NatToString(i) && AllDigits(r[i])
  {
    seq(|bbcodes|, i requires 0 <= i => NatToString(i))
  }

  /** None of the default tag names is a code of the default parser: the codes
      are `"0"` to `"12"`. */
  lemma DefaultCodesAreNotTags()
    ensures Codes(DefaultTags)[1] == "1" && Codes(DefaultTags)[12] == "12"
    ensures forall t :: t in DefaultTags ==> t !in Codes(DefaultTags)
  {
    var codes := Codes(DefaultTags);
    forall t | t in DefaultTags ensures t !in codes {
      assert !IsDigit(t[0]);
      forall i | 0 <= i < |codes| ensures codes[i] != t {
        assert IsDigit(codes[i][0]);
      }
    }
    assert codes[12] == NatToString(12) == NatToString(1) + ['2'];
  }

  /** The opening text that replaces `[tag`: `[` and the new contents, or
      nothing when they are empty. */
  function OpenTag(contents: string): string {
    if contents == "" then "" else "[" + contents
  }

  /** The closing text that replaces `[/tag`. */
  function CloseTag(contents: string): string {
    if contents == "" then "" else "[/" + contents
  }

  /** `replaceTag`: the first `[tag` replaced by `OpenTag(newContents)`, then
      the first `[/tag` of that by `CloseTag(newContents)`. A text holding
      neither comes back unchanged. */
  function ReplaceTag(s: string, tag: string, newContents: string): (r: string)
    ensures !Contains(s, "[" + tag) && !Contains(s, "[/" + tag) ==> r == s
  {
    ReplaceFirst(ReplaceFirst(s, "[" + tag, OpenTag(newContents)), "[/" + tag, CloseTag(newContents))
  }

  /** In `a[tag b[/tag z` with no `[` in `a` or `b`, the two tags are the first
      ones: they are replaced (deleted for empty contents) and the rest is kept. */
  lemma ReplaceTagPieces(a: string, tag: string, b: string, z: string, n: string)
    requires '[' !in a && '[' !in b && '[' !in n && (n == "" || n[0] != '/')
    ensures ReplaceTag(a + ("[" + tag) + (b + ("[/" + tag) + z), tag, n)
         == a + OpenTag(n) + b + CloseTag(n) + z
  {
    var close := "[/" + tag;
    assert ReplaceFirst(a + ("[" + tag) + (b + close + z), "[" + tag, OpenTag(n))
        == a + OpenTag(n) + b + close + z by {
      ReplaceOpen(a, "[" + tag, b + close + z, OpenTag(n));
      assert a + OpenTag(n) + (b + close + z) == a + OpenTag(n) + b + close + z;
    }
    ReplaceClose(a, n, b, close, z);
  }

  /** The first occurrence of a pattern starting with a character `p` lacks. */
  lemma ReplaceOpen(p: string, pat: string, rest: string, rep: string)
    requires pat != "" && pat[0] !in p
    ensures ReplaceFirst(p + pat + rest, pat, rep) == p + rep + rest
  {
    FirstOccurrenceAfterPrefix(p, pat, rest);
    ReplaceFirstAt(p, pat, rest, rep);
  }

  /** No closing tag `[/...` starts in `a`, the new opening text, or `b`, so the
      first one after them is replaced. */
  lemma ReplaceClose(a: string, n: string, b: string, close: string, z: string)
    requires '[' !in a && '[' !in b && '[' !in n && (n == "" || n[0] != '/')
    requires |close| >= 2 && close[..2] == "[/"
    ensures ReplaceFirst(a + OpenTag(n) + b + close + z, close, CloseTag(n))
         == a + OpenTag(n) + b + CloseTag(n) + z
  {
    var p := a + OpenTag(n) + b;
    var s := p + close + z;
    assert close[0] == close[..2][0] == '[' && close[1] == close[..2][1] == '/';
    forall j | 0 <= j < |p| ensures !OccursAt(s, close, j) {
      assert s[j] != '[' || s[j + 1] != '/' by {
        if j < |a| {
          assert s[j] == a[j];
        } else if j < |a + OpenTag(n)| {
          if j == |a| {
            assert s[j + 1] == n[0];
          } else {
            assert s[j] == n[j - |a| - 1];
          }
        } else {
          assert s[j] == b[j - |a + OpenTag(n)|];
        }
      }
      if j + |close| <= |s| {
        var w := s[j..j + |close|];
        assert w[0] == s[j] && w[1] == s[j + 1];
      }
    }
    assert s[|p|..|p| + |close|] == close;
    IndexOfIs(s, close, |p|);
    ReplaceFirstAt(p, close, z, CloseTag(n));
  }

  /** The contents a code's tags are rewritten to: nothing when deleting, the
      code and the uid when tagging. */
  function NewContents(c: string, uid: Option<string>): string {
    match uid
    case None => ""
    case Some(u) => c + ":" + u
  }

  /** `codes.reduce((s, c) => replaceTag(s, c, ...), s)`: `replaceTag` applied
      code by code, in order. A text holding no tag of any code comes back
      unchanged. */
  function ReplaceTags(codes: seq<string>, s: string, uid: Option<string>): (r: string)
    ensures (forall k :: 0 <= k < |codes| ==> !Contains(s, "[" + codes[k]) && !Contains(s, "[/" + codes[k])) ==> r == s
    decreases |codes|
  {
    if codes == [] then s
    else ReplaceTags(codes[1..], ReplaceTag(s, codes[0], NewContents(codes[0], uid)), uid)
  }

  /** A text without digits holds no pattern that has a digit. */
  lemma NoDigitPattern(s: string, pat: string, k: nat)
    requires forall i :: 0 <= i < |s| ==> !IsDigit(s[i])
    requires k < |pat| && IsDigit(pat[k])
    ensures !Contains(s, pat)
  {
    forall j | 0 <= j ensures !OccursAt(s, pat, j) {
      if j + |pat| <= |s| {
        assert s[j..j + |pat|][k] == s[j + k];
      }
    }
  }

  /** With the codes of `Codes`, a text without digits holds no tag of any
      code: the rewrites leave it unchanged, so a post written with `[b]` or
      `[quote]` gets no uid. */
  lemma DigitFreeUnchanged(tags: seq<string>, s: string, uid: Option<string>)
    requires forall i :: 0 <= i < |s| ==> !IsDigit(s[i])
    ensures ReplaceTags(Codes(tags), s, uid) == s
  {
    var codes := Codes(tags);
    forall k | 0 <= k < |codes| ensures !Contains(s, "[" + codes[k]) && !Contains(s, "[/" + codes[k]) {
      assert IsDigit(codes[k][0]);
      NoDigitPattern(s, "[" + codes[k], 1);
      NoDigitPattern(s, "[/" + codes[k], 2);
    }
  }

  /** The positions of the codes whose literal opening tag `[c]` occurs in `s`. */
  function Marked(codes: seq<string>, s: string): (r: set<nat>)
    ensures forall i: nat :: i in r <==> i < |codes| && Contains(s, "[" + codes[i] + "]")
  {
    set i: nat | i < |codes| && Contains(s, "[" + codes[i] + "]")
  }

  /** `genBitfield`: a fresh ten-byte bitfield with bit `i` set exactly when
      the literal `[codes[i]]` occurs in `s` (`[c=...]` does not count), then
      its text. The source file never imports `Bitfield`, so there the call
      throws; the class used here is the one of `src/package/Bitfield.ts`. */
  method GenBitfield(codes: seq<string>, s: string) returns (r: string)
    requires |codes| <= 8 * Bitfield.Size
    ensures r == Bitfield.Encoded(Layout(Marked(codes, s), Bitfield.Size))
  {
    var bitField := new Bitfield.Bitfield();
    ZerosEncodeNothing(Bitfield.Size);
    for i := 0 to |codes|
      invariant bitField.data.Length == Bitfield.Size
      invariant Encodes(bitField.data[..], Marked(codes[..i], s))
    {
      assert codes[..i + 1][..i] == codes[..i];
      if Contains(s, "[" + codes[i] + "]") {
        SetBitEncodes(bitField.data[..], Marked(codes[..i], s), i);
        bitField.Set(i);
        assert Marked(codes[..i + 1], s) == Marked(codes[..i], s) + {i};
      } else {
        assert Marked(codes[..i + 1], s) == Marked(codes[..i], s);
      }
    }
    assert codes[..|codes|] == codes;
    LayoutEncodes(Marked(codes, s), Bitfield.Size);
    EncodesUnique(bitField.data[..], Layout(Marked(codes, s), Bitfield.Size), Marked(codes, s));
    r := bitField.ToBase64();
  }

  /** With the codes of `Codes`, a text without digits marks no code, so its
      bitfield is empty. */
  lemma DigitFreeNoBits(tags: seq<string>, s: string)
    requires forall i :: 0 <= i < |s| ==> !IsDigit(s[i])
    ensures Marked(Codes(tags), s) == {}
    ensures Bitfield.Encoded(Layout(Marked(Codes(tags), s), Bitfield.Size)) == ""
  {
    var codes := Codes(tags);
    forall i: nat | i < |codes| ensures !Contains(s, "[" + codes[i] + "]") {
      assert IsDigit(codes[i][0]);
      NoDigitPattern(s, "[" + codes[i] + "]", 1);
    }
    assert Layout({}, Bitfield.Size) == seq(Bitfield.Size, _ => 0 as bv8);
    Bitfield.EmptyText();
  }

  /** What `parsePostBody` returns for the content `content`: the tags of the
      codes deleted from the HTML before the BBCode conversion `feed`, the
      converted body tagged with the uid, and the bitfield of the converted
      body (not of the tagged one). */
  predicate IsBodyOf(codes: seq<string>, content: string, feed: string -> string, uid: string, b: PostBody) {
    && b.uid == uid
    && b.htmlbody == content
    && b.bbcbody == feed(ReplaceTags(codes, content, None))
    && b.uidbody == ReplaceTags(codes, b.bbcbody, Some(uid))
    && b.bitfield == Bitfield.Encoded(Layout(Marked(codes, b.bbcbody), Bitfield.Size))
  }

  /** `parsePostBody`, with the uid given and the conversion `feed` given. */
  method ParsePostBody(codes: seq<string>, e: PostElement, feed: string -> string, uid: string) returns (r: PostBody)
    requires |codes| <= 8 * Bitfield.Size
    ensures IsBodyOf(codes, e.content, feed, uid, r)
  {
    var htmlbody := e.content;
    var bbcbody := feed(ReplaceTags(codes, htmlbody, None));
    var uidbody := ReplaceTags(codes, bbcbody, Some(uid));
    var bitfield := GenBitfield(codes, bbcbody);
    r := PostBody(uid, bitfield, uidbody, htmlbody, bbcbody);
  }

  /** For the default parser, a body whose content and converted text have no
      digits is passed through: the conversion sees the content as it is, the
      tagged body is the converted one, and the bitfield is empty. */
  lemma DigitFreeBody(tags: seq<string>, content: string, feed: string -> string, uid: string, b: PostBody)
    requires IsBodyOf(Codes(tags), content, feed, uid, b)
    requires forall i :: 0 <= i < |content| ==> !IsDigit(content[i])
    requires forall i :: 0 <= i < |b.bbcbody| ==> !IsDigit(b.bbcbody[i])
    ensures b.bbcbody == feed(content) && b.uidbody == b.bbcbody && b.bitfield == ""
  {
    DigitFreeUnchanged(tags, content, None);
    DigitFreeUnchanged(tags, b.bbcbody, Some(uid));
    DigitFreeNoBits(tags, b.bbcbody);
  }

  /** `parsePostInfo`: the author is the text after the last `by` in the
      trimmed text before `»`, the date the trimmed text after it (given to
      `Date.parse`, in milliseconds), and the subject the text of the link to
      `#p<id>`. A missing `id` attribute or a missing `»` throws. */
  function ParsePostInfo(e: PostElement): (r: Result<PostParser.PostInfo>)
    ensures r.Err? <==> e.id.None? || !Contains(e.author, AuthorSeparator)
    ensures r.Err? ==> r.error == TypeError
    ensures r.Ok? ==> r.value.id == PostParser.PostId(e.id.value)
  {
    var text := Split(e.author, AuthorSeparator);
    if e.id.None? then Err(TypeError)
    else
      var id := PostParser.PostId(e.id.value);
      var user := Trim(Last(Split(Trim(text[0]), "by")));
      if |text| < 2 then Err(TypeError)
      else Ok(PostParser.PostInfo(e.anchorText("#p" + NumToString(id)), user, id, DateOf(Trim(text[1]), false)))
  }

  /** `parsePostInfo` in terms of the two sides of `»`. */
  lemma InfoOfPieces(e: PostElement, lead: string, date: string, user: string, id: Num)
    requires e.id.Some? && PostParser.PostId(e.id.value) == id
    requires Split(e.author, AuthorSeparator) == [lead, date]
    requires Trim(Last(Split(Trim(lead), "by"))) == user
    ensures ParsePostInfo(e)
         == Ok(PostParser.PostInfo(e.anchorText("#p" + NumToString(id)), user, id, DateOf(Trim(date), false)))
  {
  }

  /** An author line `by <name> » <date>`, for a one-word name without `by`,
      and an id `p<n>` give back the name, the number and the date. */
  lemma AuthorLine(e: PostElement, name: string, date: string, n: nat)
    requires name != [] && forall k :: 0 <= k < |name| ==> !IsSpace(name[k])
    requires '\U{00BB}' !in name && '\U{00BB}' !in date && !Contains(name, "by")
    requires e.author == "by " + name + " " + AuthorSeparator + date
    requires e.id == Some("p" + NatToString(n))
    ensures ParsePostInfo(e)
         == Ok(PostParser.PostInfo(e.anchorText("#p" + NatToString(n)), name, Int(n), DateOf(Trim(date), false)))
  {
    SplitPair("by " + name + " ", AuthorSeparator, date);
    NameAfterBy(name);
    PostParser.IdOf(n);
    InfoOfPieces(e, "by " + name + " ", date, name, Int(n));
  }

  /** The text after the last `by` of `by <name> `, trimmed, is the name. */
  lemma NameAfterBy(name: string)
    requires name != [] && forall k :: 0 <= k < |name| ==> !IsSpace(name[k])
    requires !Contains(name, "by")
    ensures Trim(Last(Split(Trim("by " + name + " "), "by"))) == name
  {
    TrimmedByLine(name);
    NoByAfterSpace(name);
    ByThenRest(" " + name);
    TrimLeadingSpace(' ', name);
  }

  /** Trimming `by <name> ` drops only the trailing space. */
  lemma TrimmedByLine(name: string)
    requires name != [] && forall k :: 0 <= k < |name| ==> !IsSpace(name[k])
    ensures Trim("by " + name + " ") == "by" + (" " + name)
  {
    TrimTrailingSpace("by " + name, ' ');
    assert "by " + name == "by" + (" " + name);
  }

  /** A space put before a text without `by` does not make one. */
  lemma NoByAfterSpace(name: string)
    requires !Contains(name, "by")
    ensures !Contains(" " + name, "by")
  {
    var rest := " " + name;
    forall j | 0 <= j ensures !OccursAt(rest, "by", j) {
      if j + 2 <= |rest| {
        if j == 0 {
          assert rest[j..j + 2][0] == ' ';
        } else {
          assert rest[j..j + 2] == name[j - 1..j + 1];
          assert !OccursAt(name, "by", j - 1);
        }
      }
    }
  }

  /** `by` followed by a text without `by` splits into the empty string and
      that text. */
  lemma ByThenRest(rest: string)
    requires !Contains(rest, "by")
    ensures Split("by" + rest, "by") == ["", rest]
  {
    assert "by" + rest == "" + "by" + rest;
    IndexOfIs("" + "by" + rest, "by", 0);
    SplitAfter("", "by", rest);
  }

  /** A name ending in `by` is lost: for `bobby` the text after the last `by`
      is empty, so the user is the empty string. */
  lemma NameEndingInBy(e: PostElement, date: string)
    requires '\U{00BB}' !in date && e.id.Some?
    requires e.author == "by bobby " + AuthorSeparator + date
    ensures ParsePostInfo(e).Ok? && ParsePostInfo(e).value.user == ""
  {
    SplitPair("by bobby ", AuthorSeparator, date);
    BobbyUser();
    InfoOfPieces(e, "by bobby ", date, "", PostParser.PostId(e.id.value));
  }

  /** The text after the last `by` of `by bobby `, trimmed, is empty. */
  lemma BobbyUser()
    ensures Trim(Last(Split(Trim("by bobby "), "by"))) == ""
  {
    assert "by bobby " == "by bobby" + [' '];
    TrimTrailingSpace("by bobby", ' ');
    BobbySplit();
  }

  /** `"by bobby".split("by")` is `["", " bob", ""]`. */
  lemma BobbySplit()
    ensures Split("by bobby", "by") == ["", " bob", ""]
  {
    assert "by bobby" == "" + "by" + " bobby";
    IndexOfIs("" + "by" + " bobby", "by", 0);
    SplitAfter("", "by", " bobby");
    BobbyTail();
    assert Split("", "by") == [""];
  }

  /** `" bobby".split("by")` is `[" bob", ""]`. */
  lemma BobbyTail()
    ensures Split(" bobby", "by") == [" bob"] + Split("", "by")
  {
    var s := " bob" + "by" + "";
    assert s == " bobby";
    forall j | 0 <= j < 4 ensures !OccursAt(s, "by", j) {
      assert s[j..j + 2][1] == s[j + 1];
    }
    assert s[4..6] == "by";
    IndexOfIs(s, "by", 4);
    SplitAfter(" bob", "by", "");
  }

  /** `parsePostEdits`: without a notice, user `''` and no edit. With one, the
      user is the text of its link, the time the text between the first ` on `
      and `, edited` (given to `Date.parse`, in milliseconds), the count the
      word after `, edited `, and the reason the text after the first `.` less
      its first word, trimmed. A notice without ` on ` or without `, edited `
      throws. */
  function ParsePostEdits(notice: Option<Notice>): (r: Result<PostParser.PostEdits>)
    ensures notice.None? ==> r == Ok(PostParser.PostEdits("", Int(0), Zero, ""))
    ensures r.Err? <==> (notice.Some?
                         && (!Contains(notice.value.text, " on ") || !Contains(notice.value.text, PostParser.EditedMark)))
    ensures r.Err? ==> r.error == TypeError
    ensures r.Ok? && notice.Some? ==> r.value.user == notice.value.linkText
  {
    if notice.None? then Ok(PostParser.PostEdits("", Int(0), Zero, ""))
    else
      var t := notice.value.text;
      var on := Split(t, " on ");
      if |on| < 2 then Err(TypeError)
      else
        var timestamp := DateOf(Split(on[1], ", edited")[0], false);
        var edited := Split(t, PostParser.EditedMark);
        if |edited| < 2 then Err(TypeError)
        else
          var times := ToNumber(Split(edited[1], " ")[0]);
          var reason := Trim(Join(Split(Join(Split(t, ".")[1..], "."), " ")[1..], " "));
          Ok(PostParser.PostEdits(notice.value.linkText, times, timestamp, reason))
  }

  /** The two parsers read an edit notice alike: they fail together and find
      the same count, reason and time text; the older one keeps the time in
      milliseconds and the link text as user. */
  lemma EditsAsNewer(notice: Option<Notice>)
    ensures ParsePostEdits(notice).Ok? <==> PostParser.ParsePostEdits(notice).Ok?
    ensures ParsePostEdits(notice).Ok? ==>
              var older, newer := ParsePostEdits(notice).value, PostParser.ParsePostEdits(notice).value;
              && older.times == newer.times
              && older.reason == newer.reason
              && older.timestamp == (if newer.timestamp.Zero? then Zero else DateOf(newer.timestamp.text, false))
  {
  }

  /** `parse`: body, edits and info of one post element. */
  method Parse(codes: seq<string>, e: PostElement, feed: string -> string, uid: string) returns (r: Result<Post>)
    requires |codes| <= 8 * Bitfield.Size
    ensures r.Ok? <==> ParsePostEdits(e.notice).Ok? && ParsePostInfo(e).Ok?
    ensures r.Err? ==> r.error == TypeError
    ensures r.Ok? ==> && r.value.edits == ParsePostEdits(e.notice).value
                      && r.value.info == ParsePostInfo(e).value
                      && IsBodyOf(codes, e.content, feed, uid, r.value.body)
  {
    var body := ParsePostBody(codes, e, feed, uid);
    var edits :- ParsePostEdits(e.notice);
    var info :- ParsePostInfo(e);
    r := Ok(Post(body, edits, info));
  }

  /** `parseString`: the first post element parsed, or an error without one. */
  method ParseString(codes: seq<string>, posts: seq<PostElement>, feed: string -> string, uid: string)
    returns (r: Result<Post>)
    requires |codes| <= 8 * Bitfield.Size
    ensures posts == [] <==> r == Err(Thrown(PostParser.NoPostMessage))
    ensures posts != [] ==> (r.Ok? <==> ParsePostEdits(posts[0].notice).Ok? && ParsePostInfo(posts[0]).Ok?)
    ensures posts != [] && r.Ok? ==> && IsBodyOf(codes, posts[0].content, feed, uid, r.value.body)
                                     && r.value.edits == ParsePostEdits(posts[0].notice).value
                                     && r.value.info == ParsePostInfo(posts[0]).value
  {
    if posts == [] {
      r := Err(Thrown(PostParser.NoPostMessage));
    } else {
      r := Parse(codes, posts[0], feed, uid);
    }
  }
}
