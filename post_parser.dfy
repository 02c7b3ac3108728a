/** The newer post parser: the fields of a post read from its element by
    splitting, slicing and trimming text, and the body taken from the quote
    page when there is one. The HTML queries, the HTML and BBCode converters,
    the page fetch and `Date.parse` are given as values and functions. */
module PostParser {
  import opened Js
  import opened Text
  import opened Dom
  import BBCodeParser

  /** The separator between author and date, as the page text reads when the
      UTF-8 bytes of `»` are taken as two Latin-1 characters. */
  const AuthorSeparator: string := "\U{00C2}\U{00BB}"

  /** The text before the edit count in an edit notice. */
  const EditedMark: string := ", edited "

  /** The page phpBB shows instead of the quote form when quoting is refused. */
  const InformationMark: string := "<h2>Information</h2>"

  /** The error `parseString` and `parseStringQuote` throw without a post. */
  const NoPostMessage: string := "Given elem does not contain a phpbb post"

  datatype PostEdits = PostEdits(user: string, times: Num, timestamp: Timestamp, reason: string)
  datatype PostInfo = PostInfo(subject: string, user: string, id: Num, timestamp: Timestamp)
  datatype PostBody = PostBody(htmlbody: string, parsed: BBCodeParser.ParsedBBCode)
  datatype Post = Post(edits: PostEdits, info: PostInfo, body: PostBody)

  /** What the parser calls out to: the HTML-to-BBCode and BBCode parses of a
      body, the text of the `textarea` of a page, and the page at a URL. The
      code calls the two parses as `parseHTML` and `parseBBCode` of its
      `BBCodeParser`, which defines neither, so as written both calls throw;
      here they stand for the converters the code evidently intends. */
  datatype Services = Services(
    parseHTML: string -> BBCodeParser.ParsedBBCode,
    parseBBCode: string -> BBCodeParser.ParsedBBCode,
    textarea: string -> string,
    fetch: string -> string)

  /** The number in an `id` attribute such as `p42`: all but its first character. */
  function PostId(attr: string): Num {
    ToNumber(SliceFrom(attr, 1))
  }

  /** `parsePostInfo`: the author is the last word before the separator, the
      date the trimmed text after it, and the subject the text of the link to
      `#p<id>`. A missing `id` attribute or a missing separator throws. */
  function ParsePostInfo(e: PostElement): (r: Result<PostInfo>)
    ensures r.Err? <==> e.id.None? || !Contains(e.author, AuthorSeparator)
    ensures r.Err? ==> r.error == TypeError
    ensures r.Ok? ==> r.value.id == PostId(e.id.value)
  {
    var text := Split(e.author, AuthorSeparator);
    if e.id.None? then Err(TypeError)
    else
      var id := PostId(e.id.value);
      var user := Trim(Last(Split(Trim(text[0]), " ")));
      if |text| < 2 then Err(TypeError)
      else Ok(PostInfo(e.anchorText("#p" + NumToString(id)), user, id, DateOf(Trim(text[1]), true)))
  }

  /** An author line `by <name> Â» <date>` and an id `p<n>` give back the
      one-word name, the number and the date. */
  lemma AuthorLine(e: PostElement, name: string, date: string, n: nat)
    requires name != [] && forall k :: 0 <= k < |name| ==> !IsSpace(name[k])
    requires '\U{00C2}' !in name && '\U{00C2}' !in date
    requires e.author == "by " + name + " " + AuthorSeparator + date
    requires e.id == Some("p" + NatToString(n))
    ensures ParsePostInfo(e)
         == Ok(PostInfo(e.anchorText("#p" + NatToString(n)), name, Int(n), DateOf(Trim(date), true)))
  {
    SplitPair("by " + name + " ", AuthorSeparator, date);
    AuthorWord(name);
    IdOf(n);
    InfoOfPieces(e, "by " + name + " ", date, name, Int(n));
  }

  /** `parsePostInfo` in terms of the two sides of the separator. */
  lemma InfoOfPieces(e: PostElement, lead: string, date: string, user: string, id: Num)
    requires e.id.Some? && PostId(e.id.value) == id
    requires Split(e.author, AuthorSeparator) == [lead, date]
    requires Trim(Last(Split(Trim(lead), " "))) == user
    ensures ParsePostInfo(e) == Ok(PostInfo(e.anchorText("#p" + NumToString(id)), user, id, DateOf(Trim(date), true)))
  {
  }

  /** The last word of `by <name> ` is the one-word name. */
  lemma AuthorWord(name: string)
    requires name != [] && forall k :: 0 <= k < |name| ==> !IsSpace(name[k])
    ensures Trim(Last(Split(Trim("by " + name + " "), " "))) == name
  {
    TrimTrailingSpace("by " + name, ' ');
    assert ' ' !in name by {
      assert IsSpace(' ');
    }
    assert "by " + name == "by" + " " + name;
    SplitPair("by", " ", name);
    TrimNoSpace(name);
  }

  /** The id attribute `p<n>` is read back as `n`, and printed as it was. */
  lemma IdOf(n: nat)
    ensures PostId("p" + NatToString(n)) == Int(n)
    ensures NumToString(Int(n)) == NatToString(n)
  {
    assert SliceFrom("p" + NatToString(n), 1) == NatToString(n);
    ToNumberOfIntToString(n);
  }

  /** `parsePostEdits`: without a notice, no edit. With one, the time is the
      text between the first ` on ` and `, edited`, the count the word after
      `, edited `, and the reason the text after the first `.` less its first
      word, trimmed. The user is always `'0'`. A notice without ` on ` or
      without `, edited ` throws. */
  function ParsePostEdits(notice: Option<Notice>): (r: Result<PostEdits>)
    ensures notice.None? ==> r == Ok(PostEdits("0", Int(0), Zero, ""))
    ensures r.Err? <==> (notice.Some?
                         && (!Contains(notice.value.text, " on ") || !Contains(notice.value.text, EditedMark)))
    ensures r.Err? ==> r.error == TypeError
    ensures r.Ok? ==> r.value.user == "0"
  {
    if notice.None? then Ok(PostEdits("0", Int(0), Zero, ""))
    else
      var t := notice.value.text;
      var on := Split(t, " on ");
      if |on| < 2 then Err(TypeError)
      else
        var timestamp := DateOf(Split(on[1], ", edited")[0], true);
        var edited := Split(t, EditedMark);
        if |edited| < 2 then Err(TypeError)
        else
          var times := ToNumber(Split(edited[1], " ")[0]);
          var reason := Trim(Join(Split(Join(Split(t, ".")[1..], "."), " ")[1..], " "));
          Ok(PostEdits("0", times, timestamp, reason))
  }

  /** The edit reason is the notice after its first `.`, then after the first
      space of that, trimmed (empty when either is missing). */
  lemma EditReason(notice: Notice)
    requires ParsePostEdits(Some(notice)).Ok?
    ensures ParsePostEdits(Some(notice)).value.reason == Trim(AfterFirst(AfterFirst(notice.text, "."), " "))
  {
    JoinTailOfSplit(notice.text, ".");
    JoinTailOfSplit(AfterFirst(notice.text, "."), " ");
  }

  /** A notice `<a>, edited <n> <b>` whose first `, edited ` is that one counts
      `n` edits. */
  lemma EditCount(notice: Notice, a: string, n: nat, b: string)
    requires notice.text == a + EditedMark + (NatToString(n) + " " + b)
    requires IndexOf(notice.text, EditedMark) == |a|
    requires Contains(notice.text, " on ")
    ensures ParsePostEdits(Some(notice)).Ok?
    ensures ParsePostEdits(Some(notice)).value.times == Int(n)
  {
    var digits := NatToString(n);
    forall k | 0 <= k < |digits| ensures digits[k] != ' ' && digits[k] != ',' {
      assert IsDigit(digits[k]);
    }
    CountPiece(a, digits, b);
    EditFields(notice);
    ToNumberOfIntToString(n);
  }

  /** The word after the first `, edited ` of `<a>, edited <w> <b>`. */
  lemma CountPiece(a: string, w: string, b: string)
    requires ' ' !in w && ',' !in w
    requires IndexOf(a + EditedMark + (w + " " + b), EditedMark) == |a|
    ensures Split(Split(a + EditedMark + (w + " " + b), EditedMark)[1], " ")[0] == w
  {
    var rest := w + " " + b;
    SplitAfter(a, EditedMark, rest);
    NoMarkBefore(w, b);
    FirstPieceKeeps(rest, EditedMark, |w| + 1);
    FirstWord(Split(rest, EditedMark)[0], w);
  }

  /** No `, edited ` starts inside `<w> ` when `w` holds no comma. */
  lemma NoMarkBefore(w: string, b: string)
    requires ',' !in w
    ensures forall j :: 0 <= j < |w| + 1 ==> !OccursAt(w + " " + b, EditedMark, j)
  {
    var rest := w + " " + b;
    forall j | 0 <= j < |w| + 1 ensures !OccursAt(rest, EditedMark, j) {
      if j + 9 <= |rest| {
        var x := rest[j..j + 9];
        assert x[0] == rest[j];
        if j < |w| {
          assert rest[j] == w[j];
        } else {
          assert rest[j] == ' ';
        }
      }
    }
  }

  /** The time and the count of an edit notice that parses, in terms of its
      pieces. */
  lemma EditFields(notice: Notice)
    requires ParsePostEdits(Some(notice)).Ok?
    ensures ParsePostEdits(Some(notice)).value.timestamp
         == DateOf(Split(Split(notice.text, " on ")[1], ", edited")[0], true)
    ensures ParsePostEdits(Some(notice)).value.times
         == ToNumber(Split(Split(notice.text, EditedMark)[1], " ")[0])
  {
  }

  /** A notice `<a> on <d>, edited<b>` whose first ` on ` is that one, where `d`
      holds neither ` on ` nor `, edited`, records the edit time `d`. */
  lemma EditTime(notice: Notice, a: string, d: string, b: string)
    requires notice.text == a + " on " + (d + ", edited" + b)
    requires IndexOf(notice.text, " on ") == |a|
    requires !Contains(d, " on ") && IndexOf(d + ", edited", ", edited") == |d|
    requires Contains(notice.text, EditedMark)
    ensures ParsePostEdits(Some(notice)).Ok?
    ensures ParsePostEdits(Some(notice)).value.timestamp == DateOf(d, true)
  {
    TimePiece(a, d, b);
    EditFields(notice);
  }

  /** The text between the first ` on ` and the next `, edited` of
      `<a> on <d>, edited<b>`. */
  lemma TimePiece(a: string, d: string, b: string)
    requires IndexOf(a + " on " + (d + ", edited" + b), " on ") == |a|
    requires !Contains(d, " on ") && IndexOf(d + ", edited", ", edited") == |d|
    ensures Split(Split(a + " on " + (d + ", edited" + b), " on ")[1], ", edited")[0] == d
  {
    var rest := d + ", edited" + b;
    SplitAfter(a, " on ", rest);
    NoOnBefore(d, b);
    FirstPieceKeeps(rest, " on ", |d| + 8);
    FirstPieceIs(Split(rest, " on ")[0], d, ", edited");
  }

  /** No ` on ` starts inside `<d>, edited` when `d` holds none. */
  lemma NoOnBefore(d: string, b: string)
    requires !Contains(d, " on ")
    ensures forall j :: 0 <= j < |d| + 8 ==> !OccursAt(d + ", edited" + b, " on ", j)
  {
    var head := d + ", edited";
    var rest := head + b;
    forall j | 0 <= j < |head| ensures !OccursAt(rest, " on ", j) {
      if j + 4 <= |d| {
        assert rest[j..j + 4] == d[j..j + 4];
        assert !OccursAt(d, " on ", j);
      } else if j + 4 <= |rest| {
        var w := rest[j..j + 4];
        if j < |d| {
          assert w[|d| - j] == ',';
        } else if j == |d| + 1 {
          assert w[1] == 'e';
        } else {
          assert w[0] == head[j] != ' ';
        }
      }
    }
  }

  /** `parseFromTextArea`'s slice: the text after the first `]` with its last
      nine characters (the closing `[/quote]` and a line break) cut. */
  function TextAreaBody(textarea: string): string {
    BodyAfter(textarea, IndexOf(textarea, "]"))
  }

  /** The text after index `i` with its last nine characters cut. */
  function BodyAfter(textarea: string, i: int): string
    requires -1 <= i
  {
    DropLast(SliceFrom(textarea, i + 1), 9)
  }

  /** The body is the text between the first `]` and the last nine
      characters; a text area too short for that gives the empty body, and one
      without `]` loses only its last nine characters. */
  lemma TextAreaParts(textarea: string)
    ensures var i, body := IndexOf(textarea, "]"), TextAreaBody(textarea);
      && (i >= 0 ==> textarea[i] == ']' && ']' !in textarea[..i])
      && (i >= 0 && |textarea| >= i + 10 ==> body == textarea[i + 1..|textarea| - 9])
      && (i >= 0 && |textarea| < i + 10 ==> body == "")
      && (i < 0 ==> body == DropLast(textarea, 9))
  {
    var i := IndexOf(textarea, "]");
    if i >= 0 {
      FirstChar(textarea, ']');
    }
    BodyAfterParts(textarea, i);
  }

  /** The same, for any index from -1 on. */
  lemma BodyAfterParts(textarea: string, i: int)
    requires -1 <= i
    ensures i >= 0 && |textarea| >= i + 10 ==> BodyAfter(textarea, i) == textarea[i + 1..|textarea| - 9]
    ensures i >= 0 && |textarea| < i + 10 ==> BodyAfter(textarea, i) == ""
    ensures i < 0 ==> BodyAfter(textarea, i) == DropLast(textarea, 9)
  {
    if i < 0 {
      assert SliceFrom(textarea, i + 1) == textarea;
    } else if |textarea| >= i + 10 {
      var from := textarea[i + 1..];
      assert SliceFrom(textarea, i + 1) == from;
      assert from[..|from| - 9] == textarea[i + 1..|textarea| - 9];
    } else {
      assert |SliceFrom(textarea, i + 1)| < 9;
    }
  }

  /** `parseFromTextArea`: the body of a quote page's text area, parsed as BBCode. */
  function ParseFromTextArea(page: string, svc: Services): (r: PostBody)
    ensures r.htmlbody == TextAreaBody(svc.textarea(page))
    ensures r.parsed == svc.parseBBCode(r.htmlbody)
  {
    var body := TextAreaBody(svc.textarea(page));
    PostBody(body, svc.parseBBCode(body))
  }

  /** The URL of the quote page of post `id` in forum `fid`. */
  function QuoteUrl(baseUrl: string, fid: Num, id: Num): string {
    baseUrl + "posting.php?mode=quote&f=" + NumToString(fid) + "&p=" + NumToString(id)
  }

  /** `getAndParseQuoteBody`: no body when the quote page is the information
      page, the text area's body otherwise. */
  function QuoteBody(id: Num, fid: Num, baseUrl: string, svc: Services): (r: Option<PostBody>)
    ensures r.None? <==> Contains(svc.fetch(QuoteUrl(baseUrl, fid, id)), InformationMark)
    ensures r.Some? ==> r.value == ParseFromTextArea(svc.fetch(QuoteUrl(baseUrl, fid, id)), svc)
  {
    var page := svc.fetch(QuoteUrl(baseUrl, fid, id));
    if IndexOf(page, InformationMark) != -1 then None else Some(ParseFromTextArea(page, svc))
  }

  /** `parsePostBody`: the inner HTML of the content, converted. */
  function ParsePostBody(e: PostElement, svc: Services): (r: PostBody)
    ensures r.htmlbody == e.content && r.parsed == svc.parseHTML(e.content)
  {
    PostBody(e.content, svc.parseHTML(e.content))
  }

  /** `parseStringQuote`: the first post's info and edits, and its body from the
      quote page, or the rendered body when the quote page is refused. */
  function ParseStringQuote(posts: seq<PostElement>, fid: Num, baseUrl: string, svc: Services): (r: Result<Post>)
    ensures posts == [] <==> r == Err(Thrown(NoPostMessage))
    ensures r.Ok? ==> (Ok(r.value.info) == ParsePostInfo(posts[0])
                       && Ok(r.value.edits) == ParsePostEdits(posts[0].notice))
  {
    if posts == [] then Err(Thrown(NoPostMessage))
    else
      var info :- ParsePostInfo(posts[0]);
      var edits :- ParsePostEdits(posts[0].notice);
      var body := match QuoteBody(info.id, fid, baseUrl, svc)
        case Some(b) => b
        case None => ParsePostBody(posts[0], svc);
      Ok(Post(edits, info, body))
  }

  /** The quote page's body is used whenever it is not the information page,
      and the rendered body exactly when it is. */
  lemma QuoteFallback(posts: seq<PostElement>, fid: Num, baseUrl: string, svc: Services)
    requires ParseStringQuote(posts, fid, baseUrl, svc).Ok?
    ensures var r := ParseStringQuote(posts, fid, baseUrl, svc).value;
      var page := svc.fetch(QuoteUrl(baseUrl, fid, r.info.id));
      && (!Contains(page, InformationMark) ==> r.body == ParseFromTextArea(page, svc))
      && (Contains(page, InformationMark) ==> r.body == ParsePostBody(posts[0], svc))
  {
  }

  /** `parse`: body, edits and info of one post element. */
  function Parse(e: PostElement, svc: Services): (r: Result<Post>)
    ensures r.Ok? <==> ParsePostEdits(e.notice).Ok? && ParsePostInfo(e).Ok?
    ensures r.Ok? ==> r.value == Post(ParsePostEdits(e.notice).value, ParsePostInfo(e).value, ParsePostBody(e, svc))
  {
    var body := ParsePostBody(e, svc);
    var edits :- ParsePostEdits(e.notice);
    var info :- ParsePostInfo(e);
    Ok(Post(edits, info, body))
  }

  /** `parseString`: the first post element parsed, or an error without one. */
  function ParseString(posts: seq<PostElement>, svc: Services): (r: Result<Post>)
    ensures posts == [] <==> r == Err(Thrown(NoPostMessage))
    ensures posts != [] ==> r == Parse(posts[0], svc)
  {
    if posts == [] then Err(Thrown(NoPostMessage)) else Parse(posts[0], svc)
  }
}
