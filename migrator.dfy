/** The migration: crawling the old board's forum and topic listings, turning
    each post into a row, registering each author once, and writing rows out
    as SQL value lists. The pages of the old board are given by a `Site`. */
module Migrator {
  import opened Js
  import opened Text
  import opened Dom
  import opened Rows
  import opened Tables
  import opened Pages
  import Utils
  import Bits
  import Bitfield
  import PhpbbPostParser

  /** A `div.forabg` block of a forum page: the `href` of every link inside
      one of its `dt` elements, in page order (the `dt a` query), and the
      `href` of each of its `a.forumtitle` links; `None` where a link lacks
      the attribute. */
  datatype ForumBlock = ForumBlock(dtHrefs: seq<Option<string>>, forumHrefs: seq<Option<string>>)

  /** What the crawl reads from one listing page of a forum: the text of its
      `h2`, its subforum blocks and its topic entries. */
  datatype ForumPage = ForumPage(heading: string, blocks: seq<ForumBlock>, topics: seq<TopicItem>)

  /** The old board and the nondeterministic inputs of the migration:
      `forum(f, start)` is the listing `viewforum.php?f=<f>&start=<start>`,
      `posts(f, t, start)` the inner HTML of each `div.post` of
      `viewtopic.php?f=<f>&t=<t>&start=<start>`, `elements(html)` the post
      elements found in a string of HTML, `feed` the HTML-to-BBCode
      conversion, `uid(k)` the uid drawn for the k-th parsed post and
      `password(k)` the random password drawn for the k-th new user. */
  datatype Site = Site(
    forum: (int, nat) -> ForumPage,
    posts: (Num, Num, nat) -> seq<string>,
    elements: string -> seq<PostElement>,
    feed: string -> string,
    uid: nat -> string,
    password: nat -> string)

  /** The numbering of the new board and the old forums to crawl. */
  datatype Config = Config(
    startUserId: int, startTopicId: int, startPostId: int,
    startForumId: int, rootForumId: int, formIds: seq<int>)

  /** Every counter starts at 1, roots hang under forum 0, nothing to crawl. */
  const DefaultConfig: Config := Config(1, 1, 1, 1, 0, [])

  /** The codes of the post parser the migration uses. */
  const PostCodes: seq<string> := PhpbbPostParser.Codes(PhpbbPostParser.DefaultTags)

  // ---------------------------------------------------------------------------
  // Ids in links

  /** `getId`: the number after the last `=` of a link. */
  function GetId(href: string): Num {
    ToNumber(Last(Split(href, "=")))
  }

  /** A link ending in `=<n>` gives `n`. */
  lemma GetIdOf(prefix: string, n: nat)
    ensures GetId(prefix + "=" + NatToString(n)) == Int(n)
  {
    var d := NatToString(n);
    assert '=' !in d by {
      forall k | 0 <= k < |d| ensures d[k] != '=' {
        assert IsDigit(d[k]);
      }
    }
    SplitAround(prefix, '=', d);
    SplitAroundFirst(d, '=', "");
    assert Split(prefix + "=" + d, "=") == Split(prefix, "=") + [d];
    ToNumberOfIntToString(n);
  }

  /** Only the text after the last `=` counts: an earlier `=` is ignored. */
  lemma GetIdLastWins(a: string, b: string)
    ensures GetId(a + "=" + b) == GetId(b)
  {
    SplitAround(a, '=', b);
    var pieces := Split(b, "=");
    assert Last(Split(a, "=") + pieces) == Last(pieces);
  }

  /** `.attr('href')` of the `dt a` query: the `href` of its first link, and
      none when the block has no link inside a `dt`. The query result is
      always an object, so its `|| { attr: () => '' }` fallback is never
      taken. */
  function CategoryHref(b: ForumBlock): Option<string> {
    if b.dtHrefs == [] then None else b.dtHrefs[0]
  }

  /** The block is taken for one category: the first link inside a `dt` has a
      non-empty `href` (an absent or empty one is falsy). */
  predicate IsCategory(b: ForumBlock) {
    CategoryHref(b).Some? && CategoryHref(b).value != ""
  }

  /** Every forum link of the block has an `href`. */
  predicate HrefsPresent(b: ForumBlock) {
    forall k :: 0 <= k < |b.forumHrefs| ==> b.forumHrefs[k].Some?
  }

  /** The entries one block adds: its category, or each of its forums. */
  function BlockPending(b: ForumBlock): seq<(Num, bool)>
    requires IsCategory(b) || HrefsPresent(b)
  {
    if IsCategory(b) then [(GetId(CategoryHref(b).value), true)]
    else seq(|b.forumHrefs|, k requires 0 <= k < |b.forumHrefs| && b.forumHrefs[k].Some? => (GetId(b.forumHrefs[k].value), false))
  }

  /** The subforums to crawl, in page order; a forum link without `href`
      makes `getId` read `split` of `undefined`. */
  function Pending(blocks: seq<ForumBlock>): (r: Result<seq<(Num, bool)>>)
    ensures blocks == [] ==> r == Ok([])
    ensures r.Err? ==> r.error == TypeError
  {
    if blocks == [] then Ok([])
    else if !IsCategory(blocks[0]) && !HrefsPresent(blocks[0]) then Err(TypeError)
    else
      var rest := Pending(blocks[1..]);
      if rest.Err? then rest else Ok(BlockPending(blocks[0]) + rest.value)
  }

  /** The blocks list subforums to crawl. */
  predicate ListsSubforums(blocks: seq<ForumBlock>) {
    Pending(blocks).Ok? && Pending(blocks).value != []
  }

  /** A category block in front adds exactly one category entry. */
  lemma PendingOfCategory(b: ForumBlock, rest: seq<ForumBlock>)
    requires IsCategory(b)
    ensures Pending([b] + rest).Ok? <==> Pending(rest).Ok?
    ensures Pending(rest).Ok? ==> Pending([b] + rest).value == [(GetId(CategoryHref(b).value), true)] + Pending(rest).value
  {
    assert ([b] + rest)[1..] == rest;
  }

  /** A block of forum links in front adds one forum entry per link, in
      order, and fails when one of its links has no `href`. */
  lemma PendingOfForums(b: ForumBlock, rest: seq<ForumBlock>)
    requires !IsCategory(b)
    ensures Pending([b] + rest).Ok? <==> HrefsPresent(b) && Pending(rest).Ok?
    ensures Pending([b] + rest).Ok? ==>
      var v := Pending([b] + rest).value;
      |v| == |b.forumHrefs| + |Pending(rest).value|
      && (forall k :: 0 <= k < |b.forumHrefs| ==> v[k] == (GetId(b.forumHrefs[k].value), false))
      && v[|b.forumHrefs|..] == Pending(rest).value
  {
    assert ([b] + rest)[1..] == rest;
  }

  /** On phpBB's forum list each `a.forumtitle` sits inside a `dt`, so the
      first `dt a` link is the block's first forum. That forum is then taken
      for a category, and the block's other forums are never queued. */
  lemma FirstForumTakenForCategory(b: ForumBlock, rest: seq<ForumBlock>)
    requires b.forumHrefs != [] && b.dtHrefs != [] && b.dtHrefs[0] == b.forumHrefs[0]
    requires b.forumHrefs[0].Some? && b.forumHrefs[0].value != ""
    ensures Pending([b] + rest).Ok? <==> Pending(rest).Ok?
    ensures Pending(rest).Ok? ==> Pending([b] + rest).value == [(GetId(b.forumHrefs[0].value), true)] + Pending(rest).value
  {
    PendingOfCategory(b, rest);
  }

  /** The list fails exactly when some block is not a category and has a
      forum link without `href`. */
  lemma {:induction false} PendingFails(blocks: seq<ForumBlock>)
    ensures Pending(blocks).Err? <==> exists k :: 0 <= k < |blocks| && !IsCategory(blocks[k]) && !HrefsPresent(blocks[k])
    decreases |blocks|
  {
    if blocks != [] {
      PendingFails(blocks[1..]);
      if exists k :: 0 <= k < |blocks[1..]| && !IsCategory(blocks[1..][k]) && !HrefsPresent(blocks[1..][k]) {
        var k :| 0 <= k < |blocks[1..]| && !IsCategory(blocks[1..][k]) && !HrefsPresent(blocks[1..][k]);
        assert blocks[1..][k] == blocks[k + 1];
      }
      if exists k :: 0 <= k < |blocks| && !IsCategory(blocks[k]) && !HrefsPresent(blocks[k]) {
        var k :| 0 <= k < |blocks| && !IsCategory(blocks[k]) && !HrefsPresent(blocks[k]);
        if k > 0 {
          assert blocks[1..][k - 1] == blocks[k];
        }
      }
    }
  }

  /** Blocks without a link inside a `dt` only give forums, never categories. */
  lemma {:induction false} PendingOfForumBlocks(blocks: seq<ForumBlock>)
    requires forall k :: 0 <= k < |blocks| ==> blocks[k].dtHrefs == []
    ensures Pending(blocks).Ok? ==> forall k :: 0 <= k < |Pending(blocks).value| ==> !Pending(blocks).value[k].1
    decreases |blocks|
  {
    if blocks != [] {
      PendingOfForumBlocks(blocks[1..]);
    }
  }

  // ---------------------------------------------------------------------------
  // SQL text

  /** The text a cell has inside a template literal. */
  function CellText(v: Value): string {
    match v
    case Number(n) => NumToString(n)
    case Str(s) => s
  }

  /** A cell between single quotes, its text not escaped. */
  function Quoted(v: Value): string {
    "'" + CellText(v) + "'"
  }

  function QuotedCells(r: Row): seq<string> {
    seq(|r|, k requires 0 <= k < |r| => Quoted(r[k]))
  }

  /** `toSQLString`: every cell quoted, numbers included, joined by `, `
      between parentheses. */
  function ToSqlString(r: Row): (s: string)
    ensures |s| >= 2 && s[0] == '(' && s[|s| - 1] == ')'
    ensures r == [] ==> s == "()"
  {
    "(" + Join(QuotedCells(r), ", ") + ")"
  }

  /** `toSQLValues`: the rows' value lists, one per line, separated by commas. */
  function ToSqlValues(rows: seq<Row>): (s: string)
    ensures rows == [] ==> s == ""
    ensures |rows| == 1 ==> s == ToSqlString(rows[0])
  {
    Join(seq(|rows|, k requires 0 <= k < |rows| => ToSqlString(rows[k])), ",\n")
  }

  /** Numbers are written between quotes like strings. */
  lemma NumberIsQuoted(n: nat)
    ensures ToSqlString([Number(Int(n))]) == "('" + NatToString(n) + "')"
  {
    assert QuotedCells([Number(Int(n))]) == ["'" + NatToString(n) + "'"];
  }

  /** A quote inside a string cell is not escaped: the value list of
      `O'Brien` has three quotes and ends the value early. */
  lemma QuoteNotEscaped()
    ensures ToSqlString([Str("O'Brien")]) == "('O'Brien')"
    ensures CountChar(ToSqlString([Str("O'Brien")]), '\'') == 3
  {
    var cells := QuotedCells([Str("O'Brien")]);
    assert cells[0] == "'O'Brien'";
    assert cells == [cells[0]];
  }

  function QuoteCount(parts: seq<string>): nat {
    if parts == [] then 0 else CountChar(parts[0], '\'') + QuoteCount(parts[1..])
  }

  lemma {:induction false} JoinCount(parts: seq<string>, sep: string, c: char)
    requires c !in sep
    ensures CountChar(Join(parts, sep), c) == (if parts == [] then 0 else CountChar(parts[0], c) + CountChar(Join(parts[1..], sep), c))
  {
    if |parts| >= 2 {
      CountCharAppend(parts[0] + sep, Join(parts[1..], sep), c);
      CountCharAppend(parts[0], sep, c);
      CountCharAbsent(sep, c);
    } else if |parts| == 1 {
      assert parts[1..] == [];
    }
  }

  lemma {:induction false} QuotesOfJoin(parts: seq<string>)
    ensures CountChar(Join(parts, ", "), '\'') == QuoteCount(parts)
    decreases |parts|
  {
    JoinCount(parts, ", ", '\'');
    if parts != [] {
      QuotesOfJoin(parts[1..]);
    }
  }

  lemma {:induction false} QuotesOfCells(r: Row)
    requires forall k :: 0 <= k < |r| ==> '\'' !in CellText(r[k])
    ensures QuoteCount(QuotedCells(r)) == 2 * |r|
    decreases |r|
  {
    if r != [] {
      assert QuotedCells(r)[1..] == QuotedCells(r[1..]);
      QuotesOfCells(r[1..]);
      CountCharAbsent(CellText(r[0]), '\'');
      CountCharAppend("'" + CellText(r[0]), "'", '\'');
      CountCharAppend("'", CellText(r[0]), '\'');
    }
  }

  /** Cells without quotes give exactly two quotes per cell: each value is
      quoted once, whatever its kind. */
  lemma QuotesOfRow(r: Row)
    requires forall k :: 0 <= k < |r| ==> '\'' !in CellText(r[k])
    ensures CountChar(ToSqlString(r), '\'') == 2 * |r|
  {
    QuotesOfJoin(QuotedCells(r));
    QuotesOfCells(r);
    CountCharAppend("(" + Join(QuotedCells(r), ", "), ")", '\'');
    CountCharAppend("(", Join(QuotedCells(r), ", "), '\'');
  }

  /** The text of a number has no line break. */
  lemma NoBreakInNumber(n: Num)
    ensures '\n' !in NumToString(n)
  {
    match n
    case NaN =>
    case Int(v) =>
      var d := NatToString(if v < 0 then -v else v);
      assert forall k :: 0 <= k < |d| ==> IsDigit(d[k]);
  }

  lemma {:induction false} NoBreakInJoin(parts: seq<string>, sep: string)
    requires '\n' !in sep
    requires forall k :: 0 <= k < |parts| ==> '\n' !in parts[k]
    ensures '\n' !in Join(parts, sep)
    decreases |parts|
  {
    if |parts| >= 2 {
      NoBreakInJoin(parts[1..], sep);
    }
  }

  /** A row whose string cells have no line break is written on one line. */
  lemma NoBreakInRow(r: Row)
    requires forall k :: 0 <= k < |r| ==> r[k].Str? ==> '\n' !in r[k].text
    ensures '\n' !in ToSqlString(r)
  {
    var cells := QuotedCells(r);
    forall k | 0 <= k < |cells| ensures '\n' !in cells[k] {
      if r[k].Number? {
        NoBreakInNumber(r[k].num);
      }
    }
    NoBreakInJoin(cells, ", ");
  }

  /** The lines of the value lists: each row's, with a comma after all but the last. */
  function SqlLines(rows: seq<Row>): seq<string> {
    seq(|rows|, k requires 0 <= k < |rows| => ToSqlString(rows[k]) + (if k < |rows| - 1 then "," else ""))
  }

  lemma ValuesAreLines(rows: seq<Row>)
    ensures ToSqlValues(rows) == Join(SqlLines(rows), "\n")
  {
    var lists := seq(|rows|, k requires 0 <= k < |rows| => ToSqlString(rows[k]));
    assert SqlLines(rows) == CommaEnded(lists);
    CommaJoinIsLines(lists);
  }

  /** Every part but the last followed by a comma. */
  function CommaEnded(parts: seq<string>): seq<string> {
    seq(|parts|, k requires 0 <= k < |parts| => parts[k] + (if k < |parts| - 1 then "," else ""))
  }

  /** Joining with ",\n" is joining the comma-ended parts with "\n". */
  lemma {:induction false} CommaJoinIsLines(parts: seq<string>)
    ensures Join(parts, ",\n") == Join(CommaEnded(parts), "\n")
    decreases |parts|
  {
    if |parts| >= 2 {
      CommaJoinIsLines(parts[1..]);
      assert CommaEnded(parts)[1..] == CommaEnded(parts[1..]);
    }
  }

  /** Rows whose strings have no line break come out one per line, in order:
      line k is row k's value list, followed by a comma unless it is the last. */
  lemma ValuesLines(rows: seq<Row>)
    requires rows != []
    requires forall i, k :: 0 <= i < |rows| && 0 <= k < |rows[i]| ==> rows[i][k].Str? ==> '\n' !in rows[i][k].text
    ensures Split(ToSqlValues(rows), "\n") == SqlLines(rows)
  {
    ValuesAreLines(rows);
    var lines := SqlLines(rows);
    forall k | 0 <= k < |lines| ensures "\n"[0] !in lines[k] {
      NoBreakInRow(rows[k]);
    }
    SplitJoin(lines, "\n");
  }

  /** `getUserPasswords`: `username,password`, one line per user. */
  function PasswordList(users: seq<UserRow>): (r: string)
    ensures users == [] ==> r == ""
    ensures |users| == 1 ==> r == users[0].username + "," + users[0].password
  {
    Join(seq(|users|, k requires 0 <= k < |users| => users[k].username + "," + users[k].password), "\n")
  }

  /** Users whose names and passwords have no line break are listed one per
      line, in order, and each line splits back into the name and password
      when neither holds a comma. */
  lemma PasswordLines(users: seq<UserRow>, k: nat)
    requires k < |users|
    requires forall i :: 0 <= i < |users| ==> '\n' !in users[i].username && '\n' !in users[i].password
    requires ',' !in users[k].username && ',' !in users[k].password
    ensures |Split(PasswordList(users), "\n")| == |users|
    ensures Split(Split(PasswordList(users), "\n")[k], ",") == [users[k].username, users[k].password]
  {
    var lines := seq(|users|, i requires 0 <= i < |users| => users[i].username + "," + users[i].password);
    SplitJoin(lines, "\n");
    SplitPair(users[k].username, ",", users[k].password);
  }

  // ---------------------------------------------------------------------------
  // The migration state

  /** A migration in progress: `users` maps each cleaned author name to its
      row and `userKeys` lists those names in insertion order (a JavaScript
      `Map` iterates in that order); the three lists of rows grow as the crawl
      proceeds. `bound` is a ghost bound on the old board: every listing has a
      page that is not full at or before it, and forums at or above it have no
      subforums, so the crawl ends. */
  class Migrator {
    const config: Config
    const site: Site
    /** The codes of the migration's post parser. */
    const codes: seq<string>
    ghost const bound: nat

    var users: map<string, UserRow>
    var userKeys: seq<string>
    var forumRows: seq<ForumRow>
    var topicRows: seq<TopicRow>
    var postRows: seq<PostRow>
    /** The HTML each post row was made from. */
    ghost var sources: seq<string>

    /** The posts listed on page `k` of topic `tid` of forum `fid`. */
    function PostPage(fid: Num, tid: Num, k: nat): seq<string> {
      site.posts(fid, tid, 30 * k)
    }

    /** The listing page `k` of forum `fid`. */
    function ForumPageAt(fid: int, k: nat): ForumPage {
      site.forum(fid, 35 * k)
    }

    lemma PostPageAt(fid: Num, tid: Num, k: nat, start: int)
      requires start == 30 * k
      ensures site.posts(fid, tid, start) == PostPage(fid, tid, k)
    {
    }

    lemma ForumPageAtStart(fid: int, k: nat, start: int)
      requires start == 35 * k
      ensures site.forum(fid, start) == ForumPageAt(fid, k)
    {
    }

    /** Pages of 30 posts end. */
    ghost predicate PostsEnd() {
      forall f: Num, t: Num, k: nat :: k >= bound ==> |PostPage(f, t, k)| != 30
    }

    /** Listing pages of 35 topics end. */
    ghost predicate TopicsEnd() {
      forall f: int, k: nat :: k >= bound ==> |ForumPageAt(f, k).topics| != 35
    }

    /** Forums with ids from `bound` on list no subforums. */
    ghost predicate SubforumsEnd() {
      forall f: int :: f >= bound ==> !ListsSubforums(ForumPageAt(f, 0).blocks)
    }

    /** Pages of 30 posts and of 35 topics end, and subforums run out. */
    ghost predicate Finite() {
      PostsEnd() && TopicsEnd() && SubforumsEnd()
    }

    /** Ids are handed out in order from each start, the users' through the
        registry; every post's poster id is one already handed out. (`Finite`
        holds of the constant site from construction on and is required
        separately.) Every post row is the row of the content at the same
        index of `sources`, parsed with the row's uid, which is the uid drawn
        for that index. */
    ghost predicate Valid()
      reads this
    {
      && |codes| <= 8 * Bitfield.Size
      && Registry(userKeys, users, config.startUserId)
      && ForumsNumbered(forumRows, config.startForumId)
      && TopicsNumbered(topicRows, config.startTopicId)
      && PostsNumbered(postRows, config.startPostId, config.startUserId + |userKeys|)
      && AllMade(postRows, sources) && UidsDrawn(postRows, site.uid)
    }

    /** The id the next forum row gets: one past the last, or the start. */
    function NextForumId(): int
      reads this
    {
      if forumRows == [] then config.startForumId else Last(forumRows).id + 1
    }

    lemma NextForumIdIsCount()
      requires Valid()
      ensures NextForumId() == config.startForumId + |forumRows|
    {
    }

    /** `row` is the row the parse of `src` makes with the row's uid. */
    ghost predicate Made(row: PostRow, src: string) {
      RowFrom(site, codes, row, src, row.uid)
    }

    /** Each of `rows` is made from the content at the same index of `srcs`. */
    ghost predicate AllMade(rows: seq<PostRow>, srcs: seq<string>) {
      |rows| == |srcs| && forall i {:trigger Made(rows[i], srcs[i])} :: 0 <= i < |rows| ==> Made(rows[i], srcs[i])
    }

    lemma AllMadeAppend(rows: seq<PostRow>, srcs: seq<string>, row: PostRow, src: string)
      requires AllMade(rows, srcs) && AllMade([row], [src])
      ensures AllMade(rows + [row], srcs + [src])
    {
      forall i | 0 <= i < |rows| + 1
        ensures Made((rows + [row])[i], (srcs + [src])[i])
      {
        if i < |rows| {
          assert (rows + [row])[i] == rows[i] && (srcs + [src])[i] == srcs[i];
        }
      }
    }

    /** What was appended after two lined-up bases is made in turn. */
    lemma AllMadeSuffix(base: seq<PostRow>, rows: seq<PostRow>, sbase: seq<string>, srcs: seq<string>)
      requires AllMade(base + rows, sbase + srcs) && |base| == |sbase|
      ensures AllMade(rows, srcs)
    {
      forall i | 0 <= i < |rows|
        ensures Made(rows[i], srcs[i])
      {
        assert (base + rows)[|base| + i] == rows[i] && (sbase + srcs)[|base| + i] == srcs[i];
      }
    }

    /** The row of a post parsed from `contents` with uid `uid` carries that
        uid and is made from those contents. */
    lemma MadeOfParsed(contents: string, uid: string, p: PhpbbPostParser.Post, row: PostRow)
      requires ParsedFrom(site, codes, contents, uid, p)
      requires row == RowOf(row.id, row.topicId, row.forumId, row.posterId, p)
      ensures row.uid == uid && AllMade([row], [contents])
    {
      RowOfParsed(site, codes, contents, uid, p, row);
      assert Made([row][0], [contents][0]);
    }

    /** The post rows appended past `base` are tied to the contents appended
        past `sbase`, the indexes counted on from the base. */
    lemma AppendedMade(base: seq<PostRow>, rows: seq<PostRow>, sbase: seq<string>, srcs: seq<string>)
      requires Valid() && postRows == base + rows && sources == sbase + srcs && |base| == |sbase|
      ensures AllMade(rows, srcs)
    {
      AllMadeSuffix(base, rows, sbase, srcs);
    }

    constructor (config: Config, site: Site, ghost bound: nat)
      requires forall f: Num, t: Num, k: nat :: k >= bound ==> |site.posts(f, t, 30 * k)| != 30
      requires forall f: int, k: nat :: k >= bound ==> |site.forum(f, 35 * k).topics| != 35
      requires forall f: int :: f >= bound ==> !ListsSubforums(site.forum(f, 0).blocks)
      ensures Valid() && Finite()
      ensures this.config == config && this.site == site && this.bound == bound && codes == PostCodes
      ensures users == map[] && userKeys == [] && forumRows == [] && topicRows == [] && postRows == []
    {
      this.config := config;
      this.site := site;
      codes := PostCodes;
      this.bound := bound;
      users := map[];
      userKeys := [];
      forumRows := [];
      topicRows := [];
      postRows := [];
      sources := [];
    }

    /** The registered users in the order they were registered. */
    function Users(): (r: seq<UserRow>)
      requires Valid()
      reads this
      ensures |r| == |userKeys|
      ensures forall i :: 0 <= i < |r| ==> r[i].id == config.startUserId + i
    {
      RegisteredUsers(userKeys, users)
    }

    /** `getUserPasswords` */
    function UserPasswords(): string
      requires Valid()
      reads this
    {
      PasswordList(Users())
    }

    /** `createUserRow`: the row of the cleaned name if there is one, else a
        new row numbered after the registered ones. */
    method CreateUserRow(username: string) returns (row: UserRow)
      requires Valid()
      modifies this
      ensures Valid()
      ensures var clean := Utils.CleanUsername(username);
        if clean in old(users) then
          row == old(users)[clean] && users == old(users) && userKeys == old(userKeys)
        else
          && row == UserRow(config.startUserId + |old(users)|, username, clean, site.password(|old(users)|))
          && users == old(users)[clean := row] && userKeys == old(userKeys) + [clean]
      ensures users[Utils.CleanUsername(username)] == row
      ensures forumRows == old(forumRows) && topicRows == old(topicRows)
      ensures postRows == old(postRows) && sources == old(sources)
    {
      var clean := Utils.CleanUsername(username);
      if clean in users {
        row := users[clean];
      } else {
        row := UserRow(config.startUserId + |users|, username, clean, site.password(|users|));
        RegistrySize(userKeys, users, config.startUserId);
        RegistryAdd(userKeys, users, config.startUserId, row);
        users := users[clean := row];
        userKeys := userKeys + [clean];
      }
    }

    /** `createPostRow`: parse the contents, register the author, and append
        the post numbered after the existing ones. A parse error changes
        nothing. */
    method CreatePostRow(topicId: int, forumId: int, contents: string) returns (r: Result<PostRow>)
      requires Valid()
      modifies this
      ensures Valid()
      ensures forumRows == old(forumRows) && topicRows == old(topicRows)
      ensures r.Ok? <==> Parses(site, contents)
      ensures r.Err? ==> users == old(users) && userKeys == old(userKeys)
      ensures r.Err? ==> postRows == old(postRows) && sources == old(sources)
      ensures r.Ok? ==>
        && postRows == old(postRows) + [r.value]
        && sources == old(sources) + [contents]
        && r.value.id == config.startPostId + |old(postRows)|
        && r.value.topicId == topicId && r.value.forumId == forumId
        && FromContents(site, codes, r.value, contents, site.uid(|old(postRows)|))
        && PostedBy(r.value, users)
    {
      var uid := site.uid(|postRows|);
      var parsed :- ParseContents(site, codes, contents, uid);
      var post := AddPost(topicId, forumId, parsed, contents);
      r := Ok(post);
    }

    /** The second half of `createPostRow`: register the author of a parsed
        post and append its row, numbered after the existing ones. */
    method AddPost(topicId: int, forumId: int, p: PhpbbPostParser.Post, ghost source: string) returns (post: PostRow)
      requires Valid()
      requires ParsedFrom(site, codes, source, site.uid(|postRows|), p)
      modifies this
      ensures Valid()
      ensures forumRows == old(forumRows) && topicRows == old(topicRows)
      ensures postRows == old(postRows) + [post] && sources == old(sources) + [source]
      ensures post == RowOf(config.startPostId + |old(postRows)|, topicId, forumId, post.posterId, p)
      ensures PostedBy(post, users)
    {
      var userRow := CreateUserRow(p.info.user);
      post := RowOf(config.startPostId + |postRows|, topicId, forumId, userRow.id, p);
      MadeOfParsed(source, site.uid(|postRows|), p, post);
      AppendRow(post, source);
    }

    /** Appends a post row, numbered after the existing ones and by a
        registered user, together with the HTML it was made from. */
    method AppendRow(post: PostRow, ghost source: string)
      requires Valid()
      requires post.id == config.startPostId + |postRows|
      requires post.posterId < config.startUserId + |userKeys|
      requires post.uid == site.uid(|postRows|) && AllMade([post], [source])
      modifies this
      ensures Valid()
      ensures postRows == old(postRows) + [post] && sources == old(sources) + [source]
      ensures users == old(users) && userKeys == old(userKeys)
      ensures forumRows == old(forumRows) && topicRows == old(topicRows)
    {
      AppendPost(postRows, config.startPostId, config.startUserId + |userKeys|, post);
      AllMadeAppend(postRows, sources, post, source);
      UidsDrawnAppend(postRows, site.uid, post);
      postRows, sources := postRows + [post], sources + [source];
    }

    /** The posts of topic `tid` in the order they are turned into rows,
        from page `k` on: each page last post first, the next page read only
        after a page of exactly 30. */
    ghost function PostContents(fid: Num, tid: Num, k: nat): seq<string>
      decreases bound - k
    {
      var page := PostPage(fid, tid, k);
      Reversed(page) + (if |page| == 30 && k < bound then PostContents(fid, tid, k + 1) else [])
    }

    /** The posts from page `k` on are those of page `k`, last first, then,
        after a page of exactly 30, those from page `k + 1` on. */
    lemma PostContentsUnfold(fid: Num, tid: Num, k: nat)
      requires PostsEnd()
      ensures PostContents(fid, tid, k)
           == Reversed(PostPage(fid, tid, k)) + (if |PostPage(fid, tid, k)| == 30 then PostContents(fid, tid, k + 1) else [])
    {
    }

    /** After the posts of pages up to `k`, those from page `k + 1` on come
        from that page, and a full page `k + 1` lies before the bound. */
    lemma NextPostPage(fid: Num, tid: Num, k: nat, done: seq<string>)
      requires PostsEnd()
      requires Walked(done, [], PostContents(fid, tid, k + 1), PostContents(fid, tid, 0))
      ensures var page := PostPage(fid, tid, k + 1);
        && (|page| == 30 ==> k + 1 < bound)
        && Walked(done, page, if |page| == 30 then PostContents(fid, tid, k + 2) else [], PostContents(fid, tid, 0))
    {
      PostContentsUnfold(fid, tid, k + 1);
      var page := PostPage(fid, tid, k + 1);
      Refill(done, page, if |page| == 30 then PostContents(fid, tid, k + 2) else [], PostContents(fid, tid, 0));
    }

    /** When pages `k` to `k + m - 1` are full and page `k + m` is not, the
        topic has the 30 posts of each full page and those of the last one. */
    lemma {:induction false} PostCount(fid: Num, tid: Num, k: nat, m: nat)
      requires PostsEnd()
      requires forall j :: k <= j < k + m ==> |PostPage(fid, tid, j)| == 30
      requires |PostPage(fid, tid, k + m)| != 30
      ensures |PostContents(fid, tid, k)| == 30 * m + |PostPage(fid, tid, k + m)|
      decreases m
    {
      if m > 0 {
        assert |PostPage(fid, tid, k)| == 30;
        PostCount(fid, tid, k + 1, m - 1);
      }
    }

    /** `createTopic`: append the topic row, then turn every post of the
        topic into a row, page by page; `prows` and `srcs` are the post rows
        added and the post contents they were made of. */
    method CreateTopic(oldfid: Num, newfid: int, oldtid: Num, title: string, sticky: bool, locked: bool)
      returns (r: Result<TopicRow>, ghost prows: seq<PostRow>, ghost srcs: seq<string>)
      requires Valid() && PostsEnd()
      modifies this
      ensures Valid()
      ensures forumRows == old(forumRows)
      ensures topicRows == old(topicRows) + [TopicRow(config.startTopicId + |old(topicRows)|, Flag(sticky), newfid, title, Flag(locked))]
      ensures r.Ok? ==> r.value == Last(topicRows)
      ensures postRows == old(postRows) + prows && sources == old(sources) + srcs
      ensures InTopic(prows, Last(topicRows).id, newfid)
      ensures AllMade(prows, srcs)
      ensures r.Ok? ==> srcs == PostContents(oldfid, oldtid, 0)
    {
      var tid := |topicRows| + config.startTopicId;
      var tr := TopicRow(tid, Flag(sticky), newfid, title, Flag(locked));
      topicRows := topicRows + [tr];
      var done;
      done, prows, srcs := CreatePosts(oldfid, oldtid, tid, newfid);
      AppendedMade(old(postRows), prows, old(sources), srcs);
      if done.Err? {
        return Err(done.error), prows, srcs;
      }
      r := Ok(tr);
    }

    /** `createPostRow(posts.pop())`: the last post of the page becomes a
        row of topic `tid` in forum `newfid`; the rest of the page is
        returned. The ghost parameters follow the walk over the topic's
        pages: `rows` and `srcs` are the rows and contents made so far, past
        `base` and `sbase`. */
    method PopPost(tid: int, newfid: int, posts: seq<string>,
                   ghost base: seq<PostRow>, ghost rows: seq<PostRow>,
                   ghost sbase: seq<string>, ghost srcs: seq<string>,
                   ghost next: seq<string>, ghost whole: seq<string>)
      returns (r: Result<seq<string>>, ghost rows': seq<PostRow>, ghost srcs': seq<string>)
      requires Valid() && posts != []
      requires postRows == base + rows && sources == sbase + srcs && InTopic(rows, tid, newfid)
      requires Walked(srcs, posts, next, whole)
      modifies this
      ensures Valid()
      ensures forumRows == old(forumRows) && topicRows == old(topicRows)
      ensures postRows == base + rows' && sources == sbase + srcs' && InTopic(rows', tid, newfid)
      ensures r.Err? ==> rows' == rows && srcs' == srcs
      ensures r.Ok? ==> |rows'| == |rows| + 1 && rows' == rows + [Last(rows')] && srcs' == srcs + [posts[|posts| - 1]]
      ensures r.Ok? ==> r.value == posts[..|posts| - 1] && Walked(srcs', r.value, next, whole)
    {
      var content := posts[|posts| - 1];
      var post := CreatePostRow(tid, newfid, content);
      if post.Err? {
        return Err(post.error), rows, srcs;
      }
      TakeLast(srcs, posts, next, whole);
      AppendAssoc(sbase, srcs, [content]);
      AppendAssoc(base, rows, [post.value]);
      InTopicAppend(rows, post.value, tid, newfid);
      rows', srcs' := rows + [post.value], srcs + [content];
      r := Ok(posts[..|posts| - 1]);
    }

    /** The loop of `createTopic`: read the topic's first page of posts and
        turn its posts into rows last first; after a page of exactly 30,
        read the next one. */
    method CreatePosts(oldfid: Num, oldtid: Num, tid: int, newfid: int)
      returns (r: Result<()>, ghost rows: seq<PostRow>, ghost srcs: seq<string>)
      requires Valid() && PostsEnd()
      modifies this
      ensures Valid()
      ensures forumRows == old(forumRows) && topicRows == old(topicRows)
      ensures postRows == old(postRows) + rows && sources == old(sources) + srcs
      ensures InTopic(rows, tid, newfid)
      ensures r.Ok? ==> srcs == PostContents(oldfid, oldtid, 0)
    {
      rows, srcs := [], [];
      ghost var k: nat := 0;
      var start := 0;
      var posts := site.posts(oldfid, oldtid, start);
      var cont := |posts| == 30;
      assert posts == PostPage(oldfid, oldtid, 0);
      PostContentsUnfold(oldfid, oldtid, 0);
      Start(posts, if cont then PostContents(oldfid, oldtid, 1) else [], PostContents(oldfid, oldtid, 0));
      while |posts| > 0
        invariant Valid()
        invariant forumRows == old(forumRows) && topicRows == old(topicRows)
        invariant start == 30 * k
        invariant cont ==> k < bound
        invariant |posts| == 0 ==> !cont
        invariant postRows == old(postRows) + rows && sources == old(sources) + srcs
        invariant InTopic(rows, tid, newfid)
        invariant Walked(srcs, posts, if cont then PostContents(oldfid, oldtid, k + 1) else [], PostContents(oldfid, oldtid, 0))
        decreases if cont then bound - k else 0, |posts|
      {
        var turned;
        turned, posts, start, cont, k, rows, srcs :=
          PostTurn(oldfid, oldtid, tid, newfid, posts, start, cont, k, old(postRows), rows, old(sources), srcs);
        if turned.Err? {
          return Err(turned.error), rows, srcs;
        }
      }
      Finished(srcs, PostContents(oldfid, oldtid, 0));
      r := Ok(());
    }

    /** One turn of that loop: the last post of the page becomes a row, and
        a drained full page is followed by the next page. `rows` and `srcs`
        are what the topic's posts added so far past `base` and `sbase`. */
    method PostTurn(oldfid: Num, oldtid: Num, tid: int, newfid: int, posts: seq<string>, start: int, cont: bool,
                    ghost k: nat, ghost base: seq<PostRow>, ghost rows: seq<PostRow>,
                    ghost sbase: seq<string>, ghost srcs: seq<string>)
      returns (r: Result<()>, posts': seq<string>, start': int, cont': bool,
               ghost k': nat, ghost rows': seq<PostRow>, ghost srcs': seq<string>)
      requires Valid() && PostsEnd() && posts != []
      requires start == 30 * k && (cont ==> k < bound)
      requires postRows == base + rows && sources == sbase + srcs && InTopic(rows, tid, newfid)
      requires Walked(srcs, posts, if cont then PostContents(oldfid, oldtid, k + 1) else [], PostContents(oldfid, oldtid, 0))
      modifies this
      ensures Valid()
      ensures forumRows == old(forumRows) && topicRows == old(topicRows)
      ensures postRows == base + rows' && sources == sbase + srcs' && InTopic(rows', tid, newfid)
      ensures r.Ok? ==> start' == 30 * k' && (cont' ==> k' < bound) && (|posts'| == 0 ==> !cont')
      ensures r.Ok? ==> Walked(srcs', posts', if cont' then PostContents(oldfid, oldtid, k' + 1) else [], PostContents(oldfid, oldtid, 0))
      ensures r.Ok? ==> (cont' == cont && k' == k && |posts'| < |posts|) || (cont && k' == k + 1)
    {
      ghost var next := if cont then PostContents(oldfid, oldtid, k + 1) else [];
      var popped;
      popped, rows', srcs' := PopPost(tid, newfid, posts, base, rows, sbase, srcs, next, PostContents(oldfid, oldtid, 0));
      posts', start', cont', k' := [], start, cont, k;
      if popped.Err? {
        return Err(popped.error), posts', start', cont', k', rows', srcs';
      }
      posts' := popped.value;
      if |posts'| == 0 && cont {
        posts', cont' := NextPosts(oldfid, oldtid, start, k, srcs');
        start' := start + 30;
        k' := k + 1;
      }
      r := Ok(());
    }

    /** The refill of `createTopic`'s loop: once page `k` is drained after
        being full, the page at the next offset is read, and `cont` says
        whether it is full in turn. */
    method NextPosts(oldfid: Num, oldtid: Num, start: int, ghost k: nat, ghost done: seq<string>)
      returns (posts: seq<string>, cont: bool)
      requires PostsEnd() && start == 30 * k
      requires Walked(done, [], PostContents(oldfid, oldtid, k + 1), PostContents(oldfid, oldtid, 0))
      ensures posts == PostPage(oldfid, oldtid, k + 1) && cont == (|posts| == 30)
      ensures cont ==> k + 1 < bound
      ensures Walked(done, posts, if cont then PostContents(oldfid, oldtid, k + 2) else [], PostContents(oldfid, oldtid, 0))
    {
      posts := site.posts(oldfid, oldtid, start + 30);
      PostPageAt(oldfid, oldtid, k + 1, start + 30);
      cont := |posts| == 30;
      NextPostPage(oldfid, oldtid, k, done);
    }

    // -------------------------------------------------------------------------
    // Forums

    /** The topic entries of forum `fid` in the order the crawl turns them into
        topics, from listing page `k` on: each page last entry first; the next
        page is read after the first page and after any page of exactly 35,
        unless the page just drained listed nothing. */
    ghost function Listed(fid: int, k: nat): seq<TopicItem>
      decreases bound + 1 - k
    {
      var topics := ForumPageAt(fid, k).topics;
      Reversed(topics) + (if topics != [] && (k == 0 || |topics| == 35) && k <= bound then Listed(fid, k + 1) else [])
    }

    /** After the entries of the pages before page `k`, those from page `k`
        on come from that page, `topics`, and a full page `k` lies before
        the bound. */
    lemma NextListingPage(fid: int, k: nat, done: seq<TopicItem>, topics: seq<TopicItem>)
      requires TopicsEnd() && 0 < k && topics == ForumPageAt(fid, k).topics
      requires Walked(done, [], Listed(fid, k), Listed(fid, 0))
      ensures |topics| == 35 ==> k < bound
      ensures Walked(done, topics, if |topics| == 35 && topics != [] then Listed(fid, k + 1) else [], Listed(fid, 0))
    {
      Refill(done, topics, if |topics| == 35 && topics != [] then Listed(fid, k + 1) else [], Listed(fid, 0));
    }

    /** The posts of the listed topics of old forum `oldfid`, topic by topic. */
    ghost function TopicPosts(oldfid: Num, items: seq<TopicItem>): seq<string>
    {
      if items == [] then []
      else
        var t := Last(items);
        TopicPosts(oldfid, items[..|items| - 1]) + (if t.href.Some? then PostContents(oldfid, GetId(t.href.value), 0) else [])
    }

    lemma TopicPostsAppend(oldfid: Num, items: seq<TopicItem>, t: TopicItem)
      requires t.href.Some?
      ensures TopicPosts(oldfid, items + [t]) == TopicPosts(oldfid, items) + PostContents(oldfid, GetId(t.href.value), 0)
    {
      assert (items + [t])[..|items|] == items;
    }

    /** One past the last forum id the crawl may recurse into. */
    ghost function Depth(fid: int): nat {
      if fid <= bound then bound - fid else 0
    }

    /** The row of a subforum: id `id`, under forum `fid`, with left and
        right ids `lid` and `lid + 1`, named by the heading of the first
        listing page read with its id, a category when `cat`. */
    function ChildRow(id: int, fid: int, lid: int, cat: bool): ForumRow {
      ForumRow(id, fid, lid, lid + 1, ForumPageAt(id, 0).heading, Flag(cat))
    }

    /** The direct subforums of forum `fid` among `rows` are one per entry
        of `pending`, in order, the `j`-th a subforum row made with the
        `j`-th entry's category flag. */
    ghost predicate Subforums(rows: seq<ForumRow>, fid: int, lid: int, pending: seq<(Num, bool)>) {
      var kids := Children(rows, fid);
      |kids| <= |pending| && forall j :: 0 <= j < |kids| ==> kids[j] == ChildRow(kids[j].id, fid, lid, pending[j].1)
    }

    /** One turn of the subforum loop adds the `i`-th pending subforum as the
        next direct child. */
    lemma SubforumStep(frows: seq<ForumRow>, f: seq<ForumRow>, i: int, fid: int, lid: int, pending: seq<(Num, bool)>)
      requires 0 <= i < |pending| && Subforums(frows, fid, lid, pending) && |Children(frows, fid)| == i
      requires f != [] && f[0] == ChildRow(f[0].id, fid, lid, pending[i].1)
      requires fid < f[0].id && Descendants(f[1..], f[0].id, lid)
      ensures Subforums(frows + f, fid, lid, pending) && |Children(frows + f, fid)| == i + 1
    {
      assert Children(f, fid) == [f[0]] by {
        assert f == [f[0]] + f[1..];
        ChildrenAppend([f[0]], f[1..], fid);
        ChildrenNone(f[1..], f[0].id, lid, fid);
      }
      ChildrenAppend(frows, f, fid);
      var kids, kids' := Children(frows, fid), Children(frows + f, fid);
      assert kids' == kids + [f[0]];
      forall j | 0 <= j < |kids'| ensures kids'[j] == ChildRow(kids'[j].id, fid, lid, pending[j].1) {
        if j < |kids| {
          assert kids'[j] == kids[j];
        }
      }
    }

    /** `crawlForum`: push the forum's row, crawl its subforums, then turn
        the topics of its listing into rows; a forum link without `href`
        throws right after the push. The listing is read with the new
        id `fid`; the posts of its topics are read with the old id `oldfid`.
        The ghost results name what is added: the forum rows of the
        subforums, the topic rows of the subforums and of this forum, the
        post rows, and the post contents of the subforums and of this forum. */
    method CrawlForum(oldfid: Num, fid: int, pid: int, lid: int, rid: int, iscat: bool)
      returns (r: Result<ForumRow>, ghost sub: seq<ForumRow>, ghost subTopics: seq<TopicRow>,
               ghost ownTopics: seq<TopicRow>, ghost prows: seq<PostRow>,
               ghost subSources: seq<string>, ghost ownSources: seq<string>)
      requires Valid() && Finite()
      requires fid == config.startForumId + |forumRows|
      modifies this
      decreases Depth(fid), 2
      ensures Valid()
      ensures forumRows == old(forumRows) + ([ForumRow(fid, pid, lid, rid, ForumPageAt(fid, 0).heading, Flag(iscat))] + sub)
      ensures Descendants(sub, fid, lid)
      ensures Pending(ForumPageAt(fid, 0).blocks).Err? ==>
        r == Err(TypeError) && sub == [] && topicRows == old(topicRows) && postRows == old(postRows)
      ensures Pending(ForumPageAt(fid, 0).blocks).Ok? ==> Subforums(sub, fid, lid, Pending(ForumPageAt(fid, 0).blocks).value)
      ensures r.Ok? ==> Pending(ForumPageAt(fid, 0).blocks).Ok?
      ensures r.Ok? ==> |Children(sub, fid)| == |Pending(ForumPageAt(fid, 0).blocks).value|
      ensures r.Ok? ==> r.value == forumRows[|old(forumRows)|]
      ensures topicRows == old(topicRows) + (subTopics + ownTopics)
      ensures postRows == old(postRows) + prows
      ensures sources == old(sources) + (subSources + ownSources)
      ensures AllMade(prows, subSources + ownSources)
      ensures r.Ok? ==> ListingRows(ownTopics, Listed(fid, 0), fid)
      ensures r.Ok? ==> ownSources == TopicPosts(oldfid, Listed(fid, 0))
    {
      var page := site.forum(fid, 0);
      var row := ForumRow(fid, pid, lid, rid, page.heading, Flag(iscat));
      forumRows := forumRows + [row];
      sub, subTopics, ownTopics, prows, subSources, ownSources := [], [], [], [], [], [];
      var pending := Pending(page.blocks);
      if pending.Err? {
        assert [row] + sub == [row];
        return Err(pending.error), sub, subTopics, ownTopics, prows, subSources, ownSources;
      }
      var crawled;
      crawled, sub, subTopics, prows, subSources := CrawlSubforums(fid, lid, pending.value);
      AppendAssoc(old(forumRows), [row], sub);
      if crawled.Err? {
        AppendedMade(old(postRows), prows, old(sources), subSources + ownSources);
        return Err(crawled.error), sub, subTopics, ownTopics, prows, subSources, ownSources;
      }
      ghost var t2, p2, s2 := topicRows, postRows, sources;
      var listed;
      ghost var ownPosts;
      listed, ownTopics, ownPosts, ownSources := CrawlTopics(oldfid, fid, page.topics);
      AppendAssoc(old(topicRows), subTopics, ownTopics);
      AppendAssoc(old(postRows), prows, ownPosts);
      AppendAssoc(old(sources), subSources, ownSources);
      prows := prows + ownPosts;
      AppendedMade(old(postRows), prows, old(sources), subSources + ownSources);
      if listed.Err? {
        return Err(listed.error), sub, subTopics, ownTopics, prows, subSources, ownSources;
      }
      r := Ok(row);
    }

    /** The first loop of `crawlForum`: crawl each pending subforum under
        parent `fid`, each taking the id after the last forum row and the
        left and right ids `lid` and `lid + 1`. */
    method CrawlSubforums(fid: int, lid: int, pending: seq<(Num, bool)>)
      returns (r: Result<()>, ghost frows: seq<ForumRow>, ghost trows: seq<TopicRow>,
               ghost prows: seq<PostRow>, ghost srcs: seq<string>)
      requires Valid() && Finite()
      requires Pending(ForumPageAt(fid, 0).blocks) == Ok(pending)
      requires config.startForumId <= fid < config.startForumId + |forumRows|
      modifies this
      decreases Depth(fid), 1
      ensures Valid()
      ensures forumRows == old(forumRows) + frows && Descendants(frows, fid, lid)
      ensures Subforums(frows, fid, lid, pending)
      ensures r.Ok? ==> |Children(frows, fid)| == |pending|
      ensures topicRows == old(topicRows) + trows
      ensures postRows == old(postRows) + prows && sources == old(sources) + srcs
    {
      frows, trows, prows, srcs := [], [], [], [];
      var i := 0;
      while i < |pending|
        invariant 0 <= i <= |pending|
        invariant Valid()
        invariant config.startForumId <= fid < config.startForumId + |forumRows|
        invariant forumRows == old(forumRows) + frows && Descendants(frows, fid, lid)
        invariant Subforums(frows, fid, lid, pending) && |Children(frows, fid)| == i
        invariant topicRows == old(topicRows) + trows
        invariant postRows == old(postRows) + prows && sources == old(sources) + srcs
      {
        var (ofid, cat) := pending[i];
        var child, f, t, p, s := CrawlChild(fid, lid, ofid, cat);
        SubforumStep(frows, f, i, fid, lid, pending);
        DescendantsAppend(frows, f, fid, lid);
        AppendAssoc(old(forumRows), frows, f);
        AppendAssoc(old(topicRows), trows, t);
        AppendAssoc(old(postRows), prows, p);
        AppendAssoc(old(sources), srcs, s);
        frows, trows, prows, srcs := frows + f, trows + t, prows + p, srcs + s;
        if child.Err? {
          return Err(child.error), frows, trows, prows, srcs;
        }
        i := i + 1;
      }
      r := Ok(());
    }

    /** One turn of that loop: the subforum `ofid` of forum `fid`, a category
        when `cat`, is crawled with the next forum id and left and right ids
        `lid` and `lid + 1`; all it adds lies under `fid`. */
    method CrawlChild(fid: int, lid: int, ofid: Num, cat: bool)
      returns (r: Result<ForumRow>, ghost frows: seq<ForumRow>, ghost trows: seq<TopicRow>,
               ghost prows: seq<PostRow>, ghost srcs: seq<string>)
      requires Valid() && Finite()
      requires ListsSubforums(ForumPageAt(fid, 0).blocks)
      requires config.startForumId <= fid < config.startForumId + |forumRows|
      modifies this
      decreases Depth(fid), 0
      ensures Valid()
      ensures forumRows == old(forumRows) + frows && Descendants(frows, fid, lid)
      ensures frows != [] && frows[0] == ChildRow(old(NextForumId()), fid, lid, cat)
      ensures Descendants(frows[1..], frows[0].id, lid)
      ensures topicRows == old(topicRows) + trows
      ensures postRows == old(postRows) + prows && sources == old(sources) + srcs
    {
      ListsBelowBound(fid);
      ghost var cid := Last(forumRows).id + 1;
      ghost var childRow := ForumRow(cid, fid, lid, lid + 1, ForumPageAt(cid, 0).heading, Flag(cat));
      ghost var sub: seq<ForumRow>, subT: seq<TopicRow>, ownT: seq<TopicRow>, subS: seq<string>, ownS: seq<string>;
      r, sub, subT, ownT, prows, subS, ownS := CrawlForum(ofid, Last(forumRows).id + 1, fid, lid, lid + 1, cat);
      ChildSubtree(childRow, sub, fid, lid);
      frows, trows, srcs := [childRow] + sub, subT + ownT, subS + ownS;
      assert frows[1..] == sub;
    }

    /** A forum that lists subforums lies below the bound. */
    lemma ListsBelowBound(fid: int)
      requires SubforumsEnd() && ListsSubforums(ForumPageAt(fid, 0).blocks)
      ensures fid < bound
    {
    }

    /** The second loop of `crawlForum`: turn the listed topics of forum
        `fid` into topics, last first, reading page after page of the listing. */
    method CrawlTopics(oldfid: Num, fid: int, first: seq<TopicItem>)
      returns (r: Result<()>, ghost trows: seq<TopicRow>, ghost prows: seq<PostRow>, ghost srcs: seq<string>)
      requires Valid() && PostsEnd() && TopicsEnd()
      requires first == ForumPageAt(fid, 0).topics
      modifies this
      ensures Valid()
      ensures forumRows == old(forumRows)
      ensures topicRows == old(topicRows) + trows
      ensures postRows == old(postRows) + prows && sources == old(sources) + srcs
      ensures r.Ok? ==> ListingRows(trows, Listed(fid, 0), fid)
      ensures r.Ok? ==> srcs == TopicPosts(oldfid, Listed(fid, 0))
    {
      trows, prows, srcs := [], [], [];
      ghost var done: seq<TopicItem> := [];
      ghost var k: nat := 0;
      var start := 0;
      var topics := first;
      var cont := true;
      Start(first, if first != [] then Listed(fid, 1) else [], Listed(fid, 0));
      while |topics| > 0
        invariant Valid() && forumRows == old(forumRows)
        invariant Walking(oldfid, fid, topics, start, cont, k, done, old(topicRows), trows, old(postRows), prows, old(sources), srcs)
        decreases if cont then bound + 1 - k else 0, |topics|
      {
        var turned;
        turned, topics, start, cont, k, done, trows, prows, srcs :=
          TopicTurn(oldfid, fid, topics, start, cont, k, done, old(topicRows), trows, old(postRows), prows, old(sources), srcs);
        if turned.Err? {
          return Err(turned.error), trows, prows, srcs;
        }
      }
      Finished(done, Listed(fid, 0));
      r := Ok(());
    }

    /** The state of that loop: `start` is the offset of listing page `k`,
        which is within the bound while pages are full; `done` are the
        entries turned so far, `trows`, `prows` and `srcs` what they added
        past `tbase`, `pbase` and `sbase`; and `topics` are what is left of
        the current page, with the next page to come while `cont` holds. */
    ghost predicate Walking(oldfid: Num, fid: int, topics: seq<TopicItem>, start: int, cont: bool,
                            k: nat, done: seq<TopicItem>,
                            tbase: seq<TopicRow>, trows: seq<TopicRow>,
                            pbase: seq<PostRow>, prows: seq<PostRow>,
                            sbase: seq<string>, srcs: seq<string>)
      reads this
    {
      && start == 35 * k && (cont ==> k <= bound)
      && topicRows == tbase + trows && ListingRows(trows, done, fid)
      && postRows == pbase + prows && sources == sbase + srcs && srcs == TopicPosts(oldfid, done)
      && Walked(done, topics, if cont && topics != [] then Listed(fid, k + 1) else [], Listed(fid, 0))
    }

    /** One turn of that loop: the last listed entry becomes a topic, and a
        drained page is followed by the next page of the listing when it was
        full. */
    method TopicTurn(oldfid: Num, fid: int, topics: seq<TopicItem>, start: int, cont: bool,
                     ghost k: nat, ghost done: seq<TopicItem>,
                     ghost tbase: seq<TopicRow>, ghost trows: seq<TopicRow>,
                     ghost pbase: seq<PostRow>, ghost prows: seq<PostRow>,
                     ghost sbase: seq<string>, ghost srcs: seq<string>)
      returns (r: Result<()>, topics': seq<TopicItem>, start': int, cont': bool,
               ghost k': nat, ghost done': seq<TopicItem>, ghost trows': seq<TopicRow>,
               ghost prows': seq<PostRow>, ghost srcs': seq<string>)
      requires Valid() && PostsEnd() && TopicsEnd() && topics != []
      requires Walking(oldfid, fid, topics, start, cont, k, done, tbase, trows, pbase, prows, sbase, srcs)
      modifies this
      ensures Valid()
      ensures forumRows == old(forumRows)
      ensures topicRows == tbase + trows' && postRows == pbase + prows' && sources == sbase + srcs'
      ensures r.Ok? ==> Walking(oldfid, fid, topics', start', cont', k', done', tbase, trows', pbase, prows', sbase, srcs')
      ensures r.Ok? ==> (cont' == cont && k' == k && |topics'| < |topics|) || (cont && k' == k + 1)
    {
      ghost var next := if cont then Listed(fid, k + 1) else [];
      var popped;
      popped, trows', prows', srcs' := PopTopic(oldfid, fid, topics, next, done, tbase, trows, pbase, prows, sbase, srcs);
      topics', start', cont', k', done' := [], start, cont, k, done;
      if popped.Err? {
        return Err(popped.error), topics', start', cont', k', done', trows', prows', srcs';
      }
      done' := done + [Last(topics)];
      topics', start', cont', k' := NextTopics(fid, popped.value, start, cont, k, done');
      r := Ok(());
    }

    /** Turning the last entry of the current page into a topic moves it to
        the done entries, its row to the listing rows and its posts to the
        posts of the done topics. */
    lemma TopicStep(oldfid: Num, fid: int, done: seq<TopicItem>, topics: seq<TopicItem>, next: seq<TopicItem>,
                    trows: seq<TopicRow>, srcs: seq<string>, row: TopicRow, ss: seq<string>)
      requires topics != [] && Walked(done, topics, next, Listed(fid, 0))
      requires ListingRows(trows, done, fid) && srcs == TopicPosts(oldfid, done)
      requires Attributed(Last(topics)) && row == ListingRow(Last(topics), row.id, fid)
      requires ss == PostContents(oldfid, GetId(Last(topics).href.value), 0)
      ensures Walked(done + [Last(topics)], topics[..|topics| - 1], next, Listed(fid, 0))
      ensures ListingRows(trows + [row], done + [Last(topics)], fid)
      ensures srcs + ss == TopicPosts(oldfid, done + [Last(topics)])
    {
      TakeLast(done, topics, next, Listed(fid, 0));
      ListingRowsAppend(trows, done, row, Last(topics), fid);
      TopicPostsAppend(oldfid, done, Last(topics));
    }

    /** The refill of `crawlForum`'s second loop: once the current listing
        page is drained and it was full (or the first), the page 35 entries
        further is read, and `cont` says whether it is full; otherwise
        nothing changes. */
    method NextTopics(fid: int, topics: seq<TopicItem>, start: int, cont: bool, ghost k: nat, ghost done: seq<TopicItem>)
      returns (topics': seq<TopicItem>, start': int, cont': bool, ghost k': nat)
      requires TopicsEnd() && start == 35 * k && (cont ==> k <= bound)
      requires Walked(done, topics, if cont then Listed(fid, k + 1) else [], Listed(fid, 0))
      ensures start' == 35 * k' && (cont' ==> k' <= bound)
      ensures Walked(done, topics', if cont' && topics' != [] then Listed(fid, k' + 1) else [], Listed(fid, 0))
      ensures if |topics| == 0 && cont
              then k' == k + 1 && topics' == ForumPageAt(fid, k').topics && cont' == (|topics'| == 35)
              else topics' == topics && start' == start && cont' == cont && k' == k
    {
      if !(|topics| == 0 && cont) {
        KeepWalk(done, topics, cont, Listed(fid, k + 1), Listed(fid, 0));
        return topics, start, cont, k;
      }
      topics', start', cont', k' := RefillTopics(fid, start, k, done);
    }

    /** A walk whose page is not drained, or whose listing is over, goes on
        as it is. */
    lemma KeepWalk(done: seq<TopicItem>, topics: seq<TopicItem>, cont: bool, next: seq<TopicItem>, whole: seq<TopicItem>)
      requires cont ==> topics != []
      requires Walked(done, topics, if cont then next else [], whole)
      ensures Walked(done, topics, if cont && topics != [] then next else [], whole)
    {
    }

    /** The read of the next listing page, once the current one is drained. */
    method RefillTopics(fid: int, start: int, ghost k: nat, ghost done: seq<TopicItem>)
      returns (topics': seq<TopicItem>, start': int, cont': bool, ghost k': nat)
      requires TopicsEnd() && start == 35 * k && k <= bound
      requires Walked(done, [], Listed(fid, k + 1), Listed(fid, 0))
      ensures start' == 35 * k' && (cont' ==> k' <= bound)
      ensures Walked(done, topics', if cont' && topics' != [] then Listed(fid, k' + 1) else [], Listed(fid, 0))
      ensures k' == k + 1 && topics' == ForumPageAt(fid, k').topics && cont' == (|topics'| == 35)
    {
      topics' := site.forum(fid, start + 35).topics;
      start', k' := start + 35, k + 1;
      ForumPageAtStart(fid, k', start');
      cont' := |topics'| == 35;
      NextListingPage(fid, k', done, topics');
    }

    /** `createTopic` on the last listing entry of `topics`, which is popped:
        its topic row, then the rows of its posts. An entry without a title
        `href` or an icon `style` throws before anything is added (`split` or
        `indexOf` of `undefined`). The ghost parameters
        follow the walk over the listing: `done` are the entries turned so
        far, `trows`, `prows` and `srcs` what they added past `tbase`,
        `pbase` and `sbase`. */
    method PopTopic(oldfid: Num, fid: int, topics: seq<TopicItem>,
                    ghost next: seq<TopicItem>, ghost done: seq<TopicItem>,
                    ghost tbase: seq<TopicRow>, ghost trows: seq<TopicRow>,
                    ghost pbase: seq<PostRow>, ghost prows: seq<PostRow>,
                    ghost sbase: seq<string>, ghost srcs: seq<string>)
      returns (r: Result<seq<TopicItem>>, ghost trows': seq<TopicRow>,
               ghost prows': seq<PostRow>, ghost srcs': seq<string>)
      requires Valid() && PostsEnd() && topics != []
      requires topicRows == tbase + trows && ListingRows(trows, done, fid)
      requires postRows == pbase + prows && sources == sbase + srcs && srcs == TopicPosts(oldfid, done)
      requires Walked(done, topics, next, Listed(fid, 0))
      modifies this
      ensures Valid()
      ensures forumRows == old(forumRows)
      ensures topicRows == tbase + trows' && postRows == pbase + prows' && sources == sbase + srcs'
      ensures !Attributed(Last(topics)) ==> r == Err(TypeError) && trows' == trows && prows' == prows && srcs' == srcs
      ensures r.Ok? ==> r.value == topics[..|topics| - 1]
      ensures r.Ok? ==> ListingRows(trows', done + [Last(topics)], fid)
      ensures r.Ok? ==> srcs' == TopicPosts(oldfid, done + [Last(topics)])
      ensures r.Ok? ==> Walked(done + [Last(topics)], r.value, next, Listed(fid, 0))
    {
      var t := topics[|topics| - 1];
      if t.href.None? || t.iconStyle.None? {
        return Err(TypeError), trows, prows, srcs;
      }
      var tr;
      ghost var ps, ss;
      tr, ps, ss := CreateTopic(oldfid, fid, GetId(t.href.value), t.title, t.sticky, Contains(t.iconStyle.value, LockedIcon));
      ghost var row := Last(topicRows);
      AppendAssoc(tbase, trows, [row]);
      AppendAssoc(pbase, prows, ps);
      AppendAssoc(sbase, srcs, ss);
      trows', prows', srcs' := trows + [row], prows + ps, srcs + ss;
      if tr.Err? {
        return Err(tr.error), trows', prows', srcs';
      }
      TopicStep(oldfid, fid, done, topics, next, trows, srcs, row, ss);
      r := Ok(topics[..|topics| - 1]);
    }

    /** `init`: crawl each configured old forum that is not yet a forum id, as
        a category under the root forum, its left id the id of the previous
        root crawled (at first `startForumId`) and its right id its own id.
        `added` are the forum rows added, `roots` the root rows among them
        and `at` their indexes in `added`; `seen` counts the forum rows when
        each configured id's turn came, and `crawled` are the ids crawled,
        one per root. */
    method Init() returns (r: Result<()>, ghost added: seq<ForumRow>, ghost roots: seq<ForumRow>, ghost at: seq<nat>,
                           ghost seen: seq<nat>, ghost crawled: seq<int>)
      requires Valid() && Finite()
      modifies this
      ensures Valid()
      ensures forumRows == old(forumRows) + added
      ensures RootChain(roots, config.startForumId, config.rootForumId) && PlacedAt(roots, at, added)
      ensures added != [] ==> at != [] && at[0] == 0
      ensures Counts(seen, |old(forumRows)|, |forumRows|)
      ensures |seen| <= |config.formIds| && (r.Ok? ==> |seen| == |config.formIds|)
      ensures crawled == Absent(config.formIds[..|seen|], seen, forumRows) && |crawled| == |roots|
      ensures (forall id :: id in config.formIds ==> HasForum(old(forumRows), id)) ==>
        r.Ok? && added == [] && roots == []
    {
      added, roots, at, seen, crawled := [], [], [], [], [];
      var last := config.startForumId;
      var i := 0;
      ghost var allThere := forall id :: id in config.formIds ==> HasForum(forumRows, id);
      while i < |config.formIds|
        invariant 0 <= i <= |config.formIds|
        invariant Valid() && Turned(i, old(forumRows), added, roots, at, seen, crawled)
        invariant last == if roots == [] then config.startForumId else roots[|roots| - 1].id
        invariant allThere ==> added == [] && roots == []
      {
        assert allThere ==> HasForum(old(forumRows), config.formIds[i]);
        var row;
        row, last, added, roots, at, seen, crawled := InitTurn(i, last, old(forumRows), added, roots, at, seen, crawled);
        if row.Err? {
          return Err(row.error), added, roots, at, seen, crawled;
        }
        i := i + 1;
      }
      r := Ok(());
    }

    /** What the turns of that loop before turn `i` have done: every
        configured id without a row at its turn is crawled, in order, as the
        next root after `base`; `seen` holds the row count at each turn. */
    ghost predicate Turned(i: nat, base: seq<ForumRow>, added: seq<ForumRow>, roots: seq<ForumRow>, at: seq<nat>,
                           seen: seq<nat>, crawled: seq<int>)
      reads this
    {
      && i <= |config.formIds|
      && forumRows == base + added
      && RootChain(roots, config.startForumId, config.rootForumId) && PlacedAt(roots, at, added)
      && (added != [] ==> at != [] && at[0] == 0)
      && |seen| == i && Counts(seen, |base|, |forumRows|) && (seen == [] ==> forumRows == base)
      && crawled == Absent(config.formIds[..i], seen, forumRows) && |crawled| == |roots|
    }

    /** A turn whose configured id already has a row adds nothing but its count. */
    lemma TurnedSkip(i: nat, base: seq<ForumRow>, added: seq<ForumRow>, roots: seq<ForumRow>, at: seq<nat>,
                     seen: seq<nat>, crawled: seq<int>)
      requires i < |config.formIds| && HasForum(forumRows, config.formIds[i])
      requires Turned(i, base, added, roots, at, seen, crawled)
      ensures Turned(i + 1, base, added, roots, at, seen + [|forumRows|], crawled)
    {
      SeenTurn(config.formIds, i, seen, crawled, forumRows, forumRows, |base|);
    }

    /** Turn `i` of that loop: `config.formIds[i]` is crawled as the next
        root when no row has its id yet, and skipped otherwise. */
    method InitTurn(i: nat, last: int, ghost base: seq<ForumRow>, ghost added: seq<ForumRow>, ghost roots: seq<ForumRow>,
                    ghost at: seq<nat>, ghost seen: seq<nat>, ghost crawled: seq<int>)
      returns (r: Result<()>, last': int, ghost added': seq<ForumRow>, ghost roots': seq<ForumRow>, ghost at': seq<nat>,
               ghost seen': seq<nat>, ghost crawled': seq<int>)
      requires Valid() && Finite()
      requires i < |config.formIds| && Turned(i, base, added, roots, at, seen, crawled)
      requires last == if roots == [] then config.startForumId else roots[|roots| - 1].id
      modifies this
      ensures Valid() && Turned(i + 1, base, added', roots', at', seen', crawled')
      ensures r.Ok? ==> last' == if roots' == [] then config.startForumId else roots'[|roots'| - 1].id
      ensures added == [] && HasForum(base, config.formIds[i]) ==> r.Ok? && added' == [] && roots' == []
    {
      last' := last;
      if !HasForum(forumRows, config.formIds[i]) {
        assert added == [] ==> !HasForum(base, config.formIds[i]) by {
          if added == [] { assert forumRows == base; }
        }
        var row;
        row, added', roots', at', seen', crawled' := InitRoot(i, last, base, added, roots, at, seen, crawled);
        if row.Err? {
          return Err(row.error), last', added', roots', at', seen', crawled';
        }
        last' := row.value.id;
      } else {
        TurnedSkip(i, base, added, roots, at, seen, crawled);
        added', roots', at', seen', crawled' := added, roots, at, seen + [|forumRows|], crawled;
      }
      r := Ok(());
    }

    /** A turn of that loop whose configured id `config.formIds[i]` has no
        row yet: it is crawled as the next root, and the turn is counted. */
    method InitRoot(i: nat, last: int, ghost base: seq<ForumRow>, ghost added: seq<ForumRow>, ghost roots: seq<ForumRow>,
                    ghost at: seq<nat>, ghost seen: seq<nat>, ghost crawled: seq<int>)
      returns (r: Result<ForumRow>, ghost added': seq<ForumRow>, ghost roots': seq<ForumRow>, ghost at': seq<nat>,
               ghost seen': seq<nat>, ghost crawled': seq<int>)
      requires Valid() && Finite()
      requires i < |config.formIds| && !HasForum(forumRows, config.formIds[i])
      requires Turned(i, base, added, roots, at, seen, crawled)
      requires last == if roots == [] then config.startForumId else roots[|roots| - 1].id
      modifies this
      ensures Valid() && Turned(i + 1, base, added', roots', at', seen', crawled')
      ensures roots' != [] && (r.Ok? ==> r.value == roots'[|roots'| - 1])
    {
      ghost var before := forumRows;
      ghost var root;
      r, added', root, at' := CrawlRoot(config.formIds[i], last, base, added, roots, at);
      SeenTurn(config.formIds, i, seen, crawled, before, forumRows, |base|);
      roots', seen', crawled' := roots + [root], seen + [|before|], crawled + [config.formIds[i]];
    }

    /** One turn of that loop: old forum `id` is crawled as the next root,
        with the next forum id and the left id `last`. */
    method CrawlRoot(id: int, last: int, ghost base: seq<ForumRow>, ghost added: seq<ForumRow>, ghost roots: seq<ForumRow>, ghost at: seq<nat>)
      returns (r: Result<ForumRow>, ghost added': seq<ForumRow>, ghost root: ForumRow, ghost at': seq<nat>)
      requires Valid() && Finite()
      requires forumRows == base + added
      requires RootChain(roots, config.startForumId, config.rootForumId) && PlacedAt(roots, at, added)
      requires last == if roots == [] then config.startForumId else roots[|roots| - 1].id
      modifies this
      ensures Valid()
      ensures forumRows == base + added' && |added| < |added'|
      ensures |old(forumRows)| < |forumRows| && forumRows[..|old(forumRows)|] == old(forumRows)
      ensures root == ForumRow(root.id, config.rootForumId, last, root.id, ForumPageAt(root.id, 0).heading, Flag(true))
      ensures RootChain(roots + [root], config.startForumId, config.rootForumId)
      ensures at' == at + [|added|] && PlacedAt(roots + [root], at', added')
      ensures r.Ok? ==> r.value == root
    {
      var fid := NextForumId();
      NextForumIdIsCount();
      ghost var sub: seq<ForumRow>, subT: seq<TopicRow>, ownT: seq<TopicRow>, prows: seq<PostRow>, subS: seq<string>, ownS: seq<string>;
      r, sub, subT, ownT, prows, subS, ownS := CrawlForum(Int(id), fid, config.rootForumId, last, fid, true);
      ghost var rootRow := ForumRow(fid, config.rootForumId, last, fid, ForumPageAt(fid, 0).heading, Flag(true));
      RootChainAppend(roots, rootRow, config.startForumId, config.rootForumId);
      PlacedAtAppend(roots, at, added, rootRow, sub);
      AppendAssoc(base, added, [rootRow] + sub);
      added', root, at' := added + ([rootRow] + sub), rootRow, at + [|added|];
      assert forumRows == old(forumRows) + ([rootRow] + sub);
    }
  }

  /** Some forum row has id `id`. */
  predicate HasForum(rows: seq<ForumRow>, id: int) {
    exists j :: 0 <= j < |rows| && rows[j].id == id
  }

  /** `seen` counts the forum rows at each turn of `init`: `from` at the
      first, never falling, never past `to`. */
  ghost predicate Counts(seen: seq<nat>, from: nat, to: nat) {
    && (seen != [] ==> seen[0] == from)
    && (forall k :: 0 <= k < |seen| ==> from <= seen[k] <= to)
    && (forall k :: 0 <= k < |seen| - 1 ==> seen[k] <= seen[k + 1])
  }

  /** The ids `init` crawls: those of `ids`, in order, that no row among the
      first `seen[k]` of `rows` has, where `seen[k]` counts the rows when the
      turn of `ids[k]` comes. */
  ghost function Absent(ids: seq<int>, seen: seq<nat>, rows: seq<ForumRow>): seq<int>
    decreases |ids|
  {
    if ids == [] || |seen| != |ids| then []
    else
      var n := |ids| - 1;
      var sight := if seen[n] <= |rows| then rows[..seen[n]] else rows;
      Absent(ids[..n], seen[..n], rows) + (if HasForum(sight, ids[n]) then [] else [ids[n]])
  }

  /** A turn that sees all of `rows` crawls `id` exactly when no row has it. */
  lemma AbsentStep(ids: seq<int>, seen: seq<nat>, rows: seq<ForumRow>, id: int)
    requires |ids| == |seen| && forall k :: 0 <= k < |seen| ==> seen[k] <= |rows|
    ensures Absent(ids + [id], seen + [|rows|], rows)
         == Absent(ids, seen, rows) + (if HasForum(rows, id) then [] else [id])
  {
    assert (ids + [id])[..|ids|] == ids && (seen + [|rows|])[..|ids|] == seen;
    assert rows[..|rows|] == rows;
  }

  /** The turn of `ids[i]` sees the rows `before`, and the crawl it starts,
      if any, leaves `after`: the id is crawled exactly when no row of
      `before` has it. */
  lemma SeenTurn(ids: seq<int>, i: nat, seen: seq<nat>, crawled: seq<int>,
                 before: seq<ForumRow>, after: seq<ForumRow>, from: nat)
    requires i < |ids| && |seen| == i && Counts(seen, from, |before|) && (seen == [] ==> |before| == from)
    requires crawled == Absent(ids[..i], seen, before)
    requires |before| <= |after| && after[..|before|] == before
    ensures Counts(seen + [|before|], from, |after|)
    ensures Absent(ids[..i + 1], seen + [|before|], after)
         == crawled + (if HasForum(before, ids[i]) then [] else [ids[i]])
  {
    CountsStep(seen, from, |before|, |after|);
    var ids', seen', more := ids[..i + 1], seen + [|before|], after[|before|..];
    TakeOneMore(ids, i);
    assert before + more == after;
    AbsentGrow(ids', seen', before, more);
    assert Absent(ids', seen', after) == Absent(ids', seen', before);
    AbsentStep(ids[..i], seen, before, ids[i]);
  }

  /** The first `i + 1` ids are the first `i` followed by the next one. */
  lemma TakeOneMore(ids: seq<int>, i: nat)
    requires i < |ids|
    ensures ids[..i + 1] == ids[..i] + [ids[i]]
  {
  }

  lemma CountsStep(seen: seq<nat>, from: nat, n: nat, m: nat)
    requires Counts(seen, from, n) && (seen == [] ==> n == from) && n <= m
    ensures Counts(seen + [n], from, m)
    ensures forall k :: 0 <= k < |seen| + 1 ==> (seen + [n])[k] <= n
  {
  }

  /** Rows appended later do not change what the earlier turns saw. */
  lemma {:induction false} AbsentGrow(ids: seq<int>, seen: seq<nat>, rows: seq<ForumRow>, more: seq<ForumRow>)
    requires |ids| == |seen| && forall k :: 0 <= k < |seen| ==> seen[k] <= |rows|
    ensures Absent(ids, seen, rows + more) == Absent(ids, seen, rows)
    decreases |ids|
  {
    if ids != [] {
      var n := |ids| - 1;
      AbsentGrow(ids[..n], seen[..n], rows, more);
      assert (rows + more)[..seen[n]] == rows[..seen[n]];
    }
  }

  /** The content parses: it holds a post element whose edit notice and
      author line can be read. */
  ghost predicate Parses(site: Site, contents: string) {
    var elems := site.elements(contents);
    && elems != []
    && PhpbbPostParser.ParsePostEdits(elems[0].notice).Ok?
    && PhpbbPostParser.ParsePostInfo(elems[0]).Ok?
  }

  /** The fields of `row` that come from the first post element of
      `contents`, parsed with `codes` and uid `uid`: the author line and edit
      notice as read, the uid, the converted body with the uid added to its
      tags, and the bitfield of the codes the converted body uses. */
  ghost predicate FromContents(site: Site, codes: seq<string>, row: PostRow, contents: string, uid: string)
    requires Parses(site, contents)
  {
    var e := site.elements(contents)[0];
    var info := PhpbbPostParser.ParsePostInfo(e).value;
    var edits := PhpbbPostParser.ParsePostEdits(e.notice).value;
    var bbc := site.feed(PhpbbPostParser.ReplaceTags(codes, e.content, None));
    && row.time == info.timestamp && row.username == info.user && row.subject == info.subject
    && row.editTime == edits.timestamp && row.editCount == edits.times
    && row.editUser == edits.user && row.editReason == edits.reason
    && row.uid == uid
    && row.text == PhpbbPostParser.ReplaceTags(codes, bbc, Some(uid))
    && row.bitfield == Bitfield.Encoded(Bits.Layout(PhpbbPostParser.Marked(codes, bbc), Bitfield.Size))
  }

  /** `row` is the post row of `contents`, parsed with uid `uid`. */
  ghost predicate RowFrom(site: Site, codes: seq<string>, row: PostRow, contents: string, uid: string) {
    Parses(site, contents) && FromContents(site, codes, row, contents, uid)
  }

  /** The `k`-th post row carries the `k`-th uid drawn. */
  ghost predicate UidsDrawn(rows: seq<PostRow>, uid: nat -> string) {
    forall k :: 0 <= k < |rows| ==> rows[k].uid == uid(k)
  }

  lemma UidsDrawnAppend(rows: seq<PostRow>, uid: nat -> string, row: PostRow)
    requires UidsDrawn(rows, uid) && row.uid == uid(|rows|)
    ensures UidsDrawn(rows + [row], uid)
  {
    forall k | 0 <= k < |rows| + 1 ensures (rows + [row])[k].uid == uid(k) {
      if k < |rows| {
        assert (rows + [row])[k] == rows[k];
      }
    }
  }

  /** `parser.parseString(contents)` with the migration's parser. */
  method ParseContents(site: Site, codes: seq<string>, contents: string, uid: string) returns (r: Result<PhpbbPostParser.Post>)
    requires |codes| <= 8 * Bitfield.Size
    ensures r.Ok? <==> Parses(site, contents)
    ensures r.Ok? ==> ParsedFrom(site, codes, contents, uid, r.value)
  {
    r := PhpbbPostParser.ParseString(codes, site.elements(contents), site.feed, uid);
  }

  /** `p` is what the parser makes of `contents`. */
  ghost predicate ParsedFrom(site: Site, codes: seq<string>, contents: string, uid: string, p: PhpbbPostParser.Post) {
    var elems := site.elements(contents);
    && Parses(site, contents)
    && PhpbbPostParser.IsBodyOf(codes, elems[0].content, site.feed, uid, p.body)
    && p.edits == PhpbbPostParser.ParsePostEdits(elems[0].notice).value
    && p.info == PhpbbPostParser.ParsePostInfo(elems[0]).value
  }

  /** The post row of a parsed post. */
  function RowOf(id: int, topicId: int, forumId: int, posterId: int, p: PhpbbPostParser.Post): PostRow {
    PostRow(
      id, topicId, forumId, posterId,
      p.info.timestamp, p.info.user,
      p.edits.timestamp, p.edits.times, p.edits.user,
      p.info.subject, p.body.uidbody, p.body.uid, p.body.bitfield,
      p.edits.reason)
  }

  lemma RowOfParsed(site: Site, codes: seq<string>, contents: string, uid: string, p: PhpbbPostParser.Post, row: PostRow)
    requires ParsedFrom(site, codes, contents, uid, p)
    requires row == RowOf(row.id, row.topicId, row.forumId, row.posterId, p)
    ensures FromContents(site, codes, row, contents, uid)
  {
  }
}
