/** The rows the migration produces for the phpBB tables and the
    invariants that tie them together: ids handed out in order, the user
    registry, the nesting of forums and the topic rows of a listing. */
module Tables {
  import opened Js
  import opened Text
  import opened Dom
  import Utils

  /** `[user_id, username, username_clean, user_password]` */
  datatype UserRow = UserRow(id: int, username: string, clean: string, password: string)

  /** `[topic_id, topic_type, forum_id, topic_title, topic_status]` */
  datatype TopicRow = TopicRow(id: int, topicType: int, forumId: int, title: string, status: int)

  /** `[forum_id, parent_id, left_id, right_id, forum_name, forum_type]` */
  datatype ForumRow = ForumRow(id: int, parentId: int, leftId: int, rightId: int, name: string, forumType: int)

  /** `[post_id, topic_id, forum_id, poster_id, post_time, post_username,
      post_edit_time, post_edit_count, post_edit_user, post_subject, post_text,
      bbcode_uid, bbcode_bitfield, post_edit_reason]` */
  datatype PostRow = PostRow(
    id: int, topicId: int, forumId: int, posterId: int,
    time: Timestamp, username: string,
    editTime: Timestamp, editCount: Num, editUser: string,
    subject: string, text: string, uid: string, bitfield: string, editReason: string)

  /** A topic entry of a listing: the `href` and text of its title link,
      whether it has the class `sticky`, and the `style` of its `dl.icon`.
      An attribute the page lacks is `None` (`attr` gives `undefined`). */
  datatype TopicItem = TopicItem(href: Option<string>, title: string, sticky: bool, iconStyle: Option<string>)

  /** The entry has both attributes the crawl reads without a guard. */
  predicate Attributed(t: TopicItem) {
    t.href.Some? && t.iconStyle.Some?
  }

  /** The icon of a locked topic. */
  const LockedIcon: string := "_locked.gif"

  /** `Number(b)` for a boolean. */
  function Flag(b: bool): (r: int)
    ensures r == 0 || r == 1
    ensures r == 1 <==> b
  {
    if b then 1 else 0
  }

  /** The user registry: `keys` are the cleaned names in the order they were
      registered, the k-th has id `start + k`, and every registered user is
      filed under its cleaned name at the place its id gives. */
  ghost predicate Registry(keys: seq<string>, users: map<string, UserRow>, start: int) {
    && (forall i :: 0 <= i < |keys| ==> keys[i] in users && users[keys[i]].id == start + i)
    && (forall k :: k in users ==>
          start <= users[k].id < start + |keys| && keys[users[k].id - start] == k && users[k].clean == k)
  }

  /** No name is registered twice. */
  lemma RegistryDistinct(keys: seq<string>, users: map<string, UserRow>, start: int)
    requires Registry(keys, users, start)
    ensures forall i, j :: 0 <= i < j < |keys| ==> keys[i] != keys[j]
  {
    forall i, j | 0 <= i < j < |keys| ensures keys[i] != keys[j] {
      assert users[keys[i]].id != users[keys[j]].id;
    }
  }

  /** The registry holds exactly one key per registered user, so
      `users.size` counts them. */
  lemma RegistrySize(keys: seq<string>, users: map<string, UserRow>, start: int)
    requires Registry(keys, users, start)
    ensures |users| == |keys|
  {
    forall k | k in users ensures k in keys {
      assert keys[users[k].id - start] == k;
    }
    assert users.Keys == set k | k in keys;
    RegistryDistinct(keys, users, start);
    DistinctCount(keys);
  }

  /** A sequence without repetitions has as many distinct elements as items. */
  lemma {:induction false} DistinctCount<T>(s: seq<T>)
    requires forall i, j :: 0 <= i < j < |s| ==> s[i] != s[j]
    ensures |set x | x in s| == |s|
  {
    if s != [] {
      var init := s[..|s| - 1];
      DistinctCount(init);
      assert (set x | x in s) == (set x | x in init) + {Last(s)};
      assert Last(s) !in init;
    }
  }

  lemma RegistryAdd(keys: seq<string>, users: map<string, UserRow>, start: int, row: UserRow)
    requires Registry(keys, users, start)
    requires row.clean !in users && row.id == start + |keys|
    ensures Registry(keys + [row.clean], users[row.clean := row], start)
  {
    var keys' := keys + [row.clean];
    var users' := users[row.clean := row];
    forall i | 0 <= i < |keys'| ensures keys'[i] in users' && users'[keys'[i]].id == start + i {
      if i < |keys| {
        assert keys'[i] == keys[i] != row.clean;
      }
    }
    forall k | k in users'
      ensures start <= users'[k].id < start + |keys'| && keys'[users'[k].id - start] == k && users'[k].clean == k
    {
      if k != row.clean {
        assert keys'[users[k].id - start] == keys[users[k].id - start];
      }
    }
  }

  /** The users of a registry in the order they were registered. */
  function RegisteredUsers(keys: seq<string>, users: map<string, UserRow>): (r: seq<UserRow>)
    requires forall i :: 0 <= i < |keys| ==> keys[i] in users
    ensures |r| == |keys|
    ensures forall i :: 0 <= i < |keys| ==> r[i] == users[keys[i]]
  {
    seq(|keys|, i requires 0 <= i < |keys| => users[keys[i]])
  }

  /** Every row of `rows` belongs to topic `tid` in forum `fid`. */
  ghost predicate InTopic(rows: seq<PostRow>, tid: int, fid: int) {
    forall i :: 0 <= i < |rows| ==> rows[i].topicId == tid && rows[i].forumId == fid
  }

  lemma InTopicAppend(rows: seq<PostRow>, row: PostRow, tid: int, fid: int)
    requires InTopic(rows, tid, fid) && row.topicId == tid && row.forumId == fid
    ensures InTopic(rows + [row], tid, fid)
  {
  }

  /** Every row of `rows` has left id `lid`, right id `lid + 1`, and a parent
      at or after `fid` but before itself. */
  ghost predicate Descendants(rows: seq<ForumRow>, fid: int, lid: int) {
    forall i :: 0 <= i < |rows| ==> rows[i].leftId == lid && rows[i].rightId == lid + 1 && fid <= rows[i].parentId < rows[i].id
  }

  lemma DescendantsAppend(a: seq<ForumRow>, b: seq<ForumRow>, fid: int, lid: int)
    requires Descendants(a, fid, lid) && Descendants(b, fid, lid)
    ensures Descendants(a + b, fid, lid)
  {
  }

  /** A subforum row under `fid` followed by its own descendants is part of
      the descendants of `fid`. */
  lemma ChildSubtree(child: ForumRow, sub: seq<ForumRow>, fid: int, lid: int)
    requires child.parentId == fid && child.leftId == lid && child.rightId == lid + 1 && fid < child.id
    requires Descendants(sub, child.id, lid)
    ensures Descendants([child] + sub, fid, lid)
  {
  }

  /** The rows of `rows` whose parent is `fid`, in order: its direct
      children among them. */
  function Children(rows: seq<ForumRow>, fid: int): (r: seq<ForumRow>)
    ensures |r| <= |rows|
    ensures forall j :: 0 <= j < |r| ==> r[j].parentId == fid
  {
    if rows == [] then []
    else (if rows[0].parentId == fid then [rows[0]] else []) + Children(rows[1..], fid)
  }

  lemma {:induction false} ChildrenAppend(a: seq<ForumRow>, b: seq<ForumRow>, fid: int)
    ensures Children(a + b, fid) == Children(a, fid) + Children(b, fid)
    decreases |a|
  {
    if a != [] {
      assert (a + b)[0] == a[0] && (a + b)[1..] == a[1..] + b;
      ChildrenAppend(a[1..], b, fid);
    } else {
      assert a + b == b;
    }
  }

  /** Descendants of a forum with a larger id than `fid` hold no child of `fid`. */
  lemma {:induction false} ChildrenNone(sub: seq<ForumRow>, cid: int, lid: int, fid: int)
    requires Descendants(sub, cid, lid) && fid < cid
    ensures Children(sub, fid) == []
    decreases |sub|
  {
    if sub != [] {
      ChildrenNone(sub[1..], cid, lid, fid);
    }
  }

  /** The topic row the crawl makes of a listing entry. */
  function ListingRow(t: TopicItem, id: int, fid: int): TopicRow
    requires t.iconStyle.Some?
  {
    TopicRow(id, Flag(t.sticky), fid, t.title, Flag(Contains(t.iconStyle.value, LockedIcon)))
  }

  /** `rows` are the topic rows of the listing entries `items` of forum `fid`. */
  ghost predicate ListingRows(rows: seq<TopicRow>, items: seq<TopicItem>, fid: int) {
    |rows| == |items| && forall j :: 0 <= j < |rows| ==> Attributed(items[j]) && rows[j] == ListingRow(items[j], rows[j].id, fid)
  }

  lemma ListingRowsAppend(rows: seq<TopicRow>, items: seq<TopicItem>, row: TopicRow, t: TopicItem, fid: int)
    requires ListingRows(rows, items, fid) && Attributed(t) && row == ListingRow(t, row.id, fid)
    ensures ListingRows(rows + [row], items + [t], fid)
  {
  }

  /** Forum ids counted from `start`. */
  ghost predicate ForumsNumbered(rows: seq<ForumRow>, start: int) {
    forall i :: 0 <= i < |rows| ==> rows[i].id == start + i
  }

  /** Topic ids counted from `start`. */
  ghost predicate TopicsNumbered(rows: seq<TopicRow>, start: int) {
    forall i :: 0 <= i < |rows| ==> rows[i].id == start + i
  }

  /** Post ids counted from `start`; every poster id is below `nextUser`,
      the id the next registered user would get. */
  ghost predicate PostsNumbered(posts: seq<PostRow>, start: int, nextUser: int) {
    forall i :: 0 <= i < |posts| ==> posts[i].id == start + i && posts[i].posterId < nextUser
  }

  lemma AppendPost(posts: seq<PostRow>, start: int, nextUser: int, post: PostRow)
    requires PostsNumbered(posts, start, nextUser)
    requires post.id == start + |posts| && post.posterId < nextUser
    ensures PostsNumbered(posts + [post], start, nextUser)
  {
  }

  /** The post's poster id is that of the registered user of its author. */
  ghost predicate PostedBy(post: PostRow, users: map<string, UserRow>) {
    var clean := Utils.CleanUsername(post.username);
    clean in users && users[clean].id == post.posterId
  }

  /** Root forum rows chained in crawl order: each a category under forum
      `rootId` whose right id is its own id and whose left id is the id of
      the root before it, the first one's `start`. */
  ghost predicate RootChain(roots: seq<ForumRow>, start: int, rootId: int) {
    && (forall j :: 0 <= j < |roots| ==>
         roots[j].parentId == rootId && roots[j].rightId == roots[j].id && roots[j].forumType == 1)
    && (roots != [] ==> roots[0].leftId == start)
    && (forall j :: 0 < j < |roots| ==> roots[j].leftId == roots[j - 1].id)
  }

  lemma RootChainAppend(roots: seq<ForumRow>, row: ForumRow, start: int, rootId: int)
    requires RootChain(roots, start, rootId)
    requires row.parentId == rootId && row.rightId == row.id && row.forumType == 1
    requires row.leftId == if roots == [] then start else roots[|roots| - 1].id
    ensures RootChain(roots + [row], start, rootId)
  {
    var roots' := roots + [row];
    forall j | 0 <= j < |roots|
      ensures roots'[j] == roots[j]
    {
    }
  }

  /** Each root row sits in `rows` at the matching index of `at`. */
  ghost predicate PlacedAt(roots: seq<ForumRow>, at: seq<nat>, rows: seq<ForumRow>) {
    |at| == |roots| && forall j :: 0 <= j < |at| ==> at[j] < |rows| && rows[at[j]] == roots[j]
  }

  /** Appending a root row and the rows crawled under it places that row
      too and keeps the roots before it where they were. */
  lemma PlacedAtAppend(roots: seq<ForumRow>, at: seq<nat>, rows: seq<ForumRow>, row: ForumRow, sub: seq<ForumRow>)
    requires PlacedAt(roots, at, rows)
    ensures PlacedAt(roots + [row], at + [|rows|], rows + ([row] + sub))
  {
    var rows' := rows + ([row] + sub);
    forall j | 0 <= j < |at|
      ensures rows'[at[j]] == rows[at[j]]
    {
    }
  }
}
