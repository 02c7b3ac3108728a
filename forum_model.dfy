/** Forum records and the rows `forumToRow` makes of them: the seventeen columns of a forum row: ids, tree position, name, type and descriptions, then the state of its last post and counts. */
module ForumModel {
  import opened Js
  import opened Rows

  /** The fields of a forum (a board or category), one per column. */
  datatype Forum = Forum(
    forumId: Num,
    parentId: Num,
    leftId: Num,
    rightId: Num,
    forumName: string,
    forumType: Num,
    forumParents: string,
    forumDesc: string,
    forumRules: string,
    forumFlags: Num,
    forumLastPostId: Num,
    forumLastPosterId: Num,
    forumLastPosterName: string,
    forumLastPostSubject: string,
    forumLastPostTime: Num,
    forumPostsApproved: Num,
    forumTopicsApproved: Num)

  /** The cell kinds of a forum row, column by column. */
  const Shape: seq<Kind> := [
    NumberCell, NumberCell, NumberCell, NumberCell,
    StringCell, NumberCell, StringCell, StringCell,
    StringCell, NumberCell, NumberCell, NumberCell,
    StringCell, StringCell, NumberCell, NumberCell,
    NumberCell]

  /** `forumToRow`: the fields in column order. */
  function ForumToRow(forum: Forum): (r: Row)
    ensures Fits(r, Shape)
  {
    [Number(forum.forumId),
     Number(forum.parentId),
     Number(forum.leftId),
     Number(forum.rightId),
     Str(forum.forumName),
     Number(forum.forumType),
     Str(forum.forumParents),
     Str(forum.forumDesc),
     Str(forum.forumRules),
     Number(forum.forumFlags),
     Number(forum.forumLastPostId),
     Number(forum.forumLastPosterId),
     Str(forum.forumLastPosterName),
     Str(forum.forumLastPostSubject),
     Number(forum.forumLastPostTime),
     Number(forum.forumPostsApproved),
     Number(forum.forumTopicsApproved)]
  }

  /** Reading a forum back from a row, by position; no forum when a cell has
      the wrong kind or the row the wrong length. */
  function RowToForum(r: Row): (t: Option<Forum>)
    ensures t.Some? <==> Fits(r, Shape)
  {
    if !Fits(r, Shape) then None
    else Some(Forum(
      r[0].num, r[1].num, r[2].num, r[3].num,
      r[4].text, r[5].num, r[6].text, r[7].text,
      r[8].text, r[9].num, r[10].num, r[11].num,
      r[12].text, r[13].text, r[14].num, r[15].num,
      r[16].num))
  }

  /** Every forum is read back from its row. */
  lemma ForumRoundTrip(forum: Forum)
    ensures RowToForum(ForumToRow(forum)) == Some(forum)
  {
  }

  /** Every row of the right shape is the row of the forum read from it. */
  lemma RowRoundTrip(r: Row)
    requires Fits(r, Shape)
    ensures ForumToRow(RowToForum(r).value) == r
  {
    var back := ForumToRow(RowToForum(r).value);
    forall i | 0 <= i < |r| ensures back[i] == r[i] {
      assert r[i].Number? <==> Shape[i] == NumberCell;
    }
  }
}
