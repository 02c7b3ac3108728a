/** Post records and the rows `postToRow` makes of them: the fifteen columns of a post row: the post, topic and forum ids, then the data read from the post body. */
module PostModel {
  import opened Js
  import opened Rows

  /** The fields of one post, one per column. */
  datatype Post = Post(
    postId: Num,
    topicId: Num,
    forumId: Num,
    posterId: Num,
    postVisibility: Num,
    postTime: Num,
    postUsername: string,
    postEditTime: Num,
    postEditCount: Num,
    postEditUser: string,
    postSubject: string,
    postText: string,
    bbcodeUid: string,
    bbcodeBitfield: string,
    postEditReason: string)

  /** The cell kinds of a post row, column by column. */
  const Shape: seq<Kind> := [
    NumberCell, NumberCell, NumberCell, NumberCell,
    NumberCell, NumberCell, StringCell, NumberCell,
    NumberCell, StringCell, StringCell, StringCell,
    StringCell, StringCell, StringCell]

  /** `postToRow`: the fields in column order. */
  function PostToRow(post: Post): (r: Row)
    ensures Fits(r, Shape)
  {
    [Number(post.postId),
     Number(post.topicId),
     Number(post.forumId),
     Number(post.posterId),
     Number(post.postVisibility),
     Number(post.postTime),
     Str(post.postUsername),
     Number(post.postEditTime),
     Number(post.postEditCount),
     Str(post.postEditUser),
     Str(post.postSubject),
     Str(post.postText),
     Str(post.bbcodeUid),
     Str(post.bbcodeBitfield),
     Str(post.postEditReason)]
  }

  /** Reading a post back from a row, by position; no post when a cell has
      the wrong kind or the row the wrong length. */
  function RowToPost(r: Row): (t: Option<Post>)
    ensures t.Some? <==> Fits(r, Shape)
  {
    if !Fits(r, Shape) then None
    else Some(Post(
      r[0].num, r[1].num, r[2].num, r[3].num,
      r[4].num, r[5].num, r[6].text, r[7].num,
      r[8].num, r[9].text, r[10].text, r[11].text,
      r[12].text, r[13].text, r[14].text))
  }

  /** Every post is read back from its row. */
  lemma PostRoundTrip(post: Post)
    ensures RowToPost(PostToRow(post)) == Some(post)
  {
  }

  /** Every row of the right shape is the row of the post read from it. */
  lemma RowRoundTrip(r: Row)
    requires Fits(r, Shape)
    ensures PostToRow(RowToPost(r).value) == r
  {
    var back := PostToRow(RowToPost(r).value);
    forall i | 0 <= i < |r| ensures back[i] == r[i] {
      assert r[i].Number? <==> Shape[i] == NumberCell;
    }
  }
}
