/** Topic records and the rows `topicToRow` makes of them: the sixteen columns of a topic row: its ids, title, type, status and visibility, then the state computed from its posts. */
module TopicModel {
  import opened Js
  import opened Rows

  /** The fields of a topic (a thread) of the forum, one per column. */
  datatype Topic = Topic(
    topicId: Num,
    topicType: Num,
    forumId: Num,
    topicTitle: string,
    topicStatus: Num,
    topicVisibility: Num,
    topicTime: Num,
    topicFirstPostId: Num,
    topicFirstPosterName: string,
    topicPoster: Num,
    topicLastPostId: Num,
    topicLastPosterId: Num,
    topicLastPosterName: string,
    topicLastPostSubject: string,
    topicLastPostTime: Num,
    topicPostsApproved: Num)

  /** The cell kinds of a topic row, column by column. */
  const Shape: seq<Kind> := [
    NumberCell, NumberCell, NumberCell, StringCell,
    NumberCell, NumberCell, NumberCell, NumberCell,
    StringCell, NumberCell, NumberCell, NumberCell,
    StringCell, StringCell, NumberCell, NumberCell]

  /** `topicToRow`: the fields in column order. */
  function TopicToRow(topic: Topic): (r: Row)
    ensures Fits(r, Shape)
  {
    [Number(topic.topicId),
     Number(topic.topicType),
     Number(topic.forumId),
     Str(topic.topicTitle),
     Number(topic.topicStatus),
     Number(topic.topicVisibility),
     Number(topic.topicTime),
     Number(topic.topicFirstPostId),
     Str(topic.topicFirstPosterName),
     Number(topic.topicPoster),
     Number(topic.topicLastPostId),
     Number(topic.topicLastPosterId),
     Str(topic.topicLastPosterName),
     Str(topic.topicLastPostSubject),
     Number(topic.topicLastPostTime),
     Number(topic.topicPostsApproved)]
  }

  /** Reading a topic back from a row, by position; no topic when a cell has
      the wrong kind or the row the wrong length. */
  function RowToTopic(r: Row): (t: Option<Topic>)
    ensures t.Some? <==> Fits(r, Shape)
  {
    if !Fits(r, Shape) then None
    else Some(Topic(
      r[0].num, r[1].num, r[2].num, r[3].text,
      r[4].num, r[5].num, r[6].num, r[7].num,
      r[8].text, r[9].num, r[10].num, r[11].num,
      r[12].text, r[13].text, r[14].num, r[15].num))
  }

  /** Every topic is read back from its row. */
  lemma TopicRoundTrip(topic: Topic)
    ensures RowToTopic(TopicToRow(topic)) == Some(topic)
  {
  }

  /** Every row of the right shape is the row of the topic read from it. */
  lemma RowRoundTrip(r: Row)
    requires Fits(r, Shape)
    ensures TopicToRow(RowToTopic(r).value) == r
  {
    var back := TopicToRow(RowToTopic(r).value);
    forall i | 0 <= i < |r| ensures back[i] == r[i] {
      assert r[i].Number? <==> Shape[i] == NumberCell;
    }
  }
}
