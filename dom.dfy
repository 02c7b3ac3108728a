/** What the HTML queries of the post parsers read from one `div.post` element.
    The queries themselves belong to the HTML library and are not modelled; the
    values they return are given here. */
module Dom {
  import opened Js

  /** The edit notice of a post (`div.notice`): its text and the text of its
      links. */
  datatype Notice = Notice(text: string, linkText: string)

  /** One post element:
      `author` is the text of `.author`,
      `id` the `id` attribute (absent when the element has none),
      `anchorText(href)` the text of the links `a[href="..."]`,
      `content` the inner HTML of `div.content`,
      `notice` the edit notice, when there is one. */
  datatype PostElement = PostElement(
    author: string,
    id: Option<string>,
    anchorText: string -> string,
    content: string,
    notice: Option<Notice>)

  /** A time as the parsers record it: 0, or the text handed to `Date.parse`
      together with the unit of the result (`Date.parse` gives milliseconds;
      the newer parser divides by 1000). */
  datatype Timestamp = Zero | DateOf(text: string, inSeconds: bool)
}
