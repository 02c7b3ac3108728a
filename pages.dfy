/** Reading a paginated list the way the crawl does: each page is drained
    from its end (`pop`), and the items taken so far, the rest of the current
    page and the pages still to come always make up the whole walk. */
module Pages {
  import opened Text

  /** The elements of `s` in reverse order (`pop` takes from the end). */
  function Reversed<T>(s: seq<T>): (r: seq<T>)
    ensures |r| == |s|
    ensures forall k :: 0 <= k < |s| ==> r[k] == s[|s| - 1 - k]
  {
    if s == [] then [] else [s[|s| - 1]] + Reversed(s[..|s| - 1])
  }

  /** `done` were taken, `page` is what is left of the current page, and
      `next` the items of the pages after it: popping the rest of the page
      one item at a time and then taking `next` gives `whole`. */
  ghost predicate Walked<T>(done: seq<T>, page: seq<T>, next: seq<T>, whole: seq<T>)
    decreases |page|
  {
    if page == [] then done + next == whole
    else Walked(done + [Last(page)], page[..|page| - 1], next, whole)
  }

  /** The walk in closed form: the done items, the page backwards, then the
      pages after it. */
  lemma {:induction false} WalkedIsConcat<T>(done: seq<T>, page: seq<T>, next: seq<T>, whole: seq<T>)
    ensures Walked(done, page, next, whole) <==> done + (Reversed(page) + next) == whole
    decreases |page|
  {
    if page != [] {
      var rest := page[..|page| - 1];
      WalkedIsConcat(done + [Last(page)], rest, next, whole);
      assert Reversed(page) == [Last(page)] + Reversed(rest);
      assert done + (Reversed(page) + next) == (done + [Last(page)]) + (Reversed(rest) + next);
    }
  }

  /** Nothing taken yet: the first page and the pages after it are the whole. */
  lemma Start<T>(page: seq<T>, next: seq<T>, whole: seq<T>)
    requires whole == Reversed(page) + next
    ensures Walked([], page, next, whole)
  {
    WalkedIsConcat([], page, next, whole);
  }

  /** Popping the last item of `page` moves it to the done ones. */
  lemma TakeLast<T>(done: seq<T>, page: seq<T>, next: seq<T>, whole: seq<T>)
    requires page != [] && Walked(done, page, next, whole)
    ensures Walked(done + [Last(page)], page[..|page| - 1], next, whole)
  {
  }

  /** A drained page is followed by the next page, read from its end. */
  lemma Refill<T>(done: seq<T>, page: seq<T>, rest: seq<T>, whole: seq<T>)
    requires Walked(done, [], Reversed(page) + rest, whole)
    ensures Walked(done, page, rest, whole)
  {
    WalkedIsConcat(done, page, rest, whole);
  }

  /** With the page drained and no pages left, the walk is done. */
  lemma Finished<T>(done: seq<T>, whole: seq<T>)
    requires Walked(done, [], [], whole)
    ensures done == whole
  {
  }

  lemma AppendAssoc<T>(a: seq<T>, b: seq<T>, c: seq<T>)
    ensures (a + b) + c == a + (b + c)
  {
  }
}
