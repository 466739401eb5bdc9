/** The "My Books" shelf view (app/my-books/page.js): per-shelf counts, the
    list shown for the selected shelf tab, the tab labels and emoji with
    their fallbacks, and the five-star rating row. */
module Shelves {
  import opened Seqs

  /** A `user_books` row as the view uses it: its shelf and optional rating. */
  datatype UserBook = UserBook(shelf: string, rating: Option<int>)

  /** `getShelfCounts()`. */
  datatype ShelfCounts = ShelfCounts(all: nat, wantToRead: nat, reading: nat, finished: nat)

  const WantToRead := "want_to_read"
  const Reading := "reading"
  const Finished := "finished"

  /** The three shelves a row is meant to be on. */
  predicate IsKnownShelf(shelf: string) {
    shelf == WantToRead || shelf == Reading || shelf == Finished
  }

  /** `ub => ub.shelf === shelf`. */
  function OnShelf(shelf: string): UserBook -> bool {
    (ub: UserBook) => ub.shelf == shelf
  }

  /** `getShelfCounts()`: the number of rows, and of rows on each shelf. */
  function ShelfCountsOf(books: seq<UserBook>): (c: ShelfCounts)
    ensures c.all == |books|
    ensures c.wantToRead == |Filter(OnShelf(WantToRead), books)|
    ensures c.reading == |Filter(OnShelf(Reading), books)|
    ensures c.finished == |Filter(OnShelf(Finished), books)|
  {
    ShelfCounts(|books|, |Filter(OnShelf(WantToRead), books)|, |Filter(OnShelf(Reading), books)|,
                |Filter(OnShelf(Finished), books)|)
  }

  /** When every row is on one of the three shelves, the shelf counts add up
      to the total. */
  lemma {:induction false} ShelfCountsSum(books: seq<UserBook>)
    requires forall i :: 0 <= i < |books| ==> IsKnownShelf(books[i].shelf)
    ensures var c := ShelfCountsOf(books); c.wantToRead + c.reading + c.finished == c.all
  {
    if books != [] {
      ShelfCountsSum(books[1..]);
    }
  }

  /** `filteredBooks`: the `'all'` tab shows every row; any other tab shows
      exactly the rows on that shelf, in their original order. */
  function FilteredBooks(books: seq<UserBook>, active: string): (r: seq<UserBook>)
    ensures active == "all" ==> r == books
    ensures active != "all" ==>
              (forall i :: 0 <= i < |r| ==> r[i].shelf == active && r[i] in books) &&
              (forall i :: 0 <= i < |books| && books[i].shelf == active ==> books[i] in r)
  {
    if active == "all" then books else Filter(OnShelf(active), books)
  }

  /** The shown list keeps order: it is the rows on that shelf read at
      increasing indices. */
  lemma FilteredBooksInOrder(books: seq<UserBook>, active: string)
    requires active != "all"
    ensures var idx := IndicesWhere(OnShelf(active), books);
            |FilteredBooks(books, active)| == |idx| &&
            (forall k :: 0 <= k < |idx| ==> FilteredBooks(books, active)[k] == books[idx[k]]) &&
            (forall k, l :: 0 <= k < l < |idx| ==> idx[k] < idx[l]) &&
            (forall i :: 0 <= i < |books| ==> (i in idx <==> books[i].shelf == active))
  {
    FilterIsIndexed(OnShelf(active), books);
  }

  /** `counts[shelf]` on a tab. */
  function TabCount(c: ShelfCounts, tab: string): (n: Option<nat>)
    ensures n.None? <==> tab != "all" && !IsKnownShelf(tab)
  {
    if tab == "all" then Some(c.all)
    else if tab == WantToRead then Some(c.wantToRead)
    else if tab == Reading then Some(c.reading)
    else if tab == Finished then Some(c.finished)
    else None
  }

  /** The count on each of the four tabs is the length of the list that tab shows. */
  lemma TabCountMatchesList(books: seq<UserBook>, tab: string)
    requires tab == "all" || IsKnownShelf(tab)
    ensures TabCount(ShelfCountsOf(books), tab) == Some(|FilteredBooks(books, tab)|)
  {
  }

  /** `getShelfLabel(shelf)`: the fixed label for the four tab keys, the key
      itself otherwise. */
  function ShelfLabel(shelf: string): (shown: string)
    ensures shelf == "all" ==> shown == "All Books"
    ensures shelf == WantToRead ==> shown == "Want to Read"
    ensures shelf == Reading ==> shown == "Currently Reading"
    ensures shelf == Finished ==> shown == "Finished"
    ensures shelf != "all" && !IsKnownShelf(shelf) ==> shown == shelf
  {
    match shelf
    case "all" => "All Books"
    case "want_to_read" => "Want to Read"
    case "reading" => "Currently Reading"
    case "finished" => "Finished"
    case _ => shelf
  }

  /** `getShelfEmoji(shelf)`: the table's emoji for the four tab keys, and
      the books emoji for anything else. */
  function ShelfEmoji(shelf: string): (emoji: string)
    ensures shelf == Reading ==> emoji == "📖"
    ensures shelf == Finished ==> emoji == "✅"
    ensures shelf != Reading && shelf != Finished ==> emoji == "📚"
  {
    match shelf
    case "all" => "📚"
    case "want_to_read" => "📚"
    case "reading" => "📖"
    case "finished" => "✅"
    case _ => "📚"
  }

  /** The rating row: shown only for a truthy rating (present and non-zero);
      star k (1..5) is filled when `k <= rating`. */
  function Stars(rating: Option<int>): (stars: Option<seq<bool>>)
    ensures stars.Some? <==> rating.Some? && rating.value != 0
    ensures stars.Some? ==>
              (|stars.value| == 5 && forall k :: 0 <= k < 5 ==> (stars.value[k] <==> k + 1 <= rating.value))
  {
    if rating.Some? && rating.value != 0 then
      Some(seq(5, k requires 0 <= k < 5 => k + 1 <= rating.value))
    else None
  }

  /** The number of filled stars in a row. */
  function FilledCount(stars: seq<bool>): nat {
    if stars == [] then 0 else (if stars[0] then 1 else 0) + FilledCount(stars[1..])
  }

  /** The first `r` entries are filled and the rest empty: `r` are filled. */
  lemma {:induction false} FilledPrefixCount(stars: seq<bool>, r: nat)
    requires r <= |stars|
    requires forall k :: 0 <= k < |stars| ==> (stars[k] <==> k < r)
    ensures FilledCount(stars) == r
  {
    if stars != [] {
      FilledPrefixCount(stars[1..], if r > 0 then r - 1 else 0);
    }
  }

  /** A rating r in 1..5 fills exactly r of the five stars, the first r. */
  lemma StarsForRating(r: int)
    requires 1 <= r <= 5
    ensures Stars(Some(r)).Some? && FilledCount(Stars(Some(r)).value) == r
  {
    FilledPrefixCount(Stars(Some(r)).value, r);
  }
}
