/** The catalog page's genre bar (app/books/page.js): the de-duplicated list
    of genres headed by `'all'`, the books shown for the selected genre and
    the count on each genre button. */
module Catalog {
  import opened Seqs

  /** A catalog book as the genre bar uses it. */
  datatype Book = Book(title: string, genre: Option<string>)

  /** `Boolean(book.genre)`: a genre is present and non-empty. */
  predicate HasGenre(b: Book) {
    b.genre.Some? && b.genre.value != ""
  }

  /** `books.map(book => book.genre).filter(Boolean)`: the genre of each
      book that has one, in book order. */
  function GenreValues(books: seq<Book>): (gs: seq<string>)
    ensures |gs| == |IndicesWhere(HasGenre, books)|
    ensures forall k :: 0 <= k < |gs| ==> gs[k] == books[IndicesWhere(HasGenre, books)[k]].genre.value
  {
    if books == [] then []
    else
      var n := |books| - 1;
      var prev := GenreValues(books[..n]);
      assert forall i :: 0 <= i < n ==> books[..n][i] == books[i];
      prev + (if HasGenre(books[n]) then [books[n].genre.value] else [])
  }

  /** The genre values are non-empty, and are exactly the non-empty genres
      of the books. */
  lemma GenreValuesMembers(books: seq<Book>)
    ensures forall i :: 0 <= i < |GenreValues(books)| ==> GenreValues(books)[i] != ""
    ensures forall g :: g in GenreValues(books) <==>
              exists i :: 0 <= i < |books| && books[i].genre == Some(g) && g != ""
  {
    var gv, idx := GenreValues(books), IndicesWhere(HasGenre, books);
    forall g
      ensures g in gv <==> exists i :: 0 <= i < |books| && books[i].genre == Some(g) && g != ""
    {
      if g in gv {
        var k :| 0 <= k < |gv| && gv[k] == g;
        assert books[idx[k]].genre == Some(g);
      }
      if exists i :: 0 <= i < |books| && books[i].genre == Some(g) && g != "" {
        var i :| 0 <= i < |books| && books[i].genre == Some(g) && g != "";
        assert HasGenre(books[i]);
        var k :| 0 <= k < |idx| && idx[k] == i;
        assert gv[k] == g;
      }
    }
  }

  /** The position of the first occurrence of `x` in `s`. */
  function FirstIndex<T(==)>(s: seq<T>, x: T): (i: nat)
    requires x in s
    ensures i < |s| && s[i] == x
    ensures forall j :: 0 <= j < i ==> s[j] != x
  {
    if s[0] == x then 0 else 1 + FirstIndex(s[1..], x)
  }

  /** `[...new Set(s)]`: adding the elements in order to a set keeps each
      value once, at its first occurrence. */
  function Distinct(s: seq<string>): (d: seq<string>)
    ensures forall i, j :: 0 <= i < j < |d| ==> d[i] != d[j]
    ensures forall x :: x in d <==> x in s
    ensures forall i, j :: 0 <= i < j < |d| ==> FirstIndex(s, d[i]) < FirstIndex(s, d[j])
  {
    if s == [] then []
    else
      var n := |s| - 1;
      var prev := Distinct(s[..n]);
      FirstIndexOfPrefix(s, n);
      if s[n] in prev then prev
      else
        assert s[n] !in s[..n];
        assert FirstIndex(s, s[n]) == n by {
          assert forall j :: 0 <= j < n ==> s[j] == s[..n][j];
        }
        prev + [s[n]]
  }

  /** An element of a prefix first occurs at the same place in the whole sequence. */
  lemma FirstIndexOfPrefix<T>(s: seq<T>, n: nat)
    requires n <= |s|
    ensures forall x :: x in s[..n] ==> x in s && FirstIndex(s, x) == FirstIndex(s[..n], x) < n
  {
    forall x | x in s[..n]
      ensures x in s && FirstIndex(s, x) == FirstIndex(s[..n], x) < n
    {
      var k := FirstIndex(s[..n], x);
      assert s[k] == x;
      assert forall j :: 0 <= j < k ==> s[j] == s[..n][j];
      FirstIndexUnique(s, x, k);
    }
  }

  /** The first occurrence is the only index with no earlier occurrence. */
  lemma FirstIndexUnique<T>(s: seq<T>, x: T, k: nat)
    requires k < |s| && s[k] == x
    requires forall j :: 0 <= j < k ==> s[j] != x
    ensures FirstIndex(s, x) == k
  {
    var f := FirstIndex(s, x);
    assert !(f < k) && !(k < f);
  }

  /** `genres`: `'all'` followed by the distinct non-empty genres. */
  function Genres(books: seq<Book>): (gs: seq<string>)
    ensures |gs| >= 1 && gs[0] == "all"
    ensures forall i, j :: 1 <= i < j < |gs| ==> gs[i] != gs[j]
    ensures forall g :: g in gs[1..] <==> exists i :: 0 <= i < |books| && books[i].genre == Some(g) && g != ""
  {
    GenreValuesMembers(books);
    var d := Distinct(GenreValues(books));
    assert (["all"] + d)[1..] == d;
    ["all"] + d
  }

  /** The genres after `'all'` appear in the order in which they first occur
      among the books' genres. */
  lemma GenresInFirstOccurrenceOrder(books: seq<Book>, i: nat, j: nat)
    requires 1 <= i < j < |Genres(books)|
    ensures var gv := GenreValues(books);
            Genres(books)[i] in gv && Genres(books)[j] in gv &&
            FirstIndex(gv, Genres(books)[i]) < FirstIndex(gv, Genres(books)[j])
  {
    var d := Distinct(GenreValues(books));
    assert Genres(books)[i] == d[i - 1] && Genres(books)[j] == d[j - 1];
  }

  /** The genres after `'all'` follow the books: for i < j, the first book
      whose genre is `Genres(books)[i]` comes before the first book whose genre
      is `Genres(books)[j]`. */
  lemma GenresInBookOrder(books: seq<Book>, i: nat, j: nat)
    requires 1 <= i < j < |Genres(books)|
    ensures exists bi, bj :: 0 <= bi < bj < |books| &&
              FirstBookOf(books, Genres(books)[i], bi) && FirstBookOf(books, Genres(books)[j], bj)
  {
    var gv := GenreValues(books);
    var idx := IndicesWhere(HasGenre, books);
    GenreValuesMembers(books);
    GenresInFirstOccurrenceOrder(books, i, j);
    var ki, kj := FirstIndex(gv, Genres(books)[i]), FirstIndex(gv, Genres(books)[j]);
    FirstBookAt(books, Genres(books)[i]);
    FirstBookAt(books, Genres(books)[j]);
    assert idx[ki] < idx[kj];
  }

  /** Book `b` is the first book with genre `g`. */
  predicate FirstBookOf(books: seq<Book>, g: string, b: nat) {
    b < |books| && books[b].genre == Some(g) && forall c :: 0 <= c < b ==> books[c].genre != Some(g)
  }

  /** A genre's first place among the genre values is read from its first book. */
  lemma FirstBookAt(books: seq<Book>, g: string)
    requires g in GenreValues(books)
    ensures var gv, idx := GenreValues(books), IndicesWhere(HasGenre, books);
            FirstIndex(gv, g) < |idx| && FirstBookOf(books, g, idx[FirstIndex(gv, g)])
  {
    var gv, idx := GenreValues(books), IndicesWhere(HasGenre, books);
    var k := FirstIndex(gv, g);
    var b := idx[k];
    assert g != "";
  }

  /** `genre => book.genre === genre`. */
  function InGenre(g: string): Book -> bool {
    (b: Book) => b.genre == Some(g)
  }

  /** `filteredBooks`: every book for `'all'`, else exactly the books of the
      selected genre. */
  function FilteredBooks(books: seq<Book>, selected: string): (r: seq<Book>)
    ensures selected == "all" ==> r == books
    ensures selected != "all" ==>
              (forall i :: 0 <= i < |r| ==> r[i].genre == Some(selected) && r[i] in books) &&
              (forall i :: 0 <= i < |books| && books[i].genre == Some(selected) ==> books[i] in r)
  {
    if selected == "all" then books else Filter(InGenre(selected), books)
  }

  /** The books of a genre are shown in catalog order. */
  lemma FilteredBooksInOrder(books: seq<Book>, selected: string)
    requires selected != "all"
    ensures var idx := IndicesWhere(InGenre(selected), books);
            |FilteredBooks(books, selected)| == |idx| &&
            (forall k :: 0 <= k < |idx| ==> FilteredBooks(books, selected)[k] == books[idx[k]]) &&
            (forall k, l :: 0 <= k < l < |idx| ==> idx[k] < idx[l]) &&
            (forall i :: 0 <= i < |books| ==> (i in idx <==> books[i].genre == Some(selected)))
  {
    FilterIsIndexed(InGenre(selected), books);
  }

  /** The count on the button of genre `g`. */
  function GenreCount(books: seq<Book>, g: string): (n: nat)
    ensures n <= |books|
    ensures g != "all" ==> n == |FilteredBooks(books, g)|
  {
    |Filter(InGenre(g), books)|
  }

  /** `genres.length > 1`: the genre bar is shown exactly when some book has
      a non-empty genre. */
  function ShowGenreBar(books: seq<Book>): (shown: bool)
    ensures shown <==> exists i :: 0 <= i < |books| && HasGenre(books[i])
  {
    var gs := Genres(books);
    if |gs| > 1 then
      assert gs[1] in gs[1..];
      true
    else
      assert forall i :: 0 <= i < |books| && HasGenre(books[i]) ==> books[i].genre.value in gs[1..];
      false
  }
}
