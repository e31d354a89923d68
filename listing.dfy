/** The read-only listings of `app.py`: `home()` (GET) and `library_home()`.
    Each joins books to their authors, `home()` optionally filters on a
    search term, and both order the result by title or by author name. */
module Listing {
  import opened Wrappers
  import opened Text
  import opened DataModels

  // ---------------------------------------------------------------------
  // Join
  // ---------------------------------------------------------------------

  /** One row of `Book.query.join(Author)`: the book (with its key) and
      the author it refers to. */
  datatype Row = Row(bookId: int, book: Book, author: Author)

  /** `row` is a row of the join of `c`'s two tables. */
  predicate IsJoined(c: Catalogue, row: Row) {
    && row.bookId in c.books && c.books[row.bookId] == row.book
    && row.book.authorId in c.authors && c.authors[row.book.authorId] == row.author
  }

  /** The keys of a table in rowid order, the order a table scan visits them. */
  function KeysAscending(s: set<int>): (ids: seq<int>)
    ensures forall i, j :: 0 <= i < j < |ids| ==> ids[i] < ids[j]
    ensures forall k :: k in ids <==> k in s
    ensures |ids| == |s|
    decreases |s|
  {
    if s == {} then [] else
      var m := Min(s);
      [m] + KeysAscending(s - {m})
  }

  /** The joined rows of the books listed in `ids`, in that order. */
  function JoinRows(c: Catalogue, ids: seq<int>): (rows: seq<Row>)
    requires forall i, j :: 0 <= i < j < |ids| ==> ids[i] != ids[j]
    ensures forall row :: multiset(rows)[row] == if row.bookId in ids && IsJoined(c, row) then 1 else 0
  {
    if ids == [] then []
    else
      var rest := JoinRows(c, ids[1..]);
      var id := ids[0];
      assert forall k :: k in ids[1..] ==> k != id;
      if id in c.books && c.books[id].authorId in c.authors then
        var head := Row(id, c.books[id], c.authors[c.books[id].authorId]);
        assert forall row :: IsJoined(c, row) && row.bookId == id ==> row == head;
        [head] + rest
      else
        rest
  }

  /** `Book.query.join(Author)`: every book whose author exists, once. */
  function Joined(c: Catalogue): (rows: seq<Row>)
    ensures forall row :: multiset(rows)[row] == if IsJoined(c, row) then 1 else 0
  {
    JoinRows(c, KeysAscending(c.books.Keys))
  }

  // ---------------------------------------------------------------------
  // Search filter
  // ---------------------------------------------------------------------

  /** `Book.title ILIKE '%term%' OR Author.name ILIKE '%term%'`. */
  predicate Matches(row: Row, term: string) {
    ContainsIgnoreCase(row.book.title, term) || ContainsIgnoreCase(row.author.name, term)
  }

  /** The rows that match `term`, in their original order. */
  function Filter(rows: seq<Row>, term: string): (r: seq<Row>)
    ensures forall row :: multiset(r)[row] == if Matches(row, term) then multiset(rows)[row] else 0
  {
    if rows == [] then []
    else
      assert rows == [rows[0]] + rows[1..];
      (if Matches(rows[0], term) then [rows[0]] else []) + Filter(rows[1..], term)
  }

  // ---------------------------------------------------------------------
  // ORDER BY
  // ---------------------------------------------------------------------

  datatype SortKey = ByTitle | ByAuthorName

  function SortField(key: SortKey, row: Row): string {
    match key
    case ByTitle => row.book.title
    case ByAuthorName => row.author.name
  }

  /** `x` may come before `y` under `ORDER BY field ASC` or `DESC`. */
  predicate InOrder(key: SortKey, ascending: bool, x: Row, y: Row) {
    if ascending then StrLe(SortField(key, x), SortField(key, y))
    else StrLe(SortField(key, y), SortField(key, x))
  }

  predicate Ordered(rows: seq<Row>, key: SortKey, ascending: bool) {
    forall i, j :: 0 <= i < j < |rows| ==> InOrder(key, ascending, rows[i], rows[j])
  }

  lemma InOrderTotal(key: SortKey, ascending: bool, x: Row, y: Row)
    ensures InOrder(key, ascending, x, y) || InOrder(key, ascending, y, x)
  {
    StrLeTotal(SortField(key, x), SortField(key, y));
  }

  /** A row that may precede the head of an ordered list may precede all of it. */
  lemma PrependOrdered(key: SortKey, ascending: bool, row: Row, rows: seq<Row>)
    requires Ordered(rows, key, ascending)
    requires rows != [] ==> InOrder(key, ascending, row, rows[0])
    ensures Ordered([row] + rows, key, ascending)
  {
    var r := [row] + rows;
    forall i, j | 0 <= i < j < |r|
      ensures InOrder(key, ascending, r[i], r[j])
    {
      if i == 0 && j > 1 {
        var a, b, c := SortField(key, row), SortField(key, rows[0]), SortField(key, rows[j - 1]);
        if ascending { StrLeTransitive(a, b, c); } else { StrLeTransitive(c, b, a); }
      }
    }
  }

  /** Putting `head` in front of an ordered `rest` whose elements are `row`
      and the elements of `pool`, all of which may follow `head`. */
  lemma ConsOrdered(key: SortKey, ascending: bool, head: Row, row: Row, pool: seq<Row>, rest: seq<Row>)
    requires Ordered(rest, key, ascending)
    requires multiset(rest) == multiset(pool) + multiset{row}
    requires InOrder(key, ascending, head, row)
    requires forall j :: 0 <= j < |pool| ==> InOrder(key, ascending, head, pool[j])
    ensures Ordered([head] + rest, key, ascending)
  {
    var r := [head] + rest;
    forall i, j | 0 <= i < j < |r|
      ensures InOrder(key, ascending, r[i], r[j])
    {
      if i == 0 {
        var x := rest[j - 1];
        assert x in multiset(rest);
        if x != row {
          assert x in multiset(pool);
          assert x in pool;
        }
      }
    }
  }

  /** Inserts `row` into an ordered list, keeping it ordered. */
  function Insert(row: Row, rows: seq<Row>, key: SortKey, ascending: bool): (r: seq<Row>)
    requires Ordered(rows, key, ascending)
    ensures Ordered(r, key, ascending)
    ensures multiset(r) == multiset(rows) + multiset{row}
  {
    if rows == [] || InOrder(key, ascending, row, rows[0]) then
      PrependOrdered(key, ascending, row, rows);
      [row] + rows
    else
      var rest := Insert(row, rows[1..], key, ascending);
      assert rows == [rows[0]] + rows[1..];
      InOrderTotal(key, ascending, row, rows[0]);
      ConsOrdered(key, ascending, rows[0], row, rows[1..], rest);
      [rows[0]] + rest
  }

  /** An ordered permutation of `rows`. The order among rows with equal
      sort fields is left open, as it is for `ORDER BY`. */
  function Sort(rows: seq<Row>, key: SortKey, ascending: bool): (r: seq<Row>)
    ensures Ordered(r, key, ascending)
    ensures multiset(r) == multiset(rows)
  {
    if rows == [] then []
    else
      assert rows == [rows[0]] + rows[1..];
      Insert(rows[0], Sort(rows[1..], key, ascending), key, ascending)
  }

  // ---------------------------------------------------------------------
  // The two listing handlers
  // ---------------------------------------------------------------------

  /** `home()`'s sort field: by author name only for `sort_by=author`
      (the parameter defaults to "title"). */
  function HomeSortKey(sortBy: Option<string>): (key: SortKey)
    ensures key == ByAuthorName <==> sortBy == Some("author")
  {
    if sortBy.GetOr("title") == "author" then ByAuthorName else ByTitle
  }

  /** `home()` sorts ascending only for `direction=asc`, which is also the
      default; every other value sorts descending. */
  function HomeAscending(direction: Option<string>): (ascending: bool)
    ensures ascending <==> direction.None? || direction == Some("asc")
  {
    direction.GetOr("asc") == "asc"
  }

  /** The joined rows `home()` keeps for a stripped search term: all of
      them for an empty term, the matching ones otherwise. */
  function Selected(c: Catalogue, term: string): (rows: seq<Row>)
    ensures forall row :: multiset(rows)[row] ==
              if IsJoined(c, row) && (term == "" || Matches(row, term)) then 1 else 0
  {
    var joined := Joined(c);
    if term != "" then Filter(joined, term) else joined
  }

  /** What `home()` hands to its template on GET. */
  datatype HomePage = HomePage(books: seq<Row>, searchQuery: string)

  /** `home()` on GET, given the optional query parameters `search`,
      `sort_by` and `direction`. */
  function Home(c: Catalogue, search: Option<string>, sortBy: Option<string>, direction: Option<string>): (page: HomePage)
    ensures page.searchQuery == Strip(search.GetOr(""))
    ensures forall row :: multiset(page.books)[row] ==
              if IsJoined(c, row) && (page.searchQuery == "" || Matches(row, page.searchQuery)) then 1 else 0
    ensures Ordered(page.books, if sortBy == Some("author") then ByAuthorName else ByTitle,
                    direction.None? || direction == Some("asc"))
  {
    var term := Strip(search.GetOr(""));
    var key := HomeSortKey(sortBy);
    var ascending := HomeAscending(direction);
    HomePage(Sort(Selected(c, term), key, ascending), term)
  }

  /** `library_home()`'s sort field: a `sort_by` other than "title" or
      "author" falls back to "title". */
  function LibrarySortKey(sortBy: Option<string>): (key: SortKey)
    ensures key == ByAuthorName <==> sortBy == Some("author")
  {
    var field := sortBy.GetOr("title");
    var field := if field != "title" && field != "author" then "title" else field;
    if field == "title" then ByTitle else ByAuthorName
  }

  /** `library_home()` sorts descending only for `direction=desc`; every
      other value, and the default "asc", sorts ascending. */
  function LibraryAscending(direction: Option<string>): (ascending: bool)
    ensures !ascending <==> direction == Some("desc")
  {
    !(direction.GetOr("asc") == "desc")
  }

  /** `library_home()`, given the optional query parameters `sort_by` and
      `direction`; there is no search. */
  function LibraryHome(c: Catalogue, sortBy: Option<string>, direction: Option<string>): (rows: seq<Row>)
    ensures forall row :: multiset(rows)[row] == if IsJoined(c, row) then 1 else 0
    ensures Ordered(rows, if sortBy == Some("author") then ByAuthorName else ByTitle,
                    direction != Some("desc"))
  {
    Sort(Joined(c), LibrarySortKey(sortBy), LibraryAscending(direction))
  }

  /** The authors stored under `ids`, in that order. */
  function AuthorsAt(authors: map<int, Author>, ids: seq<int>): (r: seq<Author>)
    requires forall i :: 0 <= i < |ids| ==> ids[i] in authors
    ensures |r| == |ids|
    ensures forall i :: 0 <= i < |ids| ==> r[i] == authors[ids[i]]
  {
    if ids == [] then [] else [authors[ids[0]]] + AuthorsAt(authors, ids[1..])
  }

  /** `Author.query.all()` for the author drop-down of `add_book()`:
      every author, in rowid order, one entry per author. */
  function AuthorChoices(c: Catalogue): (choices: seq<Author>)
    ensures |choices| == |c.authors|
    ensures forall i :: 0 <= i < |choices| ==> choices[i] in c.authors.Values
  {
    var ids := KeysAscending(c.authors.Keys);
    AuthorsAt(c.authors, ids)
  }

  /** Every author is offered. */
  lemma AuthorChoicesComplete(c: Catalogue, k: int)
    requires k in c.authors
    ensures c.authors[k] in AuthorChoices(c)
  {
  }

  // ---------------------------------------------------------------------
  // Properties of the listings
  // ---------------------------------------------------------------------

  /** A search term that strips to nothing lists every joined book. */
  lemma EmptySearchListsAll(c: Catalogue, search: Option<string>, sortBy: Option<string>, direction: Option<string>)
    ensures Strip(search.GetOr("")) == "" ==>
              forall row :: row in Home(c, search, sortBy, direction).books <==> IsJoined(c, row)
  {
    var page := Home(c, search, sortBy, direction);
    forall row ensures row in page.books <==> multiset(page.books)[row] > 0 {
    }
  }

  /** A non-blank search lists exactly the joined books whose title or
      author name contains the term at some position, ignoring ASCII case,
      each once. */
  lemma SearchListsExactlyMatches(c: Catalogue, search: Option<string>, sortBy: Option<string>,
                                  direction: Option<string>, row: Row)
    ensures var page := Home(c, search, sortBy, direction);
            var term := Lower(page.searchQuery);
            page.searchQuery != "" ==>
            && (row in page.books <==>
                 IsJoined(c, row) &&
                 ((exists i :: OccursAt(term, Lower(row.book.title), i)) ||
                  (exists i :: OccursAt(term, Lower(row.author.name), i))))
            && (row in page.books ==> multiset(page.books)[row] == 1)
  {
    var page := Home(c, search, sortBy, direction);
    ContainsIgnoreCaseAt(row.book.title, page.searchQuery);
    ContainsIgnoreCaseAt(row.author.name, page.searchQuery);
    assert row in page.books <==> multiset(page.books)[row] > 0;
  }

  /** For the same catalogue and sort field, `home()` and `library_home()`
      list the same rows; they disagree on the direction only when
      `direction` is present and neither "asc" nor "desc": `home()` then
      sorts descending and `library_home()` ascending. */
  lemma ListingsAgreeOnRows(c: Catalogue, sortBy: Option<string>, direction: Option<string>)
    ensures multiset(Home(c, None, sortBy, direction).books) == multiset(LibraryHome(c, sortBy, direction))
  {
  }
}
