/** The state-changing request handlers of `app.py`: the delete branch of
    `home()` and the `delete_book` endpoint (which share one cascade),
    `add_author()` and `add_book()`. Each transition is first stated as a
    function on a `Catalogue`; the class `Library` then holds the two
    tables and performs the same transitions step by step. */
module Handlers {
  import opened Wrappers
  import opened Text
  import opened DataModels
  import opened Listing

  // ---------------------------------------------------------------------
  // Flash messages
  // ---------------------------------------------------------------------

  /** A flashed message with its category ("message" when none is given). */
  datatype Flash = Flash(category: string, message: string)

  const BOOK_DELETED := Flash("success", "Book successfully deleted!")
  const BOOK_ID_NOT_FOUND := Flash("error", "Book ID not found!")
  const INVALID_BOOK_ID := Flash("error", "Invalid book ID!")
  const ENDPOINT_BOOK_DELETED := Flash("success", "Book deleted!")
  const ENDPOINT_BOOK_NOT_FOUND := Flash("danger", "Book not found.")
  const AUTHOR_FIELDS_MISSING := Flash("message", "Please insert all required dates.")
  const AUTHOR_ADDED := Flash("message", "Author successfully added!")
  const AUTHOR_ADDED_SUCCESS := Flash("success", "Author successfully added!")
  const BOOK_FIELDS_MISSING := Flash("message", "Please fill in all fields.")
  const BOOK_ADDED := Flash("message", "Book successfully added!")

  /** A form field that Python treats as true: present and non-empty. */
  predicate Filled(field: Option<string>) {
    field.Some? && field.value != ""
  }

  // ---------------------------------------------------------------------
  // Cascade delete
  // ---------------------------------------------------------------------

  /** No book of `c` refers to `authorId`. */
  predicate Orphaned(c: Catalogue, authorId: int) {
    forall k :: k in c.books ==> c.books[k].authorId != authorId
  }

  /** Deletes book `id`, then deletes its author if no remaining book
      refers to that author. An absent id changes nothing. */
  function CascadeDelete(c: Catalogue, id: int): (r: Catalogue)
    ensures id !in c.books ==> r == c
    ensures id in c.books ==> r.books == c.books - {id}
    ensures id in c.books ==>
              var a := c.books[id].authorId;
              r.authors == if Orphaned(r, a) then c.authors - {a} else c.authors
  {
    if id !in c.books then c
    else
      var a := c.books[id].authorId;
      var rest := Catalogue(c.authors, c.books - {id});
      if BooksOf(rest, a) == {} then
        assert Orphaned(rest, a) by {
          forall k | k in rest.books ensures rest.books[k].authorId != a {
            assert k !in BooksOf(rest, a);
          }
        }
        Catalogue(c.authors - {a}, rest.books)
      else
        NotOrphaned(rest, a);
        rest
  }

  /** An author with a book in `Author.books` is not orphaned. */
  lemma NotOrphaned(c: Catalogue, authorId: int)
    requires BooksOf(c, authorId) != {}
    ensures !Orphaned(c, authorId)
  {
    var k := Min(BooksOf(c, authorId));
    assert c.books[k].authorId == authorId;
  }

  /** The cascade removes exactly the book and, if it was the author's last
      book, the author; every other row is left as it was. */
  lemma CascadeChangesOnlyBookAndAuthor(c: Catalogue, id: int)
    requires id in c.books
    ensures var r, a := CascadeDelete(c, id), c.books[id].authorId;
            && r.books.Keys == c.books.Keys - {id}
            && (forall k :: k in r.books ==> r.books[k] == c.books[k])
            && (forall x :: x in r.authors ==> x in c.authors && r.authors[x] == c.authors[x])
            && (forall x :: x in c.authors ==>
                  (x !in r.authors <==> x == a && forall k :: k in c.books && k != id ==> c.books[k].authorId != a))
  {
  }

  /** Referential integrity survives the cascade, and so do the other
      schema rules. */
  lemma CascadeKeepsConsistent(c: Catalogue, id: int)
    requires Consistent(c)
    ensures Consistent(CascadeDelete(c, id))
  {
  }

  /** Deleting an author's only book removes the author too; deleting one
      of two or more leaves the author in place. */
  lemma CascadeByBookCount(c: Catalogue, id: int)
    requires Consistent(c) && id in c.books
    ensures var r, a := CascadeDelete(c, id), c.books[id].authorId;
            && (|BooksOf(c, a)| == 1 ==> a !in r.authors)
            && (|BooksOf(c, a)| >= 2 ==> a in r.authors && r.authors[a] == c.authors[a])
  {
    var r, a := CascadeDelete(c, id), c.books[id].authorId;
    var mine := BooksOf(c, a);
    assert id in mine;
    if |mine| == 1 {
      assert |mine - {id}| == 0;
      forall k | k in r.books ensures r.books[k].authorId != a {
        assert k !in mine - {id};
      }
    }
    if |mine| >= 2 {
      assert |mine - {id}| >= 1;
      var k := Min(mine - {id});
      assert k in r.books && r.books[k].authorId == a;
    }
  }

  // ---------------------------------------------------------------------
  // Inserts
  // ---------------------------------------------------------------------

  /** Adds an author under a fresh rowid. */
  function InsertAuthor(c: Catalogue, name: string, birthDate: Option<string>, dateOfDeath: Option<string>): (r: Catalogue)
    ensures r.books == c.books
    ensures |r.authors| == |c.authors| + 1
    ensures forall k :: k in c.authors ==> k in r.authors && r.authors[k] == c.authors[k]
    ensures var id := NextRowId(c.authors.Keys);
            id !in c.authors && id in r.authors && r.authors[id] == Author(id, name, birthDate, dateOfDeath)
  {
    var id := NextRowId(c.authors.Keys);
    Catalogue(c.authors[id := Author(id, name, birthDate, dateOfDeath)], c.books)
  }

  lemma InsertAuthorKeepsConsistent(c: Catalogue, name: string, birthDate: Option<string>, dateOfDeath: Option<string>)
    requires Consistent(c)
    ensures Consistent(InsertAuthor(c, name, birthDate, dateOfDeath))
  {
  }

  /** Why the store refuses a book row. */
  datatype StoreError = DuplicateIsbn | UnknownAuthor

  /** Adds a book under a fresh rowid, unless the UNIQUE constraint on
      `isbn` or the foreign key on `author_id` forbids it (the UNIQUE
      check reported first). */
  function InsertBook(c: Catalogue, isbn: string, title: string, publicationYear: Option<int>, authorId: int)
    : (r: Result<Catalogue, StoreError>)
    ensures r.Failure? <==> IsbnTaken(c, isbn) || authorId !in c.authors
    ensures r.Failure? ==> (r.error == DuplicateIsbn <==> IsbnTaken(c, isbn))
    ensures r.Success? ==>
              && r.value.authors == c.authors
              && |r.value.books| == |c.books| + 1
              && (forall k :: k in c.books ==> k in r.value.books && r.value.books[k] == c.books[k])
              && var id := NextRowId(c.books.Keys);
                 id !in c.books && id in r.value.books
                 && r.value.books[id] == Book(id, isbn, title, publicationYear, authorId)
  {
    if IsbnTaken(c, isbn) then Failure(DuplicateIsbn)
    else if authorId !in c.authors then Failure(UnknownAuthor)
    else
      var id := NextRowId(c.books.Keys);
      Success(Catalogue(c.authors, c.books[id := Book(id, isbn, title, publicationYear, authorId)]))
  }

  /** An accepted insert keeps every schema rule: the new isbn is unused
      and the new author reference exists. */
  lemma InsertBookKeepsConsistent(c: Catalogue, isbn: string, title: string, publicationYear: Option<int>, authorId: int)
    requires Consistent(c)
    requires InsertBook(c, isbn, title, publicationYear, authorId).Success?
    ensures Consistent(InsertBook(c, isbn, title, publicationYear, authorId).value)
  {
  }

  /** A second book with an isbn already present is refused, and the one
      already stored is kept. */
  lemma SecondIsbnRejected(c: Catalogue, isbn: string, title: string, title': string,
                           year: Option<int>, authorId: int)
    requires InsertBook(c, isbn, title, year, authorId).Success?
    ensures var r := InsertBook(c, isbn, title, year, authorId).value;
            var id := NextRowId(c.books.Keys);
            && InsertBook(r, isbn, title', year, authorId) == Failure(DuplicateIsbn)
            && r.books[id].title == title
  {
  }

  /** A book that was just added is listed once, joined with the author
      it names, whatever the sort parameters. */
  lemma AddedBookIsListed(c: Catalogue, isbn: string, title: string, year: Option<int>, authorId: int,
                          sortBy: Option<string>, direction: Option<string>)
    requires InsertBook(c, isbn, title, year, authorId).Success?
    ensures var r := InsertBook(c, isbn, title, year, authorId).value;
            var id := NextRowId(c.books.Keys);
            multiset(LibraryHome(r, sortBy, direction))[Row(id, r.books[id], c.authors[authorId])] == 1
  {
  }

  // ---------------------------------------------------------------------
  // The store and its handlers
  // ---------------------------------------------------------------------

  /** What `add_book()` did with a submitted form. */
  datatype AddBookStatus = Added(id: int) | MissingFields | Rejected(reason: StoreError)

  /** The database: the `authors` and `books` tables. */
  class Library {
    var authors: map<int, Author>
    var books: map<int, Book>

    function State(): Catalogue
      reads this
    {
      Catalogue(authors, books)
    }

    /** The schema's rules hold. */
    predicate Valid()
      reads this
    {
      Consistent(State())
    }

    /** A freshly created database (`db.create_all()`). */
    constructor ()
      ensures State() == Catalogue(map[], map[]) && Valid()
    {
      authors := map[];
      books := map[];
    }

    /** The delete procedure shared by `home()` (POST) and `delete_book`:
        remember the book's author, delete the book, count the books still
        referring to that author, and delete the author when none is left. */
    method DeleteCascade(id: int) returns (found: bool)
      modifies this
      ensures found <==> id in old(books)
      ensures State() == CascadeDelete(old(State()), id)
      ensures old(Valid()) ==> Valid()
    {
      ghost var before := State();
      found := id in books;
      if found {
        var authorId := books[id].authorId;
        books := books - {id};
        var remaining := |set k | k in books && books[k].authorId == authorId|;
        if remaining == 0 {
          if authorId in authors {
            authors := authors - {authorId};
          }
        }
        assert remaining == 0 <==> BooksOf(State(), authorId) == {};
      }
      if Consistent(before) { CascadeKeepsConsistent(before, id); }
    }

    /** `home()` on POST with the form field `delete_book_id`. */
    method HomePost(deleteBookId: Option<string>) returns (flashes: seq<Flash>)
      modifies this
      ensures old(Valid()) ==> Valid()
      ensures !Filled(deleteBookId) ==> State() == old(State()) && flashes == []
      ensures Filled(deleteBookId) && ParseInt(deleteBookId.value).None? ==>
                State() == old(State()) && flashes == [INVALID_BOOK_ID]
      ensures Filled(deleteBookId) && ParseInt(deleteBookId.value).Some? ==>
                var id := ParseInt(deleteBookId.value).value;
                && State() == CascadeDelete(old(State()), id)
                && flashes == if id in old(books) then [BOOK_DELETED] else [BOOK_ID_NOT_FOUND]
    {
      flashes := [];
      if deleteBookId.Some? && deleteBookId.value != "" {
        var parsed := ParseInt(deleteBookId.value);
        if parsed.Some? {
          var found := DeleteCascade(parsed.value);
          flashes := if found then [BOOK_DELETED] else [BOOK_ID_NOT_FOUND];
        } else {
          flashes := [INVALID_BOOK_ID];
        }
      }
    }

    /** `POST /book/<int:book_id>/delete`, performing the cascade its
        documentation describes. */
    method DeleteBook(bookId: nat) returns (flashes: seq<Flash>)
      modifies this
      ensures old(Valid()) ==> Valid()
      ensures State() == CascadeDelete(old(State()), bookId)
      ensures flashes == if bookId in old(books) then [ENDPOINT_BOOK_DELETED] else [ENDPOINT_BOOK_NOT_FOUND]
    {
      var found := DeleteCascade(bookId);
      flashes := if found then [ENDPOINT_BOOK_DELETED] else [ENDPOINT_BOOK_NOT_FOUND];
    }

    /** `add_author()` on POST with the form fields `name`, `birthdate` and
        `date_of_death`. The success message with category "success" is
        flashed whichever branch was taken. */
    method AddAuthor(name: Option<string>, birthdate: Option<string>, dateOfDeath: Option<string>)
      returns (flashes: seq<Flash>)
      modifies this
      ensures old(Valid()) ==> Valid()
      ensures Filled(name) && Filled(birthdate) ==>
                && State() == InsertAuthor(old(State()), name.value, birthdate, dateOfDeath)
                && flashes == [AUTHOR_ADDED, AUTHOR_ADDED_SUCCESS]
      ensures !(Filled(name) && Filled(birthdate)) ==>
                State() == old(State()) && flashes == [AUTHOR_FIELDS_MISSING, AUTHOR_ADDED_SUCCESS]
    {
      if !Filled(name) || !Filled(birthdate) {
        flashes := [AUTHOR_FIELDS_MISSING];
      } else {
        var id := NextRowId(authors.Keys);
        authors := authors[id := Author(id, name.value, birthdate, dateOfDeath)];
        flashes := [AUTHOR_ADDED];
      }
      flashes := flashes + [AUTHOR_ADDED_SUCCESS];
      if old(Valid()) && Filled(name) && Filled(birthdate) {
        InsertAuthorKeepsConsistent(old(State()), name.value, birthdate, dateOfDeath);
      }
    }

    /** `add_book()` on POST with the form fields `isbn`, `title`,
        `publication_year` and `author_id`. A row the store refuses leaves
        both tables as they were and flashes nothing. */
    method AddBook(isbn: Option<string>, title: Option<string>, publicationYear: Option<string>,
                   authorId: Option<string>)
      returns (status: AddBookStatus, flashes: seq<Flash>)
      modifies this
      ensures old(Valid()) ==> Valid()
      ensures status.MissingFields? <==>
                !(Filled(isbn) && Filled(title) && Filled(publicationYear) && Filled(authorId))
      ensures status.MissingFields? ==> State() == old(State()) && flashes == [BOOK_FIELDS_MISSING]
      ensures status.Rejected? ==> State() == old(State()) && flashes == []
      ensures !status.MissingFields? ==>
                (status == Rejected(DuplicateIsbn) <==> IsbnTaken(old(State()), isbn.value))
      ensures !status.MissingFields? && ParseInt(authorId.value).None? ==> status.Rejected?
      ensures !status.MissingFields? && ParseInt(authorId.value).Some? ==>
                match InsertBook(old(State()), isbn.value, title.value, ParseInt(publicationYear.value),
                                 ParseInt(authorId.value).value)
                case Success(next) =>
                  status == Added(NextRowId(old(books).Keys)) && State() == next && flashes == [BOOK_ADDED]
                case Failure(e) => status == Rejected(e)
    {
      if !Filled(isbn) || !Filled(title) || !Filled(publicationYear) || !Filled(authorId) {
        status, flashes := MissingFields, [BOOK_FIELDS_MISSING];
        return;
      }
      var year := ParseInt(publicationYear.value);
      var author := ParseInt(authorId.value);
      if IsbnTaken(State(), isbn.value) {
        status, flashes := Rejected(DuplicateIsbn), [];
      } else if author.None? || author.value !in authors {
        status, flashes := Rejected(UnknownAuthor), [];
      } else {
        var id := NextRowId(books.Keys);
        books := books[id := Book(id, isbn.value, title.value, year, author.value)];
        status, flashes := Added(id), [BOOK_ADDED];
        if old(Valid()) {
          InsertBookKeepsConsistent(old(State()), isbn.value, title.value, year, author.value);
        }
      }
    }
  }
}
