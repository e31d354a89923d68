# Book-Alchemy catalogue, modelled in Dafny

Book-Alchemy is a small Flask application over two SQLite tables, `authors`
and `books`, where every book refers to one author. This project models its
logic:

- the two record shapes and their schema rules (`data_models.py`);
- the `__repr__` / `__str__` renderings of a record;
- the read-only listings `home()` (GET) and `library_home()`;
- the state-changing handlers: the delete branch of `home()` (POST),
  `delete_book`, `add_author()` and `add_book()`.

The database is a value `Catalogue(authors, books)`, with each table a map from
primary key to row. `Consistent` states the schema's rules:

- every row is stored under its own id;
- `books.author_id` names an existing author (the foreign key);
- `books.isbn` is unique.

NOT NULL columns are plain `string`/`int` fields. Nullable columns are
`Option` fields.

Files:

- `wrappers.dfy`: `Option` and `Result`.
- `text.dfy`: the string semantics the handlers depend on:
  - Python's `str.strip()` (with Python's exact whitespace set);
  - `int()` on a sign and ASCII digits, and `str()` of an int;
  - SQLite's ASCII-only case folding for `ILIKE`;
  - a substring test;
  - SQLite's BINARY collation (code-point order, a proper prefix first).
- `data_models.dfy`:
  - records, schema predicates and the `Author.books` / `Book.author`
    relationship;
  - SQLite's choice of a new rowid: 1 in an empty table, otherwise one more
    than the largest present. SQLAlchemy's `autoincrement=True` does not emit
    SQLite's `AUTOINCREMENT` keyword, so a freed largest id can be reused;
  - the four renderings, with lemmas that the renderings can be read back.
- `listing.dfy`:
  - the join, scanned in rowid order;
  - the search filter;
  - an insertion sort that is proved to give an ordered permutation;
  - `Home` and `LibraryHome`, and the author choices shown by `add_book()`.
- `handlers.dfy`:
  - each write as a function on `Catalogue`: `CascadeDelete`,
    `InsertAuthor`, `InsertBook`, with lemmas about them;
  - a class `Library` that holds the two tables and runs the POST handlers
    step by step. Each method's postcondition ties the new state to the
    matching function of the old state and gives the exact list of flashed
    messages, as `Flash(category, text)` values.

Behaviour of the code worth knowing, which the model follows:

- `add_author()` flashes "Author successfully added!" (category "success")
  after both branches. A rejected form therefore gets both the error and the
  success message (app.py:111).
- `add_book()` does not catch a failed commit. A row the store refuses
  (duplicate isbn, unknown author) leaves the tables unchanged and flashes
  nothing. The method returns the reason as `Rejected(..)`.
- An unrecognised `direction` sorts descending in `home()` but ascending in
  `library_home()`. `sort_by` and `direction` are independent of each other.
- `delete_book` (app.py:173-202) cannot run as written. Line 190 uses the
  unimported `session`, and line 191 never calls `commit`. It is modelled as
  its docstring describes: the same cascade procedure as `home()`'s delete
  branch, with its own messages "Book deleted!" / "Book not found.".

## Model

| member | source | states |
|---|---|---|
| `Text.Strip` | app.py:28 | the result is the input minus whitespace removed at both ends only, and it neither starts nor ends with whitespace |
| `Text.IsSubstringAt` | app.py:35-37 | the substring test holds iff the pattern occurs at some index of the text |
| `Text.ContainsIgnoreCaseAt` | app.py:35-37 | `ILIKE '%term%'` holds iff the lower-cased term occurs at some index of the lower-cased text |
| `Text.StrLeReflexive` | app.py:40-47 | the collation orders every string before or equal to itself |
| `Text.StrLeTotal` | app.py:40-47 | any two strings are comparable under the collation |
| `Text.StrLeTransitive` | app.py:40-47 | the collation is transitive |
| `Text.StrLeAntisymmetric` | app.py:40-47 | strings that sort both ways are equal |
| `Text.ParseInt` | app.py:56 | `int()` succeeds exactly on an optional sign followed by one or more ASCII digits |
| `Text.ParseIntToString` | app.py:56 | parsing the text of an integer gives that integer back |
| `Text.IntToString` | data_models.py:17 | an integer prints in Python's shortest decimal form: digits led by `-` exactly when it is negative, and no leading zero except in `0` itself |
| `Text.IntToStringInjective` | data_models.py:17 | distinct integers print differently |
| `DataModels.BooksOf` | data_models.py:14 | `Author.books` holds only ids of stored books |
| `DataModels.AuthorOf` | data_models.py:14 | `Book.author` exists iff the book's `author_id` is a stored author |
| `DataModels.RelationshipIsInverse` | data_models.py:30 | in a consistent store every book has an author and is in that author's `books`, and in no other author's |
| `DataModels.NextRowId` | data_models.py:9 | a new primary key is absent from the table and larger than every key in it. It is 1 for an empty table and otherwise one more than an existing key |
| `DataModels.RenderText` | data_models.py:20 | the rendering is `None` exactly for a missing value or the stored text `None`, which an f-string cannot tell apart |
| `DataModels.RenderTextInjective` | data_models.py:20 | apart from that clash, equal renderings come from equal values |
| `DataModels.RenderInt` | data_models.py:36 | a missing year renders as `None`, a present one as text that parses back to it |
| `DataModels.AuthorRepr` | data_models.py:16-17 | `__repr__` is framed by `<Author(id=` and `)>` |
| `DataModels.AuthorReprInjective` | data_models.py:16-17 | equal `Author.__repr__` strings mean equal ids and names |
| `DataModels.AuthorStr` | data_models.py:19-20 | `__str__` starts with the name and ends with the rendered date of death and `)` |
| `DataModels.AuthorStrInjective` | data_models.py:19-20 | when names have no `(` and birth dates no space, equal `Author.__str__` strings mean equal names and equal rendered dates |
| `DataModels.BookRepr` | data_models.py:32-33 | `__repr__` is framed by `<Book(id=` and `)>` |
| `DataModels.BookReprInjective` | data_models.py:32-33 | equal `Book.__repr__` strings mean equal ids, titles and author ids |
| `DataModels.BookStr` | data_models.py:35-36 | `__str__` starts with the quoted title and ends with `) by ` and the referenced author's name |
| `DataModels.BookStrInjective` | data_models.py:35-36 | for titles without `'`, equal `__str__` strings give equal titles, equal rendered years and equal author names |
| `Listing.KeysAscending` | app.py:32 | the table scan visits every key exactly once, in increasing order |
| `Listing.JoinRows` | app.py:32 | over distinct ids, each joined row of a listed id appears once and nothing else appears |
| `Listing.Joined` | app.py:32 | the join yields every book whose author exists, exactly once, each with that author, and nothing else |
| `Listing.Filter` | app.py:34-38 | the filter keeps every matching row as often as it occurred and drops every other row |
| `Listing.Insert` | app.py:40-47 | inserting into an ordered list gives an ordered list with that row added |
| `Listing.Sort` | app.py:40-47 | the result is ordered by the chosen field and direction, and is a permutation of the input |
| `Listing.HomeSortKey` | app.py:29-47 | `home()` sorts by author name iff `sort_by` is `author`, otherwise by title |
| `Listing.HomeAscending` | app.py:30-47 | `home()` sorts ascending iff `direction` is absent or `asc` |
| `Listing.Selected` | app.py:32-38 | an empty term keeps every joined row. A non-empty term keeps exactly the joined rows whose title or author name matches. Each kept row appears once |
| `Listing.Home` | app.py:28-49 | echoes the stripped term, lists exactly the selected joined books once each, ordered by `home()`'s field and direction rules |
| `Listing.LibrarySortKey` | app.py:159-165 | `library_home()` sorts by author name iff `sort_by` is `author`. Any value outside {title, author} falls back to title |
| `Listing.LibraryAscending` | app.py:160-167 | `library_home()` sorts descending iff `direction` is `desc` |
| `Listing.LibraryHome` | app.py:157-170 | lists every joined book once, with no filter, ordered by `library_home()`'s rules |
| `Listing.EmptySearchListsAll` | app.py:28-38 | a search that strips to nothing lists every book that joins to an author |
| `Listing.SearchListsExactlyMatches` | app.py:32-38 | a non-blank search lists a row iff it joins and the term occurs, ignoring ASCII case, in its title or its author's name. A listed row appears once |
| `Listing.ListingsAgreeOnRows` | app.py:157-170 | without a search, `home()` and `library_home()` list the same rows |
| `Listing.AuthorChoices` | app.py:130 | `add_book()` offers one entry per author, each a stored author |
| `Listing.AuthorChoicesComplete` | app.py:130 | every stored author is offered |
| `Handlers.CascadeDelete` | app.py:57-70 | an absent id changes nothing. An existing id removes exactly that book, and removes its author iff no remaining book refers to it |
| `Handlers.NotOrphaned` | app.py:65-66 | an author with a book in `Author.books` is not orphaned |
| `Handlers.CascadeChangesOnlyBookAndAuthor` | app.py:57-72 | the cascade removes the book and at most its author, and every other book and author is unchanged |
| `Handlers.CascadeKeepsConsistent` | app.py:60-70 | referential integrity and the other schema rules survive the cascade |
| `Handlers.CascadeByBookCount` | app.py:64-70 | deleting an author's only book removes the author. Deleting one of two or more keeps the author unchanged |
| `Handlers.InsertAuthor` | app.py:106-108 | adds exactly one author with the given fields, under a fresh id, and keeps all other rows |
| `Handlers.InsertAuthorKeepsConsistent` | app.py:106-108 | adding an author keeps the schema rules |
| `Handlers.InsertBook` | app.py:141-143 | refuses the row iff its isbn is taken or its author is missing, reporting the duplicate isbn first. Otherwise adds exactly that book under a fresh id |
| `Handlers.InsertBookKeepsConsistent` | app.py:141-143 | an accepted book keeps isbn uniqueness and the foreign key |
| `Handlers.SecondIsbnRejected` | data_models.py:27 | after a book is stored, a second one with its isbn is refused, and the first keeps its title |
| `Handlers.AddedBookIsListed` | app.py:141-143 | a newly added book is listed once, joined with the author it names |
| `Handlers.Library.constructor` | app.py:208-209 | a new database has empty tables |
| `Handlers.Library.DeleteCascade` | app.py:57-70 | performs the cascade step by step. Reports whether the book existed and keeps the schema rules |
| `Handlers.Library.HomePost` | app.py:51-79 | a missing or empty id: no change and no message. A non-integer id: no change and "Invalid book ID!". Otherwise the cascade, then "Book successfully deleted!" or "Book ID not found!" |
| `Handlers.Library.DeleteBook` | app.py:173-202 | the cascade, then "Book deleted!" or "Book not found." |
| `Handlers.Library.AddAuthor` | app.py:97-112 | inserts the author only when name and birthdate are both non-empty; otherwise no change and "Please insert all required dates.". "Author successfully added!" (success) is flashed in both branches |
| `Handlers.Library.AddBook` | app.py:132-146 | any empty field: no change and "Please fill in all fields.". A refused row: no change and no message. Otherwise the book is added and "Book successfully added!" is flashed |

## Left out

- Flask routing, templates, `redirect`/`url_for`, the secret key, the database path and `app.run`. Flash messages are returned lists, not session storage.
- `clear_flash()`: it touches the session only, and it names `session`, which `app.py` never imports.
- The literal defects of `delete_book` (app.py:190-191). It is modelled as its documented cascade.
- SQLite `LIKE` wildcards: SQLite treats `%` and `_` inside the search term as wildcards, whereas the model matches them literally.
- Case folding of non-ASCII letters: SQLite folds ASCII only, and so does the model.
- The order among rows with equal sort fields. `ORDER BY` leaves it open, and only sortedness and permutation are stated.
- Column length limits such as `String(100)`: SQLite does not enforce them.
- Transactions, commits, durability and concurrent requests. Each handler is one atomic step on the catalogue.
- `int()` edge cases: surrounding whitespace, `_` separators and non-ASCII digits are refused.
- 64-bit limits of SQLite integers and rowids.
- Handlers.Library.AddBook: `publication_year` and `author_id` are read by `int()` rules (an optional sign and ASCII digits), not by the INTEGER column's numeric coercion. SQLite stores numeric text such as `2020.0`, `3.0e+5` or ` 5 ` as an integer, and keeps other text as text. The model instead stores a year it cannot read as a missing year, and refuses an `author_id` it cannot read as an unknown author. So with author 5 present, `author_id = "5.0"` is stored by the source but refused by the model.
- Handlers.Library.AddBook: the uncaught error page that follows a refused row is not modelled. The refusal shows only as the returned status.
- DataModels.BookStr: requires the book's author to be stored. For a dangling `author_id`, `self.author.name` raises AttributeError in the source (data_models.py:36), and that error is not modelled. `Consistent` rules the case out wherever a stored book is rendered.
- Handlers.InsertBook: the foreign key is treated as enforced, as the schema declares. SQLite enforces it only when `PRAGMA foreign_keys` is on.
- The GET branches of `add_author()` and `add_book()` only render forms. The only data they pass is the author list, modelled as `AuthorChoices`.
