/** The two tables of the catalogue (`authors`, `books`), the rules their
    schema imposes, SQLite's choice of a fresh row id, and the `__repr__` /
    `__str__` renderings of a row. */
module DataModels {
  import opened Wrappers
  import opened Text

  // ---------------------------------------------------------------------
  // Records
  // ---------------------------------------------------------------------

  /** A row of `authors`. `name` is NOT NULL; both dates are nullable text. */
  datatype Author = Author(id: int, name: string, birthDate: Option<string>, dateOfDeath: Option<string>)

  /** A row of `books`. `isbn`, `title` and `author_id` are NOT NULL;
      `publication_year` is a nullable integer. */
  datatype Book = Book(id: int, isbn: string, title: string, publicationYear: Option<int>, authorId: int)

  /** The whole store: each table keyed by its primary key. */
  datatype Catalogue = Catalogue(authors: map<int, Author>, books: map<int, Book>)

  // ---------------------------------------------------------------------
  // Schema constraints
  // ---------------------------------------------------------------------

  /** Every row is stored under its own primary key. */
  predicate KeysMatch(c: Catalogue) {
    && (forall k :: k in c.authors ==> c.authors[k].id == k)
    && (forall k :: k in c.books ==> c.books[k].id == k)
  }

  /** `books.author_id` is a foreign key into `authors`. */
  predicate AuthorsExist(c: Catalogue) {
    forall k :: k in c.books ==> c.books[k].authorId in c.authors
  }

  /** `books.isbn` is UNIQUE. */
  predicate IsbnsUnique(c: Catalogue) {
    forall k, j :: k in c.books && j in c.books && k != j ==> c.books[k].isbn != c.books[j].isbn
  }

  predicate Consistent(c: Catalogue) {
    KeysMatch(c) && AuthorsExist(c) && IsbnsUnique(c)
  }

  /** Some stored book already carries `isbn`. */
  predicate IsbnTaken(c: Catalogue, isbn: string) {
    exists k :: k in c.books && c.books[k].isbn == isbn
  }

  // ---------------------------------------------------------------------
  // The relationship `Author.books` / backref `Book.author`
  // ---------------------------------------------------------------------

  /** Ids of the books whose `author_id` is `authorId` (`Author.books`). */
  function BooksOf(c: Catalogue, authorId: int): (ids: set<int>)
    ensures ids <= c.books.Keys
  {
    set k | k in c.books && c.books[k].authorId == authorId
  }

  /** The author a book refers to (`Book.author`), None when dangling. */
  function AuthorOf(c: Catalogue, b: Book): (a: Option<Author>)
    ensures a.Some? <==> b.authorId in c.authors
  {
    if b.authorId in c.authors then Some(c.authors[b.authorId]) else None
  }

  /** In a consistent store the two directions of the relationship agree:
      every book has an author, lies in that author's `books`, and lies in
      no other author's `books`. */
  lemma RelationshipIsInverse(c: Catalogue, k: int, authorId: int)
    requires Consistent(c) && k in c.books
    ensures AuthorOf(c, c.books[k]).Some?
    ensures k in BooksOf(c, authorId) <==>
            authorId in c.authors && AuthorOf(c, c.books[k]) == Some(c.authors[authorId])
  {
  }

  // ---------------------------------------------------------------------
  // Fresh primary keys
  // ---------------------------------------------------------------------

  lemma NonEmptyHasMember(s: set<int>)
    requires s != {}
    ensures exists y :: y in s
  {
    if forall y :: y !in s { assert false; }
  }

  lemma {:induction false} MaxExists(s: set<int>)
    requires s != {}
    ensures exists m :: m in s && forall x :: x in s ==> x <= m
    decreases |s|
  {
    NonEmptyHasMember(s);
    var y :| y in s;
    if s != {y} {
      var rest := s - {y};
      MaxExists(rest);
      var hi :| hi in rest && forall x :: x in rest ==> x <= hi;
      var top := if y > hi then y else hi;
      forall x | x in s ensures x <= top {
        if x != y { assert x in rest; }
      }
      assert top in s;
    } else {
      assert forall x :: x in s ==> x <= y;
    }
  }

  lemma {:induction false} MinExists(s: set<int>)
    requires s != {}
    ensures exists m :: m in s && forall x :: x in s ==> m <= x
    decreases |s|
  {
    NonEmptyHasMember(s);
    var y :| y in s;
    if s != {y} {
      var rest := s - {y};
      MinExists(rest);
      var lo :| lo in rest && forall x :: x in rest ==> lo <= x;
      var bottom := if y < lo then y else lo;
      forall x | x in s ensures bottom <= x {
        if x != y { assert x in rest; }
      }
      assert bottom in s;
    } else {
      assert forall x :: x in s ==> y <= x;
    }
  }

  function Max(s: set<int>): (m: int)
    requires s != {}
    ensures m in s && forall x :: x in s ==> x <= m
  {
    MaxExists(s);
    var m :| m in s && forall x :: x in s ==> x <= m;
    m
  }

  function Min(s: set<int>): (m: int)
    requires s != {}
    ensures m in s && forall x :: x in s ==> m <= x
  {
    MinExists(s);
    var m :| m in s && forall x :: x in s ==> m <= x;
    m
  }

  /** The rowid SQLite gives a row inserted without one: 1 in an empty
      table, otherwise one more than the largest rowid present. */
  function NextRowId(keys: set<int>): (r: int)
    ensures r !in keys
    ensures forall k :: k in keys ==> k < r
    ensures keys == {} ==> r == 1
    ensures keys != {} ==> r - 1 in keys
  {
    if keys == {} then 1 else Max(keys) + 1
  }

  // ---------------------------------------------------------------------
  // __repr__ and __str__
  // ---------------------------------------------------------------------

  /** How an f-string renders a nullable text column: a missing value and
      the stored text `None` print alike. */
  function RenderText(o: Option<string>): (r: string)
    ensures r == "None" <==> o == None || o == Some("None")
  {
    match o
    case None => "None"
    case Some(s) => s
  }

  /** Apart from that one clash, the rendering determines the value. */
  lemma RenderTextInjective(a: Option<string>, b: Option<string>)
    requires RenderText(a) == RenderText(b)
    ensures a == b || ((a == None || a == Some("None")) && (b == None || b == Some("None")))
  {
  }

  /** How an f-string renders a nullable integer column. */
  function RenderInt(o: Option<int>): (r: string)
    ensures o.None? ==> r == "None"
    ensures o.Some? ==> ParseInt(r) == o
  {
    match o
    case None => "None"
    case Some(n) => ParseIntToString(n); IntToString(n)
  }

  /** `Author.__repr__`: `<Author(id=…, name=…)>`. */
  function AuthorRepr(a: Author): (r: string)
    ensures "<Author(id=" <= r
    ensures |r| >= 2 && r[|r| - 2..] == ")>"
  {
    "<Author(id=" + IntToString(a.id) + ", name=" + a.name + ")>"
  }

  /** `Author.__str__`: `name (birth_date - date_of_death)`. */
  function AuthorStr(a: Author): (r: string)
    ensures a.name <= r
    ensures var death := RenderText(a.dateOfDeath) + ")";
            |death| <= |r| && r[|r| - |death|..] == death
  {
    a.name + " (" + RenderText(a.birthDate) + " - " + RenderText(a.dateOfDeath) + ")"
  }

  /** `Book.__repr__`: `<Book(id=…, title=…, author_id=…)>`. */
  function BookRepr(b: Book): (r: string)
    ensures "<Book(id=" <= r
    ensures |r| >= 2 && r[|r| - 2..] == ")>"
  {
    "<Book(id=" + IntToString(b.id) + ", title=" + b.title + ", author_id=" + IntToString(b.authorId) + ")>"
  }

  /** `Book.__str__`: `'title' (publication_year) by author-name`, where the
      author is the row `author_id` refers to (without one, the source
      fails with an AttributeError; hence the precondition). */
  function BookStr(b: Book, authors: map<int, Author>): (r: string)
    requires b.authorId in authors
    ensures "'" + b.title + "' (" <= r
    ensures var tail := ") by " + authors[b.authorId].name;
            |tail| <= |r| && r[|r| - |tail|..] == tail
  {
    "'" + b.title + "' (" + RenderInt(b.publicationYear) + ") by " + authors[b.authorId].name
  }

  // ---------------------------------------------------------------------
  // The renderings can be read back
  // ---------------------------------------------------------------------

  /** Where the marker of the shorter prefix lands in the other string. */
  lemma MarkerLandsAt(x1: string, r1: string, x2: string, r2: string, c: char)
    ensures x1 + [c] + r1 == x2 + [c] + r2 && |x1| < |x2| ==> x2[|x1|] == c
    ensures x1 + [c] + r1 == x2 + [c] + r2 && |r1| < |r2| ==> r2[|x1| - |x2| - 1] == c
  {
    var s := x1 + [c] + r1;
    if s == x2 + [c] + r2 && |x1| < |x2| {
      assert s[|x1|] == c && s[|x1|] == x2[|x1|];
    }
    if s == x2 + [c] + r2 && |r1| < |r2| {
      assert s[|x1|] == c && s[|x1|] == r2[|x1| - |x2| - 1];
    }
  }

  /** Cutting two equal strings at the first occurrence of a marker. */
  lemma SplitAtFirst(x1: string, r1: string, x2: string, r2: string, c: char)
    requires c !in x1 && c !in x2
    requires x1 + [c] + r1 == x2 + [c] + r2
    ensures x1 == x2 && r1 == r2
  {
    MarkerLandsAt(x1, r1, x2, r2, c);
    MarkerLandsAt(x2, r2, x1, r1, c);
    var s := x1 + [c] + r1;
    assert x1 == s[..|x1|] == x2;
    assert r1 == s[|x1| + 1..] == r2;
  }

  /** Cutting two equal strings at the last occurrence of a marker. */
  lemma SplitAtLast(x1: string, r1: string, x2: string, r2: string, c: char)
    requires c !in r1 && c !in r2
    requires x1 + [c] + r1 == x2 + [c] + r2
    ensures x1 == x2 && r1 == r2
  {
    MarkerLandsAt(x1, r1, x2, r2, c);
    MarkerLandsAt(x2, r2, x1, r1, c);
    var s := x1 + [c] + r1;
    assert x1 == s[..|x1|] == x2;
    assert r1 == s[|x1| + 1..] == r2;
  }

  lemma NoMarkerInNumber(n: int, c: char)
    requires !IsDigit(c) && c != '-'
    ensures c !in IntToString(n)
  {
  }

  /** `Author.__repr__` split at its first `,`. */
  lemma AuthorReprShape(a: Author)
    ensures AuthorRepr(a) == ("<Author(id=" + IntToString(a.id)) + [','] + (" name=" + a.name + ")>")
  {
  }

  /** `Author.__repr__` determines the author's id and name. */
  lemma AuthorReprInjective(a: Author, b: Author)
    requires AuthorRepr(a) == AuthorRepr(b)
    ensures a.id == b.id && a.name == b.name
  {
    var p := "<Author(id=";
    var da, db := IntToString(a.id), IntToString(b.id);
    var ra, rb := " name=" + a.name + ")>", " name=" + b.name + ")>";
    AuthorReprShape(a);
    AuthorReprShape(b);
    NoMarkerInNumber(a.id, ',');
    NoMarkerInNumber(b.id, ',');
    SplitAtFirst(p + da, ra, p + db, rb, ',');
    assert da == (p + da)[|p|..] && db == (p + db)[|p|..];
    IntToStringInjective(a.id, b.id);
    assert a.name == ra[6..|ra| - 2] && b.name == rb[6..|rb| - 2];
  }

  /** `Book.__repr__` split at its first `,` and, after it, at its last `=`. */
  lemma BookReprShape(b: Book)
    ensures BookRepr(b) == ("<Book(id=" + IntToString(b.id)) + [','] +
                           ((" title=" + b.title + ", author_id") + ['='] + (IntToString(b.authorId) + ")>"))
  {
  }

  /** `Book.__repr__` determines the book's id, title and author id. */
  lemma BookReprInjective(a: Book, b: Book)
    requires BookRepr(a) == BookRepr(b)
    ensures a.id == b.id && a.title == b.title && a.authorId == b.authorId
  {
    var p := "<Book(id=";
    var da, db := IntToString(a.id), IntToString(b.id);
    var ta, tb := IntToString(a.authorId), IntToString(b.authorId);
    var ma, mb := " title=" + a.title + ", author_id", " title=" + b.title + ", author_id";
    BookReprShape(a);
    BookReprShape(b);
    NoMarkerInNumber(a.id, ',');
    NoMarkerInNumber(b.id, ',');
    SplitAtFirst(p + da, ma + ['='] + (ta + ")>"), p + db, mb + ['='] + (tb + ")>"), ',');
    assert da == (p + da)[|p|..] && db == (p + db)[|p|..];
    IntToStringInjective(a.id, b.id);
    NoMarkerInNumber(a.authorId, '=');
    NoMarkerInNumber(b.authorId, '=');
    SplitAtLast(ma, ta + ")>", mb, tb + ")>", '=');
    assert ta == (ta + ")>")[..|ta|] && tb == (tb + ")>")[..|tb|];
    IntToStringInjective(a.authorId, b.authorId);
    assert a.title == ma[7..|ma| - 11] && b.title == mb[7..|mb| - 11];
  }

  /** A rendered integer column holds no `)`. */
  lemma NoParenInRenderInt(o: Option<int>)
    ensures ')' !in RenderInt(o)
  {
    if o.Some? {
      NoMarkerInNumber(o.value, ')');
    }
  }

  /** `Book.__str__` split at the `'` closing the title and, after it, at
      the `)` closing the year. */
  lemma BookStrShape(b: Book, authors: map<int, Author>)
    requires b.authorId in authors
    ensures BookStr(b, authors)[1..] ==
            b.title + ['\''] + (" (" + (RenderInt(b.publicationYear) + [')'] + (" by " + authors[b.authorId].name)))
  {
  }

  /** `Book.__str__` determines the title, the rendered year and the
      author's name, provided the titles hold no `'`. */
  lemma BookStrInjective(a: Book, authorsA: map<int, Author>, b: Book, authorsB: map<int, Author>)
    requires a.authorId in authorsA && b.authorId in authorsB
    requires '\'' !in a.title && '\'' !in b.title
    requires BookStr(a, authorsA) == BookStr(b, authorsB)
    ensures a.title == b.title
    ensures RenderInt(a.publicationYear) == RenderInt(b.publicationYear)
    ensures authorsA[a.authorId].name == authorsB[b.authorId].name
  {
    var ya, yb := RenderInt(a.publicationYear), RenderInt(b.publicationYear);
    var ta, tb := " by " + authorsA[a.authorId].name, " by " + authorsB[b.authorId].name;
    var ma, mb := ya + [')'] + ta, yb + [')'] + tb;
    BookStrShape(a, authorsA);
    BookStrShape(b, authorsB);
    SplitAtFirst(a.title, " (" + ma, b.title, " (" + mb, '\'');
    assert ma == (" (" + ma)[2..] && mb == (" (" + mb)[2..];
    NoParenInRenderInt(a.publicationYear);
    NoParenInRenderInt(b.publicationYear);
    SplitAtFirst(ya, ta, yb, tb, ')');
    assert ta[4..] == authorsA[a.authorId].name && tb[4..] == authorsB[b.authorId].name;
  }

  /** `Author.__str__` determines the name and the two rendered dates,
      provided the name has no `(` and the dates have no space (true of
      `YYYY-MM-DD` dates and of `None`). */
  lemma AuthorStrInjective(a: Author, b: Author)
    requires '(' !in a.name && '(' !in b.name
    requires ' ' !in RenderText(a.birthDate) && ' ' !in RenderText(b.birthDate)
    requires AuthorStr(a) == AuthorStr(b)
    ensures a.name == b.name
    ensures RenderText(a.birthDate) == RenderText(b.birthDate)
    ensures RenderText(a.dateOfDeath) == RenderText(b.dateOfDeath)
  {
    var ba, bb := RenderText(a.birthDate), RenderText(b.birthDate);
    var ea, eb := RenderText(a.dateOfDeath), RenderText(b.dateOfDeath);
    var ta, tb := "- " + ea + ")", "- " + eb + ")";
    var ra, rb := ba + [' '] + ta, bb + [' '] + tb;
    assert AuthorStr(a) == (a.name + " ") + ['('] + ra;
    assert AuthorStr(b) == (b.name + " ") + ['('] + rb;
    SplitAtFirst(a.name + " ", ra, b.name + " ", rb, '(');
    assert a.name == (a.name + " ")[..|a.name|] && b.name == (b.name + " ")[..|b.name|];
    SplitAtFirst(ba, ta, bb, tb, ' ');
    assert ea == ta[2..|ta| - 1] && eb == tb[2..|tb| - 1];
  }
}
