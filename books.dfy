/** The catalogue handlers: the listing filter, and creating, editing and
    deleting a book. Creating and editing keep the copy counters consistent
    with the loans: a new book has every copy on the shelf, and an edit of
    the total moves the shelf count by the same amount. */
module Books {
  import opened Values
  import opened Text
  import opened Dates
  import opened Models
  import opened Errors
  import opened Inventory
  import opened Database

  // ---- get_books ----

  /** The query arguments of `get_books`, as Flask converts them: typed
      integers are `None` when absent or unparsable, `available_only` is the
      raw text (see `QueryBool`). */
  datatype BookQuery = BookQuery(
    search: string,
    categoryId: Option<int>,
    publisher: string,
    minYear: Option<int>,
    maxYear: Option<int>,
    availableOnly: Option<string>)

  /** The filters, each applied only when its argument is truthy. A book with
      no publisher or no publication date fails the filter on that column
      (SQL comparisons with NULL are not true). */
  predicate Listed(b: Book, q: BookQuery) {
    && (q.search == [] || Contains(b.title, q.search) || Contains(b.author, q.search) || Contains(b.isbn, q.search))
    && (!TruthyInt(q.categoryId) || (b.categoryId.Some? && b.categoryId.value == q.categoryId.value))
    && (q.publisher == [] || (b.publisher.Some? && Contains(b.publisher.value, q.publisher)))
    && (!TruthyInt(q.minYear) || (b.publishDate.Some? && b.publishDate.value.year >= q.minYear.value))
    && (!TruthyInt(q.maxYear) || (b.publishDate.Some? && b.publishDate.value.year <= q.maxYear.value))
    && (!GetOr(QueryBool(q.availableOnly), false) || b.availableCopies > 0)
  }

  /** The rows of the query, in the order given. */
  function ListBooks(rows: seq<Book>, q: BookQuery): (r: seq<Book>)
    ensures |r| <= |rows|
    ensures forall b :: b in r ==> b in rows && Listed(b, q)
    ensures forall b :: b in rows && Listed(b, q) ==> b in r
  {
    if rows == [] then []
    else if Listed(rows[0], q) then [rows[0]] + ListBooks(rows[1..], q)
    else ListBooks(rows[1..], q)
  }

  /** `r` consists of the rows of `rows` at the strictly increasing
      positions `idx`. */
  predicate Picks(idx: seq<nat>, rows: seq<Book>, r: seq<Book>) {
    && |idx| == |r|
    && (forall j :: 0 <= j < |idx| ==> idx[j] < |rows| && r[j] == rows[idx[j]])
    && (forall i, j :: 0 <= i < j < |idx| ==> idx[i] < idx[j])
  }

  /** Positions into the tail of `rows` moved one place on, with or without
      the head in front. */
  lemma PicksShift(idx: seq<nat>, rows: seq<Book>, r: seq<Book>)
    requires rows != [] && Picks(idx, rows[1..], r)
    ensures var shifted: seq<nat> := seq(|idx|, j requires 0 <= j < |idx| => idx[j] + 1);
      Picks(shifted, rows, r) && Picks([0] + shifted, rows, [rows[0]] + r)
  {
    var shifted: seq<nat> := seq(|idx|, j requires 0 <= j < |idx| => idx[j] + 1);
    var idx0, r0 := [0] + shifted, [rows[0]] + r;
    assert forall j :: 0 < j < |idx0| ==> idx0[j] == shifted[j - 1] && r0[j] == r[j - 1];
  }

  /** The listed rows keep their query order: they are the rows at strictly
      increasing positions of the query result. */
  lemma {:induction false} ListBooksKeepsOrder(rows: seq<Book>, q: BookQuery)
    ensures exists idx: seq<nat> :: Picks(idx, rows, ListBooks(rows, q))
    decreases |rows|
  {
    if rows == [] {
      var none: seq<nat> := [];
      assert Picks(none, rows, ListBooks(rows, q));
    } else {
      ListBooksKeepsOrder(rows[1..], q);
      var rest := ListBooks(rows[1..], q);
      var idx: seq<nat> :| Picks(idx, rows[1..], rest);
      PicksShift(idx, rows, rest);
      var shifted: seq<nat> := seq(|idx|, j requires 0 <= j < |idx| => idx[j] + 1);
      if Listed(rows[0], q) {
        assert ListBooks(rows, q) == [rows[0]] + rest;
        assert Picks([0] + shifted, rows, ListBooks(rows, q));
      } else {
        assert ListBooks(rows, q) == rest;
        assert Picks(shifted, rows, ListBooks(rows, q));
      }
    }
  }

  /** With `available_only` given any non-empty text, "false" and "0"
      included, only books with a copy on the shelf are listed. */
  lemma AvailableOnlyFilters(b: Book, q: BookQuery)
    requires q.availableOnly.Some? && q.availableOnly.value != []
    requires Listed(b, q)
    ensures b.availableCopies > 0
  {
  }

  /** A search term is found as a substring of the title, the author or the
      ISBN of every listed book. */
  lemma SearchFindsSubstring(b: Book, q: BookQuery)
    requires q.search != [] && Listed(b, q)
    ensures exists i :: OccursAt(b.title, q.search, i) || OccursAt(b.author, q.search, i) || OccursAt(b.isbn, q.search, i)
  {
    ContainsIff(b.title, q.search);
    ContainsIff(b.author, q.search);
    ContainsIff(b.isbn, q.search);
  }

  // ---- create_book ----

  /** The JSON body of `create_book`. */
  datatype NewBook = NewBook(
    isbn: Option<string>,
    title: Option<string>,
    author: Option<string>,
    categoryId: Option<nat>,
    totalCopies: Option<int>,
    publisher: Option<string>,
    publishDate: Option<string>)

  /** No two books share an ISBN. */
  predicate IsbnsDistinct(books: map<nat, Book>) {
    forall j, k :: j in books && k in books && books[j].isbn == books[k].isbn ==> j == k
  }

  predicate IsbnTaken(books: map<nat, Book>, isbn: string) {
    exists k :: k in books && books[k].isbn == isbn
  }

  /** Adding a book under a new id with an ISBN no book has keeps ISBNs
      distinct. */
  lemma FreshIsbnKeepsDistinct(books: map<nat, Book>, id: nat, b: Book)
    requires IsbnsDistinct(books) && id !in books && !IsbnTaken(books, b.isbn)
    ensures IsbnsDistinct(books[id := b])
  {
  }

  /** The first check of `create_book` that refuses the body. The five
      required fields are checked in order for truthiness, so a total of 0 is
      refused and a negative total is not; an unparsable publication date
      raises inside the handler. */
  function CreateBookRefusal(books: map<nat, Book>, n: NewBook): (e: Option<Error>)
    ensures e.None? <==> && TruthyStr(n.isbn) && TruthyStr(n.title) && TruthyStr(n.author)
                         && TruthyId(n.categoryId) && TruthyInt(n.totalCopies)
                         && !IsbnTaken(books, n.isbn.value)
                         && !(TruthyStr(n.publishDate) && ParseDate(n.publishDate.value).None?)
    ensures e == Some(DuplicateIsbn) <==> && TruthyStr(n.isbn) && TruthyStr(n.title) && TruthyStr(n.author)
                                          && TruthyId(n.categoryId) && TruthyInt(n.totalCopies)
                                          && IsbnTaken(books, n.isbn.value)
    ensures n.totalCopies == Some(0) ==> e.Some?
  {
    if !TruthyStr(n.isbn) then Some(MissingField("isbn"))
    else if !TruthyStr(n.title) then Some(MissingField("title"))
    else if !TruthyStr(n.author) then Some(MissingField("author"))
    else if !TruthyId(n.categoryId) then Some(MissingField("category_id"))
    else if !TruthyInt(n.totalCopies) then Some(MissingField("total_copies"))
    else if IsbnTaken(books, n.isbn.value) then Some(DuplicateIsbn)
    else if TruthyStr(n.publishDate) && ParseDate(n.publishDate.value).None? then Some(InternalError)
    else None
  }

  /** The publication date stored for a body: parsed when truthy, else none. */
  function PublishDateOf(raw: Option<string>): Option<Date>
    requires !TruthyStr(raw) || ParseDate(raw.value).Some?
  {
    if TruthyStr(raw) then ParseDate(raw.value) else None
  }

  /** Inserts the book described by `n`, with every copy available. */
  method CreateBook(db: Db, n: NewBook, now: int) returns (res: Result<Book>)
    requires db.Valid()
    modifies db`books, db`nextBookId
    ensures db.Valid()
    ensures res.Err? <==> CreateBookRefusal(old(db.books), n).Some?
    ensures res.Err? ==>
      && res.error == CreateBookRefusal(old(db.books), n).value
      && db.books == old(db.books) && db.nextBookId == old(db.nextBookId)
    ensures res.Ok? ==>
      var b := res.value;
      && b == Book(old(db.nextBookId), n.isbn.value, n.title.value, n.author.value, n.publisher,
                   PublishDateOf(n.publishDate), n.categoryId, n.totalCopies.value, n.totalCopies.value, now)
      && b.availableCopies == b.totalCopies
      && b.id !in old(db.books)
      && db.books == old(db.books)[b.id := b] && db.nextBookId == old(db.nextBookId) + 1
    ensures IsbnsDistinct(old(db.books)) ==> IsbnsDistinct(db.books)
    ensures Balanced(old(db.books), db.loans) ==> Balanced(db.books, db.loans)
  {
    if !TruthyStr(n.isbn) {
      return Err(MissingField("isbn"));
    }
    if !TruthyStr(n.title) {
      return Err(MissingField("title"));
    }
    if !TruthyStr(n.author) {
      return Err(MissingField("author"));
    }
    if !TruthyId(n.categoryId) {
      return Err(MissingField("category_id"));
    }
    if !TruthyInt(n.totalCopies) {
      return Err(MissingField("total_copies"));
    }
    if IsbnTaken(db.books, n.isbn.value) {
      return Err(DuplicateIsbn);
    }
    var date: Option<Date> := None;
    if TruthyStr(n.publishDate) {
      date := ParseDate(n.publishDate.value);
      if date.None? {
        return Err(InternalError);
      }
    }
    var total := n.totalCopies.value;
    var b := Book(db.nextBookId, n.isbn.value, n.title.value, n.author.value, n.publisher,
                  date, n.categoryId, total, total, now);
    if Balanced(db.books, db.loans) {
      NewBookKeepsBalance(db.books, db.loans, b.id, b);
    }
    if IsbnsDistinct(db.books) {
      FreshIsbnKeepsDistinct(db.books, b.id, b);
    }
    BooksKeyedInsert(db.books, db.nextBookId, b);
    db.books := db.books[b.id := b];
    db.nextBookId := db.nextBookId + 1;
    return Ok(b);
  }

  // ---- update_book ----

  /** The JSON body of `update_book`: each field is absent (`None`) or
      present; a present `publisher`, `publish_date`, `category_id` or
      `total_copies` may be null. */
  datatype BookEdit = BookEdit(
    title: Option<string>,
    author: Option<string>,
    publisher: Option<Option<string>>,
    publishDate: Option<Option<string>>,
    categoryId: Option<Option<nat>>,
    totalCopies: Option<Option<int>>)

  /** An edit that raises inside the handler: a present, truthy publication
      date that does not parse, or a null total (the subtraction fails). */
  predicate EditRaises(e: BookEdit) {
    || (e.publishDate.Some? && TruthyStr(e.publishDate.value) && ParseDate(e.publishDate.value.value).None?)
    || (e.totalCopies == Some(None))
  }

  /** The book after an edit: each present field is replaced, and a new total
      shifts the available count by the same difference, without any clamp. */
  function Edited(b: Book, e: BookEdit): (r: Book)
    requires !EditRaises(e)
    ensures r.id == b.id && r.isbn == b.isbn && r.createdAt == b.createdAt
    ensures r.title == GetOr(e.title, b.title) && r.author == GetOr(e.author, b.author)
    ensures r.publisher == GetOr(e.publisher, b.publisher)
    ensures r.categoryId == GetOr(e.categoryId, b.categoryId)
    ensures e.publishDate.None? ==> r.publishDate == b.publishDate
    ensures e.publishDate.Some? ==> r.publishDate == PublishDateOf(e.publishDate.value)
    ensures e.totalCopies.None? ==> r.totalCopies == b.totalCopies && r.availableCopies == b.availableCopies
    ensures e.totalCopies.Some? ==> r.totalCopies == e.totalCopies.value.value
    ensures r.totalCopies - r.availableCopies == b.totalCopies - b.availableCopies
  {
    var b1 := b.(title := GetOr(e.title, b.title), author := GetOr(e.author, b.author),
                 publisher := GetOr(e.publisher, b.publisher));
    var b2 := if e.publishDate.Some? then b1.(publishDate := PublishDateOf(e.publishDate.value)) else b1;
    var b3 := b2.(categoryId := GetOr(e.categoryId, b2.categoryId));
    if e.totalCopies.Some? then
      var diff := e.totalCopies.value.value - b3.totalCopies;
      b3.(totalCopies := e.totalCopies.value.value, availableCopies := b3.availableCopies + diff)
    else b3
  }

  /** An empty edit changes nothing. */
  lemma EmptyEditIsIdentity(b: Book)
    ensures Edited(b, BookEdit(None, None, None, None, None, None)) == b
  {
  }

  /** The field-by-field assignments of `update_book` on one row. */
  method ApplyEdit(b0: Book, e: BookEdit) returns (res: Result<Book>)
    ensures res.Err? <==> EditRaises(e)
    ensures res.Err? ==> res.error == InternalError
    ensures res.Ok? ==> res.value == Edited(b0, e)
  {
    var b := b0;
    if e.title.Some? {
      b := b.(title := e.title.value);
    }
    if e.author.Some? {
      b := b.(author := e.author.value);
    }
    if e.publisher.Some? {
      b := b.(publisher := e.publisher.value);
    }
    if e.publishDate.Some? {
      if TruthyStr(e.publishDate.value) {
        var date := ParseDate(e.publishDate.value.value);
        if date.None? {
          return Err(InternalError);
        }
        b := b.(publishDate := date);
      } else {
        b := b.(publishDate := None);
      }
    }
    if e.categoryId.Some? {
      b := b.(categoryId := e.categoryId.value);
    }
    if e.totalCopies.Some? {
      if e.totalCopies.value.None? {
        return Err(InternalError);
      }
      var diff := e.totalCopies.value.value - b.totalCopies;
      b := b.(totalCopies := e.totalCopies.value.value);
      b := b.(availableCopies := b.availableCopies + diff);
    }
    return Ok(b);
  }

  /** Rewriting a book without touching its ISBN keeps ISBNs distinct. */
  lemma SameIsbnKeepsDistinct(books: map<nat, Book>, id: nat, b: Book)
    requires IsbnsDistinct(books) && id in books && b.isbn == books[id].isbn
    ensures IsbnsDistinct(books[id := b])
  {
  }

  /** Applies `e` to book `id`. A failing edit commits nothing. */
  method UpdateBook(db: Db, id: nat, e: BookEdit) returns (res: Result<Book>)
    requires db.Valid()
    modifies db`books
    ensures db.Valid()
    ensures res.Err? <==> id !in old(db.books) || EditRaises(e)
    ensures res.Err? ==>
      && db.books == old(db.books)
      && res.error == (if id !in old(db.books) then NotFound else InternalError)
    ensures res.Ok? ==> res.value == Edited(old(db.books)[id], e) && db.books == old(db.books)[id := res.value]
    ensures IsbnsDistinct(old(db.books)) ==> IsbnsDistinct(db.books)
    ensures Balanced(old(db.books), db.loans) ==> Balanced(db.books, db.loans)
  {
    if id !in db.books {
      return Err(NotFound);
    }
    res := ApplyEdit(db.books[id], e);
    if res.Err? {
      return;
    }
    var b := res.value;
    if Balanced(db.books, db.loans) {
      BookRewriteKeepsBalance(db.books, db.loans, id, b);
    }
    if IsbnsDistinct(db.books) {
      SameIsbnKeepsDistinct(db.books, id, b);
    }
    BooksKeyedUpdate(db.books, db.nextBookId, id, b);
    db.books := db.books[id := b];
  }

  // ---- delete_book ----

  /** The first check of `delete_book` that refuses the request. */
  function DeleteBookRefusal(books: map<nat, Book>, loans: map<nat, BorrowRecord>, reviews: map<nat, Review>, id: nat): (e: Option<Error>)
    ensures e.None? <==>
      && id in books
      && (forall k :: k in loans ==> loans[k].bookId != id)
      && (forall k :: k in reviews ==> reviews[k].bookId != id)
  {
    if id !in books then Some(NotFound)
    else if exists k :: k in loans && loans[k].bookId == id then Some(HasBorrowRecords)
    else if exists k :: k in reviews && reviews[k].bookId == id then Some(HasReviews)
    else None
  }

  /** Removes book `id` when nothing refers to it; any loan, returned ones
      included, keeps it. */
  method DeleteBook(db: Db, id: nat) returns (res: Result<Book>)
    requires db.Valid()
    modifies db`books
    ensures db.Valid()
    ensures res.Err? <==> DeleteBookRefusal(old(db.books), db.loans, db.reviews, id).Some?
    ensures res.Err? ==>
      && res.error == DeleteBookRefusal(old(db.books), db.loans, db.reviews, id).value
      && db.books == old(db.books)
    ensures res.Ok? ==> res.value == old(db.books)[id] && db.books == old(db.books) - {id}
    ensures Balanced(old(db.books), db.loans) ==> Balanced(db.books, db.loans)
  {
    if id !in db.books {
      return Err(NotFound);
    }
    var loanCount := Count(db.loans, (r: BorrowRecord) => r.bookId == id);
    CountZeroIff(db.loans, (r: BorrowRecord) => r.bookId == id);
    if loanCount > 0 {
      return Err(HasBorrowRecords);
    }
    var reviewCount := Count(db.reviews, (r: Review) => r.bookId == id);
    CountZeroIff(db.reviews, (r: Review) => r.bookId == id);
    if reviewCount > 0 {
      return Err(HasReviews);
    }
    var b := db.books[id];
    if Balanced(db.books, db.loans) {
      RemoveBookKeepsBalance(db.books, db.loans, id);
    }
    db.books := db.books - {id};
    return Ok(b);
  }
}
