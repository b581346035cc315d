/** The lending handlers: borrow, return and renew a copy, the caller's loan
    listing and the administrators' statistics. Each handler is one atomic
    step on the shared `Db`; a refused request changes nothing (the handler
    returns before touching a row, or rolls back). */
module Borrows {
  import opened Values
  import opened Models
  import opened Errors
  import opened Clock
  import opened Inventory
  import opened Database
  import opened Ordering

  /** The most loans in status borrowed a user may hold when borrowing. */
  const MaxBorrows: nat := 5

  // ---- borrow_book ----

  /** The first check of `borrow_book` that refuses the request, in the order
      the handler makes them; `None` when the loan is granted. Overdue loans do
      not count towards the limit, but any one of them blocks borrowing. */
  function BorrowRefusal(books: map<nat, Book>, loans: map<nat, BorrowRecord>, actor: nat, bookId: Option<nat>): (e: Option<Error>)
    ensures e.None? <==>
      && TruthyId(bookId) && bookId.value in books
      && books[bookId.value].availableCopies > 0
      && UserLoans(loans, actor, Borrowed) < MaxBorrows
      && UserLoans(loans, actor, Overdue) == 0
  {
    if !TruthyId(bookId) then Some(MissingField("book_id"))
    else if bookId.value !in books then Some(NotFound)
    else if books[bookId.value].availableCopies <= 0 then Some(OutOfStock)
    else if UserLoans(loans, actor, Borrowed) >= MaxBorrows then Some(LoanLimitReached)
    else if UserLoans(loans, actor, Overdue) > 0 then Some(HasOverdueLoans)
    else None
  }

  /** An empty shelf is reported before the loan limit and the overdue block,
      whatever the user's loans are. */
  lemma StockCheckedFirst(books: map<nat, Book>, loans: map<nat, BorrowRecord>, actor: nat, b: nat)
    requires b != 0 && b in books && books[b].availableCopies <= 0
    ensures BorrowRefusal(books, loans, actor, Some(b)) == Some(OutOfStock)
  {
  }

  /** Records a new loan of `bookId` for `actor`, due 30 days from `now`, and
      takes one copy off the shelf. */
  method BorrowBook(db: Db, actor: nat, bookId: Option<nat>, now: int) returns (res: Result<BorrowRecord>)
    requires db.Valid()
    modifies db`loans, db`books, db`nextLoanId
    ensures db.Valid()
    ensures res.Err? <==> BorrowRefusal(old(db.books), old(db.loans), actor, bookId).Some?
    ensures res.Err? ==>
      && res.error == BorrowRefusal(old(db.books), old(db.loans), actor, bookId).value
      && db.loans == old(db.loans) && db.books == old(db.books) && db.nextLoanId == old(db.nextLoanId)
    ensures res.Ok? ==>
      var r, b := res.value, bookId.value;
      && r == NewBorrowRecord(old(db.nextLoanId), actor, b, now, now + LoanPeriod)
      && r.id !in old(db.loans)
      && db.loans == old(db.loans)[r.id := r]
      && db.nextLoanId == old(db.nextLoanId) + 1
      && db.books == old(db.books)[b := old(db.books)[b].(availableCopies := old(db.books)[b].availableCopies - 1)]
      && UserLoans(db.loans, actor, Borrowed) <= MaxBorrows
    ensures Balanced(old(db.books), old(db.loans)) ==> Balanced(db.books, db.loans)
  {
    if !TruthyId(bookId) {
      return Err(MissingField("book_id"));
    }
    var b := bookId.value;
    if b !in db.books {
      return Err(NotFound);
    }
    var book := db.books[b];
    if book.availableCopies <= 0 {
      return Err(OutOfStock);
    }
    var current := UserLoans(db.loans, actor, Borrowed);
    if current >= MaxBorrows {
      return Err(LoanLimitReached);
    }
    var overdue := UserLoans(db.loans, actor, Overdue);
    if overdue > 0 {
      return Err(HasOverdueLoans);
    }
    res := Checkout(db, actor, b, now);
  }

  /** The committing half of `borrow_book`, once every check has passed. */
  method Checkout(db: Db, actor: nat, b: nat, now: int) returns (res: Result<BorrowRecord>)
    requires db.Valid() && b in db.books
    requires UserLoans(db.loans, actor, Borrowed) < MaxBorrows
    modifies db`loans, db`books, db`nextLoanId
    ensures db.Valid()
    ensures res.Ok?
    ensures
      var r := res.value;
      && r == NewBorrowRecord(old(db.nextLoanId), actor, b, now, now + LoanPeriod)
      && r.id !in old(db.loans)
      && db.loans == old(db.loans)[r.id := r]
      && db.nextLoanId == old(db.nextLoanId) + 1
      && db.books == old(db.books)[b := old(db.books)[b].(availableCopies := old(db.books)[b].availableCopies - 1)]
      && UserLoans(db.loans, actor, Borrowed) <= MaxBorrows
    ensures Balanced(old(db.books), old(db.loans)) ==> Balanced(db.books, db.loans)
  {
    var book := db.books[b];
    var r := NewBorrowRecord(db.nextLoanId, actor, b, now, now + LoanPeriod);
    ghost var books0, loans0 := db.books, db.loans;
    BooksKeyedUpdate(db.books, db.nextBookId, b, book.(availableCopies := book.availableCopies - 1));
    LoansKeyedInsert(db.loans, db.nextLoanId, db.nextBookId, r);
    db.books := db.books[b := book.(availableCopies := book.availableCopies - 1)];
    db.loans := db.loans[r.id := r];
    db.nextLoanId := db.nextLoanId + 1;
    UserLoansAfterWrite(loans0, r.id, r, actor, Borrowed);
    if Balanced(books0, loans0) {
      CheckoutKeepsBalance(books0, loans0, r.id, r);
    }
    return Ok(r);
  }

  // ---- return_book ----

  /** The loan as `return_book` leaves it: returned now, and charged for the
      whole days past due when it is late (replacing any fine the sweep set);
      a loan returned on time keeps its fine. */
  function Closed(r: BorrowRecord, now: int): (c: BorrowRecord)
    ensures c.status == Returned && c.returnDate == Some(now) && LoanShaped(c)
    ensures r.dueDate < now ==> c.fine == DaysLate(r.dueDate, now)
    ensures r.dueDate >= now ==> c.fine == r.fine
    ensures c.(status := r.status, returnDate := r.returnDate, fine := r.fine) == r
  {
    r.(returnDate := Some(now), status := Returned,
       fine := if r.dueDate < now then DaysLate(r.dueDate, now) else r.fine)
  }

  /** The first check of `return_book` that refuses the request. Someone other
      than the borrower must be an existing administrator; the lookup of an
      unknown caller fails inside the handler, and so does a loan whose book
      row is gone. */
  function ReturnRefusal(users: map<nat, User>, books: map<nat, Book>, loans: map<nat, BorrowRecord>, actor: nat, id: nat): (e: Option<Error>)
    ensures e.None? <==>
      && id in loans
      && (loans[id].userId == actor || (actor in users && IsAdmin(users[actor])))
      && loans[id].status != Returned
      && loans[id].bookId in books
    ensures id in loans && loans[id].userId == actor && loans[id].status == Returned ==> e == Some(AlreadyReturned)
  {
    if id !in loans then Some(NotFound)
    else if loans[id].userId != actor && actor !in users then Some(InternalError)
    else if loans[id].userId != actor && !IsAdmin(users[actor]) then Some(Forbidden)
    else if loans[id].status == Returned then Some(AlreadyReturned)
    else if loans[id].bookId !in books then Some(InternalError)
    else None
  }

  /** Closes loan `id` at `now` and puts its copy back on the shelf. */
  method ReturnBook(db: Db, actor: nat, id: nat, now: int) returns (res: Result<BorrowRecord>)
    requires db.Valid()
    modifies db`loans, db`books
    ensures db.Valid()
    ensures res.Err? <==> ReturnRefusal(old(db.users), old(db.books), old(db.loans), actor, id).Some?
    ensures res.Err? ==>
      && res.error == ReturnRefusal(old(db.users), old(db.books), old(db.loans), actor, id).value
      && db.loans == old(db.loans) && db.books == old(db.books)
    ensures res.Ok? ==>
      var r, b := old(db.loans)[id], old(db.loans)[id].bookId;
      && res.value == Closed(r, now)
      && LoanMove(r.status, Returned)
      && db.loans == old(db.loans)[id := Closed(r, now)]
      && db.books == old(db.books)[b := old(db.books)[b].(availableCopies := old(db.books)[b].availableCopies + 1)]
    ensures Balanced(old(db.books), old(db.loans)) ==> Balanced(db.books, db.loans)
  {
    if id !in db.loans {
      return Err(NotFound);
    }
    var r := db.loans[id];
    if r.userId != actor {
      if actor !in db.users {
        return Err(InternalError);
      }
      if !IsAdmin(db.users[actor]) {
        return Err(Forbidden);
      }
    }
    if r.status == Returned {
      return Err(AlreadyReturned);
    }
    if r.bookId !in db.books {
      return Err(InternalError);
    }
    res := Checkin(db, id, now);
  }

  /** The committing half of `return_book`, once every check has passed. */
  method Checkin(db: Db, id: nat, now: int) returns (res: Result<BorrowRecord>)
    requires db.Valid() && id in db.loans && db.loans[id].status != Returned
    requires db.loans[id].bookId in db.books
    modifies db`loans, db`books
    ensures db.Valid()
    ensures
      var r, b := old(db.loans)[id], old(db.loans)[id].bookId;
      && res == Ok(Closed(r, now))
      && db.loans == old(db.loans)[id := Closed(r, now)]
      && db.books == old(db.books)[b := old(db.books)[b].(availableCopies := old(db.books)[b].availableCopies + 1)]
    ensures Balanced(old(db.books), old(db.loans)) ==> Balanced(db.books, db.loans)
  {
    var r := db.loans[id];
    var book := db.books[r.bookId];
    var c := r.(returnDate := Some(now), status := Returned);
    if c.dueDate < now {
      c := c.(fine := DaysLate(c.dueDate, now));
    }
    ghost var books0, loans0 := db.books, db.loans;
    LoansKeyedUpdate(db.loans, db.nextLoanId, db.nextBookId, id, c);
    BooksKeyedUpdate(db.books, db.nextBookId, r.bookId, book.(availableCopies := book.availableCopies + 1));
    db.loans := db.loans[id := c];
    db.books := db.books[r.bookId := book.(availableCopies := book.availableCopies + 1)];
    if Balanced(books0, loans0) {
      CheckinKeepsBalance(books0, loans0, id, c);
    }
    return Ok(c);
  }

  /** A returned loan cannot be returned again by its borrower. */
  lemma SecondReturnRefused(users: map<nat, User>, books: map<nat, Book>, loans: map<nat, BorrowRecord>, actor: nat, id: nat, now: int)
    requires ReturnRefusal(users, books, loans, actor, id).None? && loans[id].userId == actor
    ensures ReturnRefusal(users, books, loans[id := Closed(loans[id], now)], actor, id) == Some(AlreadyReturned)
  {
  }

  /** Returning later is never cheaper. */
  lemma LaterReturnNeverCheaper(r: BorrowRecord, t1: int, t2: int)
    requires r.dueDate < t1 <= t2
    ensures Closed(r, t1).fine <= Closed(r, t2).fine
  {
    DaysLateMonotone(r.dueDate, t1, t2);
  }

  // ---- renew_book ----

  /** The loan as `renew_book` leaves it: due 30 days later and marked renewed. */
  function Renewed(r: BorrowRecord): (n: BorrowRecord)
    ensures n.dueDate == r.dueDate + LoanPeriod && n.renewed
    ensures n.(dueDate := r.dueDate, renewed := r.renewed) == r
    ensures SameHolding(r, n)
  {
    r.(dueDate := r.dueDate + LoanPeriod, renewed := true)
  }

  /** The first check of `renew_book` that refuses the request. Only the
      borrower may renew (administrators included), only a loan still in
      status borrowed (not an overdue one), and only once. */
  function RenewRefusal(loans: map<nat, BorrowRecord>, actor: nat, id: nat): (e: Option<Error>)
    ensures e.None? <==> id in loans && loans[id].userId == actor && loans[id].status == Borrowed && !loans[id].renewed
  {
    if id !in loans then Some(NotFound)
    else if loans[id].userId != actor then Some(Forbidden)
    else if loans[id].status != Borrowed then Some(NotBorrowed)
    else if loans[id].renewed then Some(AlreadyRenewed)
    else None
  }

  /** Extends loan `id` by one loan period. */
  method RenewBook(db: Db, actor: nat, id: nat) returns (res: Result<BorrowRecord>)
    requires db.Valid()
    modifies db`loans
    ensures db.Valid()
    ensures res.Err? <==> RenewRefusal(old(db.loans), actor, id).Some?
    ensures res.Err? ==> res.error == RenewRefusal(old(db.loans), actor, id).value && db.loans == old(db.loans)
    ensures res.Ok? ==> res.value == Renewed(old(db.loans)[id]) && db.loans == old(db.loans)[id := res.value]
    ensures Balanced(db.books, old(db.loans)) ==> Balanced(db.books, db.loans)
  {
    if id !in db.loans {
      return Err(NotFound);
    }
    var r := db.loans[id];
    if r.userId != actor {
      return Err(Forbidden);
    }
    if r.status != Borrowed {
      return Err(NotBorrowed);
    }
    if r.renewed {
      return Err(AlreadyRenewed);
    }
    var n := r.(dueDate := r.dueDate + LoanPeriod);
    n := n.(renewed := true);
    if Balanced(db.books, db.loans) {
      SameHoldingKeepsBalance(db.books, db.loans, id, n);
    }
    LoansKeyedUpdate(db.loans, db.nextLoanId, db.nextBookId, id, n);
    db.loans := db.loans[id := n];
    return Ok(n);
  }

  /** A loan is renewed at most once: right after a renewal, the borrower's
      next attempt is refused. */
  lemma RenewOnce(loans: map<nat, BorrowRecord>, actor: nat, id: nat)
    requires RenewRefusal(loans, actor, id).None?
    ensures RenewRefusal(loans[id := Renewed(loans[id])], actor, id) == Some(AlreadyRenewed)
  {
  }

  // ---- get_my_borrows ----

  /** The rows `get_my_borrows` selects: the caller's loans, and when status
      arguments are given, only loans in one of those statuses. */
  predicate MyBorrowsSelects(r: BorrowRecord, actor: nat, statuses: seq<string>) {
    r.userId == actor && (statuses == [] || StatusName(r.status) in statuses)
  }

  /** The ids `get_my_borrows` selects. */
  function MyBorrowIds(loans: map<nat, BorrowRecord>, actor: nat, statuses: seq<string>): set<nat> {
    set k | k in loans && MyBorrowsSelects(loans[k], actor, statuses)
  }

  /** The borrow date of every loan, the listing's sort key. */
  function BorrowDates(loans: map<nat, BorrowRecord>): (t: map<nat, int>)
    ensures t.Keys == loans.Keys
  {
    map k | k in loans :: loans[k].borrowDate
  }

  /** Naming a status narrows the listing, and naming all three is the same
      as naming none. */
  lemma StatusesNarrow(loans: map<nat, BorrowRecord>, actor: nat, statuses: seq<string>)
    ensures MyBorrowIds(loans, actor, statuses) <= MyBorrowIds(loans, actor, [])
    ensures "borrowed" in statuses && "overdue" in statuses && "returned" in statuses
            ==> MyBorrowIds(loans, actor, statuses) == MyBorrowIds(loans, actor, [])
  {
  }

  /** Listing one status selects as many loans as the per-user count that the
      borrow limit and the overdue block use. */
  lemma OneStatusIsUserLoans(loans: map<nat, BorrowRecord>, actor: nat, s: LoanStatus)
    ensures |MyBorrowIds(loans, actor, [StatusName(s)])| == UserLoans(loans, actor, s)
  {
    var p := (r: BorrowRecord) => r.userId == actor && r.status == s;
    forall k | k in loans ensures MyBorrowsSelects(loans[k], actor, [StatusName(s)]) <==> p(loans[k]) {
      StatusNameRoundTrip(loans[k].status);
      StatusNameRoundTrip(s);
    }
    assert MyBorrowIds(loans, actor, [StatusName(s)]) == Matching(loans, p);
  }

  /** One entry of the listing: the loan's projection with its book's
      projection added under "book". */
  function LoanEntry(r: BorrowRecord, b: Book): map<string, Json> {
    BorrowRecordToDict(r)["book" := JObj(BookToDict(b))]
  }

  /** An entry carries the book, and the loan can still be read back from the
      rest of it. */
  lemma LoanEntryReadsBack(r: BorrowRecord, b: Book)
    ensures LoanEntry(r, b)["book"] == JObj(BookToDict(b))
    ensures BorrowRecordFromDict(LoanEntry(r, b) - {"book"}) == Some(r)
  {
    assert LoanEntry(r, b) - {"book"} == BorrowRecordToDict(r);
    BorrowRecordDictRoundTrip(r);
  }

  /** True when every id of `page` names a loan whose book row exists. */
  predicate Listable(loans: map<nat, BorrowRecord>, books: map<nat, Book>, page: seq<nat>) {
    forall i :: 0 <= i < |page| ==> page[i] in loans && loans[page[i]].bookId in books
  }

  /** The entries of a page, in page order. */
  function Entries(loans: map<nat, BorrowRecord>, books: map<nat, Book>, page: seq<nat>): (es: seq<map<string, Json>>)
    requires Listable(loans, books, page)
    ensures |es| == |page|
  {
    if page == [] then []
    else
      var r := loans[page[|page| - 1]];
      Entries(loans, books, page[..|page| - 1]) + [LoanEntry(r, books[r.bookId])]
  }

  /** The `j`-th entry is the `j`-th loan's, with its own book. */
  lemma {:induction false} EntriesAt(loans: map<nat, BorrowRecord>, books: map<nat, Book>, page: seq<nat>, j: nat)
    requires Listable(loans, books, page) && j < |page|
    ensures Entries(loans, books, page)[j] == LoanEntry(loans[page[j]], books[loans[page[j]].bookId])
  {
    if j < |page| - 1 {
      EntriesAt(loans, books, page[..|page| - 1], j);
    }
  }

  /** The loop of `get_my_borrows` over one page of selected loan ids (the
      query's filtering, ordering and paging give `page`). It fails as soon as
      a loan's book row is missing, the `borrow.book.to_dict()` of a `None`. */
  method ListLoans(db: Db, page: seq<nat>) returns (res: Result<seq<map<string, Json>>>)
    requires forall i :: 0 <= i < |page| ==> page[i] in db.loans
    ensures res.Err? <==> !Listable(db.loans, db.books, page)
    ensures res.Err? ==> res.error == InternalError
    ensures res.Ok? ==> Listable(db.loans, db.books, page) && res.value == Entries(db.loans, db.books, page)
  {
    var loans, books := db.loans, db.books;
    var out: seq<map<string, Json>> := [];
    var i := 0;
    while i < |page|
      invariant 0 <= i <= |page|
      invariant Listable(loans, books, page[..i])
      invariant out == Entries(loans, books, page[..i])
    {
      var r := loans[page[i]];
      if r.bookId !in books {
        return Err(InternalError);
      }
      EntriesSnoc(loans, books, page, i);
      out := out + [LoanEntry(r, books[r.bookId])];
      i := i + 1;
    }
    assert page[..i] == page;
    return Ok(out);
  }

  lemma EntriesSnoc(loans: map<nat, BorrowRecord>, books: map<nat, Book>, page: seq<nat>, i: nat)
    requires i < |page| && Listable(loans, books, page[..i])
    requires page[i] in loans && loans[page[i]].bookId in books
    ensures Listable(loans, books, page[..i + 1])
    ensures Entries(loans, books, page[..i + 1])
         == Entries(loans, books, page[..i]) + [LoanEntry(loans[page[i]], books[loans[page[i]].bookId])]
  {
    assert page[..i + 1][..i] == page[..i];
  }

  /** `get_my_borrows` before paging: the caller's loans in the listed
      statuses, each once, newest borrow first, and their entries; it fails
      with status 500 when one of them has no book row. */
  method GetMyBorrows(db: Db, actor: nat, statuses: seq<string>) returns (ids: seq<nat>, res: Result<seq<map<string, Json>>>)
    ensures multiset(ids) == multiset(MyBorrowIds(db.loans, actor, statuses))
    ensures forall i :: 0 <= i < |ids| ==> ids[i] in db.loans && MyBorrowsSelects(db.loans[ids[i]], actor, statuses)
    ensures NewestFirst(BorrowDates(db.loans), ids)
    ensures res.Err? <==> !Listable(db.loans, db.books, ids)
    ensures res.Err? ==> res.error == InternalError
    ensures res.Ok? ==> res.value == Entries(db.loans, db.books, ids)
  {
    var selected := MyBorrowIds(db.loans, actor, statuses);
    ids := SortNewestFirst(BorrowDates(db.loans), selected);
    assert forall i :: 0 <= i < |ids| ==> ids[i] in selected by {
      forall i | 0 <= i < |ids| ensures ids[i] in selected {
        assert ids[i] in multiset(ids);
      }
    }
    res := ListLoans(db, ids);
  }

  // ---- get_borrow_stats ----

  /** The sum of the fines of the loans whose ids are below `bound`, in
      half-units; an empty table sums to 0 (the `or 0` of the query). */
  function FineTotal(loans: map<nat, BorrowRecord>, bound: nat): nat {
    if bound == 0 then 0
    else FineTotal(loans, bound - 1) + (if bound - 1 in loans then loans[bound - 1].fine else 0)
  }

  /** Every loan's fine is part of the total. */
  lemma {:induction false} FineTotalCovers(loans: map<nat, BorrowRecord>, bound: nat, k: nat)
    requires k in loans && k < bound
    ensures loans[k].fine <= FineTotal(loans, bound)
  {
    if k < bound - 1 {
      FineTotalCovers(loans, bound - 1, k);
    }
  }

  /** Tables that agree on the fines below `bound` have the same total. */
  lemma {:induction false} FineTotalAgree(loans: map<nat, BorrowRecord>, loans': map<nat, BorrowRecord>, bound: nat)
    requires forall k :: k < bound ==> (k in loans <==> k in loans')
    requires forall k :: k < bound && k in loans ==> loans[k].fine == loans'[k].fine
    ensures FineTotal(loans, bound) == FineTotal(loans', bound)
  {
    if bound > 0 {
      FineTotalAgree(loans, loans', bound - 1);
    }
  }

  /** Returned loans whose return date is at or after `since`. */
  function ReturnedSince(loans: map<nat, BorrowRecord>, since: int): nat {
    Count(loans, (r: BorrowRecord) => r.status == Returned && r.returnDate.Some? && r.returnDate.value >= since)
  }

  /** What `get_borrow_stats` reports. */
  datatype BorrowStats = BorrowStats(current: nat, overdue: nat, returnsThisMonth: nat, totalFines: real)

  /** The statistics of the loan table, given the first instant of the month
      (`utcnow().replace(day=1)`, which keeps the time of day) and a bound
      above every loan id. */
  function BorrowStatsOf(loans: map<nat, BorrowRecord>, bound: nat, monthStart: int): (s: BorrowStats)
    requires forall k :: k in loans ==> k < bound
    ensures s.current + s.overdue == Count(loans, (r: BorrowRecord) => HoldsCopy(r.status))
    ensures forall k :: k in loans ==> FineAmount(loans[k].fine) <= s.totalFines
    ensures s.totalFines == 0.0 <==> forall k :: k in loans ==> loans[k].fine == 0
  {
    var b, o := Matching(loans, (r: BorrowRecord) => r.status == Borrowed), Matching(loans, (r: BorrowRecord) => r.status == Overdue);
    assert b * o == {};
    assert b + o == Matching(loans, (r: BorrowRecord) => HoldsCopy(r.status));
    FineTotalCoversAll(loans, bound);
    FineTotalZero(loans, bound);
    BorrowStats(LoansIn(loans, Borrowed), LoansIn(loans, Overdue), ReturnedSince(loans, monthStart),
                FineAmount(FineTotal(loans, bound)))
  }

  lemma FineTotalCoversAll(loans: map<nat, BorrowRecord>, bound: nat)
    ensures forall k :: k in loans && k < bound ==> loans[k].fine <= FineTotal(loans, bound)
  {
    forall k | k in loans && k < bound ensures loans[k].fine <= FineTotal(loans, bound) {
      FineTotalCovers(loans, bound, k);
    }
  }

  /** The fine total is zero exactly when every fine below the bound is. */
  lemma {:induction false} FineTotalZero(loans: map<nat, BorrowRecord>, bound: nat)
    ensures FineTotal(loans, bound) == 0 <==> forall k :: k in loans && k < bound ==> loans[k].fine == 0
    decreases bound
  {
    if bound > 0 {
      FineTotalZero(loans, bound - 1);
    }
  }

  /** Past every loan id the bound no longer matters: the fine total is the
      sum over the whole table, as `func.sum` is. */
  lemma {:induction false} FineTotalBeyond(loans: map<nat, BorrowRecord>, bound: nat, later: nat)
    requires forall k :: k in loans ==> k < bound
    requires bound <= later
    ensures FineTotal(loans, later) == FineTotal(loans, bound)
    decreases later - bound
  {
    if later > bound {
      FineTotalBeyond(loans, bound, later - 1);
      assert later - 1 !in loans;
    }
  }

  /** The statistics are the same for every bound above all loan ids. */
  lemma StatsIndependentOfBound(loans: map<nat, BorrowRecord>, b1: nat, b2: nat, monthStart: int)
    requires forall k :: k in loans ==> k < b1 && k < b2
    ensures BorrowStatsOf(loans, b1, monthStart) == BorrowStatsOf(loans, b2, monthStart)
  {
    if b1 <= b2 {
      FineTotalBeyond(loans, b1, b2);
    } else {
      FineTotalBeyond(loans, b2, b1);
    }
  }

  /** A granted loan adds one to the current count and nothing else. */
  lemma StatsAfterCheckout(loans: map<nat, BorrowRecord>, bound: nat, monthStart: int, r: BorrowRecord)
    requires forall k :: k in loans ==> k < bound
    requires r.status == Borrowed && r.fine == 0
    ensures var s := BorrowStatsOf(loans, bound, monthStart);
      BorrowStatsOf(loans[bound := r], bound + 1, monthStart) == s.(current := s.current + 1)
  {
    CountAfterWrite(loans, bound, r, (x: BorrowRecord) => x.status == Borrowed);
    CountAfterWrite(loans, bound, r, (x: BorrowRecord) => x.status == Overdue);
    CountAfterWrite(loans, bound, r, (x: BorrowRecord) => x.status == Returned && x.returnDate.Some? && x.returnDate.value >= monthStart);
    FineTotalAgree(loans, loans[bound := r], bound);
  }

  /** Rewriting one loan below the bound changes the fine total by the
      difference of its fines. */
  lemma {:induction false} FineTotalWrite(loans: map<nat, BorrowRecord>, bound: nat, k: nat, v: BorrowRecord)
    requires k in loans && k < bound
    ensures FineTotal(loans[k := v], bound) + loans[k].fine == FineTotal(loans, bound) + v.fine
    decreases bound
  {
    if bound - 1 == k {
      FineTotalAgree(loans, loans[k := v], k);
    } else {
      FineTotalWrite(loans, bound - 1, k, v);
    }
  }

  /** A return takes the loan out of the current or the overdue count, adds
      it to this month's returns when it happens after the month began, and
      replaces its fine in the total by the fine of the return. */
  lemma StatsAfterReturn(loans: map<nat, BorrowRecord>, bound: nat, monthStart: int, k: nat, now: int)
    requires forall j :: j in loans ==> j < bound
    requires k in loans && loans[k].status != Returned
    ensures var s, c := BorrowStatsOf(loans, bound, monthStart), Closed(loans[k], now);
      var t := BorrowStatsOf(loans[k := c], bound, monthStart);
      && t.current == s.current - (if loans[k].status == Borrowed then 1 else 0)
      && t.overdue == s.overdue - (if loans[k].status == Overdue then 1 else 0)
      && t.returnsThisMonth == s.returnsThisMonth + (if now >= monthStart then 1 else 0)
      && t.totalFines * 2.0 + loans[k].fine as real == s.totalFines * 2.0 + c.fine as real
  {
    var c := Closed(loans[k], now);
    CountAfterWrite(loans, k, c, (x: BorrowRecord) => x.status == Borrowed);
    CountAfterWrite(loans, k, c, (x: BorrowRecord) => x.status == Overdue);
    CountAfterWrite(loans, k, c, (x: BorrowRecord) => x.status == Returned && x.returnDate.Some? && x.returnDate.value >= monthStart);
    FineTotalWrite(loans, bound, k, c);
  }
}
