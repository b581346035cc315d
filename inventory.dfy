/** Counting rows of a table, and the inventory equation that ties a book's
    copy counters to its loans: for every book,
      total_copies - available_copies == number of its loans that hold a copy
    (status borrowed or overdue). */
module Inventory {
  import opened Models

  /** The ids of the rows of `m` whose value satisfies `p`. */
  function Matching<T>(m: map<nat, T>, p: T -> bool): set<nat> {
    set k | k in m && p(m[k])
  }

  /** The number of rows of `m` whose value satisfies `p` (a `.count()` query). */
  function Count<T>(m: map<nat, T>, p: T -> bool): nat {
    |Matching(m, p)|
  }

  /** Writing one row changes a count by that row's old and new contribution. */
  lemma CountAfterWrite<T>(m: map<nat, T>, k: nat, v: T, p: T -> bool)
    ensures Count(m[k := v], p)
         == Count(m, p) - (if k in m && p(m[k]) then 1 else 0) + (if p(v) then 1 else 0)
  {
    var before, after := Matching(m, p), Matching(m[k := v], p);
    assert after - {k} == before - {k} by {
      forall j | j != k ensures j in after <==> j in before {
        assert j in m[k := v] <==> j in m;
      }
    }
    assert k in after <==> p(v);
    assert k in before <==> k in m && p(m[k]);
    SizeWithout(before, k);
    SizeWithout(after, k);
  }

  lemma SizeWithout(s: set<nat>, k: nat)
    ensures |s| == |s - {k}| + (if k in s then 1 else 0)
  {
    if k in s {
      assert s == (s - {k}) + {k};
    } else {
      assert s == s - {k};
    }
  }

  /** Deleting one row removes its contribution. */
  lemma CountAfterDelete<T>(m: map<nat, T>, k: nat, p: T -> bool)
    ensures Count(m - {k}, p) == Count(m, p) - (if k in m && p(m[k]) then 1 else 0)
  {
    assert Matching(m - {k}, p) == Matching(m, p) - {k};
  }

  /** A count is zero exactly when no row satisfies the predicate. */
  lemma CountZeroIff<T>(m: map<nat, T>, p: T -> bool)
    ensures Count(m, p) == 0 <==> forall k :: k in m ==> !p(m[k])
  {
    if Count(m, p) == 0 {
      forall k | k in m ensures !p(m[k]) {
        assert k !in Matching(m, p);
      }
    } else {
      var k :| k in Matching(m, p);
    }
  }

  /** The loans of `book` that keep one of its copies off the shelf. */
  function OnLoan(loans: map<nat, BorrowRecord>, book: nat): nat {
    Count(loans, (r: BorrowRecord) => r.bookId == book && HoldsCopy(r.status))
  }

  /** The loans of `user` in status `s`. */
  function UserLoans(loans: map<nat, BorrowRecord>, user: nat, s: LoanStatus): nat {
    Count(loans, (r: BorrowRecord) => r.userId == user && r.status == s)
  }

  /** All loans in status `s`. */
  function LoansIn(loans: map<nat, BorrowRecord>, s: LoanStatus): nat {
    Count(loans, (r: BorrowRecord) => r.status == s)
  }

  /** The inventory equation, for every book. */
  predicate Balanced(books: map<nat, Book>, loans: map<nat, BorrowRecord>) {
    forall b :: b in books ==> books[b].totalCopies - books[b].availableCopies == OnLoan(loans, b)
  }

  /** Every loan of the table satisfies `LoanShaped`. */
  predicate AllShaped(loans: map<nat, BorrowRecord>) {
    forall k :: k in loans ==> LoanShaped(loans[k])
  }

  /** A loan's book and whether it holds a copy: all that `OnLoan` looks at. */
  predicate SameHolding(r: BorrowRecord, r': BorrowRecord) {
    r.bookId == r'.bookId && (HoldsCopy(r.status) <==> HoldsCopy(r'.status))
  }

  lemma OnLoanAfterWrite(loans: map<nat, BorrowRecord>, k: nat, v: BorrowRecord, b: nat)
    ensures OnLoan(loans[k := v], b)
         == OnLoan(loans, b)
            - (if k in loans && loans[k].bookId == b && HoldsCopy(loans[k].status) then 1 else 0)
            + (if v.bookId == b && HoldsCopy(v.status) then 1 else 0)
  {
    CountAfterWrite(loans, k, v, (r: BorrowRecord) => r.bookId == b && HoldsCopy(r.status));
  }

  lemma UserLoansAfterWrite(loans: map<nat, BorrowRecord>, k: nat, v: BorrowRecord, user: nat, s: LoanStatus)
    ensures UserLoans(loans[k := v], user, s)
         == UserLoans(loans, user, s)
            - (if k in loans && loans[k].userId == user && loans[k].status == s then 1 else 0)
            + (if v.userId == user && v.status == s then 1 else 0)
  {
    CountAfterWrite(loans, k, v, (r: BorrowRecord) => r.userId == user && r.status == s);
  }

  /** A checkout: a new loan holding a copy of `r.bookId`, and one copy fewer
      on the shelf. */
  lemma CheckoutKeepsBalance(books: map<nat, Book>, loans: map<nat, BorrowRecord>, k: nat, r: BorrowRecord)
    requires Balanced(books, loans)
    requires k !in loans && r.bookId in books && HoldsCopy(r.status)
    ensures var bk := books[r.bookId];
      Balanced(books[r.bookId := bk.(availableCopies := bk.availableCopies - 1)], loans[k := r])
  {
    var bk := books[r.bookId];
    var books' := books[r.bookId := bk.(availableCopies := bk.availableCopies - 1)];
    forall b | b in books'
      ensures books'[b].totalCopies - books'[b].availableCopies == OnLoan(loans[k := r], b)
    {
      OnLoanAfterWrite(loans, k, r, b);
    }
  }

  /** A check-in: a loan that held a copy stops holding it, and the copy is
      back on the shelf. */
  lemma CheckinKeepsBalance(books: map<nat, Book>, loans: map<nat, BorrowRecord>, k: nat, r: BorrowRecord)
    requires Balanced(books, loans)
    requires k in loans && HoldsCopy(loans[k].status) && !HoldsCopy(r.status)
    requires r.bookId == loans[k].bookId && r.bookId in books
    ensures var bk := books[r.bookId];
      Balanced(books[r.bookId := bk.(availableCopies := bk.availableCopies + 1)], loans[k := r])
  {
    var bk := books[r.bookId];
    var books' := books[r.bookId := bk.(availableCopies := bk.availableCopies + 1)];
    forall b | b in books'
      ensures books'[b].totalCopies - books'[b].availableCopies == OnLoan(loans[k := r], b)
    {
      OnLoanAfterWrite(loans, k, r, b);
    }
  }

  /** Rewriting a loan without changing its book or whether it holds a copy. */
  lemma SameHoldingKeepsBalance(books: map<nat, Book>, loans: map<nat, BorrowRecord>, k: nat, r: BorrowRecord)
    requires Balanced(books, loans)
    requires k in loans && SameHolding(loans[k], r)
    ensures Balanced(books, loans[k := r])
  {
    forall b | b in books
      ensures books[b].totalCopies - books[b].availableCopies == OnLoan(loans[k := r], b)
    {
      OnLoanAfterWrite(loans, k, r, b);
    }
  }

  /** Rewriting any number of loans, none of which changes its book or
      whether it holds a copy, leaves every book's on-loan count as it was. */
  lemma {:induction false} SameHoldingEverywhere(loans: map<nat, BorrowRecord>, loans': map<nat, BorrowRecord>, b: nat)
    requires loans'.Keys == loans.Keys
    requires forall k :: k in loans ==> SameHolding(loans[k], loans'[k])
    ensures OnLoan(loans', b) == OnLoan(loans, b)
  {
    var p := (r: BorrowRecord) => r.bookId == b && HoldsCopy(r.status);
    var s, s' := Matching(loans, p), Matching(loans', p);
    assert s == s' by {
      forall j | j in s ensures j in s' {
        assert SameHolding(loans[j], loans'[j]);
      }
      forall j | j in s' ensures j in s {
        assert SameHolding(loans[j], loans'[j]);
      }
    }
  }

  lemma SameHoldingEverywhereKeepsBalance(books: map<nat, Book>, loans: map<nat, BorrowRecord>, loans': map<nat, BorrowRecord>)
    requires Balanced(books, loans)
    requires loans'.Keys == loans.Keys
    requires forall k :: k in loans ==> SameHolding(loans[k], loans'[k])
    ensures Balanced(books, loans')
  {
    forall b | b in books
      ensures books[b].totalCopies - books[b].availableCopies == OnLoan(loans', b)
    {
      SameHoldingEverywhere(loans, loans', b);
    }
  }

  /** A book may be rewritten freely as long as its copies in hand,
      total - available, stay the same. */
  lemma BookRewriteKeepsBalance(books: map<nat, Book>, loans: map<nat, BorrowRecord>, b: nat, bk: Book)
    requires Balanced(books, loans) && b in books
    requires bk.totalCopies - bk.availableCopies == books[b].totalCopies - books[b].availableCopies
    ensures Balanced(books[b := bk], loans)
  {
  }

  /** A new book with every copy on the shelf, and no loan naming it. */
  lemma NewBookKeepsBalance(books: map<nat, Book>, loans: map<nat, BorrowRecord>, b: nat, bk: Book)
    requires Balanced(books, loans)
    requires forall k :: k in loans ==> loans[k].bookId != b
    requires bk.totalCopies == bk.availableCopies
    ensures Balanced(books[b := bk], loans)
  {
    var p := (r: BorrowRecord) => r.bookId == b && HoldsCopy(r.status);
    CountZeroIff(loans, p);
  }

  /** Removing a book leaves the equation for the remaining books. */
  lemma RemoveBookKeepsBalance(books: map<nat, Book>, loans: map<nat, BorrowRecord>, b: nat)
    requires Balanced(books, loans)
    ensures Balanced(books - {b}, loans)
  {
  }
}
