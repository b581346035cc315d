/** The daily overdue sweep: one pass that marks every loan still in status
    borrowed and past its due date as overdue and charges it a provisional
    fine, followed by a single commit. */
module OverdueCheck {
  import opened Models
  import opened Clock
  import opened Inventory
  import opened Database
  import Borrows

  /** The query of the sweep: borrowed and due strictly before `now`. */
  predicate IsLate(r: BorrowRecord, now: int) {
    r.status == Borrowed && r.dueDate < now
  }

  /** The ids the sweep selects. */
  function Late(loans: map<nat, BorrowRecord>, now: int): set<nat> {
    set k | k in loans && IsLate(loans[k], now)
  }

  /** One record after the sweep: a late one becomes overdue with one
      half-unit per whole day past due; every other record is left alone. */
  function Swept(r: BorrowRecord, now: int): (s: BorrowRecord)
    ensures IsLate(r, now) ==> s.status == Overdue && s.fine == DaysLate(r.dueDate, now)
    ensures IsLate(r, now) ==> s.(status := r.status, fine := r.fine) == r
    ensures !IsLate(r, now) ==> s == r
    ensures !IsLate(s, now) && SameHolding(r, s)
    ensures s.status == r.status || LoanMove(r.status, s.status)
  {
    if IsLate(r, now) then r.(status := Overdue, fine := DaysLate(r.dueDate, now)) else r
  }

  /** The whole table after the sweep. */
  function SweepAll(loans: map<nat, BorrowRecord>, now: int): map<nat, BorrowRecord> {
    map k | k in loans :: Swept(loans[k], now)
  }

  /** Runs the sweep at time `now`, returning how many records it selected. */
  method CheckOverdueBooks(db: Db, now: int) returns (found: nat)
    requires db.Valid()
    modifies db`loans
    ensures db.Valid()
    ensures db.loans == SweepAll(old(db.loans), now)
    ensures found == |Late(old(db.loans), now)|
  {
    var selected := Late(db.loans, now);
    var loans := db.loans;
    var remaining := selected;
    while remaining != {}
      invariant remaining <= selected
      invariant loans.Keys == db.loans.Keys
      invariant forall k :: k in loans ==>
        loans[k] == if k in selected - remaining then Swept(db.loans[k], now) else db.loans[k]
      decreases |remaining|
    {
      var k :| k in remaining;
      var r := loans[k];
      loans := loans[k := r.(status := Overdue, fine := DaysLate(r.dueDate, now))];
      remaining := remaining - {k};
    }
    ghost var after := SweepAll(db.loans, now);
    forall k | k in loans ensures loans[k] == after[k] {
      assert k in selected <==> IsLate(db.loans[k], now);
    }
    assert loans.Keys == after.Keys;
    assert loans == after;
    SweepKeyed(db.loans, db.nextLoanId, db.nextBookId, now);
    db.loans := loans;
    return |selected|;
  }

  /** The sweep keeps every record under its id and on its book. */
  lemma SweepKeyed(m: map<nat, BorrowRecord>, next: nat, nextBook: nat, now: int)
    requires LoansKeyed(m, next, nextBook)
    ensures LoansKeyed(SweepAll(m, now), next, nextBook)
  {
  }

  /** Afterwards no record is borrowed and past due. */
  lemma NoneLateAfter(loans: map<nat, BorrowRecord>, now: int)
    ensures Late(SweepAll(loans, now), now) == {}
  {
    var after := SweepAll(loans, now);
    forall k | k in after ensures !IsLate(after[k], now) {
      assert after[k] == Swept(loans[k], now);
    }
  }

  /** A second sweep at the same instant changes nothing. */
  lemma SweepIdempotent(loans: map<nat, BorrowRecord>, now: int)
    ensures SweepAll(SweepAll(loans, now), now) == SweepAll(loans, now)
  {
    var after := SweepAll(loans, now);
    forall k | k in after ensures Swept(after[k], now) == after[k] {
      assert after[k] == Swept(loans[k], now);
    }
  }

  /** The sweep moves no copy: the inventory equation survives it. */
  lemma SweepKeepsBalance(books: map<nat, Book>, loans: map<nat, BorrowRecord>, now: int)
    requires Balanced(books, loans)
    ensures Balanced(books, SweepAll(loans, now))
  {
    var after := SweepAll(loans, now);
    forall k | k in loans ensures SameHolding(loans[k], after[k]) {
      assert after[k] == Swept(loans[k], now);
    }
    SameHoldingEverywhereKeepsBalance(books, loans, after);
  }

  /** The sweep only relabels: the selected loans leave the borrowed count ... */
  lemma SweepShrinksBorrowed(loans: map<nat, BorrowRecord>, now: int)
    ensures LoansIn(SweepAll(loans, now), Borrowed) == LoansIn(loans, Borrowed) - |Late(loans, now)|
  {
    var after := SweepAll(loans, now);
    var isB := (r: BorrowRecord) => r.status == Borrowed;
    assert Matching(after, isB) == Matching(loans, isB) - Late(loans, now) by {
      forall k ensures k in Matching(after, isB) <==> k in Matching(loans, isB) - Late(loans, now) {
        if k in loans {
          assert after[k] == Swept(loans[k], now);
        }
      }
    }
    assert Late(loans, now) <= Matching(loans, isB);
  }

  /** ... and join the overdue count. */
  lemma SweepGrowsOverdue(loans: map<nat, BorrowRecord>, now: int)
    ensures LoansIn(SweepAll(loans, now), Overdue) == LoansIn(loans, Overdue) + |Late(loans, now)|
  {
    var after := SweepAll(loans, now);
    var isO := (r: BorrowRecord) => r.status == Overdue;
    assert Matching(after, isO) == Matching(loans, isO) + Late(loans, now) by {
      forall k ensures k in Matching(after, isO) <==> k in Matching(loans, isO) + Late(loans, now) {
        if k in loans {
          assert after[k] == Swept(loans[k], now);
        }
      }
    }
    assert Late(loans, now) * Matching(loans, isO) == {};
  }

  /** A loan due at `t`, swept one day later, is charged one half-unit; when
      it comes back three days after `t` the return charges three half-units
      (1.5), replacing the sweep's provisional fine. */
  lemma SweepThenReturn(r: BorrowRecord, t: int)
    requires r.status == Borrowed && r.dueDate == t
    ensures Swept(r, t + SecondsPerDay).fine == 1
    ensures Borrows.Closed(Swept(r, t + SecondsPerDay), t + 3 * SecondsPerDay).fine == 3
    ensures FineAmount(Borrows.Closed(Swept(r, t + SecondsPerDay), t + 3 * SecondsPerDay).fine) == 1.5
  {
  }
}
