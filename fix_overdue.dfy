/** The repair script for loans that came back but kept the status overdue:
    every record in status overdue with a return date is set to returned,
    then the script counts how many such records remain. */
module FixOverdue {
  import opened Models
  import opened Inventory
  import opened Database

  /** The query of the script: overdue, with a return date. */
  predicate IsStale(r: BorrowRecord) {
    r.status == Overdue && r.returnDate.Some?
  }

  /** The ids the script selects. */
  function Stale(loans: map<nat, BorrowRecord>): set<nat> {
    set k | k in loans && IsStale(loans[k])
  }

  /** One record after the repair: a selected one becomes returned and
      nothing else about it changes; any other record is left alone. */
  function Repaired(r: BorrowRecord): (s: BorrowRecord)
    ensures IsStale(r) ==> s.status == Returned && s.(status := r.status) == r
    ensures !IsStale(r) ==> s == r
    ensures !IsStale(s)
  {
    if IsStale(r) then r.(status := Returned) else r
  }

  /** The whole table after the repair. */
  function RepairAll(loans: map<nat, BorrowRecord>): map<nat, BorrowRecord> {
    map k | k in loans :: Repaired(loans[k])
  }

  /** Runs the repair, returning `fixed_count` and the number of records the
      check afterwards still finds. */
  method FixOverdueStatus(db: Db) returns (fixed: nat, remaining: nat)
    requires db.Valid()
    modifies db`loans
    ensures db.Valid()
    ensures db.loans == RepairAll(old(db.loans))
    ensures fixed == |Stale(old(db.loans))|
    ensures remaining == 0
  {
    var selected := Stale(db.loans);
    var loans := db.loans;
    fixed := 0;
    var todo := selected;
    while todo != {}
      invariant todo <= selected
      invariant loans.Keys == db.loans.Keys
      invariant forall k :: k in loans ==>
        loans[k] == if k in selected - todo then Repaired(db.loans[k]) else db.loans[k]
      invariant fixed + |todo| == |selected|
      decreases |todo|
    {
      var k :| k in todo;
      loans := loans[k := loans[k].(status := Returned)];
      todo := todo - {k};
      fixed := fixed + 1;
    }
    ghost var after := RepairAll(db.loans);
    forall k | k in loans ensures loans[k] == after[k] {
      assert k in selected <==> IsStale(db.loans[k]);
    }
    assert loans.Keys == after.Keys;
    assert loans == after;
    RepairKeyed(db.loans, db.nextLoanId, db.nextBookId);
    NoneStaleAfter(db.loans);
    db.loans := loans;
    remaining := |Stale(db.loans)|;
  }

  /** The repair keeps every record under its id and on its book. */
  lemma RepairKeyed(m: map<nat, BorrowRecord>, next: nat, nextBook: nat)
    requires LoansKeyed(m, next, nextBook)
    ensures LoansKeyed(RepairAll(m), next, nextBook)
  {
  }

  /** Afterwards no record is overdue with a return date. */
  lemma NoneStaleAfter(loans: map<nat, BorrowRecord>)
    ensures Stale(RepairAll(loans)) == {}
  {
    var after := RepairAll(loans);
    forall k | k in after ensures !IsStale(after[k]) {
      assert after[k] == Repaired(loans[k]);
    }
  }

  /** A repaired record broke the rule that a loan has a return date
      exactly when it is returned, and keeps it afterwards. */
  lemma RepairMakesShaped(loans: map<nat, BorrowRecord>, k: nat)
    requires k in Stale(loans)
    ensures !LoanShaped(loans[k]) && LoanShaped(RepairAll(loans)[k])
  {
  }

  /** On a table whose loans all follow that rule there is nothing to repair
      and the script changes nothing. */
  lemma NothingToRepairWhenShaped(loans: map<nat, BorrowRecord>)
    requires forall k :: k in loans ==> LoanShaped(loans[k])
    ensures Stale(loans) == {}
    ensures RepairAll(loans) == loans
  {
    assert forall k :: k in loans ==> RepairAll(loans)[k] == loans[k];
  }

  /** A second run changes nothing. */
  lemma RepairIdempotent(loans: map<nat, BorrowRecord>)
    ensures RepairAll(RepairAll(loans)) == RepairAll(loans)
  {
    var after := RepairAll(loans);
    forall k | k in after ensures Repaired(after[k]) == after[k] {
      assert after[k] == Repaired(loans[k]);
    }
  }

  /** The repaired loans leave the overdue count; no book's copy counts are
      touched, so they stop being counted as held. */
  lemma RepairShrinksOverdue(loans: map<nat, BorrowRecord>)
    ensures LoansIn(RepairAll(loans), Overdue) == LoansIn(loans, Overdue) - |Stale(loans)|
  {
    var after := RepairAll(loans);
    var isO := (r: BorrowRecord) => r.status == Overdue;
    assert Matching(after, isO) == Matching(loans, isO) - Stale(loans) by {
      forall k ensures k in Matching(after, isO) <==> k in Matching(loans, isO) - Stale(loans) {
        if k in loans {
          assert after[k] == Repaired(loans[k]);
        }
      }
    }
    assert Stale(loans) <= Matching(loans, isO);
  }
}
