/** The database session the handlers share: one table per entity, keyed by
    primary key, and the next value of each autoincrement counter. */
module Database {
  import opened Models

  class Db {
    var users: map<nat, User>
    var categories: map<nat, Category>
    var books: map<nat, Book>
    var loans: map<nat, BorrowRecord>
    var reviews: map<nat, Review>
    var reservations: map<nat, Reservation>
    var notifications: map<nat, Notification>

    var nextUserId: nat
    var nextCategoryId: nat
    var nextBookId: nat
    var nextLoanId: nat
    var nextReviewId: nat
    var nextReservationId: nat
    var nextNotificationId: nat

    /** Every row sits under its own id, below the counter that issued it, and
        every loan names a book id that has been issued. */
    ghost predicate Valid()
      reads this
    {
      && UsersKeyed(users, nextUserId)
      && CategoriesKeyed(categories, nextCategoryId)
      && BooksKeyed(books, nextBookId)
      && LoansKeyed(loans, nextLoanId, nextBookId)
      && ReviewsKeyed(reviews, nextReviewId)
      && ReservationsKeyed(reservations, nextReservationId)
      && NotificationsKeyed(notifications, nextNotificationId)
    }

    /** An empty database; ids start at 1 as the autoincrement columns do. */
    constructor ()
      ensures Valid()
      ensures users == map[] && categories == map[] && books == map[] && loans == map[]
      ensures reviews == map[] && reservations == map[] && notifications == map[]
    {
      users, categories, books, loans := map[], map[], map[], map[];
      reviews, reservations, notifications := map[], map[], map[];
      nextUserId, nextCategoryId, nextBookId, nextLoanId := 1, 1, 1, 1;
      nextReviewId, nextReservationId, nextNotificationId := 1, 1, 1;
    }
  }

  predicate UsersKeyed(m: map<nat, User>, next: nat) {
    forall k :: k in m ==> m[k].id == k && k < next
  }

  predicate CategoriesKeyed(m: map<nat, Category>, next: nat) {
    forall k :: k in m ==> m[k].id == k && k < next
  }

  predicate BooksKeyed(m: map<nat, Book>, next: nat) {
    forall k :: k in m ==> m[k].id == k && k < next
  }

  predicate LoansKeyed(m: map<nat, BorrowRecord>, next: nat, nextBook: nat) {
    forall k :: k in m ==> m[k].id == k && k < next && m[k].bookId < nextBook
  }

  predicate ReviewsKeyed(m: map<nat, Review>, next: nat) {
    forall k :: k in m ==> m[k].id == k && k < next
  }

  predicate ReservationsKeyed(m: map<nat, Reservation>, next: nat) {
    forall k :: k in m ==> m[k].id == k && k < next
  }

  predicate NotificationsKeyed(m: map<nat, Notification>, next: nat) {
    forall k :: k in m ==> m[k].id == k && k < next
  }

  // ---- the key discipline after one write ----

  lemma LoansKeyedInsert(m: map<nat, BorrowRecord>, next: nat, nextBook: nat, r: BorrowRecord)
    requires LoansKeyed(m, next, nextBook) && r.id == next && r.bookId < nextBook
    ensures LoansKeyed(m[next := r], next + 1, nextBook)
  {
  }

  lemma LoansKeyedUpdate(m: map<nat, BorrowRecord>, next: nat, nextBook: nat, k: nat, r: BorrowRecord)
    requires LoansKeyed(m, next, nextBook) && k in m && r.id == k && r.bookId == m[k].bookId
    ensures LoansKeyed(m[k := r], next, nextBook)
  {
  }

  lemma BooksKeyedUpdate(m: map<nat, Book>, next: nat, k: nat, b: Book)
    requires BooksKeyed(m, next) && k in m && b.id == k
    ensures BooksKeyed(m[k := b], next)
  {
  }

  lemma BooksKeyedInsert(m: map<nat, Book>, next: nat, b: Book)
    requires BooksKeyed(m, next) && b.id == next
    ensures BooksKeyed(m[next := b], next + 1)
  {
  }
}
