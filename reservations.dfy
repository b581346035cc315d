/** Reservations of books that have no copy on the shelf: creation, and the
    two ways a pending reservation ends (canceled by its holder or an
    administrator, fulfilled by an administrator before it expires). */
module Reservations {
  import opened Values
  import opened Models
  import opened Errors
  import opened Clock
  import opened Database

  /** No user holds two pending reservations for the same book. */
  predicate PendingUnique(rs: map<nat, Reservation>) {
    forall j, k ::
      (&& j in rs && k in rs && rs[j].status == Pending && rs[k].status == Pending
       && rs[j].userId == rs[k].userId && rs[j].bookId == rs[k].bookId) ==> j == k
  }

  predicate HasPending(rs: map<nat, Reservation>, user: nat, book: nat) {
    exists k :: k in rs && rs[k].status == Pending && rs[k].userId == user && rs[k].bookId == book
  }

  // ---- create_reservation ----

  /** The first check of `create_reservation` that refuses the request. */
  function CreateRefusal(books: map<nat, Book>, rs: map<nat, Reservation>, actor: nat, bookId: Option<nat>): (e: Option<Error>)
    ensures e.None? <==>
      && TruthyId(bookId) && bookId.value in books
      && books[bookId.value].availableCopies <= 0
      && !HasPending(rs, actor, bookId.value)
    ensures !TruthyId(bookId) ==> e == Some(MissingField("book_id"))
  {
    if !TruthyId(bookId) then Some(MissingField("book_id"))
    else if bookId.value !in books then Some(NotFound)
    else if books[bookId.value].availableCopies > 0 then Some(StillAvailable)
    else if HasPending(rs, actor, bookId.value) then Some(DuplicatePending)
    else None
  }

  /** Records a pending reservation of `bookId` for `actor`, valid for seven
      days from `now`. */
  method CreateReservation(db: Db, actor: nat, bookId: Option<nat>, now: int) returns (res: Result<Reservation>)
    requires db.Valid()
    modifies db`reservations, db`nextReservationId
    ensures db.Valid()
    ensures res.Err? <==> CreateRefusal(db.books, old(db.reservations), actor, bookId).Some?
    ensures res.Err? ==>
      && res.error == CreateRefusal(db.books, old(db.reservations), actor, bookId).value
      && db.reservations == old(db.reservations) && db.nextReservationId == old(db.nextReservationId)
    ensures res.Ok? ==>
      var r := res.value;
      && r == DefaultReservation(old(db.nextReservationId), actor, bookId.value, now, now + ReservationPeriod)
      && r.id !in old(db.reservations)
      && db.reservations == old(db.reservations)[r.id := r]
      && db.nextReservationId == old(db.nextReservationId) + 1
    ensures PendingUnique(old(db.reservations)) ==> PendingUnique(db.reservations)
  {
    if !TruthyId(bookId) {
      return Err(MissingField("book_id"));
    }
    var b := bookId.value;
    if b !in db.books {
      return Err(NotFound);
    }
    if db.books[b].availableCopies > 0 {
      return Err(StillAvailable);
    }
    if HasPending(db.reservations, actor, b) {
      return Err(DuplicatePending);
    }
    var r := DefaultReservation(db.nextReservationId, actor, b, now, now + ReservationPeriod);
    if PendingUnique(db.reservations) {
      NewPendingKeepsUnique(db.reservations, r);
    }
    db.reservations := db.reservations[r.id := r];
    db.nextReservationId := db.nextReservationId + 1;
    return Ok(r);
  }

  /** A new pending reservation for a pair that has none keeps pairs unique. */
  lemma NewPendingKeepsUnique(rs: map<nat, Reservation>, r: Reservation)
    requires PendingUnique(rs) && r.id !in rs && !HasPending(rs, r.userId, r.bookId)
    ensures PendingUnique(rs[r.id := r])
  {
  }

  /** Ending a reservation never breaks uniqueness of pending pairs. */
  lemma EndingKeepsUnique(rs: map<nat, Reservation>, k: nat, s: ReservationStatus)
    requires PendingUnique(rs) && k in rs && s != Pending
    ensures PendingUnique(rs[k := rs[k].(status := s)])
  {
  }

  // ---- cancel_reservation ----

  /** The first check of `cancel_reservation` that refuses the request: only
      the holder, or an existing administrator, and only while pending. */
  function CancelRefusal(users: map<nat, User>, rs: map<nat, Reservation>, actor: nat, id: nat): (e: Option<Error>)
    ensures e.None? <==>
      && id in rs
      && (rs[id].userId == actor || (actor in users && IsAdmin(users[actor])))
      && rs[id].status == Pending
  {
    if id !in rs then Some(NotFound)
    else if rs[id].userId != actor && (actor !in users || !IsAdmin(users[actor])) then Some(Forbidden)
    else if rs[id].status != Pending then Some(NotPending)
    else None
  }

  /** Cancels reservation `id`; nothing but its status changes. */
  method CancelReservation(db: Db, actor: nat, id: nat) returns (res: Result<Reservation>)
    requires db.Valid()
    modifies db`reservations
    ensures db.Valid()
    ensures res.Err? <==> CancelRefusal(db.users, old(db.reservations), actor, id).Some?
    ensures res.Err? ==>
      && res.error == CancelRefusal(db.users, old(db.reservations), actor, id).value
      && db.reservations == old(db.reservations)
    ensures res.Ok? ==>
      && res.value == old(db.reservations)[id].(status := Canceled)
      && ReservationMove(old(db.reservations)[id].status, Canceled)
      && db.reservations == old(db.reservations)[id := res.value]
    ensures PendingUnique(old(db.reservations)) ==> PendingUnique(db.reservations)
  {
    if id !in db.reservations {
      return Err(NotFound);
    }
    var r := db.reservations[id];
    if r.userId != actor {
      if actor !in db.users || !IsAdmin(db.users[actor]) {
        return Err(Forbidden);
      }
    }
    if r.status != Pending {
      return Err(NotPending);
    }
    if PendingUnique(db.reservations) {
      EndingKeepsUnique(db.reservations, id, Canceled);
    }
    r := r.(status := Canceled);
    db.reservations := db.reservations[id := r];
    return Ok(r);
  }

  // ---- fulfill_reservation ----

  /** The first check of `fulfill_reservation` that refuses the request (the
      administrator check is the decorator's). A reservation can still be
      fulfilled at the very instant it expires. */
  function FulfillRefusal(rs: map<nat, Reservation>, id: nat, now: int): (e: Option<Error>)
    ensures e.None? <==> id in rs && rs[id].status == Pending && now <= rs[id].expiresAt
  {
    if id !in rs then Some(NotFound)
    else if rs[id].status != Pending then Some(NotPending)
    else if rs[id].expiresAt < now then Some(Expired)
    else None
  }

  /** Marks reservation `id` fulfilled. */
  method FulfillReservation(db: Db, id: nat, now: int) returns (res: Result<Reservation>)
    requires db.Valid()
    modifies db`reservations
    ensures db.Valid()
    ensures res.Err? <==> FulfillRefusal(old(db.reservations), id, now).Some?
    ensures res.Err? ==>
      && res.error == FulfillRefusal(old(db.reservations), id, now).value
      && db.reservations == old(db.reservations)
    ensures res.Ok? ==>
      && res.value == old(db.reservations)[id].(status := Fulfilled)
      && ReservationMove(old(db.reservations)[id].status, Fulfilled)
      && db.reservations == old(db.reservations)[id := res.value]
    ensures PendingUnique(old(db.reservations)) ==> PendingUnique(db.reservations)
  {
    if id !in db.reservations {
      return Err(NotFound);
    }
    var r := db.reservations[id];
    if r.status != Pending {
      return Err(NotPending);
    }
    if r.expiresAt < now {
      return Err(Expired);
    }
    if PendingUnique(db.reservations) {
      EndingKeepsUnique(db.reservations, id, Fulfilled);
    }
    r := r.(status := Fulfilled);
    db.reservations := db.reservations[id := r];
    return Ok(r);
  }

  /** A reservation created at `now` can be fulfilled until exactly seven
      days later, and not a second after. */
  lemma FulfillWindow(rs: map<nat, Reservation>, r: Reservation, now: int, t: int)
    requires r == DefaultReservation(r.id, r.userId, r.bookId, now, now + ReservationPeriod)
    ensures FulfillRefusal(rs[r.id := r], r.id, t).None? <==> t <= now + 7 * SecondsPerDay
  {
  }

  /** Canceled and fulfilled are final: both handlers refuse them. */
  lemma EndedIsFinal(users: map<nat, User>, rs: map<nat, Reservation>, actor: nat, id: nat, now: int)
    requires id in rs && (rs[id].status == Canceled || rs[id].status == Fulfilled)
    ensures CancelRefusal(users, rs, actor, id).Some?
    ensures FulfillRefusal(rs, id, now) == Some(NotPending)
  {
  }
}
