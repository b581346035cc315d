/** Book reviews: the rating rule, adding, editing and deleting a review, and
    the per-book listing. These handlers convert the token identity with
    `int(...)`, so the caller is compared with the owner as a number. */
module Reviews {
  import opened Values
  import opened Models
  import opened Errors
  import opened Database

  /** The rating stored for a request value, when `isinstance(rating, int)`
      and 1 <= rating <= 5 accept it. A JSON `true` is a Python `bool`, a
      subclass of `int` equal to 1, so it is accepted as 1. */
  function RatingOf(j: Option<Json>): (r: Option<int>)
    ensures r.Some? ==> 1 <= r.value <= 5
    ensures r.Some? <==> (j.Some? && ((j.value.JInt? && 1 <= j.value.i <= 5) || j.value == JBool(true)))
  {
    match j
    case Some(JInt(i)) => if 1 <= i <= 5 then Some(i) else None
    case Some(JBool(b)) => if b then Some(1) else None
    case _ => None
  }

  /** Every stored rating lies in 1..5. */
  predicate RatingsInRange(reviews: map<nat, Review>) {
    forall k :: k in reviews ==> 1 <= reviews[k].rating <= 5
  }

  lemma ReviewsKeyedWrite(m: map<nat, Review>, next: nat, k: nat, r: Review)
    requires ReviewsKeyed(m, next) && r.id == k && k < next
    ensures ReviewsKeyed(m[k := r], next)
  {
  }

  // ---- add_review ----

  /** The first check of `add_review` that refuses the request. */
  function AddRefusal(books: map<nat, Book>, users: map<nat, User>, actor: nat, bookId: nat, rating: Option<Json>): (e: Option<Error>)
    ensures e.None? <==> bookId in books && actor in users && RatingOf(rating).Some?
  {
    if bookId !in books then Some(NotFound)
    else if actor !in users then Some(NotFound)
    else if RatingOf(rating).None? then Some(InvalidRating)
    else None
  }

  /** Adds `actor`'s review of `bookId`; an absent comment is stored as the
      empty text, an explicit null as none. */
  method AddReview(db: Db, actor: nat, bookId: nat, rating: Option<Json>, comment: Option<Option<string>>, now: int)
    returns (res: Result<Review>)
    requires db.Valid()
    modifies db`reviews, db`nextReviewId
    ensures db.Valid()
    ensures res.Err? <==> AddRefusal(db.books, db.users, actor, bookId, rating).Some?
    ensures res.Err? ==>
      && res.error == AddRefusal(db.books, db.users, actor, bookId, rating).value
      && db.reviews == old(db.reviews) && db.nextReviewId == old(db.nextReviewId)
    ensures res.Ok? ==>
      && res.value == Review(old(db.nextReviewId), actor, bookId, RatingOf(rating).value,
                             GetOr(comment, Some("")), now)
      && res.value.id !in old(db.reviews)
      && db.reviews == old(db.reviews)[res.value.id := res.value]
      && db.nextReviewId == old(db.nextReviewId) + 1
    ensures RatingsInRange(old(db.reviews)) ==> RatingsInRange(db.reviews)
  {
    if bookId !in db.books {
      return Err(NotFound);
    }
    if actor !in db.users {
      return Err(NotFound);
    }
    var r := RatingOf(rating);
    if r.None? {
      return Err(InvalidRating);
    }
    var review := Review(db.nextReviewId, actor, bookId, r.value, GetOr(comment, Some("")), now);
    ReviewsKeyedWrite(db.reviews, db.nextReviewId + 1, review.id, review);
    db.reviews := db.reviews[review.id := review];
    db.nextReviewId := db.nextReviewId + 1;
    return Ok(review);
  }

  // ---- update_review ----

  /** The first check of `update_review` that refuses the request: only the
      author may edit, and a present rating must be valid. */
  function UpdateRefusal(reviews: map<nat, Review>, actor: nat, id: nat, rating: Option<Option<Json>>): (e: Option<Error>)
    ensures e.None? <==> id in reviews && reviews[id].userId == actor && (rating.None? || RatingOf(rating.value).Some?)
  {
    if id !in reviews then Some(NotFound)
    else if reviews[id].userId != actor then Some(Forbidden)
    else if rating.Some? && RatingOf(rating.value).None? then Some(InvalidRating)
    else None
  }

  /** The review after an accepted edit: a present rating and a present
      comment replace the old ones; nothing else changes. */
  function Revised(r: Review, rating: Option<Option<Json>>, comment: Option<Option<string>>): (n: Review)
    requires rating.None? || RatingOf(rating.value).Some?
    ensures n.id == r.id && n.userId == r.userId && n.bookId == r.bookId && n.createdAt == r.createdAt
    ensures n.rating == (if rating.Some? then RatingOf(rating.value).value else r.rating)
    ensures n.comment == GetOr(comment, r.comment)
  {
    var r1 := if rating.Some? then r.(rating := RatingOf(rating.value).value) else r;
    if comment.Some? then r1.(comment := comment.value) else r1
  }

  /** Edits review `id`. The request fields are absent (`None`) or present. */
  method UpdateReview(db: Db, actor: nat, id: nat, rating: Option<Option<Json>>, comment: Option<Option<string>>)
    returns (res: Result<Review>)
    requires db.Valid()
    modifies db`reviews
    ensures db.Valid()
    ensures res.Err? <==> UpdateRefusal(old(db.reviews), actor, id, rating).Some?
    ensures res.Err? ==>
      && res.error == UpdateRefusal(old(db.reviews), actor, id, rating).value
      && db.reviews == old(db.reviews)
    ensures res.Ok? ==>
      && res.value == Revised(old(db.reviews)[id], rating, comment)
      && db.reviews == old(db.reviews)[id := res.value]
    ensures RatingsInRange(old(db.reviews)) ==> RatingsInRange(db.reviews)
  {
    if id !in db.reviews {
      return Err(NotFound);
    }
    var review := db.reviews[id];
    if review.userId != actor {
      return Err(Forbidden);
    }
    if rating.Some? {
      var r := RatingOf(rating.value);
      if r.None? {
        return Err(InvalidRating);
      }
      review := review.(rating := r.value);
    }
    if comment.Some? {
      review := review.(comment := comment.value);
    }
    ReviewsKeyedWrite(db.reviews, db.nextReviewId, id, review);
    db.reviews := db.reviews[id := review];
    return Ok(review);
  }

  // ---- delete_review ----

  /** The first check of `delete_review` that refuses the request. The
      author may always delete; anyone else must be an existing
      administrator, and an unknown caller makes the role lookup fail. */
  function DeleteRefusal(users: map<nat, User>, reviews: map<nat, Review>, actor: nat, id: nat): (e: Option<Error>)
    ensures e.None? <==> id in reviews && (reviews[id].userId == actor || (actor in users && IsAdmin(users[actor])))
  {
    if id !in reviews then Some(NotFound)
    else if reviews[id].userId != actor && actor !in users then Some(InternalError)
    else if reviews[id].userId != actor && !IsAdmin(users[actor]) then Some(Forbidden)
    else None
  }

  /** Deletes review `id`, and only it. */
  method DeleteReview(db: Db, actor: nat, id: nat) returns (res: Result<Review>)
    requires db.Valid()
    modifies db`reviews
    ensures db.Valid()
    ensures res.Err? <==> DeleteRefusal(db.users, old(db.reviews), actor, id).Some?
    ensures res.Err? ==>
      && res.error == DeleteRefusal(db.users, old(db.reviews), actor, id).value
      && db.reviews == old(db.reviews)
    ensures res.Ok? ==> res.value == old(db.reviews)[id] && db.reviews == old(db.reviews) - {id}
  {
    if id !in db.reviews {
      return Err(NotFound);
    }
    var review := db.reviews[id];
    if review.userId != actor {
      if actor !in db.users {
        return Err(InternalError);
      }
      if !IsAdmin(db.users[actor]) {
        return Err(Forbidden);
      }
    }
    db.reviews := db.reviews - {id};
    return Ok(review);
  }

  // ---- listings ----

  /** `get_book_reviews` lists the reviews of one book; `get_user_reviews`
      and `get_my_reviews` the reviews of one user. */
  predicate OfBook(r: Review, bookId: nat) {
    r.bookId == bookId
  }

  predicate ByUser(r: Review, userId: nat) {
    r.userId == userId
  }

  /** The name shown for a review's author; a user row that is gone shows as
      "unknown user". */
  function AuthorName(users: map<nat, User>, userId: nat): (name: string)
    ensures userId in users ==> name == users[userId].username
    ensures userId !in users ==> name == "\U{672A}\U{77E5}\U{7528}\U{6237}"
  {
    if userId in users then users[userId].username else "\U{672A}\U{77E5}\U{7528}\U{6237}"
  }

  /** One entry of the per-book listing. */
  function ReviewEntry(r: Review, name: string): map<string, Json> {
    map["id" := JInt(r.id), "book_id" := JInt(r.bookId), "user_id" := JInt(r.userId),
        "username" := JStr(name), "rating" := JInt(r.rating), "comment" := OptStr(r.comment),
        "created_at" := JTime(r.createdAt)]
  }

  /** The loop of `get_book_reviews` over one page of review ids of book
      `bookId` (the query's filter and paging give `page`). */
  method BookReviewEntries(db: Db, bookId: nat, page: seq<nat>) returns (res: Result<seq<map<string, Json>>>)
    requires forall i :: 0 <= i < |page| ==> page[i] in db.reviews && OfBook(db.reviews[page[i]], bookId)
    ensures res.Err? <==> bookId !in db.books
    ensures res.Err? ==> res.error == NotFound
    ensures res.Ok? ==> |res.value| == |page|
    ensures res.Ok? ==> forall i :: 0 <= i < |page| ==>
      res.value[i] == ReviewEntry(db.reviews[page[i]], AuthorName(db.users, db.reviews[page[i]].userId))
  {
    if bookId !in db.books {
      return Err(NotFound);
    }
    var reviews, users := db.reviews, db.users;
    var out: seq<map<string, Json>> := [];
    var i := 0;
    while i < |page|
      invariant 0 <= i <= |page|
      invariant |out| == i
      invariant forall j :: 0 <= j < i ==> out[j] == ReviewEntry(reviews[page[j]], AuthorName(users, reviews[page[j]].userId))
    {
      var r := reviews[page[i]];
      var name := AuthorName(users, r.userId);
      out := out + [ReviewEntry(r, name)];
      i := i + 1;
    }
    return Ok(out);
  }

  /** One entry of a per-user listing: the book's title and author, or
      "unknown book" and "unknown author" when the book row is gone. */
  function UserReviewEntry(r: Review, books: map<nat, Book>): (d: map<string, Json>)
    ensures "book_title" in d && "book_author" in d
    ensures r.bookId in books ==> d["book_title"] == JStr(books[r.bookId].title) && d["book_author"] == JStr(books[r.bookId].author)
    ensures r.bookId !in books ==> d["book_title"] == JStr("\U{672A}\U{77E5}\U{56FE}\U{4E66}")
                                   && d["book_author"] == JStr("\U{672A}\U{77E5}\U{4F5C}\U{8005}")
    ensures d.Keys == {"id", "book_id", "book_title", "book_author", "rating", "comment", "created_at"}
    ensures d["id"] == JInt(r.id) && d["book_id"] == JInt(r.bookId) && d["rating"] == JInt(r.rating)
  {
    var title := if r.bookId in books then books[r.bookId].title else "\U{672A}\U{77E5}\U{56FE}\U{4E66}";
    var author := if r.bookId in books then books[r.bookId].author else "\U{672A}\U{77E5}\U{4F5C}\U{8005}";
    map["id" := JInt(r.id), "book_id" := JInt(r.bookId), "book_title" := JStr(title),
        "book_author" := JStr(author), "rating" := JInt(r.rating), "comment" := OptStr(r.comment),
        "created_at" := JTime(r.createdAt)]
  }

  /** The loop of `get_user_reviews` (`checkUser`, which refuses an unknown
      user) and of `get_my_reviews` (which does not) over one page of review
      ids of user `userId`. */
  method UserReviewEntries(db: Db, userId: nat, checkUser: bool, page: seq<nat>) returns (res: Result<seq<map<string, Json>>>)
    requires forall i :: 0 <= i < |page| ==> page[i] in db.reviews && ByUser(db.reviews[page[i]], userId)
    ensures res.Err? <==> checkUser && userId !in db.users
    ensures res.Err? ==> res.error == NotFound
    ensures res.Ok? ==> |res.value| == |page|
    ensures res.Ok? ==> forall i :: 0 <= i < |page| ==> res.value[i] == UserReviewEntry(db.reviews[page[i]], db.books)
  {
    if checkUser && userId !in db.users {
      return Err(NotFound);
    }
    var reviews, books := db.reviews, db.books;
    var out: seq<map<string, Json>> := [];
    var i := 0;
    while i < |page|
      invariant 0 <= i <= |page|
      invariant |out| == i
      invariant forall j :: 0 <= j < i ==> out[j] == UserReviewEntry(reviews[page[j]], books)
    {
      out := out + [UserReviewEntry(reviews[page[i]], books)];
      i := i + 1;
    }
    return Ok(out);
  }
}
