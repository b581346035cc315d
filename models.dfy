/** The persistent entities: their fields, the defaults a new row receives,
    the status vocabularies, and the `to_dict` projections sent to clients. */
module Models {
  import opened Values

  /** `BorrowRecord.status`. */
  datatype LoanStatus = Borrowed | Overdue | Returned

  /** `Reservation.status`. `Active` is named by the column's comment but no
      handler ever assigns it. */
  datatype ReservationStatus = Pending | Active | Canceled | Fulfilled

  datatype User = User(
    id: nat,
    username: string,
    email: string,
    passwordHash: string,
    role: string,
    createdAt: int,
    isActive: bool)

  datatype Category = Category(
    id: nat,
    name: string,
    description: Option<string>,
    parentId: Option<nat>)

  datatype Book = Book(
    id: nat,
    isbn: string,
    title: string,
    author: string,
    publisher: Option<string>,
    publishDate: Option<Date>,
    categoryId: Option<nat>,
    totalCopies: int,
    availableCopies: int,
    createdAt: int)

  /** A loan. `fine` counts half-yuan units: the source stores
      `days_overdue * 0.5` as a float, here it is `days_overdue`. */
  datatype BorrowRecord = BorrowRecord(
    id: nat,
    userId: nat,
    bookId: nat,
    borrowDate: int,
    dueDate: int,
    returnDate: Option<int>,
    status: LoanStatus,
    fine: nat,
    renewed: bool)

  datatype Review = Review(
    id: nat,
    userId: nat,
    bookId: nat,
    rating: int,
    comment: Option<string>,
    createdAt: int)

  datatype Reservation = Reservation(
    id: nat,
    userId: nat,
    bookId: nat,
    reservationDate: int,
    status: ReservationStatus,
    expiresAt: int)

  datatype Notification = Notification(
    id: nat,
    userId: nat,
    title: string,
    content: string,
    isRead: bool,
    createdAt: int,
    kind: string)

  const AdminRole: string := "admin"
  const DefaultRole: string := "user"

  predicate IsAdmin(u: User) {
    u.role == AdminRole
  }

  /** A loan in these states keeps a physical copy away from the shelf. */
  predicate HoldsCopy(s: LoanStatus) {
    s == Borrowed || s == Overdue
  }

  /** The loan state machine: borrowed -> overdue -> returned, or
      borrowed -> returned. */
  predicate LoanMove(from: LoanStatus, to: LoanStatus) {
    (from == Borrowed && to == Overdue) || (from != Returned && to == Returned)
  }

  /** The reservation state machine: pending -> canceled | fulfilled. */
  predicate ReservationMove(from: ReservationStatus, to: ReservationStatus) {
    from == Pending && (to == Canceled || to == Fulfilled)
  }

  /** A return date is recorded exactly on returned loans. */
  predicate LoanShaped(r: BorrowRecord) {
    r.returnDate.Some? <==> r.status == Returned
  }

  lemma ReturnedIsTerminal(to: LoanStatus)
    ensures !LoanMove(Returned, to)
  {
  }

  lemma ReservationEndsAreTerminal(to: ReservationStatus)
    ensures !ReservationMove(Canceled, to) && !ReservationMove(Fulfilled, to)
    ensures !ReservationMove(Active, to)
  {
  }

  // ---- rows as the constructors create them (column defaults applied) ----

  /** `BorrowRecord(user_id, book_id, borrow_date, due_date, status='borrowed')`
      with the defaults of `return_date`, `fine_amount` and `renewed`. */
  function NewBorrowRecord(id: nat, userId: nat, bookId: nat, borrowDate: int, dueDate: int): (r: BorrowRecord)
    ensures r.status == Borrowed && r.fine == 0 && !r.renewed && r.returnDate.None?
    ensures r.userId == userId && r.bookId == bookId && r.dueDate == dueDate
    ensures LoanShaped(r) && HoldsCopy(r.status)
  {
    BorrowRecord(id, userId, bookId, borrowDate, dueDate, None, Borrowed, 0, false)
  }

  /** A `Book` whose copy counts are left to the column defaults. */
  function DefaultBook(id: nat, isbn: string, title: string, author: string, createdAt: int): (b: Book)
    ensures b.totalCopies == 1 && b.availableCopies == 1
    ensures b.publisher.None? && b.publishDate.None? && b.categoryId.None?
  {
    Book(id, isbn, title, author, None, None, None, 1, 1, createdAt)
  }

  /** A `User` whose `role` and `is_active` are left to the column defaults. */
  function DefaultUser(id: nat, username: string, email: string, passwordHash: string, createdAt: int): (u: User)
    ensures u.role == DefaultRole && u.isActive && !IsAdmin(u)
  {
    User(id, username, email, passwordHash, DefaultRole, createdAt, true)
  }

  /** A `Reservation` whose `status` is left to the column default. */
  function DefaultReservation(id: nat, userId: nat, bookId: nat, reservationDate: int, expiresAt: int): (r: Reservation)
    ensures r.status == Pending
  {
    Reservation(id, userId, bookId, reservationDate, Pending, expiresAt)
  }

  /** A `Notification` whose `is_read` is left to the column default. */
  function NewNotification(id: nat, userId: nat, title: string, content: string, createdAt: int, kind: string): (n: Notification)
    ensures !n.isRead && n.userId == userId
  {
    Notification(id, userId, title, content, false, createdAt, kind)
  }

  // ---- to_dict projections ----

  function OptStr(o: Option<string>): Json {
    match o
    case Some(s) => JStr(s)
    case None => JNull
  }

  function OptId(o: Option<nat>): Json {
    match o
    case Some(i) => JInt(i)
    case None => JNull
  }

  function StatusName(s: LoanStatus): (name: string)
    ensures name in {"borrowed", "overdue", "returned"}
  {
    match s
    case Borrowed => "borrowed"
    case Overdue => "overdue"
    case Returned => "returned"
  }

  function ReservationStatusName(s: ReservationStatus): string {
    match s
    case Pending => "pending"
    case Active => "active"
    case Canceled => "canceled"
    case Fulfilled => "fulfilled"
  }

  function StatusNamed(name: string): Option<LoanStatus> {
    if name == "borrowed" then Some(Borrowed)
    else if name == "overdue" then Some(Overdue)
    else if name == "returned" then Some(Returned)
    else None
  }

  /** Distinct states have distinct names. */
  lemma StatusNameRoundTrip(s: LoanStatus)
    ensures StatusNamed(StatusName(s)) == Some(s)
  {
  }

  /** The half-unit fine as the float `fine_amount` holds it. */
  function FineAmount(halves: nat): (amount: real)
    ensures amount * 2.0 == halves as real
  {
    halves as real / 2.0
  }

  /** `User.to_dict`: every column except `password_hash`. */
  function UserToDict(u: User): (d: map<string, Json>)
    ensures d.Keys == {"id", "username", "email", "role", "created_at", "is_active"}
    ensures "password_hash" !in d
    ensures d["is_active"] == JBool(u.isActive) && d["role"] == JStr(u.role)
  {
    map["id" := JInt(u.id), "username" := JStr(u.username), "email" := JStr(u.email),
        "role" := JStr(u.role), "created_at" := JTime(u.createdAt), "is_active" := JBool(u.isActive)]
  }

  function CategoryToDict(c: Category): (d: map<string, Json>)
    ensures d.Keys == {"id", "name", "description", "parent_id"}
    ensures d["parent_id"] == JNull <==> c.parentId.None?
  {
    map["id" := JInt(c.id), "name" := JStr(c.name), "description" := OptStr(c.description),
        "parent_id" := OptId(c.parentId)]
  }

  /** `Book.to_dict`. */
  function BookToDict(b: Book): (d: map<string, Json>)
    ensures d.Keys == {"id", "isbn", "title", "author", "publisher", "publish_date",
                       "category_id", "total_copies", "available_copies", "created_at"}
    ensures d["publish_date"] == JNull <==> b.publishDate.None?
  {
    map["id" := JInt(b.id), "isbn" := JStr(b.isbn), "title" := JStr(b.title),
        "author" := JStr(b.author), "publisher" := OptStr(b.publisher),
        "publish_date" := (if b.publishDate.Some? then JDate(b.publishDate.value) else JNull),
        "category_id" := OptId(b.categoryId), "total_copies" := JInt(b.totalCopies),
        "available_copies" := JInt(b.availableCopies), "created_at" := JTime(b.createdAt)]
  }

  /** `BorrowRecord.to_dict`. */
  function BorrowRecordToDict(r: BorrowRecord): (d: map<string, Json>)
    ensures d.Keys == {"id", "user_id", "book_id", "borrow_date", "due_date", "return_date",
                       "status", "fine_amount", "renewed"}
    ensures d["return_date"] == JNull <==> r.returnDate.None?
    ensures d["status"] == JStr(StatusName(r.status))
  {
    map["id" := JInt(r.id), "user_id" := JInt(r.userId), "book_id" := JInt(r.bookId),
        "borrow_date" := JTime(r.borrowDate), "due_date" := JTime(r.dueDate),
        "return_date" := (if r.returnDate.Some? then JTime(r.returnDate.value) else JNull),
        "status" := JStr(StatusName(r.status)), "fine_amount" := JReal(FineAmount(r.fine)),
        "renewed" := JBool(r.renewed)]
  }

  function ReviewToDict(r: Review): (d: map<string, Json>)
    ensures d.Keys == {"id", "user_id", "book_id", "rating", "comment", "created_at"}
    ensures d["rating"] == JInt(r.rating)
  {
    map["id" := JInt(r.id), "user_id" := JInt(r.userId), "book_id" := JInt(r.bookId),
        "rating" := JInt(r.rating), "comment" := OptStr(r.comment), "created_at" := JTime(r.createdAt)]
  }

  function ReservationToDict(r: Reservation): (d: map<string, Json>)
    ensures d.Keys == {"id", "user_id", "book_id", "reservation_date", "status", "expires_at"}
    ensures d["status"] == JStr(ReservationStatusName(r.status))
  {
    map["id" := JInt(r.id), "user_id" := JInt(r.userId), "book_id" := JInt(r.bookId),
        "reservation_date" := JTime(r.reservationDate),
        "status" := JStr(ReservationStatusName(r.status)), "expires_at" := JTime(r.expiresAt)]
  }

  function NotificationToDict(n: Notification): (d: map<string, Json>)
    ensures d.Keys == {"id", "user_id", "title", "content", "is_read", "created_at", "notification_type"}
    ensures d["is_read"] == JBool(n.isRead)
  {
    map["id" := JInt(n.id), "user_id" := JInt(n.userId), "title" := JStr(n.title),
        "content" := JStr(n.content), "is_read" := JBool(n.isRead),
        "created_at" := JTime(n.createdAt), "notification_type" := JStr(n.kind)]
  }

  // ---- reading a projection back ----

  function AsNat(j: Json): Option<nat> {
    if j.JInt? && j.i >= 0 then Some(j.i) else None
  }

  function AsOptTime(j: Json): Option<Option<int>> {
    match j
    case JNull => Some(None)
    case JTime(t) => Some(Some(t))
    case _ => None
  }

  function AsFine(j: Json): Option<nat> {
    if j.JReal? && j.r >= 0.0 && (j.r * 2.0).Floor as real == j.r * 2.0 then Some((j.r * 2.0).Floor as nat)
    else None
  }

  /** Rebuilds a loan from its projection, when the projection is well formed. */
  function BorrowRecordFromDict(d: map<string, Json>): Option<BorrowRecord> {
    if && "id" in d && "user_id" in d && "book_id" in d && "borrow_date" in d
       && "due_date" in d && "return_date" in d && "status" in d && "fine_amount" in d
       && "renewed" in d
       && AsNat(d["id"]).Some? && AsNat(d["user_id"]).Some? && AsNat(d["book_id"]).Some?
       && d["borrow_date"].JTime? && d["due_date"].JTime? && AsOptTime(d["return_date"]).Some?
       && d["status"].JStr? && StatusNamed(d["status"].s).Some?
       && AsFine(d["fine_amount"]).Some? && d["renewed"].JBool?
    then Some(BorrowRecord(
      AsNat(d["id"]).value, AsNat(d["user_id"]).value, AsNat(d["book_id"]).value,
      d["borrow_date"].t, d["due_date"].t, AsOptTime(d["return_date"]).value,
      StatusNamed(d["status"].s).value, AsFine(d["fine_amount"]).value, d["renewed"].b))
    else None
  }

  /** The projection of a loan loses nothing: every field, the missing return
      date included, can be read back. */
  lemma BorrowRecordDictRoundTrip(r: BorrowRecord)
    ensures BorrowRecordFromDict(BorrowRecordToDict(r)) == Some(r)
  {
    var d := BorrowRecordToDict(r);
    assert (r.fine as real / 2.0) * 2.0 == r.fine as real;
    assert AsFine(d["fine_amount"]) == Some(r.fine);
    StatusNameRoundTrip(r.status);
  }
}
