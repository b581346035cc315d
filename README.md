# Library service lending model

A Dafny model of the back end of a small Flask library service and of its front end's navigation guard. Readers borrow, return and renew copies of books, reserve books that are out of stock, review books and receive notifications. Administrators manage users, books and categories, read the server log and run maintenance scripts.

The model keeps the database as one object, `Database.Db`. It holds one map from ids to records per table (users, books, categories, borrow records, reservations, reviews, notifications) and the counter that hands out the next id of each table. `Db.Valid()` states that every record is stored under its own id, below the table's next id, and that every borrow record's book id lies below the book table's next id.

Each request handler is a method on that object, in the module named after its source file. The method returns either the record or listing the handler answers with, or the error it answers with. Every handler comes with a pure refusal function that names the first check the request fails, in the order the source makes its checks. The method is proved to fail exactly when the refusal function gives an error. On failure it changes nothing; on success it produces exactly the new state described. The maintenance scripts (overdue sweep, overdue repair, category cleanup and category check) are methods with the loops of the source, each proved against a function of the old table.

The central invariant is the copy ledger in module `Inventory`. For every book, total copies minus available copies equals the number of its borrow records in status borrowed or overdue. Borrowing, returning, renewing, the overdue sweep, copy-count edits, new books and book deletion are proved to keep it. Further invariants kept by the handlers:
- ISBNs are distinct;
- user names and e-mail addresses are distinct;
- category names are distinct;
- a user holds at most one pending reservation per book;
- ratings lie between 1 and 5.

Modelling conventions:
- Time is an integer count of seconds, given to each handler as one `now`.
- A whole number of days is the floor of a difference in seconds divided by 86400.
- A fine is a natural number of half-units, one per day late; the source stores the matching float, days × 0.5.
- User ids are natural numbers on both sides of every ownership comparison (see Findings).
- Password hashing and token handling are parameters.
- Module `Router` models the front-end guard on its two store facts, "holds a token" and "is an administrator".

## Model

| member | source | states |
|---|---|---|
| Values.QueryBool | backend/app/routes/books.py:26 | a flag argument converted with type=bool is absent exactly when the argument is, and true exactly when its raw text is non-empty |
| Errors.Status | backend/app/routes/borrows.py:21-68 | every failure is answered with 400, 401, 403 or 500, and with 500 exactly for an exception: a failed get_or_404 lookup raised inside the handler's try block, or any other error |
| Clock.DaysLate | backend/app/routes/borrows.py:96 | the whole days elapsed since a past due date, rounded down: d days late means at least d and fewer than d+1 days of seconds |
| Clock.DaysLateMonotone | backend/app/routes/borrows.py:95-98 | the days late never decrease as time moves on |
| Clock.DaysLateShift | backend/app/routes/borrows.py:96 | k more whole days add exactly k to the days late |
| Dates.ParseDate | backend/app/routes/books.py:95 | a publication date parses only from ten characters, yielding a valid calendar date |
| Dates.FormatDate | backend/app/models.py:84 | isoformat of a date is ten characters with dashes at positions 4 and 7 |
| Dates.ParseFormat | backend/app/models.py:84 | parsing the isoformat of any valid date gives the date back |
| Text.ContainsIff | backend/app/routes/books.py:31-36 | the substring test holds exactly when the term occurs at some position |
| Text.Strip | backend/app/routes/logs.py:43 | a stripped line is no longer than the line and neither starts nor ends with whitespace |
| Text.StripExact | backend/app/routes/logs.py:43 | the stripped line is the slice of the line with only whitespace before and after it; with the ends being non-whitespace, exactly the two maximal runs of whitespace are removed |
| Text.Upper | backend/app/routes/logs.py:41 | the upper-cased level has the same length, each character upper-cased |
| Text.UpperIdempotent | backend/app/routes/logs.py:41 | upper-casing twice is upper-casing once |
| Identity.Str | backend/app/routes/auth.py:36 | the decimal text of a user id, as str(user.id) renders it in the token |
| Identity.StrInjective | backend/app/routes/auth.py:36 | distinct user ids get distinct token identities |
| Identity.OwnerUnrecognisedAsWritten | backend/app/routes/borrows.py:79 | as written, the integer owner column is compared with the string identity, so user 7 holding identity "7" is not recognised as the owner |
| Identity.SameUserIff | backend/app/routes/reviews.py:52 | comparing the identity with the owner's id rendered as text recognises exactly the owner, which is comparing the ids as numbers |
| Models.ReturnedIsTerminal | backend/app/routes/borrows.py:84-86 | no transition leaves status returned: a returned loan is never returned again or renewed |
| Models.NewBorrowRecord | backend/app/models.py:95-103 | a new loan record is in status borrowed with fine 0, not renewed and without a return date, and holds a copy |
| Models.DefaultBook | backend/app/models.py:61-70 | a book created without counts has one copy in total and one available, and no publisher, publication date or category |
| Models.DefaultUser | backend/app/models.py:11-17 | a new user has role 'user', is active, and is not an administrator |
| Models.DefaultReservation | backend/app/models.py:141-146 | a new reservation is pending |
| Models.NewNotification | backend/app/models.py:165-171 | a new notification is unread and belongs to the given user |
| Models.StatusName | backend/app/models.py:101 | a loan status is stored as one of 'borrowed', 'overdue', 'returned' |
| Models.StatusNameRoundTrip | backend/app/models.py:101 | reading back a stored status name gives the status |
| Models.FineAmount | backend/app/models.py:102 | the fine column holds half the stored count of half-units, so days times 0.5 is exact |
| Models.UserToDict | backend/app/models.py:29-37 | the user projection has exactly the six listed keys and never the password hash |
| Models.CategoryToDict | backend/app/models.py:50-56 | the category projection has its four keys; parent_id is null exactly when the category has no parent |
| Models.BookToDict | backend/app/models.py:77-89 | the book projection has its ten keys; publish_date is null exactly when the book has no publication date |
| Models.BorrowRecordToDict | backend/app/models.py:105-116 | the loan projection has its nine keys; return_date is null exactly when the loan has no return date; status is the stored name |
| Models.BorrowRecordDictRoundTrip | backend/app/models.py:105-116 | the loan projection copies every field: the record can be read back from it |
| Models.ReviewToDict | backend/app/models.py:128-136 | the review projection has its six keys and carries the rating |
| Models.ReservationToDict | backend/app/models.py:152-160 | the reservation projection has its six keys and the stored status name |
| Models.NotificationToDict | backend/app/models.py:176-185 | the notification projection has its seven keys and the read flag |
| Models.ReservationEndsAreTerminal | backend/app/models.py:145 | canceled and fulfilled admit no further transition, and active, listed in the column's comment, is never a state any handler moves from |
| Borrows.BorrowRefusal | backend/app/routes/borrows.py:17-44 | a borrow is refused exactly when the book id is missing or zero, the book does not exist, no copy is available, the caller holds five or more loans in status borrowed, or holds any overdue loan; the first failing check in that order decides the error |
| Borrows.StockCheckedFirst | backend/app/routes/borrows.py:24-44 | an empty shelf is reported as out of stock whatever the caller's loans are: the stock check comes before the limit and the overdue block |
| Borrows.BorrowBook | backend/app/routes/borrows.py:9-68 | fails exactly when BorrowRefusal does, changing nothing; otherwise adds one loan in status borrowed due 30 days from now under a fresh id and takes one copy off that book only; keeps the copies-on-loan ledger balanced |
| Borrows.Checkout | backend/app/routes/borrows.py:46-59 | a granted loan: the new record, the decremented book, every other book and loan unchanged, the caller's borrowed count at most five, the ledger kept |
| Borrows.Closed | backend/app/routes/borrows.py:90-98 | a returned loan has status returned and return date now; past its due date its fine becomes the whole days late times 0.5, overwriting any earlier fine; on time it keeps its fine; no other field changes |
| Borrows.ReturnRefusal | backend/app/routes/borrows.py:76-88 | a return is refused exactly when the record is missing, the caller is neither its borrower nor an administrator, the record is already returned, or its book row is gone; an already returned loan of the caller gives AlreadyReturned |
| Borrows.ReturnBook | backend/app/routes/borrows.py:70-112 | fails exactly when ReturnRefusal does, changing nothing; otherwise the loan becomes Closed(loan, now) and its book gets one copy back, nothing else changes; keeps the ledger balanced |
| Borrows.Checkin | backend/app/routes/borrows.py:90-103 | the committing half of a return: the closed loan, the incremented book, everything else unchanged, ledger kept |
| Borrows.SecondReturnRefused | backend/app/routes/borrows.py:85-86 | after a successful return, the borrower's second return of the same record is refused as already returned |
| Borrows.LaterReturnNeverCheaper | backend/app/routes/borrows.py:95-98 | the fine of a late return never decreases as the return moves later |
| Borrows.Renewed | backend/app/routes/borrows.py:220-222 | a renewal moves the due date 30 days later and sets renewed; nothing else changes and the loan still holds its copy |
| Borrows.RenewRefusal | backend/app/routes/borrows.py:206-218 | a renewal is allowed exactly when the record exists, belongs to the caller (no administrator override), is in status borrowed and has not been renewed |
| Borrows.RenewBook | backend/app/routes/borrows.py:200-233 | fails exactly when RenewRefusal does, changing nothing; otherwise the record becomes Renewed(record), no book changes, the ledger stays balanced |
| Borrows.RenewOnce | backend/app/routes/borrows.py:216-222 | right after a renewal, the next renewal of the same loan is refused as already renewed |
| Borrows.GetMyBorrows | backend/app/routes/borrows.py:116-153 | lists each loan of the table that belongs to the caller and, when status arguments are given, has a listed status, exactly once, newest borrow date first; fails with 500 exactly when one of them has no book row, otherwise answers their entries in that order |
| Borrows.StatusesNarrow | backend/app/routes/borrows.py:124-127 | status arguments only narrow the caller's listing, and naming all three statuses lists the same loans as naming none |
| Borrows.OneStatusIsUserLoans | backend/app/routes/borrows.py:124-127 | the listing for a single status has as many loans as the per-user count that the borrow limit and the overdue block use |
| Borrows.LoanEntryReadsBack | backend/app/routes/borrows.py:138-141 | a listing entry carries the book's projection under "book", and the loan can be read back from the rest of the entry |
| Borrows.EntriesAt | backend/app/routes/borrows.py:137-141 | the j-th entry of a page is the j-th loan's projection with its own book |
| Borrows.ListLoans | backend/app/routes/borrows.py:137-151 | the listing loop fails with status 500 exactly when some loan it is given has no book row; otherwise it returns their entries in the given order |
| Borrows.FineTotalCovers | backend/app/routes/borrows.py:255 | every loan's fine is part of the fine total |
| Borrows.FineTotalAgree | backend/app/routes/borrows.py:255 | tables that agree on their fines have the same fine total |
| Borrows.BorrowStatsOf | backend/app/routes/borrows.py:236-262 | given a bound above every loan id: current plus overdue is the number of loans holding a copy; the fine total is at least every loan's fine, and is zero exactly when every fine is |
| Borrows.FineTotalBeyond | backend/app/routes/borrows.py:255 | past every loan id the bound adds nothing, so the total is the sum over the whole table |
| Borrows.StatsIndependentOfBound | backend/app/routes/borrows.py:236-262 | the statistics are the same for every bound above all loan ids |
| Borrows.StatsAfterReturn | backend/app/routes/borrows.py:241-255 | a return takes the loan out of the current or overdue count, adds it to this month's returns when it is at or after the month's start, and replaces its fine in the total by the return's fine |
| Borrows.StatsAfterCheckout | backend/app/routes/borrows.py:241-255 | a granted loan adds one to the current count and leaves the overdue count, the returns this month and the fine total unchanged |
| Inventory.CheckoutKeepsBalance | backend/app/routes/borrows.py:47-58 | a new loan holding a copy of a book, with one copy fewer on its shelf, keeps every book's total minus available equal to its loans in status borrowed or overdue |
| Inventory.CheckinKeepsBalance | backend/app/routes/borrows.py:90-101 | a loan that stops holding a copy, with its copy back on the shelf, keeps that equation |
| Inventory.SameHoldingKeepsBalance | backend/app/routes/borrows.py:220-222 | rewriting a loan without changing its book or whether it holds a copy keeps the equation |
| Inventory.SameHoldingEverywhereKeepsBalance | backend/tasks/overdue_check.py:20-24 | rewriting any number of loans that way keeps the equation |
| Inventory.BookRewriteKeepsBalance | backend/app/routes/books.py:149-153 | rewriting a book with the same total minus available keeps the equation |
| Inventory.NewBookKeepsBalance | backend/app/routes/books.py:97-109 | a new book with all copies available and no loans keeps the equation |
| Inventory.RemoveBookKeepsBalance | backend/app/routes/books.py:180-181 | removing a book keeps the equation for the others |
| Inventory.CountZeroIff | backend/app/routes/borrows.py:39-44 | a count query answers zero exactly when no row matches |
| Books.ListBooks | backend/app/routes/books.py:29-55 | the listing holds exactly the rows that pass every truthy filter (search in title, author or ISBN; category; publisher; year bounds; available only) |
| Books.ListBooksKeepsOrder | backend/app/routes/books.py:29-55 | the listed rows are the query's rows at strictly increasing positions, so the filters keep the query order |
| Books.AvailableOnlyFilters | backend/app/routes/books.py:26-55 | with available_only given as any non-empty text, "false" and "0" included, every listed book has a copy available |
| Books.SearchFindsSubstring | backend/app/routes/books.py:31-36 | a non-empty search term occurs as a substring of the title, the author or the ISBN of every listed book |
| Books.FreshIsbnKeepsDistinct | backend/app/routes/books.py:89-109 | adding a book whose ISBN no book has keeps ISBNs distinct |
| Books.CreateBookRefusal | backend/app/routes/books.py:83-95 | a body is accepted exactly when isbn, title, author, category_id and total_copies are all truthy, the ISBN is new, and a truthy publication date parses; "ISBN exists" is answered exactly when the five fields pass and the ISBN is taken; a total of 0 is always refused |
| Books.CreateBook | backend/app/routes/books.py:75-117 | fails exactly when CreateBookRefusal does, changing nothing; otherwise adds the described book under a fresh id with available copies equal to the total; keeps ISBNs distinct and the ledger balanced |
| Books.Edited | backend/app/routes/books.py:136-153 | each present field is replaced and each absent one kept; a new total shifts the available count by the same difference with no clamp, so total minus available is unchanged |
| Books.EmptyEditIsIdentity | backend/app/routes/books.py:136-153 | an empty body changes nothing |
| Books.ApplyEdit | backend/app/routes/books.py:136-153 | the field-by-field assignments raise exactly on an unparsable publication date or a null total, and otherwise give Edited(book, body) |
| Books.SameIsbnKeepsDistinct | backend/app/routes/books.py:136-155 | an edit, which never touches the ISBN, keeps ISBNs distinct |
| Books.UpdateBook | backend/app/routes/books.py:127-163 | fails exactly on a missing book or a raising edit, with status 404 as 500 or 500, committing nothing; otherwise replaces the book by Edited(book, body); keeps ISBNs distinct and the ledger balanced |
| Books.DeleteBookRefusal | backend/app/routes/books.py:170-178 | a delete is allowed exactly when the book exists and no loan, returned ones included, and no review refers to it |
| Books.DeleteBook | backend/app/routes/books.py:165-186 | fails exactly when DeleteBookRefusal does, changing nothing; otherwise removes exactly that book; the ledger of the other books is kept |
| Reservations.CreateRefusal | backend/app/routes/reservations.py:15-38 | a reservation is allowed exactly when the book id is given and non-zero, the book exists, no copy is available, and the caller holds no pending reservation of that book; a missing id is reported as the missing field book_id |
| Reservations.CreateReservation | backend/app/routes/reservations.py:9-57 | fails exactly when CreateRefusal does, changing nothing; otherwise adds one pending reservation under a fresh id that expires seven days from now; at most one pending reservation per user and book is kept |
| Reservations.NewPendingKeepsUnique | backend/app/routes/reservations.py:31-46 | adding a pending reservation where the user has none for that book keeps pending reservations unique per user and book |
| Reservations.EndingKeepsUnique | backend/app/routes/reservations.py:82 | moving a reservation out of pending keeps that uniqueness |
| Reservations.CancelRefusal | backend/app/routes/reservations.py:68-79 | a cancel is allowed exactly when the reservation exists, the caller holds it or is an existing administrator, and it is pending |
| Reservations.CancelReservation | backend/app/routes/reservations.py:59-88 | fails exactly when CancelRefusal does, changing nothing; otherwise only that reservation's status changes, to canceled, a legal move; no book is touched |
| Reservations.FulfillRefusal | backend/app/routes/reservations.py:155-163 | a fulfilment is allowed exactly when the reservation exists, is pending and now is at or before its expiry (the test is strict) |
| Reservations.FulfillReservation | backend/app/routes/reservations.py:148-172 | fails exactly when FulfillRefusal does, changing nothing; otherwise only that reservation's status changes, to fulfilled; no book is touched |
| Reservations.FulfillWindow | backend/app/routes/reservations.py:41-46 | a reservation made at time now can be fulfilled at time t exactly when t is at most seven days after now, including the last instant |
| Reservations.EndedIsFinal | backend/app/routes/reservations.py:78-79 | a canceled or fulfilled reservation can be neither canceled nor fulfilled again |
| Reviews.RatingOf | backend/app/routes/reviews.py:61-63 | a rating is accepted exactly when it is an integer in 1..5, or the boolean true, which Python counts as the integer 1; an accepted rating lies in 1..5 |
| Reviews.AddRefusal | backend/app/routes/reviews.py:55-63 | a review is allowed exactly when the book and the caller exist and the rating is accepted |
| Reviews.AddReview | backend/app/routes/reviews.py:47-91 | fails exactly when AddRefusal does, changing nothing; otherwise adds one review by the caller of that book under a fresh id, with the comment defaulting to the empty text; every stored rating stays in 1..5 |
| Reviews.UpdateRefusal | backend/app/routes/reviews.py:102-112 | an edit is allowed exactly when the review exists, the caller wrote it (no administrator override), and a present rating is accepted |
| Reviews.Revised | backend/app/routes/reviews.py:109-116 | a present rating and a present comment replace the old ones; the author, the book, the id and the creation time stay |
| Reviews.UpdateReview | backend/app/routes/reviews.py:94-135 | fails exactly when UpdateRefusal does, committing nothing, even when a comment was also sent; otherwise the review becomes Revised(review, body); ratings stay in 1..5 |
| Reviews.DeleteRefusal | backend/app/routes/reviews.py:145-150 | a delete is allowed exactly when the review exists and the caller wrote it or is an administrator |
| Reviews.DeleteReview | backend/app/routes/reviews.py:138-158 | fails exactly when DeleteRefusal does, changing nothing; otherwise removes exactly that review |
| Reviews.AuthorName | backend/app/routes/reviews.py:25-30 | an entry shows the author's username when the user row exists, and "未知用户" (unknown user) when it is gone |
| Reviews.BookReviewEntries | backend/app/routes/reviews.py:17-34 | the per-book listing fails exactly when the book is missing; otherwise it has one entry per review of the page, in page order, each that review's projection with its author's name |
| Reviews.UserReviewEntry | backend/app/routes/reviews.py:176-185 | a per-user entry has exactly the seven keys, carries the review's id, book id and rating, and the book's title and author, or "未知图书" and "未知作者" (unknown book, unknown author) when the book row is gone |
| Reviews.UserReviewEntries | backend/app/routes/reviews.py:168-221 | the per-user listing fails exactly when the user is checked and missing; otherwise it has one entry per review of the page, in page order |
| Ordering.InsertNewest | backend/app/routes/notifications.py:29 | inserting an id into the ordered listing adds exactly that id and loses none |
| Ordering.InsertKeepsNewestFirst | backend/app/routes/notifications.py:29 | the insertion keeps the listing ordered by its timestamp, newest first |
| Ordering.SortNewestFirst | backend/app/routes/borrows.py:130 | the query's order_by(... .desc()): the selected ids, each once, in non-increasing order of their timestamp |
| Notifications.ListNotifications | backend/app/routes/notifications.py:8-48 | the listing holds each of the caller's notifications that matches the is_read filter exactly once, newest first; total is their number and unread_count the number of the caller's unread notifications |
| Notifications.UnreadListingMatchesCount | backend/app/routes/notifications.py:26-44 | the listing filtered to unread notifications selects as many as unread_count reports; with `type=bool` that filter comes only from an empty `is_read=` argument, since `?is_read=false` reads as true |
| Notifications.OwnerRefusal | backend/app/routes/notifications.py:59-90 | a request on a notification is allowed exactly when it exists and belongs to the caller; a missing one is a lookup failure, another user's is forbidden |
| Notifications.MarkNotificationRead | backend/app/routes/notifications.py:50-75 | fails exactly when OwnerRefusal does, changing nothing; otherwise only that notification becomes read, a second mark changes nothing, and the caller's unread count drops by one when it was unread |
| Notifications.DeleteNotification | backend/app/routes/notifications.py:77-101 | fails exactly when OwnerRefusal does, changing nothing; otherwise removes exactly that notification, and the caller's unread count drops by one when it was unread |
| Notifications.MarkAllRead | backend/app/routes/notifications.py:103-123 | the table becomes AllRead(table, caller), and the count reported is the caller's number of unread notifications before the call |
| Notifications.AllReadClearsUnread | backend/app/routes/notifications.py:112-114 | afterwards the caller has no unread notification |
| Notifications.AllReadOnlyTouchesUnread | backend/app/routes/notifications.py:112-114 | no notification is added or removed, other users' notifications are untouched, and read ones are left as they were |
| Notifications.AllReadIsMarkEach | backend/app/routes/notifications.py:113-114 | marking one unread notification first and then all gives the same table as marking all |
| Users.StatusFilter | backend/app/routes/users.py:34-50 | the loop over the status arguments yields StatusChoice: active alone asks for active users, inactive alone for inactive ones, and both, neither, or only other words for no filter |
| Users.GetUsers | backend/app/routes/users.py:20-50 | the selected users are exactly those matching the search text in username or email, the role, and the status choice |
| Users.BothStatusesFilterNothing | backend/app/routes/users.py:44-46 | with both active and inactive asked for, a user is listed whatever its active flag |
| Users.UnknownStatusIgnored | backend/app/routes/users.py:38-42 | an unrecognised status word does not change the filter |
| Users.AccessRefusal | backend/app/routes/users.py:75-100 | viewing or editing a user is allowed exactly when the caller exists and is an administrator or that user, and the user exists; a non-administrator asking for someone else is forbidden |
| Users.GetUser | backend/app/routes/users.py:70-86 | fails exactly when AccessRefusal does; otherwise answers that user's row |
| Users.UpdateUserRefusal | backend/app/routes/users.py:93-116 | an edit is allowed exactly when access is, and a new username or email that differs from the current one is held by no other user |
| Users.EditedUser | backend/app/routes/users.py:104-122 | username and email as sent, else kept; role as sent only when the caller is an administrator; the active flag as sent only when the caller is an administrator still after the role write, which an administrator editing their own record can undo in the same request; id, password hash and creation time kept |
| Users.SelfDemotionKeepsActive | backend/app/routes/users.py:118-122 | an administrator who sends a non-administrator role and an active flag for their own record ends up demoted and with the active flag unchanged |
| Users.RewriteKeepsDistinct | backend/app/routes/users.py:104-116 | a row whose username and email no other user holds keeps usernames and emails unique |
| Users.UpdateUser | backend/app/routes/users.py:88-133 | fails exactly when UpdateUserRefusal does, changing nothing; otherwise replaces the user by EditedUser(user, body, caller is administrator, caller is the target); keeps usernames and emails unique |
| Users.NoSelfPromotion | backend/app/routes/users.py:118-122 | a non-administrator editing their own record stays a non-administrator with the same active flag |
| Users.DeleteUserRefusal | backend/app/routes/users.py:143-151 | a delete is allowed exactly when the target is not the caller, exists, and has no loan in status borrowed (the intended reading of the self check; see Findings) |
| Users.DeleteBlockedIff | backend/app/routes/users.py:149-151 | for another existing user, the delete is blocked exactly when some loan of that user is in status borrowed; overdue and returned loans do not block it |
| Users.DeleteUser | backend/app/routes/users.py:135-160 | fails exactly when DeleteUserRefusal does, changing nothing; otherwise removes exactly that user |
| Users.ProfileRefusal | backend/app/routes/users.py:167-181 | a profile edit is allowed exactly when the caller exists and a changed username or email is held by no one |
| Users.UpdateProfile | backend/app/routes/users.py:162-192 | fails exactly when ProfileRefusal does, changing nothing; otherwise only the caller's username and email change; keeps them unique |
| Users.ProfileIsRestrictedEdit | backend/app/routes/users.py:171-181 | the profile edit accepts exactly the requests the user edit accepts for oneself with only username and email, and stores the same row |
| Users.PasswordRefusal | backend/app/routes/users.py:199-211 | a password change is allowed exactly when the caller exists, both fields are non-empty and the current password checks against the stored hash; a missing current password is reported first |
| Users.ChangePassword | backend/app/routes/users.py:194-221 | fails exactly when PasswordRefusal does, changing nothing; otherwise only the caller's password hash changes, to the hash of the new password |
| Users.NewPasswordAccepted | backend/app/routes/users.py:210-214 | after a change, and with a hash whose check accepts each password, the new password is accepted as the current one |
| Categories.CreateCategoryRefusal | backend/app/routes/categories.py:27-33 | a category may be created exactly when the name is truthy and no category has it; a missing name is reported as the missing field name |
| Categories.CreateCategory | backend/app/routes/categories.py:19-51 | fails exactly when CreateCategoryRefusal does, changing nothing; otherwise adds that category under a fresh id, with the description defaulting to the empty text and any parent id as sent; keeps names distinct |
| Categories.UpdateCategoryRefusal | backend/app/routes/categories.py:59-65 | an edit is allowed exactly when the category exists and a changed name is held by no other category; renaming to the same name always passes |
| Categories.EditedCategory | backend/app/routes/categories.py:62-72 | name, description and parent id as sent when present, else kept; the id stays |
| Categories.UpdateCategory | backend/app/routes/categories.py:53-83 | fails exactly when UpdateCategoryRefusal does, changing nothing; otherwise replaces the category by EditedCategory(category, body); keeps names distinct |
| Categories.RenameKeepsDistinct | backend/app/routes/categories.py:62-66 | a name held by no other category keeps names distinct |
| Categories.AnyParentAccepted | backend/app/routes/categories.py:71-72 | any parent id is accepted and stored, whether or not such a category exists |
| Categories.DeleteCategoryRefusalAsWritten | backend/app/routes/categories.py:91-101 | as written, every delete request fails: past the subcategory check, count() on the plain list of books raises |
| Categories.NothingDeletableAsWritten | backend/app/routes/categories.py:99 | as written, even a category with no subcategory and no book gets status 500 |
| Categories.DeleteCategoryRefusal | backend/app/routes/categories.py:91-101 | the intended checks: a delete is allowed exactly when the category exists and has no subcategory and no book |
| Categories.DeleteCategoryIff | backend/app/routes/categories.py:93-101 | under the intended checks a category can be deleted exactly when no category names it as parent and no book is filed under it, and they agree with the code as written whenever a subcategory exists |
| Categories.DeleteCategory | backend/app/routes/categories.py:85-110 | fails exactly when DeleteCategoryRefusal does, changing nothing; otherwise removes exactly that category |
| Auth.RegisterRefusal | backend/app/routes/auth.py:14-22 | a registration is allowed exactly when username, email and password are all non-empty and neither the username nor the email is taken; the username is checked first |
| Auth.Register | backend/app/routes/auth.py:8-45 | fails exactly when RegisterRefusal does, changing nothing; otherwise adds one active user under a fresh id with the hashed password and the requested role, defaulting to user, and issues the identity str(id); keeps usernames and emails unique |
| Auth.SelfRegisteredAdmin | backend/app/routes/auth.py:28 | a registration that asks for the administrator role gets it; one that asks for none gets the user role |
| Auth.FirstNamed | backend/app/routes/auth.py:57-59 | the lookup finds the lowest-id user whose username or email is the login text, or reports that none has it |
| Auth.FirstNamedCoversTable | backend/app/routes/auth.py:57-59 | over the whole table, the lookup finds nobody exactly when no user has that username or email |
| Auth.LoginRefusal | backend/app/routes/auth.py:53-65 | missing login or password is refused first; a login succeeds exactly when the lowest-id user the text names accepts the password and is active; "invalid credentials" is answered exactly when no such first user accepts the password; nothing else is answered |
| Auth.Login | backend/app/routes/auth.py:47-77 | fails exactly when LoginRefusal does; otherwise answers the lowest-id user named by the login text, which is active and whose hash accepts the password, with identity str(id) |
| Auth.UnknownLikeWrongPassword | backend/app/routes/auth.py:61-62 | an unknown login gets the same invalid-credentials answer as a wrong password |
| Auth.DisabledOnlyAfterPassword | backend/app/routes/auth.py:64-65 | the account-disabled answer is given only when the password was right |
| Auth.RegisteredCanLogIn | backend/app/routes/auth.py:25-65 | a newly registered user can log in by username with that password, provided no older account uses that text as its email |
| Guards.AdminRefusal | backend/app/middleware/auth.py:9-19 | admin_required lets a request through exactly when the token verifies and the caller exists with role admin; it answers 401 exactly when verification fails and 403 otherwise |
| Guards.OwnResourceRefusal | backend/app/middleware/auth.py:25-35 | own_resource_required lets a request through exactly when the token verifies, the caller exists, and the caller is an administrator or the target user; 401 on a failed verification, else 403 |
| Guards.AdminRequired | backend/app/middleware/auth.py:6-20 | a decorated handler runs exactly when AdminRefusal allows it, with its arguments unchanged, and its answer is passed on |
| Guards.OwnResourceRequired | backend/app/middleware/auth.py:22-36 | a decorated handler runs exactly when OwnResourceRefusal allows it, with the target id and arguments unchanged |
| Guards.AdminPassesEverywhere | backend/app/middleware/auth.py:14-30 | an administrator passes the own-resource check for every target; a non-administrator passes it for their own id only |
| Guards.DecoratorTransparent | backend/app/middleware/auth.py:17 | two handlers that agree on the arguments give the same outcome once decorated |
| ErrorHandler.StatusOf | backend/app/middleware/error_handler.py:15-18 | the status is the error's code when it has one, else 500 |
| ErrorHandler.HandleError | backend/app/middleware/error_handler.py:6-44 | the response carries that status as its code and HTTP status, the table's message for it or the unknown-error message, the details exactly when the error has both a code and a description, and the given error id and time |
| ErrorHandler.MessageIdentifiesKnownStatus | backend/app/middleware/error_handler.py:20-29 | the unknown-error message is answered exactly for statuses outside the table |
| ErrorHandler.UnexpectedIsInternal | backend/app/middleware/error_handler.py:15-42 | an unexpected exception, which has neither attribute, is answered with 500, the internal-error message and no details |
| OverdueCheck.Swept | backend/tasks/overdue_check.py:15-24 | a record in status borrowed and due strictly before now becomes overdue with a fine of one half-unit per whole day past due, all else unchanged; any other record, returned, already overdue or not yet due, is left alone; the result is never late, holds the same copy, and the move is a legal one |
| OverdueCheck.CheckOverdueBooks | backend/tasks/overdue_check.py:8-31 | the loop over the selected records leaves the table as SweepAll(table, now), committed at once, and reports how many records were selected |
| OverdueCheck.NoneLateAfter | backend/tasks/overdue_check.py:15-26 | afterwards no record is borrowed and past due |
| OverdueCheck.SweepIdempotent | backend/tasks/overdue_check.py:15-24 | a second sweep at the same instant changes nothing |
| OverdueCheck.SweepKeepsBalance | backend/tasks/overdue_check.py:20-24 | the sweep touches no book's counters and keeps the copies-on-loan equation |
| OverdueCheck.SweepShrinksBorrowed | backend/tasks/overdue_check.py:20-21 | the borrowed count drops by exactly the number of selected records |
| OverdueCheck.SweepGrowsOverdue | backend/tasks/overdue_check.py:20-21 | the overdue count grows by exactly that number |
| OverdueCheck.SweepThenReturn | backend/tasks/overdue_check.py:23-24 | a loan swept one day late is charged one half-unit, and returned three days late it is charged three half-units (1.5), replacing the sweep's fine |
| FixOverdue.Repaired | backend/fix_overdue_status.py:21-31 | a record in status overdue with a return date becomes returned and nothing else about it changes; any other record is left alone; no repaired record is selected again |
| FixOverdue.FixOverdueStatus | backend/fix_overdue_status.py:15-55 | the table becomes RepairAll(table), fixed_count is the number of selected records, and the check afterwards finds none remaining |
| FixOverdue.NoneStaleAfter | backend/fix_overdue_status.py:43-50 | afterwards no record is overdue with a return date |
| FixOverdue.RepairMakesShaped | backend/fix_overdue_status.py:21-31 | a selected record broke the rule that a return date goes with status returned, and follows it afterwards |
| FixOverdue.NothingToRepairWhenShaped | backend/fix_overdue_status.py:21-24 | when every loan follows that rule, nothing is selected and the table is unchanged |
| FixOverdue.RepairIdempotent | backend/fix_overdue_status.py:21-31 | a second run changes nothing |
| FixOverdue.RepairShrinksOverdue | backend/fix_overdue_status.py:29-31 | the overdue count drops by exactly the number of repaired records |
| CategoryNames.NamesInOrder | backend/cleanup_categories.py:23-25 | the keys of the grouping: each name that occurs in the listing, and only those, once each, no more names than entries |
| CategoryNames.NamesFirstAppearance | backend/cleanup_categories.py:23-25 | the names come in order of first appearance: of two names, the earlier one occurs in the listing before the later one's first occurrence |
| CategoryNames.NamedMembers | backend/cleanup_categories.py:23-25 | the group of a name holds exactly the listed categories with that name |
| CategoryNames.NamedIdsDistinct | backend/cleanup_categories.py:23-25 | a group repeats no id, as the listing does not |
| CategoryNames.Partition | backend/cleanup_categories.py:23-32 | the groups partition the listing: their sizes add up to its length |
| CleanupCategories.SortById | backend/cleanup_categories.py:41 | sorting a group keeps exactly its members |
| CleanupCategories.SortSorted | backend/cleanup_categories.py:41 | the sorted group is in strictly increasing id order |
| CleanupCategories.GroupDoomed | backend/cleanup_categories.py:41-51 | after sorting a group, everything but its head is exactly the rows of that name that share the name with a smaller id |
| CleanupCategories.GroupTail | backend/cleanup_categories.py:39-51 | for a group of two or more the inner loop deletes every member but the one with the smallest id; a group of one loses no row |
| CleanupCategories.GroupByName | backend/cleanup_categories.py:23-25 | the grouping loop yields its names as `CategoryNames.NamesInOrder` lists them (order of first appearance, by `CategoryNames.NamesFirstAppearance`) and, for each, the group of categories with that name |
| CleanupCategories.ExcessSizes | backend/cleanup_categories.py:28-32 | the surplus, size minus one summed over groups of two or more, is the sum of group sizes less the number of names |
| CleanupCategories.CountDuplicates | backend/cleanup_categories.py:28-32 | the duplicate_count loop computes that surplus |
| CleanupCategories.TailIds | backend/cleanup_categories.py:44-51 | the inner loop over categories[1:] deletes the ids of every member after the first and counts one fewer than the group's size |
| CleanupCategories.MarkDuplicates | backend/cleanup_categories.py:37-51 | the deletion loop marks exactly the rows that share their name with a smaller id, and deleted_count equals the surplus |
| CleanupCategories.GroupingFacts | backend/cleanup_categories.py:23-51 | every row's name is a key, each key holds its group, each group deletes its own duplicates, and the surplus is the listing's length less its number of names |
| CleanupCategories.PlanCleanup | backend/cleanup_categories.py:19-51 | the three loops delete exactly the duplicates, and duplicate_count equals deleted_count equals the number of categories less the number of distinct names |
| CleanupCategories.Orphaned | backend/app/models.py:45-48 | a nullable category reference survives the deletion exactly when it named no deleted row, and is then unchanged; otherwise it becomes NULL |
| CleanupCategories.Detached | backend/app/models.py:45-48 | the categories left after a deletion are exactly the rows not deleted, each unchanged but for a parent reference cleared when its parent was deleted |
| CleanupCategories.Refiled | backend/app/models.py:67-73 | every book stays, unchanged but for a category reference cleared when its category was deleted |
| CleanupCategories.DetachKeepsReferences | backend/cleanup_categories.py:50-54 | when every parent and book category named an existing category before the deletion, they all still do after it: none is left dangling |
| CleanupCategories.CleanupCategories | backend/cleanup_categories.py:15-54 | the table loses exactly the rows that share their name with a smaller id, in one commit; the flush clears the parent of every remaining subcategory and the category of every book that named a deleted row, and changes nothing else; the two counts are as PlanCleanup states |
| CleanupCategories.CleanupLeavesNamesDistinct | backend/cleanup_categories.py:67-71 | afterwards no two categories share a name, so the final check finds no duplicate |
| CleanupCategories.SmallestNamed | backend/cleanup_categories.py:40-44 | every name has a row with the smallest id among its rows, and that row is kept |
| CleanupCategories.CleanupKeepsEveryName | backend/cleanup_categories.py:57-65 | every name that was in the table is still there afterwards |
| CheckCategories.KeepFirst | backend/check_categories.py:28-37 | the loop with the seen_names set yields keep == Firsts(listing) and delete == Repeats(listing) |
| CheckCategories.ProposalPartitions | backend/check_categories.py:28-37 | keep and delete together hold every category of the listing exactly once |
| CheckCategories.KeptNames | backend/check_categories.py:33-39 | the kept categories carry the names `CategoryNames.NamesInOrder` lists, in its order of first appearance, one each, so len(keep) is the number of distinct names |
| CheckCategories.KeptNamesDistinct | backend/check_categories.py:33-35 | the kept names are pairwise distinct |
| CheckCategories.KeptIsFirst | backend/check_categories.py:31-37 | a category is kept exactly when no earlier entry has its name: the first in query order, whatever its id |
| CheckCategories.FirstsFrom | backend/check_categories.py:32-34 | every kept category comes from the listing |
| CheckCategories.FirstIsNotSmallest | backend/check_categories.py:31-37 | with a listing of ids 2 then 1 sharing a name, the check keeps id 2 where the cleanup script keeps id 1 |
| CheckCategories.CountedIffOccurs | backend/check_categories.py:18-20 | a name is counted exactly when it occurs |
| CheckCategories.CountIsGroupSize | backend/check_categories.py:18-20 | a name's count is the size of its group |
| CheckCategories.RepeatedIffCounted | backend/check_categories.py:18-37 | the report and the proposal agree: some proposed deletion has a name exactly when that name's count exceeds one |
| CheckCategories.NameCounts | backend/check_categories.py:18-20 | the Counter maps each name that occurs, and only those, to how often it does, its keys listed as `CategoryNames.NamesInOrder` lists them, in order of first appearance |
| CheckCategories.DuplicatedNames | backend/check_categories.py:18-24 | the reported names are exactly those counted more than once, each once |
| Logs.FilterLines | backend/app/routes/logs.py:37-43 | the filtering loop yields Filtered(lines, level) |
| Logs.SelectedKept | backend/app/routes/logs.py:39-43 | every line that contains the upper-cased level, or every line when no level is given, is kept, stripped |
| Logs.KeptSelected | backend/app/routes/logs.py:39-43 | every kept line is the stripped form of such a line |
| Logs.FilteredIff | backend/app/routes/logs.py:37-43 | a text is kept exactly when it is the stripped form of some selected line |
| Logs.NoLevelKeepsAll | backend/app/routes/logs.py:42-43 | with no level, or an empty one, every line is kept, stripped, in file order |
| Logs.Reverse | backend/app/routes/logs.py:49 | [::-1]: the same lines, last first |
| Logs.SliceBound | backend/app/routes/logs.py:49 | a slice bound counts a negative one from the end and clamps either kind to the list |
| Logs.FloorDiv | backend/app/routes/logs.py:56 | Python's //: the quotient rounded towards minus infinity |
| Logs.GetLogs | backend/app/routes/logs.py:13-60 | a missing log file gives no lines and total 0; otherwise the answer is PageOf(Filtered(lines, level), page, per_page) |
| Logs.PageCounts | backend/app/routes/logs.py:46-56 | for a positive page size, total is the number of kept lines and pages is the ceiling of total divided by the page size |
| Logs.PageWindow | backend/app/routes/logs.py:47-49 | for page one and up, the page is the window of at most per_page kept lines, newest first, that starts (page-1)*per_page lines from the newest, cut at the oldest |
| Logs.FirstPageNewest | backend/app/routes/logs.py:49 | page one starts with the newest kept line |
| Logs.PagesBelowOne | backend/app/routes/logs.py:47-49 | page zero is always empty, and a negative page counts back from the oldest lines: with five kept lines and page size 2, page -1 holds the lines at positions 3 and 2 |
| Logs.ZeroPageSizeFails | backend/app/routes/logs.py:56-60 | a page size of zero makes the page-count division raise, answered with status 500 |
| Router.Resolve | frontend/src/router/index.js:4-85 | a path matches the declared route whose full path it is, and falls to the catch-all only when no route declares it |
| Router.ResolvePathOf | frontend/src/router/index.js:4-79 | every declared route is matched by its own full path |
| Router.MetaOf | frontend/src/router/index.js:4-85 | a navigation sees requiresAuth exactly under the home and administration routes, requiresAdmin exactly under administration, requiresGuest exactly on login and register; child routes inherit their parent's flags |
| Router.BeforeEach | frontend/src/router/index.js:92-114 | no token on a route that needs one redirects to /login; else a non-administrator on an administration route goes to /unauthorized; else a token holder on a guest page goes to /; the navigation proceeds exactly when none of the three applies |
| Router.RedirectTargets | frontend/src/router/index.js:96-111 | the guard only ever redirects to /login, /unauthorized or / |
| Router.UnauthorizedIsNotFound | frontend/src/router/index.js:80-84 | /unauthorized is not a declared route: it falls to the catch-all page, which sets no flag, so the guard lets it through |
| Router.RedirectSettles | frontend/src/router/index.js:92-114 | with the store unchanged, the navigation a redirect starts is let through: the guard never redirects twice in a row |
| Router.AdminPagesGuarded | frontend/src/router/index.js:41-105 | an administration page proceeds exactly when the visitor holds a token and is an administrator; without a token the visitor is sent to /login even when the store says administrator |

## Left out

- Concurrency: each handler is one atomic step, so the read-check-then-decrement race of a borrow (backend/app/routes/borrows.py:24, 56) is not modelled.
- Transactions and rollback: a handler's writes are applied together as one commit. The model raises no exceptions before a commit, so the rollback paths (for example backend/tasks/overdue_check.py:29-31) have nothing to undo.
- The scheduler loop `run_scheduler` (backend/tasks/overdue_check.py:33-46): wall-clock scheduling and sleeping. One sweep is a method taking `now`.
- The progress message after the sweep's commit (backend/tasks/overdue_check.py:27) calls `datetime.datetime.now(datetime.timezone.utc)` on the imported class `datetime`, which has no attribute `datetime`, so it raises `AttributeError` after the commit. The exception is caught and the rollback after a commit undoes nothing, so the committed state is the one modelled; the message itself is output.
- Console output of the scripts and the handlers, and the texts of success messages.
- Floating point: a fine is a count of half-units, so its float value is that count times 0.5. The fine total of the statistics is the sum of those counts.
- Password hashing (bcrypt) is a pair of function parameters. Token creation and verification (JWT) are left out: the verified identity or the failure to verify is an input of the handlers and the decorators.
- Log file I/O: `open`/`readlines` and the whole of `clear_logs` (backend/app/routes/logs.py:33-34, 62-80). The file is given to `Logs.GetLogs` as its lines, or as missing.
- SQL matching: `contains` is an exact substring test. The database's collation (case-insensitive matching) and the `%`/`_` wildcards inside the search text are not modelled.
- Borrows.GetMyBorrows: lists the whole selection before paging, so a loan without a book row anywhere in the selection, not only on the requested page, gives 500.
- Query ordering and pagination: SQL order and `paginate` are not modelled. The listings of loans and notifications select every matching row, newest first as `order_by(... .desc())` does; which page of them is answered is not modelled.
- `.first()` is the record with the lowest id.
- ORM mechanics: relationships, foreign-key enforcement and column types. The default cascade that clears the references to a deleted row is modelled for the category cleanup (`CleanupCategories.Detached`, `CleanupCategories.Refiled`); for the handlers' deletions it is the commit failure named below. JSON fields of the wrong type are modelled only where the handler itself checks them, as for the rating.
- Request bodies: a missing or non-JSON body makes `request.get_json()` fail or return None, and the handlers' next `data.get` or `in data` then raises, answered with 500. The model's handlers take the body as its fields, each present or absent, so this 500 is not modelled, and an absent field stands for a key missing from a JSON object.
- Books.UpdateBook: a body holding `null` for `title` or `author` writes None to a NOT NULL column (backend/app/models.py:63-64) and fails at the commit with 500; the model's title and author edits are strings, so this failure is not modelled.
- Users.DeleteUserRefusal: models the intended self-deletion block. As written the comparison at backend/app/routes/users.py:144 never holds, so an administrator can delete their own account (see Findings).
- The owner and self checks of the other handlers and of the `own_resource_required` decorator likewise model the intended comparison of the identity with the id (see Findings).
- Users.DeleteUser and Books.DeleteBook: the success branch removes the row. In the source, deleting a parent row that still has dependent rows (a user's returned or overdue loans, reviews, reservations or notifications; a book's reservations) makes SQLAlchemy set the child's NOT NULL foreign key to NULL, so the commit fails and the handler answers 500. The model does not capture this failure.
- `Dates.ParseDate` accepts only fixed-width YYYY-MM-DD. Other spellings that `strptime` also accepts are refused by the model.
- `Text.Upper` folds ASCII letters only, where Python's `str.upper` folds every cased letter. `Text.IsSpace` is Python's full `str.isspace` set.
- Batch import (backend/app/routes/books.py:191-200) always answers 503 and is not modelled.
- Listings outside the named core are not modelled: `get_book`, `get_all_borrows`, `get_my_reservations`, `get_all_reservations` and `get_categories`. These are reads without rules beyond the filters modelled elsewhere.
- Front end: `router.beforeEach` is modelled on the matched route's meta flags. Route parameters, trailing slashes and the redirect records (`/` to `/books`, `/admin` to `/admin/dashboard`) are not modelled; `Router.Resolve` maps those two paths to their parent records, which carry the same flags. The session store (frontend/src/stores/auth.js), which keeps the administrator flag apart from the token, is reduced to the two inputs.
- App wiring, configuration, seeding and diagnostic scripts, the front-end service wrappers and the test suite are not part of this model.

## Findings

| source | as written | input that shows it | evidently intended | confidence | as-written member | corrected member |
|---|---|---|---|---|---|---|
| backend/app/routes/borrows.py:79 | the owner check compares the integer `user_id` column with the JWT identity, which backend/app/routes/auth.py:36 and 68 create as `str(user.id)`; the same comparison appears at backend/app/routes/borrows.py:209, backend/app/routes/reservations.py:71, backend/app/routes/notifications.py:62 and 89, backend/app/routes/users.py:79 and 97 and backend/app/middleware/auth.py:30, where it refuses a non-administrator their own record; at backend/app/routes/users.py:144 the effect is reversed: the self-deletion guard never holds, so an administrator can delete their own account | user 7 returning their own loan: identity "7" is never equal to 7, so the owner is refused unless they are an administrator | the caller is the owner exactly when the identity names the owner's id, as backend/app/routes/reviews.py:52 does by converting it | not executed | Identity.OwnerUnrecognisedAsWritten | Identity.SameUserIff |
| backend/app/routes/categories.py:99 | `category.books.count()` on a relationship declared without a dynamic loader, so `books` is a plain list and `count()` without an argument raises `TypeError`, which the handler turns into status 500 | deleting a category with no subcategory and no books | a category with no subcategory and no book is deleted; one with books is refused with 400 | not executed | Categories.NothingDeletableAsWritten | Categories.DeleteCategoryIff |
