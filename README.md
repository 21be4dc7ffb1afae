# Library borrowing workflow, modelled in Dafny

This project models the core of a library management system: a catalog of
books, each with an `available` flag, and a ledger of borrow records. Users
borrow and return books through this workflow, which enforces the borrowing
rules. Around it sit three small pure pieces: the JSON projection of a borrow
record (its `status`, `is_overdue` and `days_overdue`), the role gate that
guards admin routes, and two helpers of the web client (`extractErrorMessage`
and `normalizePaginator`).

Files, one module each:

- `wrappers.dfy` (`Wrappers`): the `Option` type used for nullable columns and absent keys.
- `borrow_model.dfy` (`BorrowModel`): the borrow record and the two constants, 3 open borrows at most and a 14-day loan. It also holds the `active` scope, a user's `borrows()` relation and the open-borrow count.
- `borrow_resource.dfy` (`BorrowResource`): `toArray`, the projection of a record against the current time.
- `borrow_controller.dfy` (`BorrowController`): the class `Library` with the state (`books: map<int, bool>`, `borrows: seq<BorrowRecord>`) and the actions `Store`, `ReturnBook`, `Index` and `MyBorrowings`. It also holds the newest-first ordering, the availability invariant `Consistent` with its preservation lemmas, and two scenario methods driven through the actions.
- `role_middleware.dfy` (`RoleMiddleware`): `handle` and `forbiddenResponse`.
- `error_message.dfy` (`ErrorMessage`): `extractErrorMessage`, with an independent "first non-empty source" definition proved equal to it.
- `pagination.dfy` (`Pagination`): `normalizePaginator`, with its read-back and idempotence lemmas.

Time is an integer number of seconds, and `now` is a parameter of every operation that reads the clock. A due date is the second clock reading of a borrow plus `14 * 86400`.
The database is the `Library` object. Each `Store` or `ReturnBook` call is one all-or-nothing method call, which is what the source's transaction provides to a single request.

Four points of the source that shape the model:

- The 404 of `Book::findOrFail` in `store` is unreachable. The form request's `exists:books,id` rule (backend/app/Http/Requests/Borrow/StoreBorrowRequest.php:17) rejects an unknown `book_id` first, with a 422 validation error. `Store` answers `Err(InvalidBookId)`, and `InvalidBookId.Status()` is 422.
- Roles are plain strings compared strictly: `$user->role !== 'Admin'` in `returnBook` and `in_array(..., true)` in the role middleware. The model compares strings, so `admin` is not `Admin`.
- `days_overdue` is the date library's `diffInDays` value, whose sign and rounding depend on its version. See "Left out".
- `store` reads the clock twice: once for `borrowed_at` and again for `due_date`. `Store` takes both readings, `now` and `nowAgain`, so `due_date - borrowed_at` is 14 days plus the time between them.

## Model

| member | source | states |
|---|---|---|
| `BorrowModel.Where` | backend/app/Http/Controllers/BorrowController.php:23-26 | A `WHERE` never returns more rows than it was given |
| `BorrowModel.WhereCounts` | backend/app/Models/Borrow.php:34-37 | A `WHERE` keeps every qualifying row exactly as often as it occurs in the input, and drops every other row |
| `BorrowModel.WhereIsSubsequence` | backend/app/Models/Borrow.php:34-37 | A `WHERE` only deletes rows: its output is a subsequence of its input, in the same order |
| `BorrowModel.Active` | backend/app/Models/Borrow.php:34-37 | The active scope keeps a record iff its `returned_at` is null, with its multiplicity, and nothing else |
| `BorrowModel.ActiveIsSubsequence` | backend/app/Models/Borrow.php:34-37 | The active scope's output is a subsequence of the ledger, in ledger order |
| `BorrowModel.BorrowsOf` | backend/app/Http/Controllers/BorrowController.php:82-83 | A user's `borrows()` relation holds exactly the records whose `user_id` is that user |
| `BorrowModel.OpenCount` | backend/app/Http/Controllers/BorrowController.php:47 | The count of the user's open records never exceeds the ledger's size |
| `BorrowModel.WhereAppend` | backend/app/Models/Borrow.php:34-37 | A `WHERE` over the ledger plus one row is the old answer plus that row when it qualifies |
| `BorrowModel.OpenCountAppend` | backend/app/Http/Controllers/BorrowController.php:47-63 | Appending a record raises a user's open count by one exactly when it is an open record of that user, and leaves it unchanged otherwise |
| `BorrowResource.ToArray` | backend/app/Http/Resources/BorrowResource.php:15-51 | `status` is "returned" whenever `returned_at` is set, whatever the due date; `is_overdue` holds iff the record is open and its due date is present and strictly past; "overdue" iff `is_overdue`; "active" iff open and not overdue; `days_overdue` is 0 unless overdue; null timestamps stay null; the book and user appear iff loaded |
| `BorrowResource.ClosedRecordProjectsReturned` | backend/app/Http/Resources/BorrowResource.php:19-30 | Once `returned_at` is stamped, the projection is "returned", not overdue, with 0 days overdue |
| `BorrowResource.OverdueIsMonotone` | backend/app/Http/Resources/BorrowResource.php:19 | An open record overdue at one time is overdue at every later time |
| `BorrowController.LimitMessageText` | backend/app/Http/Controllers/BorrowController.php:48-54 | The limit message, built from the constant 3, reads exactly "Borrowing limit reached. Return a book before borrowing a new one (limit: 3)." |
| `BorrowController.InsertNewestFirst` | backend/app/Http/Controllers/BorrowController.php:26 | Inserting into a newest-first list keeps it newest-first and adds exactly that record |
| `BorrowController.SortNewestFirst` | backend/app/Http/Controllers/BorrowController.php:26 | `orderByDesc('borrowed_at')` returns a permutation of its input, ordered by `borrowed_at` descending, nulls last |
| `BorrowController.Listing` | backend/app/Http/Controllers/BorrowController.php:21-26 | Under `status=active` a listing holds exactly the open records, under any other value all records, each with its multiplicity, newest first |
| `BorrowController.ListingMembers` | backend/app/Http/Controllers/BorrowController.php:25 | Every listed record is in the ledger, and open when the filter is `active` |
| `BorrowController.Page` | backend/app/Http/Controllers/BorrowController.php:27 | A page is exactly the consecutive run of the listing that starts at the page's offset: 15 records, or fewer only when the listing ends first (none past its end). It stays newest first |
| `BorrowController.BorrowPreservesConsistency` | backend/app/Http/Controllers/BorrowController.php:57-68 | Creating an open record for an available book and marking it unavailable keeps "unavailable iff an open record exists, at most one per book" |
| `BorrowController.ReturnPreservesConsistency` | backend/app/Http/Controllers/BorrowController.php:110-115 | Closing an open record and marking its book available (if the book still exists) keeps the same invariant |
| `BorrowController.NewBorrowProjectsActive` | backend/app/Http/Controllers/BorrowController.php:57-72 | A freshly created record projects as "active", not overdue and 0 days overdue when the 201 answer is built. This holds at any time from the second clock reading until the due date |
| `BorrowController.Library.Store` | backend/app/Http/Controllers/BorrowController.php:35-73 | The checks run in order: unknown book gives 422 validation, an unavailable book gives 422 "This book is currently unavailable.", 3 or more open borrows gives 422 with the limit message. Every refusal changes no book and no record. Success answers 201, appends exactly one open record for this user and book with `borrowed_at = now` (first clock reading) and `due_date = nowAgain + 14 days` (second clock reading), and sets only that book unavailable. It preserves the availability invariant |
| `BorrowController.Library.ReturnBook` | backend/app/Http/Controllers/BorrowController.php:95-118 | An unknown id gives 404. A closed record gives 409 "This borrow record is already closed." for any actor, before ownership is checked. An actor who is neither the owner nor exactly `Admin` gets 403. Refusals change nothing. Success answers 200, stamps only that record's `returned_at = now`, and makes only its book available. It preserves the availability invariant |
| `BorrowController.Library.Index` | backend/app/Http/Controllers/BorrowController.php:19-30 | The admin listing defaults to `all`, keeps exactly the open records under `status=active`, is newest first, and is exactly the requested page of the listing: the full run of up to 15 records at the page's offset, with its length fixed |
| `BorrowController.Library.MyBorrowings` | backend/app/Http/Controllers/BorrowController.php:78-90 | A user's history holds exactly that user's records, only the open ones unless `status` says otherwise (default `active`), newest first |
| `BorrowController.BorrowThenReturnTwice` | backend/app/Http/Controllers/BorrowController.php:95-115 | Borrow gives 201, and its record projects "active" just after. A non-admin stranger's return gives 403. The owner's return gives 200 "returned". A second return gives 409. The book ends available |
| `BorrowController.LimitReached` | backend/app/Http/Controllers/BorrowController.php:41-55 | After three successful borrows, a fourth gives 422 with the limit message and leaves that book available. An unavailable book gets the "unavailable" message even for a user at the limit |
| `RoleMiddleware.ForbiddenResponse` | app/Http/Middleware/RoleMiddleware.php:32-37 | The refusal is 403 "You are not authorized to perform this action." |
| `RoleMiddleware.Handle` | app/Http/Middleware/RoleMiddleware.php:17-30 | An empty role list passes every request, even without a user. Otherwise a missing user is refused. A user passes iff its role is in the list, and every refusal is the 403 response |
| `RoleMiddleware.OnlyMembershipMatters` | app/Http/Middleware/RoleMiddleware.php:19-29 | Two role lists with the same members give the same decision, whatever their order or repetition |
| `RoleMiddleware.RoleMatchIsCaseSensitive` | app/Http/Middleware/RoleMiddleware.php:25 | The role `admin` is refused by a gate for `Admin`; the role `Admin` passes it |
| `ErrorMessage.FirstValidationError` | frontend/src/utils/error.ts:16 | The validation message is present iff the first field has at least one entry, and it is that field's first entry |
| `ErrorMessage.ExtractErrorMessage` | frontend/src/utils/error.ts:8-27 | With a non-empty fallback the answer is never empty |
| `ErrorMessage.ExtractIsFirstTruthySource` | frontend/src/utils/error.ts:8-27 | The chain of early returns equals "the first non-empty of: body `message`, first validation entry, the error's own `message`; else the fallback" |
| `ErrorMessage.ResultComesFromASource` | frontend/src/utils/error.ts:8-27 | The answer is the fallback or a non-empty message taken from the error itself |
| `ErrorMessage.BodyMessageFirst` | frontend/src/utils/error.ts:12-14 | A non-empty body `message` is returned before any other source |
| `ErrorMessage.EmptyBodyMessageFallsThrough` | frontend/src/utils/error.ts:12-19 | An empty body `message` counts as absent, and the first validation entry is returned |
| `ErrorMessage.HttpClientErrorUsesOwnMessage` | frontend/src/utils/error.ts:9-24 | An HTTP-client error with neither body source returns its own `message`, not the fallback |
| `ErrorMessage.NonErrorGetsFallback` | frontend/src/utils/error.ts:8 | A thrown value that is not an `Error` gets the fallback, by default "Something went wrong." |
| `ErrorMessage.DocumentedCases` | frontend/src/tests/utils/error.test.ts:25-45 | The four documented cases: body message "Forbidden", first validation entry "Email invalid", plain error's message, fallback for a non-error |
| `Pagination.NormalizePaginator` | frontend/src/utils/pagination.ts:18-49 | The output always carries `meta`. A payload that already has a truthy `meta` is returned unchanged. `data` always passes through |
| `Pagination.NormalizeKeepsEveryField` | frontend/src/utils/pagination.ts:25-48 | For a bare paginator, `links` maps `first_page_url`→`first`, `last_page_url`→`last`, `prev_page_url`→`prev` and `next_page_url`→`next`. Every `meta` and `links` field reads back to the paginator field it came from, and nothing else is carried |
| `Pagination.NormalizeIsIdempotent` | frontend/src/utils/pagination.ts:21-48 | Normalising twice equals normalising once |

## Left out

- `BorrowResource.ToArray`: `days_overdue` is the date library's `diffInDays` value, passed in as a parameter. Its sign and rounding differ between library versions, so the model states only that it is 0 when the record is not overdue, and not that it is at least 1 when it is.
- ISO-8601 formatting of timestamps: the projection carries the integer timestamps.
- Time zones and daylight-saving time: a loan is exactly `14 * 86400` seconds after the second clock reading.
- Concurrency: two requests racing on the same book or the same user's limit are a question of database isolation. Each call is modelled as one sequential, all-or-nothing step.
- The 404 of `Book::findOrFail` in `store`: it is unreachable behind the form request's `exists` rule, which is modelled as `InvalidBookId`. The form request's `required` and `integer` rules are not modelled, because the book id is a typed integer here.
- Framework texts: the exact messages of the 404 (route-model binding) and of the 422 validation failure are not modelled. They are the kinds `NotFound` and `InvalidBookId`.
- Authentication: the acting user's id and role are parameters. Loose typing of ids (a database driver that returns ids as strings, which would defeat the strict `!==`) is not modelled.
- `Index`: the paginator's metadata (`total`, `last_page`, links) is not modelled, only the page of records. A page number below 1 counts as page 1.
- Listing order among records with equal `borrowed_at` is unspecified in SQL. The model fixes one order: ledger order among ties. `Listing` and `MyBorrowings` promise only "newest first, and exactly these records". `Index` returns a run of the model's fixed order. The source makes no such promise across page boundaries: when tied records straddle two pages, the database may split them differently, repeat one or skip one.
- `Library.Valid`: a borrow id is found by its position in the ledger (row i has id i + 1). This assumes auto-increment ids with no gaps: no failed inserts that consume an id, and no deleted rows.
- Relations in the projection: the nested book and user are inputs to `ToArray`. Loading them from the catalog is not modelled. `book.available` is already a boolean in the model, so the `(bool)` cast is the identity.
- `extractErrorMessage`: `Object.values` lists integer-like keys before other keys. The model takes the `errors` map in insertion order, so it is exact only for field names that are not integer-like. A value with `isAxiosError` set that is not an `Error` instance is not modelled; an HTTP-client error is always an `Error`.
- The web client's own copy of the borrowing limit, and all UI, HTTP client and storage code, are not part of this model.
