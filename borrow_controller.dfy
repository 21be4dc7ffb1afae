/**
 * The borrow/return workflow: a catalog of books with their `available`
 * flag, the ledger of borrow records, and the four controller actions over
 * them (borrow, return, the admin listing and a user's own history).
 */
module BorrowController {
  import opened Wrappers
  import opened BorrowModel
  import BorrowResource

  /** Why a request was refused. */
  datatype Failure =
    | InvalidBookId                       // the form request's `exists:books,id` rule failed
    | NotFound                            // no borrow record has the id in the URL
    | Refused(status: int, message: string)
  {
    /** The HTTP status code of the refusal. */
    function Status(): int {
      match this
      case InvalidBookId => 422
      case NotFound => 404
      case Refused(status, _) => status
    }
  }

  /** The answer to a borrow or a return: a status code and the record, or a refusal. */
  datatype Outcome = Ok(status: int, record: BorrowRecord) | Err(failure: Failure)

  const UnavailableMessage := "This book is currently unavailable."
  const AlreadyClosedMessage := "This borrow record is already closed."
  const NotOwnerMessage := "You are not authorized to return this book."
  const AdminRole := "Admin"

  /** Records per page of the admin listing. */
  const PerPage: nat := 15

  function DigitChar(d: nat): char
    requires d < 10
  {
    "0123456789"[d]
  }

  /** `%d` of a non-negative integer. */
  function NatToString(n: nat): (s: string)
    ensures |s| >= 1
  {
    if n < 10 then [DigitChar(n)] else NatToString(n / 10) + [DigitChar(n % 10)]
  }

  /** The refusal text for a user at the limit; it embeds the limit's value. */
  function LimitMessage(): string {
    "Borrowing limit reached. Return a book before borrowing a new one (limit: " + NatToString(MaxActiveBorrows) + ")."
  }

  /** With the limit at 3 the message reads exactly as follows. */
  lemma LimitMessageText()
    ensures LimitMessage() == "Borrowing limit reached. Return a book before borrowing a new one (limit: 3)."
  {
  }

  // ---------------------------------------------------------------------
  // Ordering of listings: ORDER BY borrowed_at DESC
  // ---------------------------------------------------------------------

  /**
   * `a` may come before `b` in a newest-first listing. A null `borrowed_at`
   * sorts below every timestamp, as in MySQL and SQLite.
   */
  predicate NotEarlier(a: BorrowRecord, b: BorrowRecord) {
    b.borrowedAt.None? || (a.borrowedAt.Some? && a.borrowedAt.value >= b.borrowedAt.value)
  }

  predicate NewestFirst(s: seq<BorrowRecord>) {
    forall i, j :: 0 <= i < j < |s| ==> NotEarlier(s[i], s[j])
  }

  /** Puts `x` into a newest-first list, ahead of the records no later than it. */
  function InsertNewestFirst(x: BorrowRecord, s: seq<BorrowRecord>): (r: seq<BorrowRecord>)
    requires NewestFirst(s)
    ensures NewestFirst(r)
    ensures multiset(r) == multiset(s) + multiset{x}
  {
    if s == [] then [x]
    else if NotEarlier(x, s[0]) then [x] + s
    else
      var rest := InsertNewestFirst(x, s[1..]);
      assert s == [s[0]] + s[1..];
      assert forall y :: y in rest ==> NotEarlier(s[0], y) by {
        forall y | y in rest ensures NotEarlier(s[0], y) {
          assert y in multiset(rest);
          if y != x {
            assert y in multiset(s[1..]);
            assert y in s[1..];
          }
        }
      }
      [s[0]] + rest
  }

  /** A newest-first ordering of `s` (insertion sort). */
  function SortNewestFirst(s: seq<BorrowRecord>): (r: seq<BorrowRecord>)
    ensures NewestFirst(r)
    ensures multiset(r) == multiset(s)
  {
    if s == [] then []
    else
      assert s == [s[0]] + s[1..];
      InsertNewestFirst(s[0], SortNewestFirst(s[1..]))
  }

  /**
   * The `status` query filter followed by the ordering: `active` keeps the
   * open records only, any other value keeps all of them.
   */
  function Listing(s: seq<BorrowRecord>, status: string): (r: seq<BorrowRecord>)
    ensures NewestFirst(r)
    ensures forall x :: multiset(r)[x] == if status != "active" || IsOpen(x) then multiset(s)[x] else 0
  {
    SortNewestFirst(if status == "active" then Active(s) else s)
  }

  /** A listing holds records of the ledger only, and only open ones under `active`. */
  lemma ListingMembers(s: seq<BorrowRecord>, status: string)
    ensures forall x :: x in Listing(s, status) ==> x in s && (status == "active" ==> IsOpen(x))
  {
    forall x | x in Listing(s, status) ensures x in s && (status == "active" ==> IsOpen(x)) {
      assert x in multiset(Listing(s, status));
    }
  }

  /** Laravel's page resolution: anything below 1 means page 1. */
  function PageStart(page: int): nat {
    if page >= 1 then (page - 1) * PerPage else 0
  }

  /** The page of at most `PerPage` records of `all` that starts at position `start`. */
  function Page(all: seq<BorrowRecord>, start: nat): (r: seq<BorrowRecord>)
    requires NewestFirst(all)
    ensures NewestFirst(r)
    ensures |r| <= PerPage
    ensures forall x :: x in r ==> x in all
    ensures forall i :: 0 <= i < |r| ==> start + i < |all| && r[i] == all[start + i]
    ensures |r| == if start >= |all| then 0 else if |all| - start < PerPage then |all| - start else PerPage
  {
    var from := if start < |all| then start else |all|;
    var to := if from + PerPage < |all| then from + PerPage else |all|;
    all[from..to]
  }

  // ---------------------------------------------------------------------
  // The availability invariant
  // ---------------------------------------------------------------------

  /** Ids are assigned by auto-increment and rows are never deleted: row i has id i + 1. */
  predicate SequentialIds(s: seq<BorrowRecord>) {
    forall i :: 0 <= i < |s| ==> s[i].id == i + 1
  }

  ghost predicate HasOpenBorrow(s: seq<BorrowRecord>, bookId: int) {
    exists i :: 0 <= i < |s| && s[i].bookId == bookId && IsOpen(s[i])
  }

  /**
   * A book is unavailable exactly when an open record for it exists, and no
   * book has two open records.
   */
  ghost predicate Consistent(books: map<int, bool>, s: seq<BorrowRecord>) {
    && (forall b :: b in books ==> (books[b] <==> !HasOpenBorrow(s, b)))
    && (forall i, j :: 0 <= i < j < |s| && IsOpen(s[i]) && IsOpen(s[j]) ==> s[i].bookId != s[j].bookId)
  }

  /** A successful borrow keeps the catalog and the ledger consistent. */
  lemma BorrowPreservesConsistency(books: map<int, bool>, s: seq<BorrowRecord>, rec: BorrowRecord)
    requires Consistent(books, s)
    requires rec.bookId in books && books[rec.bookId]
    requires IsOpen(rec)
    ensures Consistent(books[rec.bookId := false], s + [rec])
  {
    var books', s' := books[rec.bookId := false], s + [rec];
    forall b | b in books' ensures books'[b] <==> !HasOpenBorrow(s', b) {
      if b == rec.bookId {
        assert 0 <= |s| < |s'| && s'[|s|].bookId == b && IsOpen(s'[|s|]);
      } else {
        if HasOpenBorrow(s, b) {
          var i :| 0 <= i < |s| && s[i].bookId == b && IsOpen(s[i]);
          assert s'[i] == s[i];
        }
        if HasOpenBorrow(s', b) {
          var i :| 0 <= i < |s'| && s'[i].bookId == b && IsOpen(s'[i]);
          assert i < |s| && s[i] == s'[i];
        }
      }
    }
    forall i, j | 0 <= i < j < |s'| && IsOpen(s'[i]) && IsOpen(s'[j]) ensures s'[i].bookId != s'[j].bookId {
      if j == |s| {
        assert s[i] == s'[i];
        assert !HasOpenBorrow(s, rec.bookId);
      }
    }
  }

  /** A successful return keeps the catalog and the ledger consistent. */
  lemma ReturnPreservesConsistency(books: map<int, bool>, s: seq<BorrowRecord>, k: int, t: int)
    requires Consistent(books, s)
    requires 0 <= k < |s| && IsOpen(s[k])
    ensures var b := s[k].bookId;
      Consistent(if b in books then books[b := true] else books, s[k := s[k].(returnedAt := Some(t))])
  {
    var b0 := s[k].bookId;
    var books' := if b0 in books then books[b0 := true] else books;
    var s' := s[k := s[k].(returnedAt := Some(t))];
    forall b | b in books' ensures books'[b] <==> !HasOpenBorrow(s', b) {
      if b != b0 {
        if HasOpenBorrow(s, b) {
          var i :| 0 <= i < |s| && s[i].bookId == b && IsOpen(s[i]);
          assert s'[i] == s[i];
        }
        if HasOpenBorrow(s', b) {
          var i :| 0 <= i < |s'| && s'[i].bookId == b && IsOpen(s'[i]);
          assert s'[i] == s[i];
        }
      }
    }
  }

  /**
   * A record created by a borrow (clock read at `now`, then at `nowAgain`)
   * projects as active when the answer is built at any time `t` from the
   * second reading until its due date.
   */
  lemma NewBorrowProjectsActive(id: int, userId: int, bookId: int, now: int, nowAgain: int, t: int, diffInDays: int)
    requires now <= nowAgain <= t <= nowAgain + DefaultLoanDays * SecondsPerDay
    ensures var rec := BorrowRecord(id, userId, bookId, Some(now), Some(nowAgain + DefaultLoanDays * SecondsPerDay), None);
      var v := BorrowResource.ToArray(rec, None, None, t, diffInDays);
      v.status == BorrowResource.ActiveStatus && !v.isOverdue && v.daysOverdue == 0
  {
  }

  // ---------------------------------------------------------------------
  // The persistent state and the controller actions
  // ---------------------------------------------------------------------

  /** The catalog (book id to `available`) and the borrow ledger, in insertion order. */
  class Library {
    var books: map<int, bool>
    var borrows: seq<BorrowRecord>

    ghost predicate Valid()
      reads this
    {
      SequentialIds(borrows)
    }

    constructor (catalog: map<int, bool>)
      ensures Valid()
      ensures books == catalog && borrows == []
    {
      books := catalog;
      borrows := [];
    }

    /**
     * `store`: the checks run in order (book exists, book available, user
     * under the limit), the first failing one answers, and only a request
     * that passes all three creates a record and takes the book out.
     * The clock is read twice: `now` for `borrowed_at`, `nowAgain` for the
     * start of the loan period that gives `due_date`.
     */
    method Store(userId: int, bookId: int, now: int, nowAgain: int) returns (r: Outcome)
      requires Valid()
      modifies this
      ensures Valid()
      ensures bookId !in old(books) ==>
        r == Err(InvalidBookId) && books == old(books) && borrows == old(borrows)
      ensures bookId in old(books) && !old(books)[bookId] ==>
        r == Err(Refused(422, UnavailableMessage)) && books == old(books) && borrows == old(borrows)
      ensures bookId in old(books) && old(books)[bookId] && OpenCount(old(borrows), userId) >= MaxActiveBorrows ==>
        r == Err(Refused(422, LimitMessage())) && books == old(books) && borrows == old(borrows)
      ensures bookId in old(books) && old(books)[bookId] && OpenCount(old(borrows), userId) < MaxActiveBorrows ==>
        && r.Ok? && r.status == 201
        && r.record == BorrowRecord(|old(borrows)| + 1, userId, bookId, Some(now), Some(nowAgain + DefaultLoanDays * SecondsPerDay), None)
        && borrows == old(borrows) + [r.record]
        && books == old(books)[bookId := false]
      ensures old(Consistent(books, borrows)) ==> Consistent(books, borrows)
    {
      if bookId !in books {
        return Err(InvalidBookId);
      }
      if !books[bookId] {
        return Err(Refused(422, UnavailableMessage));
      }
      var activeBorrowCount := OpenCount(borrows, userId);
      if activeBorrowCount >= MaxActiveBorrows {
        return Err(Refused(422, LimitMessage()));
      }
      var rec := BorrowRecord(|borrows| + 1, userId, bookId, Some(now), Some(nowAgain + DefaultLoanDays * SecondsPerDay), None);
      if Consistent(books, borrows) {
        BorrowPreservesConsistency(books, borrows, rec);
      }
      borrows := borrows + [rec];
      books := books[bookId := false];
      r := Ok(201, rec);
    }

    /**
     * `returnBook`: an unknown id is not found; then a closed record is a
     * conflict whoever asks; then only the owner or an `Admin` may close it.
     * Closing stamps `returned_at` and makes the book available again.
     */
    method ReturnBook(actorId: int, actorRole: string, borrowId: int, now: int) returns (r: Outcome)
      requires Valid()
      modifies this
      ensures Valid()
      ensures !(1 <= borrowId <= |old(borrows)|) ==>
        r == Err(NotFound) && books == old(books) && borrows == old(borrows)
      ensures 1 <= borrowId <= |old(borrows)| && !IsOpen(old(borrows)[borrowId - 1]) ==>
        r == Err(Refused(409, AlreadyClosedMessage)) && books == old(books) && borrows == old(borrows)
      ensures (1 <= borrowId <= |old(borrows)| && IsOpen(old(borrows)[borrowId - 1])
               && actorId != old(borrows)[borrowId - 1].userId && actorRole != AdminRole) ==>
        r == Err(Refused(403, NotOwnerMessage)) && books == old(books) && borrows == old(borrows)
      ensures (1 <= borrowId <= |old(borrows)| && IsOpen(old(borrows)[borrowId - 1])
               && (actorId == old(borrows)[borrowId - 1].userId || actorRole == AdminRole)) ==>
        var k := borrowId - 1;
        var b := old(borrows)[k].bookId;
        && r == Ok(200, old(borrows)[k].(returnedAt := Some(now)))
        && borrows == old(borrows)[k := r.record]
        && books == if b in old(books) then old(books)[b := true] else old(books)
      ensures old(Consistent(books, borrows)) ==> Consistent(books, borrows)
    {
      if !(1 <= borrowId <= |borrows|) {
        return Err(NotFound);
      }
      var k := borrowId - 1;
      var borrow := borrows[k];
      if borrow.returnedAt.Some? {
        return Err(Refused(409, AlreadyClosedMessage));
      }
      if actorId != borrow.userId && actorRole != AdminRole {
        return Err(Refused(403, NotOwnerMessage));
      }
      var closed := borrow.(returnedAt := Some(now));
      if Consistent(books, borrows) {
        ReturnPreservesConsistency(books, borrows, k, now);
      }
      borrows := borrows[k := closed];
      if borrow.bookId in books {
        books := books[borrow.bookId := true];
      }
      r := Ok(200, closed);
    }

    /**
     * `index`: every record (or only the open ones when `status` is
     * `active`; the default is `all`), newest first, one page of 15.
     */
    function Index(status: Option<string>, page: int): (r: seq<BorrowRecord>)
      reads this
      ensures NewestFirst(r)
      ensures |r| <= PerPage
      ensures forall x :: x in r ==> x in borrows && (status == Some("active") ==> IsOpen(x))
      ensures var all := Listing(borrows, status.GetOr("all"));
        forall i :: 0 <= i < |r| ==> PageStart(page) + i < |all| && r[i] == all[PageStart(page) + i]
      ensures var all, start := Listing(borrows, status.GetOr("all")), PageStart(page);
        |r| == if start >= |all| then 0 else if |all| - start < PerPage then |all| - start else PerPage
    {
      var st := status.GetOr("all");
      assert status == Some("active") ==> st == "active";
      var all := Listing(borrows, st);
      ListingMembers(borrows, st);
      Page(all, PageStart(page))
    }

    /**
     * `myBorrowings`: the records of user `userId` only, open ones only unless
     * `status` says otherwise (the default is `active`), newest first.
     */
    function MyBorrowings(userId: int, status: Option<string>): (r: seq<BorrowRecord>)
      reads this
      ensures NewestFirst(r)
      ensures forall x :: multiset(r)[x] ==
                          if x.userId == userId && (status.GetOr("active") != "active" || IsOpen(x))
                          then multiset(borrows)[x] else 0
    {
      Listing(BorrowsOf(borrows, userId), status.GetOr("active"))
    }
  }

  // ---------------------------------------------------------------------
  // Client code: the workflow's scenarios, driven through the methods
  // ---------------------------------------------------------------------

  /**
   * One user borrows book 5; another (not an admin) may not return it; the
   * owner returns it; a second return is refused as already closed and does
   * not touch the book again.
   */
  method BorrowThenReturnTwice(now: int) returns (borrow: Outcome, stranger: Outcome, first: Outcome, second: Outcome, availableAfter: bool)
    ensures borrow.Ok? && borrow.status == 201 && BorrowResource.ToArray(borrow.record, None, None, now + 1, 0).status == "active"
    ensures stranger == Err(Refused(403, NotOwnerMessage))
    ensures first.Ok? && first.status == 200 && BorrowResource.ToArray(first.record, None, None, now + 2, 0).status == "returned"
    ensures second == Err(Refused(409, AlreadyClosedMessage))
    ensures availableAfter
  {
    var library := new Library(map[5 := true]);
    borrow := library.Store(1, 5, now, now);
    assert library.books == map[5 := false];
    stranger := library.ReturnBook(2, "User", 1, now + 1);
    first := library.ReturnBook(1, "User", 1, now + 2);
    second := library.ReturnBook(2, "User", 1, now + 3);
    availableAfter := library.books[5];
  }

  /**
   * A user holding three open borrows is refused a fourth book with the limit
   * message, and the fourth book stays available; an unavailable book is
   * refused as unavailable even for that user.
   */
  method LimitReached(now: int) returns (fourth: Outcome, unavailable: Outcome, stillAvailable: bool)
    ensures fourth == Err(Refused(422, "Borrowing limit reached. Return a book before borrowing a new one (limit: 3)."))
    ensures unavailable == Err(Refused(422, UnavailableMessage))
    ensures stillAvailable
  {
    var library := new Library(map[1 := true, 2 := true, 3 := true, 4 := true]);
    var r1 := library.Store(7, 1, now, now);
    assert r1.Ok? && library.borrows == [] + [r1.record] && IsOpen(r1.record) && r1.record.userId == 7;
    OpenCountAppend([], 7, r1.record);
    assert OpenCount(library.borrows, 7) == 1;
    var r2 := library.Store(7, 2, now, now);
    assert r2.Ok? && library.borrows == [r1.record] + [r2.record] && IsOpen(r2.record) && r2.record.userId == 7;
    OpenCountAppend([r1.record], 7, r2.record);
    assert OpenCount(library.borrows, 7) == 2;
    var r3 := library.Store(7, 3, now, now);
    assert r3.Ok? && library.borrows == [r1.record, r2.record] + [r3.record] && IsOpen(r3.record) && r3.record.userId == 7;
    OpenCountAppend([r1.record, r2.record], 7, r3.record);
    assert OpenCount(library.borrows, 7) == 3;
    LimitMessageText();
    fourth := library.Store(7, 4, now, now);
    unavailable := library.Store(7, 1, now, now);
    stillAvailable := library.books[4];
  }
}
