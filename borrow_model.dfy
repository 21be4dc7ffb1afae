/**
 * The borrow record of the ledger, the two constants of the borrowing rules
 * and the query scopes the controller builds its reads from: the `active`
 * scope (open records only) and a user's `borrows()` relation.
 */
module BorrowModel {
  import opened Wrappers

  /** Largest number of open borrows a user may hold at once. */
  const MaxActiveBorrows: nat := 3

  /** Loan period, in days, added to the borrow time to give the due date. */
  const DefaultLoanDays: nat := 14

  /** Timestamps are whole seconds; a calendar day is this many of them. */
  const SecondsPerDay: nat := 86400

  /** One row of the `borrows` table. The three timestamps are nullable columns. */
  datatype BorrowRecord = BorrowRecord(
    id: int,
    userId: int,
    bookId: int,
    borrowedAt: Option<int>,
    dueDate: Option<int>,
    returnedAt: Option<int>)

  /** A record is open (the book is still out) while `returned_at` is null. */
  predicate IsOpen(r: BorrowRecord) {
    r.returnedAt.None?
  }

  /** `b` is what is left of `a` after deleting some of its elements, in the same order. */
  ghost predicate IsSubsequence<T>(b: seq<T>, a: seq<T>)
    decreases |a|
  {
    if b == [] then true
    else if a == [] then false
    else if b[0] == a[0] then IsSubsequence(b[1..], a[1..])
    else IsSubsequence(b, a[1..])
  }

  /** A `WHERE` clause: the records that satisfy `keep`, in ledger order. */
  function Where(s: seq<BorrowRecord>, keep: BorrowRecord -> bool): (r: seq<BorrowRecord>)
    ensures |r| <= |s|
  {
    if s == [] then []
    else if keep(s[0]) then [s[0]] + Where(s[1..], keep)
    else Where(s[1..], keep)
  }

  /** `WHERE` keeps every qualifying row as often as it occurs, and nothing else. */
  lemma {:induction false} WhereCounts(s: seq<BorrowRecord>, keep: BorrowRecord -> bool)
    ensures forall x :: multiset(Where(s, keep))[x] == if keep(x) then multiset(s)[x] else 0
  {
    if s != [] {
      WhereCounts(s[1..], keep);
      assert s == [s[0]] + s[1..];
    }
  }

  /** `WHERE` only deletes rows: its result keeps the order of the input. */
  lemma {:induction false} WhereIsSubsequence(s: seq<BorrowRecord>, keep: BorrowRecord -> bool)
    ensures IsSubsequence(Where(s, keep), s)
  {
    if s != [] {
      WhereIsSubsequence(s[1..], keep);
      var rest := Where(s[1..], keep);
      if !keep(s[0]) && rest != [] {
        WhereCounts(s[1..], keep);
        assert rest[0] in multiset(rest);
        assert keep(rest[0]);
      }
    }
  }

  /** The `active` scope, `whereNull('returned_at')`. */
  function Active(s: seq<BorrowRecord>): (r: seq<BorrowRecord>)
    ensures forall x :: multiset(r)[x] == if IsOpen(x) then multiset(s)[x] else 0
    ensures forall x :: x in r <==> x in s && IsOpen(x)
  {
    WhereCounts(s, IsOpen);
    Where(s, IsOpen)
  }

  /** The active scope is a subsequence of the ledger, in ledger order. */
  lemma ActiveIsSubsequence(s: seq<BorrowRecord>)
    ensures IsSubsequence(Active(s), s)
  {
    WhereIsSubsequence(s, IsOpen);
  }

  /** The condition of the `borrows()` relation of user `userId`. */
  function OwnedBy(userId: int): BorrowRecord -> bool {
    (x: BorrowRecord) => x.userId == userId
  }

  /** The `borrows()` relation of user `userId`. */
  function BorrowsOf(s: seq<BorrowRecord>, userId: int): (r: seq<BorrowRecord>)
    ensures forall x :: multiset(r)[x] == if x.userId == userId then multiset(s)[x] else 0
  {
    WhereCounts(s, OwnedBy(userId));
    Where(s, OwnedBy(userId))
  }

  /** `$user->borrows()->active()->count()`: the number of open records of `userId`. */
  function OpenCount(s: seq<BorrowRecord>, userId: int): (n: nat)
    ensures n <= |s|
  {
    |Where(Where(s, OwnedBy(userId)), IsOpen)|
  }

  /** `WHERE` over a ledger with one more row: the old answer, plus that row if it qualifies. */
  lemma {:induction false} WhereAppend(s: seq<BorrowRecord>, keep: BorrowRecord -> bool, rec: BorrowRecord)
    ensures Where(s + [rec], keep) == Where(s, keep) + (if keep(rec) then [rec] else [])
  {
    if s == [] {
      assert [] + [rec] == [rec];
    } else {
      assert (s + [rec])[1..] == s[1..] + [rec];
      WhereAppend(s[1..], keep, rec);
    }
  }

  /** Appending a record raises a user's open count by one exactly when the record is an open one of theirs. */
  lemma OpenCountAppend(s: seq<BorrowRecord>, userId: int, rec: BorrowRecord)
    ensures OpenCount(s + [rec], userId) == OpenCount(s, userId) + (if rec.userId == userId && IsOpen(rec) then 1 else 0)
  {
    var own := Where(s, OwnedBy(userId));
    WhereAppend(s, OwnedBy(userId), rec);
    assert OwnedBy(userId)(rec) == (rec.userId == userId);
    if rec.userId == userId {
      assert Where(s + [rec], OwnedBy(userId)) == own + [rec];
      WhereAppend(own, IsOpen, rec);
    } else {
      assert Where(s + [rec], OwnedBy(userId)) == own;
    }
  }
}
