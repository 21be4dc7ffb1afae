/**
 * The JSON projection of a borrow record: its timestamps, the derived
 * `status` / `is_overdue` / `days_overdue` fields computed against the
 * current time, and the nested book and user when those relations are loaded.
 */
module BorrowResource {
  import opened Wrappers
  import opened BorrowModel

  /** A loaded `books` row, as the projection reads it. */
  datatype BookRow = BookRow(id: int, title: string, author: string, isbn: string, publicationYear: int, available: bool)

  /** A loaded `users` row, as the projection reads it. */
  datatype UserRow = UserRow(id: int, name: string, email: string, libraryId: Option<string>, role: string)

  /**
   * The projected record. Timestamps stay numbers (ISO-8601 text is not
   * modelled); an absent relation is `None` (the key is left out of the JSON).
   */
  datatype BorrowView = BorrowView(
    id: int,
    borrowedAt: Option<int>,
    dueDate: Option<int>,
    returnedAt: Option<int>,
    status: string,
    isOverdue: bool,
    daysOverdue: int,
    book: Option<BookRow>,
    user: Option<UserRow>)

  const Returned := "returned"
  const Overdue := "overdue"
  const ActiveStatus := "active"

  /** Carbon's `isPast()`: strictly earlier than `now`. */
  predicate IsPast(t: int, now: int) {
    t < now
  }

  /**
   * `toArray`. `diffInDays` stands for the value of `now()->diffInDays($dueDate)`,
   * whose sign and rounding belong to the date library.
   */
  function ToArray(r: BorrowRecord, book: Option<BookRow>, user: Option<UserRow>, now: int, diffInDays: int): (v: BorrowView)
    ensures v.status in {Returned, Overdue, ActiveStatus}
    ensures r.returnedAt.Some? ==> v.status == Returned && !v.isOverdue
    ensures v.isOverdue <==> r.returnedAt.None? && r.dueDate.Some? && IsPast(r.dueDate.value, now)
    ensures v.status == Overdue <==> v.isOverdue
    ensures v.status == ActiveStatus <==> r.returnedAt.None? && !v.isOverdue
    ensures !v.isOverdue ==> v.daysOverdue == 0
    ensures v.isOverdue ==> v.daysOverdue == diffInDays
    ensures v.id == r.id && v.borrowedAt == r.borrowedAt && v.dueDate == r.dueDate && v.returnedAt == r.returnedAt
    ensures v.book == book && v.user == user
  {
    var isOverdue := r.returnedAt.None? && r.dueDate.Some? && IsPast(r.dueDate.value, now);
    BorrowView(
      r.id,
      r.borrowedAt,
      r.dueDate,
      r.returnedAt,
      if r.returnedAt.Some? then Returned else if isOverdue then Overdue else ActiveStatus,
      isOverdue,
      if isOverdue then diffInDays else 0,
      book,
      user)
  }

  /** Closing a record turns its projection into `returned`, whatever the due date, and never overdue. */
  lemma ClosedRecordProjectsReturned(r: BorrowRecord, t: int, book: Option<BookRow>, user: Option<UserRow>, now: int, diffInDays: int)
    ensures var v := ToArray(r.(returnedAt := Some(t)), book, user, now, diffInDays);
      v.status == Returned && !v.isOverdue && v.daysOverdue == 0
  {
  }

  /**
   * Overdue-ness only grows with time while a record stays open: once its due
   * date is past at `now`, it is past at every later time.
   */
  lemma OverdueIsMonotone(r: BorrowRecord, now: int, later: int, d1: int, d2: int)
    requires now <= later
    requires ToArray(r, None, None, now, d1).isOverdue
    ensures ToArray(r, None, None, later, d2).isOverdue
  {
  }
}
