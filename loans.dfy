/** The borrow state of one catalogue item and the fine ledger, as values.
    The `Item` and `LibraNet` classes keep this state in mutable fields; their
    methods are specified by the functions below, and the lemmas here state
    what those functions promise. */
module Loans {
  import opened JavaInt

  /** The three fields of an item that borrowing, advancing and returning
      change. `available` is true while the item is on the shelf. */
  datatype Loan = Loan(available: bool, borrowDurationDays: Int32, daysBorrowed: Int32)

  /** The fine ledger: item id to fine amount. The Java code stores doubles;
      every amount it writes is a whole number of days times a whole rate. */
  type Ledger = map<Int32, int>

  /** The state of a freshly constructed item (Java leaves the duration at 0). */
  const Shelved: Loan := Loan(true, 0, 0)

  /** The state after `borrow(durationDays)`, whatever the state before. */
  function Borrowed(durationDays: Int32): Loan
  {
    Loan(false, durationDays, 0)
  }

  /** One simulated day for one item: only a borrowed item's counter moves. */
  function Advanced(s: Loan): (r: Loan)
    ensures r.available == s.available && r.borrowDurationDays == s.borrowDurationDays
    ensures s.available ==> r == s
    ensures !s.available && s.daysBorrowed < MAX ==> r.daysBorrowed == s.daysBorrowed + 1
  {
    if s.available then s else s.(daysBorrowed := Wrap(s.daysBorrowed + 1))
  }

  /** `n` simulated days in a row. */
  function AdvancedN(s: Loan, n: nat): Loan
  {
    if n == 0 then s else Advanced(AdvancedN(s, n - 1))
  }

  /** `getOverdueDays`: the days held beyond the borrow duration, computed in
      Java `int`. It is `max(0, daysBorrowed - borrowDurationDays)` unless the
      subtraction overflows, and it is negative exactly when it does. */
  function OverdueDays(s: Loan): (r: Int32)
    ensures s.daysBorrowed - s.borrowDurationDays <= MAX ==>
              r == Max(0, s.daysBorrowed - s.borrowDurationDays)
    ensures r < 0 <==> s.daysBorrowed - s.borrowDurationDays > MAX
    ensures r > 0 ==> s.daysBorrowed > s.borrowDurationDays
  {
    if s.daysBorrowed > s.borrowDurationDays then Wrap(s.daysBorrowed - s.borrowDurationDays) else 0
  }

  /** The item's state after `return`: it is back on the shelf. The day
      counter and the duration are left as they were. */
  function Returned(s: Loan): (r: Loan)
    ensures r.available
    ensures s.available ==> r == s
    ensures r.borrowDurationDays == s.borrowDurationDays && r.daysBorrowed == s.daysBorrowed
  {
    s.(available := true)
  }

  /** The ledger after `return` of item `id` in state `s` at `fineRate` per day:
      a late return of a borrowed item puts (replaces) its fine, and nothing
      else changes. */
  function FinesOnReturn(fines: Ledger, id: Int32, s: Loan, fineRate: int): (r: Ledger)
    ensures !s.available && OverdueDays(s) > 0 ==> id in r && r[id] == OverdueDays(s) * fineRate
    ensures s.available || OverdueDays(s) <= 0 ==> r == fines
    ensures forall k :: k != id ==> (k in r <==> k in fines)
    ensures forall k :: k != id && k in r ==> r[k] == fines[k]
    ensures r.Keys == fines.Keys || r.Keys == fines.Keys + {id}
  {
    if !s.available && OverdueDays(s) > 0 then fines[id := OverdueDays(s) * fineRate] else fines
  }

  /** What `updateFines` reads from one listed item: its id and overdue days. */
  datatype OverdueRecord = OverdueRecord(id: Int32, days: Int32)

  /** The ledger after `updateFines` has visited `rows` in order: each row with
      positive overdue days puts its fine. The keys afterwards are the old
      keys and the ids of the rows that charge. */
  function FinesUpdated(fines: Ledger, rows: seq<OverdueRecord>, fineRate: int): (r: Ledger)
    ensures r.Keys == fines.Keys + (set i | 0 <= i < |rows| && rows[i].days > 0 :: rows[i].id)
  {
    if rows == [] then fines
    else
      var last := rows[|rows| - 1];
      var before := FinesUpdated(fines, rows[..|rows| - 1], fineRate);
      if last.days > 0 then before[last.id := last.days * fineRate] else before
  }

  /** Visiting one more row. */
  lemma FinesUpdatedSnoc(fines: Ledger, rows: seq<OverdueRecord>, x: OverdueRecord, fineRate: int)
    ensures FinesUpdated(fines, rows + [x], fineRate)
         == if x.days > 0 then FinesUpdated(fines, rows, fineRate)[x.id := x.days * fineRate]
            else FinesUpdated(fines, rows, fineRate)
  {
    assert (rows + [x])[..|rows|] == rows;
  }

  /** The index of the last row that charges item `k`, or -1 if none does. */
  function LastCharge(rows: seq<OverdueRecord>, k: Int32): (j: int)
    ensures -1 <= j < |rows|
    ensures 0 <= j ==> rows[j].id == k && rows[j].days > 0
    ensures forall i :: j < i < |rows| ==> !(rows[i].id == k && rows[i].days > 0)
  {
    if rows == [] then -1
    else if rows[|rows| - 1].id == k && rows[|rows| - 1].days > 0 then |rows| - 1
    else LastCharge(rows[..|rows| - 1], k)
  }

  /** A borrow starts from a clean counter, so a new loan is overdue from day 0
      only when its duration is negative (main.java accepts any `int`). */
  lemma BorrowStartsAfresh(durationDays: Int32)
    ensures !Borrowed(durationDays).available
    ensures Borrowed(durationDays).borrowDurationDays == durationDays
    ensures Borrowed(durationDays).daysBorrowed == 0
    ensures durationDays > MIN ==> OverdueDays(Borrowed(durationDays)) == Max(0, -(durationDays as int))
  {
  }

  /** A fresh item owes nothing. */
  lemma ShelvedNotOverdue()
    ensures OverdueDays(Shelved) == 0
  {
  }

  /** Overdue days are never negative as long as the subtraction in main.java
      cannot overflow, which holds for every non-negative borrow duration. */
  lemma OverdueNonNegative(s: Loan)
    requires s.borrowDurationDays >= 0
    ensures OverdueDays(s) >= 0
    ensures OverdueDays(s) == Max(0, s.daysBorrowed - s.borrowDurationDays)
  {
  }

  /** A borrow with duration `Integer.MIN_VALUE` reports negative overdue days
      straight away, because `0 - MIN_VALUE` wraps around. */
  lemma OverdueWrapsForMinDuration()
    ensures OverdueDays(Borrowed(MIN as Int32)) == MIN
  {
  }

  /** `n` days move a borrowed item's counter by exactly `n`, and leave an item
      on the shelf as it is. */
  lemma {:induction false} AdvancedNClosedForm(s: Loan, n: nat)
    requires !s.available ==> s.daysBorrowed + n <= MAX
    ensures AdvancedN(s, n) == if s.available then s else s.(daysBorrowed := s.daysBorrowed + n)
  {
    if n > 0 {
      AdvancedNClosedForm(s, n - 1);
    }
  }

  /** Returning keeps the day counter, so a returned late item still reports
      the same overdue days even though it is available again. */
  lemma ReturnKeepsOverdue(s: Loan)
    ensures Returned(s).available
    ensures OverdueDays(Returned(s)) == OverdueDays(s)
  {
  }

  /** A second late return replaces the first fine instead of adding to it. */
  lemma LateReturnsOverwrite(fines: Ledger, id: Int32, first: Loan, second: Loan, fineRate: int)
    requires !first.available && OverdueDays(first) > 0
    requires !second.available && OverdueDays(second) > 0
    ensures FinesOnReturn(FinesOnReturn(fines, id, first, fineRate), id, second, fineRate)
         == fines[id := OverdueDays(second) * fineRate]
  {
  }

  /** Borrow for `d >= 0` days, let `n` days pass, return: the item is back, the
      fine is `(n - d) * fineRate` when `n > d`, and the ledger is otherwise as
      before. */
  lemma BorrowAdvanceReturn(fines: Ledger, id: Int32, d: Int32, n: nat, fineRate: int)
    requires 0 <= d && n <= MAX
    ensures var held := AdvancedN(Borrowed(d), n);
      && held.daysBorrowed == n
      && OverdueDays(held) == Max(0, n - d)
      && Returned(held).available
      && FinesOnReturn(fines, id, held, fineRate)
         == if n > d then fines[id := (n - d) * fineRate] else fines
  {
    AdvancedNClosedForm(Borrowed(d), n);
  }

  /** A book borrowed for one week (7 days) and returned after 10 days owes
      3 days at 10 per day. */
  lemma WeekLoanReturnedAfterTenDays(fines: Ledger, id: Int32)
    ensures FinesOnReturn(fines, id, AdvancedN(Borrowed(7), 10), 10) == fines[id := 30]
  {
    BorrowAdvanceReturn(fines, id, 7, 10, 10);
  }

  /** What `updateFines` leaves at key `k`: the fine of the last row that
      charges `k`, or the old entry (or its absence) when no row does. */
  lemma {:induction false} FinesUpdatedAt(fines: Ledger, rows: seq<OverdueRecord>, fineRate: int, k: Int32)
    ensures var r := FinesUpdated(fines, rows, fineRate); var j := LastCharge(rows, k);
      && (j < 0 ==> (k in r <==> k in fines) && (k in r ==> r[k] == fines[k]))
      && (0 <= j ==> k in r && r[k] == rows[j].days * fineRate)
  {
    if rows != [] {
      FinesUpdatedAt(fines, rows[..|rows| - 1], fineRate, k);
    }
  }

  /** Rows that share an id agree; this holds when every distinct listed item
      has its own id, even if one item is listed twice. */
  ghost predicate ConsistentIds(rows: seq<OverdueRecord>)
  {
    forall i, j :: 0 <= i < |rows| && 0 <= j < |rows| && rows[i].id == rows[j].id ==> rows[i] == rows[j]
  }

  /** With consistent ids, `updateFines` charges every overdue row at its own
      rate times days, and keys no row charges keep their entry. */
  lemma FinesUpdatedCharges(fines: Ledger, rows: seq<OverdueRecord>, fineRate: int)
    requires ConsistentIds(rows)
    ensures var r := FinesUpdated(fines, rows, fineRate);
      forall i :: 0 <= i < |rows| && rows[i].days > 0 ==>
        rows[i].id in r && r[rows[i].id] == rows[i].days * fineRate
  {
    var r := FinesUpdated(fines, rows, fineRate);
    forall i | 0 <= i < |rows| && rows[i].days > 0
      ensures rows[i].id in r && r[rows[i].id] == rows[i].days * fineRate
    {
      FinesUpdatedAt(fines, rows, fineRate, rows[i].id);
    }
  }

  /** Keys that no row charges keep their ledger entry, or stay absent. */
  lemma FinesUpdatedUntouched(fines: Ledger, rows: seq<OverdueRecord>, fineRate: int, k: Int32)
    requires forall i :: 0 <= i < |rows| && rows[i].id == k ==> rows[i].days <= 0
    ensures var r := FinesUpdated(fines, rows, fineRate);
      (k in r <==> k in fines) && (k in r ==> r[k] == fines[k])
  {
    FinesUpdatedAt(fines, rows, fineRate, k);
  }
}
