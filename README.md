# LibraNet circulation core in Dafny

LibraNet is a small library catalogue. Books, audiobooks and e-magazines share
one `Item` state machine: an item is borrowed for a number of days, a simulated
day counter moves while it is out, and its overdue days are the days beyond the
borrow duration. A `LibraNet` object keeps the ordered list of items and a fine
ledger from item id to amount. Returning a late item writes
`overdue days × FINE_PER_DAY` into the ledger, and `updateFines` recomputes the
entry of every overdue listed item.

The project has four modules, one per layer of `main.java`:

- `JavaInt` (`java_int.dfy`): Java's 32-bit `int`. `Wrap` brings a mathematical
  result back into range the way the JVM does. Ids, issue numbers, durations
  and day counters are `Int32`. `nextId++`, `nextIssue++`, `daysBorrowed++` and
  the subtraction in `getOverdueDays` all go through `Wrap`.
- `Loans` (`loans.dfy`): the borrow state of an item as a value (`Loan`). It
  holds the functions that specify each item operation and the ledger updates
  of `return` and `updateFines`, and the lemmas about them.
- `Catalogue` (`items.dfy`): the `Item` class, with one named constructor per
  variant (`Book`, `AudioBook`, `EMagazine`), and `Counters`. `Counters` is the
  pair of static counters `Item.nextId` and `EMagazine.nextIssue`, made an
  explicit object that each constructor advances.
- `Library` (`library.dfy`): the `LibraNet` class. Its `items` is a `seq<Item>`
  and its `fines` a `map<Int32, int>`, and its methods reassign both.
  `nextDay` and `updateFines` are loops with invariants, and `advanceDay`
  reuses the loop of `nextDay`.

Behaviour as the code has it:

- `borrow` on an item that is already out prints a message and then borrows it
  again. It resets the counter and takes the new duration, because there is no
  early return.
- `return` *replaces* the ledger entry of a late item. It does not add to it.
- `return` sets only `available`. The day counter and the duration stay as
  they were, so a returned late item still reports the same overdue days, and
  `updateFines` still charges it, since it does not look at availability.
  The assignments to `borrowDate` and `dueDate` in `main.java` name fields
  that do not exist, and they are treated as no-ops. The method is called
  `Return`, because `return` is not a legal Java method name.
- `borrow` accepts any `int`, zero and negative durations included.
- `getOverdueDays` computes `daysBorrowed - borrowDurationDays` in 32-bit
  arithmetic. Its result is `max(0, daysBorrowed - borrowDurationDays)`
  unless that subtraction overflows, and it is negative exactly when it does.
  For example, right after `borrow(Integer.MIN_VALUE)` it returns
  `Integer.MIN_VALUE`. Every non-negative duration is safe.
- `addItem` does not check for duplicates. `nextDay` advances an item once for
  each time it is listed, so an item listed once advances exactly once.

So fines are never accumulated, a borrow of an item that is already out is
not refused, a zero or negative duration is not refused, and an item on the
shelf can still report overdue days. `main.java` has no parser for duration
strings, so none is modelled.

## Model

| member | source | states |
|---|---|---|
| `JavaInt.Wrap` | main.java:39-41 | The Java `int` a mathematical result wraps to: the value itself when it is in range, one modulus down or up when it is one wrap out of range, and always congruent modulo 2^32. |
| `Loans.Advanced` | main.java:32-36 | One day for one item. Availability and duration are kept. An item on the shelf is unchanged. A borrowed item's counter goes up by exactly 1 unless it is at `Integer.MAX_VALUE`. |
| `Loans.AdvancedNClosedForm` | main.java:32-36 | `n` days move a borrowed item's counter by exactly `n` when that does not overflow, and leave an item on the shelf unchanged. |
| `Loans.OverdueDays` | main.java:38-43 | Overdue days equal `max(0, daysBorrowed - borrowDurationDays)` when the subtraction fits in an `int`. They are negative if and only if it overflows. They are positive only when `daysBorrowed > borrowDurationDays`. |
| `Loans.OverdueNonNegative` | main.java:38-43 | For every non-negative duration, overdue days are never negative and equal `max(0, daysBorrowed - borrowDurationDays)`. |
| `Loans.OverdueWrapsForMinDuration` | main.java:38-43 | Right after `borrow(Integer.MIN_VALUE)`, `getOverdueDays` returns `Integer.MIN_VALUE`. |
| `Loans.ShelvedNotOverdue` | main.java:14-20 | A freshly constructed item has zero overdue days. |
| `Loans.BorrowStartsAfresh` | main.java:22-30 | After `borrow(d)` the item is out, with duration `d` and counter 0. It is overdue at once only for a negative `d`, by `-d` days. |
| `Loans.Returned` | main.java:45-58 | After `return` the item is available. The counter and the duration are kept. Returning an item that is already available changes nothing. |
| `Loans.FinesOnReturn` | main.java:45-57 | A late return of a borrowed item sets `fines[id]` to `overdue × rate`, replacing any earlier entry. In every other case the ledger is unchanged. No other key is added, removed or changed. |
| `Loans.ReturnKeepsOverdue` | main.java:58-60 | A returned item keeps its overdue days, even though it is available. |
| `Loans.LateReturnsOverwrite` | main.java:51-53 | Two late returns of the same item leave only the second fine: the fines are not added. |
| `Loans.BorrowAdvanceReturn` | main.java:22-58 | Borrow for `d >= 0` days, advance `n` days, return. The item is available, the counter is `n`, the overdue days are `max(0, n - d)`, and the ledger gains exactly `(n - d) × rate` at the item's id when `n > d`, and nothing otherwise. |
| `Loans.WeekLoanReturnedAfterTenDays` | main.java:131-149 | An item borrowed for 7 days and returned after 10 days, at the fixed rate of 10, leaves `fines[id] == 30` and the rest of the ledger as it was. |
| `Loans.FinesUpdated` | main.java:151-158 | The ledger after `updateFines` has read the given (id, overdue days) rows in order. Its keys are exactly the old keys plus the ids of the rows with positive overdue days: no key is ever removed. |
| `Loans.LastCharge` | main.java:152-156 | The index of the last visited item that charges a key, or -1. No later item charges that key. |
| `Loans.FinesUpdatedAt` | main.java:151-158 | After `updateFines`, every key charged by some item holds the fine of the last item that charges it. A key that no item charges keeps its old entry, or stays absent. |
| `Loans.FinesUpdatedCharges` | main.java:151-158 | When items with the same id agree, every overdue item ends with `fines[id] == overdue × rate`. |
| `Loans.FinesUpdatedUntouched` | main.java:151-158 | A key whose items all have zero or negative overdue days keeps its entry, or stays absent. |
| `Catalogue.Counters.constructor` | main.java:11 | Both static counters start at 1: `Item.nextId` here and `EMagazine.nextIssue` at main.java:108. |
| `Catalogue.Item.Book` | main.java:14-20 | A new book gets the current `nextId`, and the counter then moves on by one (with wrap-around). The issue counter does not move. The book is available, with counter 0 and duration 0. |
| `Catalogue.Item.AudioBook` | main.java:14-20 | Same as `Book`, for an audiobook. |
| `Catalogue.Item.EMagazine` | main.java:111-114 | A new e-magazine takes the next id and the next issue number, and advances both counters, each by one. It starts available with counter 0. |
| `Catalogue.BuildInOrder` | main.java:14-20 | Three items built one after another get consecutive ids, starting at the current `nextId`. The magazine gets the current issue number. |
| `Catalogue.Item.GetOverdueDays` | main.java:38-43 | An item's overdue days are `max(0, daysBorrowed - borrowDurationDays)` when the subtraction fits in an `int`, and negative if and only if it overflows. |
| `Catalogue.Item.Borrow` | main.java:22-30 | After `borrow(d)`, whatever the state before: unavailable, `borrowDurationDays == d`, `daysBorrowed == 0`. |
| `Catalogue.Item.AdvanceDay` | main.java:32-36 | The new state is `Advanced` of the old one. An available item is unchanged. A borrowed one gains exactly one day below `Integer.MAX_VALUE`. |
| `Catalogue.Item.Return` | main.java:45-61 | The new state is `Returned` of the old one, and the returned ledger is `FinesOnReturn` of the given one. The item is available afterwards. An item that was available leaves state and ledger as they were. A late one overwrites `fines[id]` with `overdue × rate`. |
| `Library.LibraNet.constructor` | main.java:128-131 | Empty item list and empty ledger. |
| `Library.LibraNet.AddItem` | main.java:133-135 | The item is appended at the end. The earlier items keep their order. |
| `Library.LibraNet.NextDay` | main.java:137-141 | Every listed item advances once for each time it is listed. When the list has no duplicates, each advances exactly once. Nothing else changes. |
| `Library.LibraNet.AdvanceDay` | main.java:160-164 | The same as `NextDay`. |
| `Library.LibraNet.Borrow` | main.java:143-145 | Forwards to `Item.Borrow`. The list and the ledger do not change. |
| `Library.LibraNet.ReturnItem` | main.java:147-149 | Forwards to `Item.Return` with this ledger and the fixed rate of 10 per day. |
| `Library.UpdateFinesOutcome` | main.java:151-158 | Read off the items: with consistent ids, every overdue listed item's fine is `overdue × 10`. A key that no overdue listed item has keeps its entry. |
| `Library.LibraNet.UpdateFines` | main.java:151-158 | The ledger becomes the item-by-item update of the old one. Every overdue listed item, borrowed or returned, is charged `overdue × 10` (given consistent ids). Keys of items that are not overdue keep their entries. |

## Left out

- Console output (`System.out.println`) and `displayDetails` (main.java:77-80, 99-102, 120-123) are left out. They are I/O with no effect on state.
- `Playable` / `AudioBook.play` and `EMagazine.archiveIssue` (main.java:85-97, 116-118) are left out. They only print.
- `showFines` (main.java:166-170) is left out. It only prints the ledger, in hash-map order.
- The `main` demo driver (main.java:175-196) is left out.
- The assignments to `borrowDate` and `dueDate` (main.java:59-60) are treated as no-ops, because the fields do not exist.
- Fines are `int`, not `double`. Every amount the code writes is a whole number of days times the whole rate 10.0, and such products are exact in a double.
- `Catalogue.Item.Return`: `fineRate` is an `int`. A fractional rate, which no caller passes, is not modelled.
- `Item.id`, `title`, `author` and the variant data are `const`. `main.java` declares them as plain fields, but nothing ever reassigns them.
- A Java `Item` argument could be `null`. Dafny references here are non-null, so the `NullPointerException` paths are not modelled.
- `Catalogue.Item.Return`: the ledger is passed in by value and the updated ledger is returned. In Java, `fines.put` at main.java:53 updates the caller's map through the shared reference, and that aliasing is not modelled. `Library.LibraNet.ReturnItem` stores the result back into its own ledger, so what `returnItem` does is the same.
