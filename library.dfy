/** `LibraNet`: the ordered list of catalogue items and the fine ledger. */
module Library {
  import opened JavaInt
  import opened Loans
  import opened Catalogue

  /** `FINE_PER_DAY`, a whole number of currency units (10.0 in main.java). */
  const FinePerDay: int := 10

  /** The (id, overdue days) that `updateFines` reads from each listed item. */
  ghost function Records(s: seq<Item>): seq<OverdueRecord>
    reads s
  {
    seq(|s|, i requires 0 <= i < |s| reads s => OverdueRecord(s[i].id, s[i].GetOverdueDays()))
  }

  /** Reading one more item. */
  lemma RecordsSnoc(s: seq<Item>, i: nat)
    requires i < |s|
    ensures Records(s[..i + 1]) == Records(s[..i]) + [OverdueRecord(s[i].id, s[i].GetOverdueDays())]
  {
  }

  /** The ledger `updateFines` leaves, read item by item: with consistent ids
      every overdue listed item carries its fine at the fixed rate, and a key
      no overdue item has keeps its entry. */
  lemma UpdateFinesOutcome(fines: Ledger, items: seq<Item>)
    ensures var r := FinesUpdated(fines, Records(items), FinePerDay);
      ConsistentIds(Records(items)) ==>
        forall i :: 0 <= i < |items| && items[i].GetOverdueDays() > 0 ==>
          items[i].id in r && r[items[i].id] == items[i].GetOverdueDays() * FinePerDay
    ensures var r := FinesUpdated(fines, Records(items), FinePerDay);
      forall k :: (forall i :: 0 <= i < |items| && items[i].id == k ==> items[i].GetOverdueDays() <= 0) ==>
        (k in r <==> k in fines) && (k in r ==> r[k] == fines[k])
  {
    var rows := Records(items);
    var r := FinesUpdated(fines, rows, FinePerDay);
    if ConsistentIds(rows) {
      FinesUpdatedCharges(fines, rows, FinePerDay);
      forall i | 0 <= i < |items| && items[i].GetOverdueDays() > 0
        ensures items[i].id in r && r[items[i].id] == items[i].GetOverdueDays() * FinePerDay
      {
        assert rows[i] == OverdueRecord(items[i].id, items[i].GetOverdueDays());
      }
    }
    forall k | forall i :: 0 <= i < |items| && items[i].id == k ==> items[i].GetOverdueDays() <= 0
      ensures (k in r <==> k in fines) && (k in r ==> r[k] == fines[k])
    {
      forall i | 0 <= i < |rows| && rows[i].id == k
        ensures rows[i].days <= 0
      {
        assert rows[i] == OverdueRecord(items[i].id, items[i].GetOverdueDays());
      }
      FinesUpdatedUntouched(fines, rows, FinePerDay, k);
    }
  }

  /** An item listed once has count 1 in the list's multiset. */
  lemma {:induction false} CountOfDistinct<T>(s: seq<T>, x: T)
    requires forall i, j :: 0 <= i < j < |s| ==> s[i] != s[j]
    requires x in s
    ensures multiset(s)[x] == 1
  {
    var last := s[|s| - 1];
    assert s == s[..|s| - 1] + [last];
    if x == last {
      assert x !in s[..|s| - 1];
    } else {
      CountOfDistinct(s[..|s| - 1], x);
    }
  }

  class LibraNet {
    var items: seq<Item>
    var fines: Ledger

    constructor ()
      ensures items == [] && fines == map[]
    {
      items, fines := [], map[];
    }

    /** `addItem(item)`: appended at the end, no duplicate check. */
    method AddItem(item: Item)
      modifies this`items
      ensures items == old(items) + [item]
    {
      items := items + [item];
    }

    /** `nextDay()`: every listed item advances once per time it is listed;
        the list, the ledger and unlisted items do not change. */
    method NextDay()
      modifies items
      ensures forall o :: o in items ==> o.Loan() == AdvancedN(old(o.Loan()), multiset(items)[o])
      ensures (forall i, j :: 0 <= i < j < |items| ==> items[i] != items[j]) ==>
                forall o :: o in items ==> o.Loan() == Advanced(old(o.Loan()))
    {
      for i := 0 to |items|
        invariant forall o :: o in items ==> o.Loan() == AdvancedN(old(o.Loan()), multiset(items[..i])[o])
      {
        ghost var counted := multiset(items[..i]);
        assert items[..i + 1] == items[..i] + [items[i]];
        assert multiset(items[..i + 1]) == counted + multiset{items[i]};
        items[i].AdvanceDay();
        forall o | o in items
          ensures o.Loan() == AdvancedN(old(o.Loan()), multiset(items[..i + 1])[o])
        {
          if o == items[i] {
            assert multiset(items[..i + 1])[o] == counted[o] + 1;
          } else {
            assert multiset(items[..i + 1])[o] == counted[o];
          }
        }
      }
      assert items[..|items|] == items;
      if forall i, j :: 0 <= i < j < |items| ==> items[i] != items[j] {
        forall o | o in items
          ensures o.Loan() == Advanced(old(o.Loan()))
        {
          CountOfDistinct(items, o);
        }
      }
    }

    /** `advanceDay()`: the same loop as `nextDay()`. */
    method AdvanceDay()
      modifies items
      ensures forall o :: o in items ==> o.Loan() == AdvancedN(old(o.Loan()), multiset(items)[o])
      ensures (forall i, j :: 0 <= i < j < |items| ==> items[i] != items[j]) ==>
                forall o :: o in items ==> o.Loan() == Advanced(old(o.Loan()))
    {
      NextDay();
    }

    /** `borrow(item, d)`: forwards to the item, listed or not. */
    method Borrow(item: Item, d: Int32)
      modifies item
      ensures item.Loan() == Borrowed(d)
    {
      item.Borrow(d);
    }

    /** `returnItem(item)`: the item's return against this ledger at the fixed
        rate per day. */
    method ReturnItem(item: Item)
      modifies this`fines, item
      ensures item.Loan() == Returned(old(item.Loan()))
      ensures fines == FinesOnReturn(old(fines), item.id, old(item.Loan()), FinePerDay)
    {
      fines := item.Return(fines, FinePerDay);
    }

    /** `updateFines()`: every listed item with positive overdue days, borrowed
        or not, has its fine put at the fixed rate; keys of other items keep
        their entry. */
    method UpdateFines()
      modifies this`fines
      ensures fines == FinesUpdated(old(fines), Records(items), FinePerDay)
      ensures ConsistentIds(Records(items)) ==>
                forall i :: 0 <= i < |items| && items[i].GetOverdueDays() > 0 ==>
                  items[i].id in fines && fines[items[i].id] == items[i].GetOverdueDays() * FinePerDay
      ensures forall k :: (forall i :: 0 <= i < |items| && items[i].id == k ==> items[i].GetOverdueDays() <= 0) ==>
                (k in fines <==> k in old(fines)) && (k in fines ==> fines[k] == old(fines)[k])
    {
      ghost var start := fines;
      ghost var rows: seq<OverdueRecord> := [];
      for i := 0 to |items|
        invariant rows == Records(items[..i])
        invariant fines == FinesUpdated(start, rows, FinePerDay)
      {
        var overdue := items[i].GetOverdueDays();
        FinesUpdatedSnoc(start, rows, OverdueRecord(items[i].id, overdue), FinePerDay);
        RecordsSnoc(items, i);
        rows := rows + [OverdueRecord(items[i].id, overdue)];
        if overdue > 0 {
          fines := fines[items[i].id := overdue * FinePerDay];
        }
      }
      assert items[..|items|] == items;
      UpdateFinesOutcome(start, items);
    }
  }
}
