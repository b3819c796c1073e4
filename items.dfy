/** Catalogue items: the shared `Item` state machine and its three variants,
    with the process-wide id and issue counters made an explicit object. */
module Catalogue {
  import opened JavaInt
  import opened Loans

  /** The static counters `Item.nextId` and `EMagazine.nextIssue`, both
      starting at 1. Every constructor takes the counters it advances. */
  class Counters {
    var nextId: Int32
    var nextIssue: Int32

    constructor ()
      ensures nextId == 1 && nextIssue == 1
    {
      nextId, nextIssue := 1, 1;
    }
  }

  /** The variant of an item and its variant-specific data. */
  datatype Kind = Book(pageCount: Int32) | AudioBook | EMagazine(issueNo: Int32)

  class Item {
    const id: Int32
    const title: string
    const author: string
    const kind: Kind
    var available: bool
    var borrowDurationDays: Int32
    var daysBorrowed: Int32

    /** The borrow state of this item as a value. */
    function Loan(): Loans.Loan
      reads this
    {
      Loans.Loan(available, borrowDurationDays, daysBorrowed)
    }

    /** `new Book(title, author, pageCount)`: takes the next id. */
    constructor Book(title: string, author: string, pageCount: Int32, counters: Counters)
      modifies counters
      ensures id == old(counters.nextId) && counters.nextId == Wrap(old(counters.nextId) + 1)
      ensures counters.nextIssue == old(counters.nextIssue)
      ensures this.title == title && this.author == author && kind == Kind.Book(pageCount)
      ensures Loan() == Shelved
    {
      id := counters.nextId;
      counters.nextId := Wrap(counters.nextId + 1);
      this.title, this.author := title, author;
      available, daysBorrowed := true, 0;
      borrowDurationDays := 0;
      kind := Kind.Book(pageCount);
    }

    /** `new AudioBook(title, author)`: takes the next id. */
    constructor AudioBook(title: string, author: string, counters: Counters)
      modifies counters
      ensures id == old(counters.nextId) && counters.nextId == Wrap(old(counters.nextId) + 1)
      ensures counters.nextIssue == old(counters.nextIssue)
      ensures this.title == title && this.author == author && kind == Kind.AudioBook
      ensures Loan() == Shelved
    {
      id := counters.nextId;
      counters.nextId := Wrap(counters.nextId + 1);
      this.title, this.author := title, author;
      available, daysBorrowed := true, 0;
      borrowDurationDays := 0;
      kind := Kind.AudioBook;
    }

    /** `new EMagazine(title, author)`: takes the next id and the next issue
        number, each from its own counter. */
    constructor EMagazine(title: string, author: string, counters: Counters)
      modifies counters
      ensures id == old(counters.nextId) && counters.nextId == Wrap(old(counters.nextId) + 1)
      ensures kind == Kind.EMagazine(old(counters.nextIssue))
      ensures counters.nextIssue == Wrap(old(counters.nextIssue) + 1)
      ensures this.title == title && this.author == author
      ensures Loan() == Shelved
    {
      id := counters.nextId;
      counters.nextId := Wrap(counters.nextId + 1);
      this.title, this.author := title, author;
      available, daysBorrowed := true, 0;
      borrowDurationDays := 0;
      kind := Kind.EMagazine(counters.nextIssue);
      counters.nextIssue := Wrap(counters.nextIssue + 1);
    }

    /** `borrow(durationDays)`. An item already out is reported as such and
        then borrowed again anyway: main.java has no early return. */
    method Borrow(durationDays: Int32)
      modifies this
      ensures !available && borrowDurationDays == durationDays && daysBorrowed == 0
      ensures Loan() == Borrowed(durationDays)
    {
      borrowDurationDays := durationDays;
      daysBorrowed := 0;
      available := false;
    }

    /** `advanceDay()`: one more day on the counter of a borrowed item. */
    method AdvanceDay()
      modifies this
      ensures Loan() == Advanced(old(Loan()))
      ensures old(available) ==> Loan() == old(Loan())
      ensures !old(available) && old(daysBorrowed) < MAX ==> daysBorrowed == old(daysBorrowed) + 1
    {
      if !available {
        daysBorrowed := Wrap(daysBorrowed + 1);
      }
    }

    /** `getOverdueDays()`: `max(0, daysBorrowed - borrowDurationDays)` unless
        the Java subtraction overflows, and negative exactly when it does. */
    function GetOverdueDays(): (r: Int32)
      reads this
      ensures daysBorrowed - borrowDurationDays <= MAX ==> r == Max(0, daysBorrowed - borrowDurationDays)
      ensures r < 0 <==> daysBorrowed - borrowDurationDays > MAX
    {
      OverdueDays(Loan())
    }

    /** `return(fines, fineRate)`. The Java map is shared with the caller; here
        the updated ledger is handed back. An item on the shelf is reported
        and nothing changes. */
    method Return(fines: Ledger, fineRate: int) returns (finesAfter: Ledger)
      modifies this
      ensures Loan() == Returned(old(Loan()))
      ensures finesAfter == FinesOnReturn(fines, id, old(Loan()), fineRate)
      ensures available
      ensures old(available) ==> Loan() == old(Loan()) && finesAfter == fines
      ensures !old(available) && old(GetOverdueDays()) > 0 ==>
                finesAfter == fines[id := old(GetOverdueDays()) * fineRate]
    {
      finesAfter := fines;
      if available {
        return;
      }
      var overdue := GetOverdueDays();
      if overdue > 0 {
        var fine := overdue * fineRate;
        finesAfter := finesAfter[id := fine];
      }
      available := true;
    }
  }

  /** Three items made one after another, as the catalogue is built, get
      consecutive ids; the magazine's issue number comes from its own
      counter. */
  method BuildInOrder(counters: Counters, title: string, author: string, pageCount: Int32) returns (b: Item, a: Item, m: Item)
    requires counters.nextId <= MAX - 3
    modifies counters
    ensures a.id == b.id + 1 && m.id == a.id + 1
    ensures b.id == old(counters.nextId) && counters.nextId == old(counters.nextId) + 3
    ensures m.kind == Kind.EMagazine(old(counters.nextIssue))
    ensures b.Loan() == Shelved && a.Loan() == Shelved && m.Loan() == Shelved
  {
    b := new Item.Book(title, author, pageCount, counters);
    a := new Item.AudioBook(title, author, counters);
    m := new Item.EMagazine(title, author, counters);
  }
}
