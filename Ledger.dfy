/** The transaction ledger as a value: its records, the figures the query routes
    derive from it (each a function defined record by record, in ledger order),
    the rent arithmetic of a return, and what issuing and returning do to those
    figures. Dates are timestamps in whole seconds. */
module Ledger {
  import opened Common

  const SecondsPerDay: int := 86400

  /** One transaction document. `returned` and `rent` are the two fields a return
      adds (stored under the keys "return_book" and "rent"); an issue leaves both out. */
  datatype Transaction = Transaction(book: string, person: string, issued: int,
                                     returned: Option<int>, rent: Option<int>)
  {
    /** A record the status query counts as still issued: it has no return date. */
    predicate IsOpen() {
      returned.None?
    }

    /** Return date and rent are present together or absent together. */
    predicate Consistent() {
      returned.Some? == rent.Some?
    }

    /** This record with a return date and a rent written into it. */
    function Closing(date: int, amount: int): Transaction {
      this.(returned := Some(date), rent := Some(amount))
    }
  }

  /** A freshly issued record. */
  function Opened(book: string, person: string, date: int): Transaction {
    Transaction(book, person, date, None, None)
  }

  /** One entry of a date-range answer: "book name" and "issued person". */
  datatype Issued = Issued(book: string, person: string)

  /** A status answer: how many records of the book are returned, and who holds
      the open ones. */
  datatype Status = Status(closed: nat, open: seq<string>)

  ghost predicate AllConsistent(l: seq<Transaction>) {
    forall i :: 0 <= i < |l| ==> l[i].Consistent()
  }

  // ---------------------------------------------------------------------------
  // Rent arithmetic

  /** `timedelta.days`: whole days in a span of seconds, rounded toward minus
      infinity, so a span of minus one second is minus one day. */
  function WholeDays(seconds: int): (days: int)
    ensures days * SecondsPerDay <= seconds < days * SecondsPerDay + SecondsPerDay
  {
    seconds / SecondsPerDay
  }

  /** The rent a return writes: whole days between issue and return times the
      rate, with no clamping of a return dated before its issue. */
  function RentFor(issued: int, returned: int, rate: int): (amount: int)
    ensures 0 <= returned - issued < SecondsPerDay ==> amount == 0
    ensures returned >= issued && rate >= 0 ==> amount >= 0
    ensures returned < issued && rate > 0 ==> amount < 0
  {
    var days := WholeDays(returned - issued);
    assert returned >= issued ==> days >= 0;
    assert returned < issued ==> days < 0;
    days * rate
  }

  /** Whole days are charged exactly: a loan of `days` days costs days * rate,
      whatever the time of day of the issue. */
  lemma RentForWholeDays(issued: int, days: int, extra: int, rate: int)
    requires 0 <= extra < SecondsPerDay
    ensures RentFor(issued, issued + days * SecondsPerDay + extra, rate) == days * rate
  {
  }

  // ---------------------------------------------------------------------------
  // Record lookups

  /** The index of the first record of `book` borrowed by `person`, open or not;
      None when there is none. */
  function FirstMatch(l: seq<Transaction>, book: string, person: string): (r: Option<nat>)
    ensures r.None? <==> forall i :: 0 <= i < |l| ==> !(l[i].book == book && l[i].person == person)
    ensures r.Some? ==> r.value < |l| && l[r.value].book == book && l[r.value].person == person
    ensures r.Some? ==> forall j :: 0 <= j < r.value ==> !(l[j].book == book && l[j].person == person)
  {
    if l == [] then None
    else if l[0].book == book && l[0].person == person then Some(0)
    else match FirstMatch(l[1..], book, person)
      case None => None
      case Some(k) => Some(k + 1)
  }

  /** The records of `book`, in ledger order. */
  function ForBook(l: seq<Transaction>, book: string): (r: seq<Transaction>)
    ensures |r| <= |l|
    ensures forall t :: t in r <==> t in l && t.book == book
  {
    if l == [] then []
    else
      var init, last := l[..|l| - 1], l[|l| - 1];
      assert l == init + [last];
      if last.book == book then ForBook(init, book) + [last] else ForBook(init, book)
  }

  /** The records of `person`, in ledger order. The same filter as ForBook on the
      other name field; the two are kept apart because each mirrors one query's
      own selector (by book at index.py:135, by person at index.py:161). */
  function ForPerson(l: seq<Transaction>, person: string): (r: seq<Transaction>)
    ensures |r| <= |l|
    ensures forall t :: t in r <==> t in l && t.person == person
  {
    if l == [] then []
    else
      var init, last := l[..|l| - 1], l[|l| - 1];
      assert l == init + [last];
      if last.person == person then ForPerson(init, person) + [last] else ForPerson(init, person)
  }

  // ---------------------------------------------------------------------------
  // The query figures

  /** The "total_no_of_ppl_issued" count: records of `book` that carry a return date. */
  function ClosedCount(l: seq<Transaction>, book: string): (n: nat)
    ensures n <= |ForBook(l, book)|
  {
    if l == [] then 0
    else
      var last := l[|l| - 1];
      ClosedCount(l[..|l| - 1], book) + if last.book == book && !last.IsOpen() then 1 else 0
  }

  /** The "currently_issued" list: the borrower of each record of `book` that has
      no return date, in ledger order. */
  function OpenBorrowers(l: seq<Transaction>, book: string): (r: seq<string>)
    ensures forall p :: p in r <==> exists t :: t in l && t.book == book && t.IsOpen() && t.person == p
  {
    if l == [] then []
    else
      var init, last := l[..|l| - 1], l[|l| - 1];
      assert l == init + [last];
      if last.book == book && last.IsOpen() then OpenBorrowers(init, book) + [last.person]
      else OpenBorrowers(init, book)
  }

  /** The rent generated by `book`: the sum of the rent of its records that carry one. */
  function RentTotal(l: seq<Transaction>, book: string): (total: int)
    ensures (forall t :: t in l && t.book == book && t.rent.Some? ==> t.rent.value >= 0) ==> total >= 0
  {
    if l == [] then 0
    else
      var init, last := l[..|l| - 1], l[|l| - 1];
      assert l == init + [last];
      RentTotal(init, book) + if last.book == book then last.rent.GetOr(0) else 0
  }

  /** The "books_issued_to_person" list: the book of every record of `person`, in
      ledger order. */
  function BooksOf(l: seq<Transaction>, person: string): (r: seq<string>)
    ensures forall b :: b in r <==> exists t :: t in l && t.person == person && t.book == b
  {
    if l == [] then []
    else
      var init, last := l[..|l| - 1], l[|l| - 1];
      assert l == init + [last];
      if last.person == person then BooksOf(init, person) + [last.book] else BooksOf(init, person)
  }

  /** The "books_issued" list: book and borrower of every record issued between
      `start` and `finish`, both included, in ledger order. */
  function IssuedBetween(l: seq<Transaction>, start: int, finish: int): (r: seq<Issued>)
    ensures forall e :: e in r <==>
              exists t :: t in l && start <= t.issued <= finish && e == Issued(t.book, t.person)
  {
    if l == [] then []
    else
      var init, last := l[..|l| - 1], l[|l| - 1];
      assert l == init + [last];
      if start <= last.issued <= finish then IssuedBetween(init, start, finish) + [Issued(last.book, last.person)]
      else IssuedBetween(init, start, finish)
  }

  // ---------------------------------------------------------------------------
  // Properties of the query figures

  /** Every record of a book is either counted as returned or listed as open. */
  lemma {:induction false} StatusPartition(l: seq<Transaction>, book: string)
    ensures ClosedCount(l, book) + |OpenBorrowers(l, book)| == |ForBook(l, book)|
  {
    if l != [] {
      StatusPartition(l[..|l| - 1], book);
    }
  }

  /** A book without records has generated no rent. */
  lemma {:induction false} RentWithoutRecords(l: seq<Transaction>, book: string)
    requires ForBook(l, book) == []
    ensures RentTotal(l, book) == 0
  {
    if l != [] {
      var init, last := l[..|l| - 1], l[|l| - 1];
      assert l == init + [last];
      assert last in l;
      RentWithoutRecords(init, book);
    }
  }

  /** The rent total is the sum of the rents of the book's own records. */
  lemma {:induction false} RentTotalOfForBook(l: seq<Transaction>, book: string)
    ensures RentTotal(l, book) == RentTotal(ForBook(l, book), book)
  {
    if l != [] {
      var init, last := l[..|l| - 1], l[|l| - 1];
      RentTotalOfForBook(init, book);
      var f := ForBook(init, book);
      if last.book == book {
        assert (f + [last])[..|f|] == f;
      }
    }
  }

  /** The rent of the book's records that carry a return date, the records the
      status query counts as returned. */
  function ReturnedRent(l: seq<Transaction>, book: string): int {
    if l == [] then 0
    else
      var last := l[|l| - 1];
      ReturnedRent(l[..|l| - 1], book) + if last.book == book && !last.IsOpen() then last.rent.GetOr(0) else 0
  }

  /** When return date and rent are always written together, the rent query and
      the status query agree on which records are returned: the rent generated
      is the sum over exactly the records counted as returned. */
  lemma {:induction false} RentOverReturned(l: seq<Transaction>, book: string)
    requires AllConsistent(l)
    ensures RentTotal(l, book) == ReturnedRent(l, book)
  {
    if l != [] {
      var init, last := l[..|l| - 1], l[|l| - 1];
      assert last.Consistent();
      assert AllConsistent(init) by {
        forall i | 0 <= i < |init| ensures init[i].Consistent() {
          assert init[i] == l[i];
        }
      }
      RentOverReturned(init, book);
    }
  }

  /** So a book none of whose records is returned has generated no rent. */
  lemma {:induction false} NoReturnsNoRent(l: seq<Transaction>, book: string)
    requires AllConsistent(l) && ClosedCount(l, book) == 0
    ensures RentTotal(l, book) == 0
  {
    if l != [] {
      var init, last := l[..|l| - 1], l[|l| - 1];
      assert last.Consistent();
      assert AllConsistent(init) by {
        forall i | 0 <= i < |init| ensures init[i].Consistent() {
          assert init[i] == l[i];
        }
      }
      NoReturnsNoRent(init, book);
    }
  }

  /** A person's history has one entry per record of theirs, naming its book. */
  lemma {:induction false} HistoryMatchesRecords(l: seq<Transaction>, person: string)
    ensures |BooksOf(l, person)| == |ForPerson(l, person)|
    ensures forall i :: 0 <= i < |BooksOf(l, person)| ==> BooksOf(l, person)[i] == ForPerson(l, person)[i].book
  {
    if l != [] {
      HistoryMatchesRecords(l[..|l| - 1], person);
    }
  }

  /** An empty window, start after finish, selects nothing. */
  lemma {:induction false} EmptyWindow(l: seq<Transaction>, start: int, finish: int)
    requires start > finish
    ensures IssuedBetween(l, start, finish) == []
  {
    if l != [] {
      EmptyWindow(l[..|l| - 1], start, finish);
    }
  }

  // Ledger order: each list answer over a ledger split in two is the answer over
  // the first part followed by the answer over the second.

  lemma {:induction false} OpenBorrowersConcat(a: seq<Transaction>, b: seq<Transaction>, book: string)
    ensures OpenBorrowers(a + b, book) == OpenBorrowers(a, book) + OpenBorrowers(b, book)
  {
    if b == [] {
      assert a + b == a;
    } else {
      assert (a + b)[..|a + b| - 1] == a + b[..|b| - 1];
      OpenBorrowersConcat(a, b[..|b| - 1], book);
    }
  }

  lemma {:induction false} BooksOfConcat(a: seq<Transaction>, b: seq<Transaction>, person: string)
    ensures BooksOf(a + b, person) == BooksOf(a, person) + BooksOf(b, person)
  {
    if b == [] {
      assert a + b == a;
    } else {
      assert (a + b)[..|a + b| - 1] == a + b[..|b| - 1];
      BooksOfConcat(a, b[..|b| - 1], person);
    }
  }

  lemma {:induction false} IssuedBetweenConcat(a: seq<Transaction>, b: seq<Transaction>, start: int, finish: int)
    ensures IssuedBetween(a + b, start, finish) == IssuedBetween(a, start, finish) + IssuedBetween(b, start, finish)
  {
    if b == [] {
      assert a + b == a;
    } else {
      assert (a + b)[..|a + b| - 1] == a + b[..|b| - 1];
      IssuedBetweenConcat(a, b[..|b| - 1], start, finish);
    }
  }

  // ---------------------------------------------------------------------------
  // What an issue does to the figures

  /** Appending an open record adds its borrower to that book's open list and its
      book to that person's history, and changes no returned count and no rent. */
  lemma AppendOpen(l: seq<Transaction>, t: Transaction, book: string, person: string)
    requires t.IsOpen() && t.rent.None?
    ensures ClosedCount(l + [t], book) == ClosedCount(l, book)
    ensures OpenBorrowers(l + [t], book) == OpenBorrowers(l, book) + if t.book == book then [t.person] else []
    ensures RentTotal(l + [t], book) == RentTotal(l, book)
    ensures BooksOf(l + [t], person) == BooksOf(l, person) + if t.person == person then [t.book] else []
  {
  }

  // ---------------------------------------------------------------------------
  // What a return does to the figures: the record at k gets a return date and a
  // rent; book, person and issue date stay, so no list but the open list moves.

  lemma {:induction false} CloseKeepsHistory(l: seq<Transaction>, k: nat, date: int, amount: int, person: string)
    requires k < |l|
    ensures BooksOf(l[k := l[k].Closing(date, amount)], person) == BooksOf(l, person)
  {
    var l' := l[k := l[k].Closing(date, amount)];
    var n := |l|;
    if k == n - 1 {
      assert l'[..n - 1] == l[..n - 1];
    } else {
      assert l'[..n - 1] == l[..n - 1][k := l[k].Closing(date, amount)];
      CloseKeepsHistory(l[..n - 1], k, date, amount, person);
    }
  }

  lemma {:induction false} CloseKeepsWindow(l: seq<Transaction>, k: nat, date: int, amount: int, start: int, finish: int)
    requires k < |l|
    ensures IssuedBetween(l[k := l[k].Closing(date, amount)], start, finish) == IssuedBetween(l, start, finish)
  {
    var l' := l[k := l[k].Closing(date, amount)];
    var n := |l|;
    if k == n - 1 {
      assert l'[..n - 1] == l[..n - 1];
    } else {
      assert l'[..n - 1] == l[..n - 1][k := l[k].Closing(date, amount)];
      CloseKeepsWindow(l[..n - 1], k, date, amount, start, finish);
    }
  }

  /** A return leaves the number of records of every book as it was. */
  lemma {:induction false} CloseKeepsRecordCount(l: seq<Transaction>, k: nat, date: int, amount: int, book: string)
    requires k < |l|
    ensures |ForBook(l[k := l[k].Closing(date, amount)], book)| == |ForBook(l, book)|
  {
    var l' := l[k := l[k].Closing(date, amount)];
    var n := |l|;
    if k == n - 1 {
      assert l'[..n - 1] == l[..n - 1];
    } else {
      assert l'[..n - 1] == l[..n - 1][k := l[k].Closing(date, amount)];
      CloseKeepsRecordCount(l[..n - 1], k, date, amount, book);
    }
  }

  /** The returned count of the record's book goes up by one if the record was
      open and stays if it was already returned; its open list shrinks to match. */
  lemma {:induction false} CloseStatus(l: seq<Transaction>, k: nat, date: int, amount: int, book: string)
    requires k < |l|
    ensures ClosedCount(l[k := l[k].Closing(date, amount)], book)
            == ClosedCount(l, book) + if l[k].book == book && l[k].IsOpen() then 1 else 0
    ensures |OpenBorrowers(l[k := l[k].Closing(date, amount)], book)|
            == |OpenBorrowers(l, book)| - if l[k].book == book && l[k].IsOpen() then 1 else 0
  {
    var l' := l[k := l[k].Closing(date, amount)];
    var n := |l|;
    if k == n - 1 {
      assert l'[..n - 1] == l[..n - 1];
    } else {
      assert l'[..n - 1] == l[..n - 1][k := l[k].Closing(date, amount)];
      CloseStatus(l[..n - 1], k, date, amount, book);
    }
  }

  /** The rent total of the record's book changes by the new rent less whatever
      rent the record carried before; other books are unaffected. */
  lemma {:induction false} CloseRent(l: seq<Transaction>, k: nat, date: int, amount: int, book: string)
    requires k < |l|
    ensures RentTotal(l[k := l[k].Closing(date, amount)], book)
            == RentTotal(l, book) + if l[k].book == book then amount - l[k].rent.GetOr(0) else 0
  {
    var l' := l[k := l[k].Closing(date, amount)];
    var n := |l|;
    if k == n - 1 {
      assert l'[..n - 1] == l[..n - 1];
    } else {
      assert l'[..n - 1] == l[..n - 1][k := l[k].Closing(date, amount)];
      CloseRent(l[..n - 1], k, date, amount, book);
    }
  }
}
