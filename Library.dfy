/** The rental service's state and its route handlers. A `Store` holds the two
    collections in memory: the catalog of books and the ledger of transactions.
    Issuing appends to the ledger, returning rewrites one record in place, and the
    four queries walk the ledger accumulating their answer. */
module Library {
  import opened Common
  import opened Requests
  import opened Catalog
  import opened Ledger

  class Store {
    var books: seq<Book>
    var transactions: seq<Transaction>

    /** Every record is open (no return date, no rent) or closed (both). */
    ghost predicate Valid()
      reads this
    {
      AllConsistent(transactions)
    }

    /** An empty database. */
    constructor ()
      ensures Valid() && books == [] && transactions == []
    {
      books, transactions := [], [];
    }

    /** Seeding: inserts the twenty sample books after whatever the catalog holds,
        so seeding twice lists every sample name twice. */
    method PushIntoDb() returns (r: Result<()>)
      requires Valid()
      modifies this
      ensures Valid() && r == Ok(())
      ensures books == old(books) + SampleBooks() && transactions == old(transactions)
    {
      books := books + SampleBooks();
      r := Ok(());
    }

    /** Issue: once the request is read, appends one open record and nothing else.
        It checks neither the catalog nor whether the book is already out. */
    method IssueBook(req: Fields, parse: DateParser) returns (r: Result<()>)
      requires Valid()
      modifies this
      ensures Valid() && books == old(books)
      ensures match ReadTransfer(req, IssueDateKey, parse)
              case Err(f) => r == Err(f) && transactions == old(transactions)
              case Ok(x) => r == Ok(()) && transactions == old(transactions) + [Opened(x.book, x.person, x.date)]
      ensures forall b :: RentTotal(transactions, b) == RentTotal(old(transactions), b)
      ensures forall b :: ClosedCount(transactions, b) == ClosedCount(old(transactions), b)
    {
      var q := ReadTransfer(req, IssueDateKey, parse);
      match q
      case Err(f) =>
        r := Err(f);
      case Ok(x) =>
        var t := Opened(x.book, x.person, x.date);
        forall b
          ensures RentTotal(transactions + [t], b) == RentTotal(transactions, b)
          ensures ClosedCount(transactions + [t], b) == ClosedCount(transactions, b)
        {
          AppendOpen(transactions, t, b, x.person);
        }
        transactions := transactions + [t];
        r := Ok(());
    }

    /** Return: once the request is read, finds the first record of the book and
        the person, open or already returned, prices it from the first catalog
        entry of the book, and writes the return date and the rent into that one
        record. A missing record is answered with 400; a missing catalog entry
        raises; neither writes anything. */
    method ReturnBook(req: Fields, parse: DateParser) returns (r: Result<()>)
      requires Valid()
      modifies this
      ensures Valid() && books == old(books)
      ensures var q := ReadTransfer(req, ReturnDateKey, parse);
              var l := old(transactions);
              if q.Err? then r == Err(q.failure) && transactions == l
              else match FirstMatch(l, q.value.book, q.value.person)
                case None => r == Err(BadRequest(RecordNotFound)) && transactions == l
                case Some(k) =>
                  match RateOf(books, q.value.book)
                  case None => r == Err(Raised(TypeError)) && transactions == l
                  case Some(rate) =>
                    r == Ok(()) &&
                    transactions == l[k := l[k].Closing(q.value.date, RentFor(l[k].issued, q.value.date, rate))]
      ensures |transactions| == |old(transactions)|
      ensures forall p :: BooksOf(transactions, p) == BooksOf(old(transactions), p)
      ensures forall s, f :: IssuedBetween(transactions, s, f) == IssuedBetween(old(transactions), s, f)
    {
      var q := ReadTransfer(req, ReturnDateKey, parse);
      if q.Err? {
        return Err(q.failure);
      }
      var x := q.value;
      var found := FirstMatch(transactions, x.book, x.person);
      if found.None? {
        return Err(BadRequest(RecordNotFound));
      }
      var k := found.value;
      var rate := RateOf(books, x.book);
      if rate.None? {
        return Err(Raised(TypeError));
      }
      var l := transactions;
      var amount := RentFor(l[k].issued, x.date, rate.value);
      forall p ensures BooksOf(l[k := l[k].Closing(x.date, amount)], p) == BooksOf(l, p) {
        CloseKeepsHistory(l, k, x.date, amount, p);
      }
      forall s, f ensures IssuedBetween(l[k := l[k].Closing(x.date, amount)], s, f) == IssuedBetween(l, s, f) {
        CloseKeepsWindow(l, k, x.date, amount, s, f);
      }
      transactions := l[k := l[k].Closing(x.date, amount)];
      r := Ok(());
    }

    /** Status by book: the returned count and the open borrowers of the book. */
    method StatusByBook(args: Fields) returns (r: Result<Status>)
      ensures match ReadName(args, BookKey)
              case Err(f) => r == Err(f)
              case Ok(b) => r == Ok(Status(ClosedCount(transactions, b), OpenBorrowers(transactions, b)))
    {
      var name := ReadName(args, BookKey);
      if name.Err? {
        return Err(name.failure);
      }
      var b := name.value;
      var closed: nat, open := 0, [];
      var i := 0;
      while i < |transactions|
        invariant i <= |transactions|
        invariant closed == ClosedCount(transactions[..i], b)
        invariant open == OpenBorrowers(transactions[..i], b)
      {
        var t := transactions[i];
        ghost var done := transactions[..i + 1];
        assert done[..i] == transactions[..i] && done[i] == t;
        if t.book == b {
          if !t.IsOpen() {
            closed := closed + 1;
          } else {
            open := open + [t.person];
          }
        }
        assert closed == ClosedCount(done, b);
        assert open == OpenBorrowers(done, b);
        i := i + 1;
      }
      assert transactions[..i] == transactions;
      r := Ok(Status(closed, open));
    }

    /** Rent generated by a book: the sum of the rents its records carry. */
    method RentGenerated(args: Fields) returns (r: Result<int>)
      ensures match ReadName(args, BookKey)
              case Err(f) => r == Err(f)
              case Ok(b) => r == Ok(RentTotal(transactions, b))
    {
      var name := ReadName(args, BookKey);
      if name.Err? {
        return Err(name.failure);
      }
      var b := name.value;
      var total := 0;
      var i := 0;
      while i < |transactions|
        invariant i <= |transactions|
        invariant total == RentTotal(transactions[..i], b)
      {
        var t := transactions[i];
        if t.book == b && t.rent.Some? {
          total := total + t.rent.value;
        }
        assert transactions[..i + 1][..i] == transactions[..i];
        i := i + 1;
      }
      assert transactions[..i] == transactions;
      r := Ok(total);
    }

    /** History by person: the book of each of the person's records. */
    method BooksIssuedTo(args: Fields) returns (r: Result<seq<string>>)
      ensures match ReadName(args, PersonKey)
              case Err(f) => r == Err(f)
              case Ok(p) => r == Ok(BooksOf(transactions, p))
    {
      var name := ReadName(args, PersonKey);
      if name.Err? {
        return Err(name.failure);
      }
      var p := name.value;
      var issued := [];
      var i := 0;
      while i < |transactions|
        invariant i <= |transactions|
        invariant issued == BooksOf(transactions[..i], p)
      {
        var t := transactions[i];
        if t.person == p {
          issued := issued + [t.book];
        }
        assert transactions[..i + 1][..i] == transactions[..i];
        i := i + 1;
      }
      assert transactions[..i] == transactions;
      r := Ok(issued);
    }

    /** Date range: book and borrower of every record issued within the window,
        both ends included. */
    method IssuedInRange(args: Fields, parse: DateParser) returns (r: Result<seq<Issued>>)
      ensures match ReadPeriod(args, parse)
              case Err(f) => r == Err(f)
              case Ok(w) => r == Ok(IssuedBetween(transactions, w.start, w.finish))
    {
      var window := ReadPeriod(args, parse);
      if window.Err? {
        return Err(window.failure);
      }
      var w := window.value;
      var found := [];
      var i := 0;
      while i < |transactions|
        invariant i <= |transactions|
        invariant found == IssuedBetween(transactions[..i], w.start, w.finish)
      {
        var t := transactions[i];
        if w.start <= t.issued <= w.finish {
          found := found + [Issued(t.book, t.person)];
        }
        assert transactions[..i + 1][..i] == transactions[..i];
        i := i + 1;
      }
      assert transactions[..i] == transactions;
      r := Ok(found);
    }
  }
}

/** A client of the store: the rent of a three-day loan of "name01" (4 per day),
    then a second return of the same pair, which prices the same first record
    again, this time with a return date before the issue date. */
module Scenario {
  import opened Common
  import opened Requests
  import opened Ledger
  import opened Library

  const Jan1: int := 1704067200  // 2024-01-01T00:00:00, in seconds

  function ParseSample(text: string): Option<int> {
    if text == "2024-01-01" then Some(Jan1)
    else if text == "2024-01-04" then Some(Jan1 + 3 * SecondsPerDay)
    else if text == "2023-12-31" then Some(Jan1 - SecondsPerDay)
    else None
  }

  method ThreeDayLoan() {
    var store := new Store();
    var _ := store.PushIntoDb();
    var issue := map[BookKey := "name01", PersonKey := "alice", IssueDateKey := "2024-01-01"];
    var r := store.IssueBook(issue, ParseSample);
    assert r == Ok(());
    var ret := map[BookKey := "name01", PersonKey := "alice", ReturnDateKey := "2024-01-04"];
    r := store.ReturnBook(ret, ParseSample);
    assert store.transactions[0].rent == Some(12);
    var total := store.RentGenerated(map[BookKey := "name01"]);
    assert total == Ok(12);
  }

  method UnparsableIssueDate() {
    var store := new Store();
    var badDate := map[BookKey := "name01", PersonKey := "alice", IssueDateKey := "13/01/2024"];
    var r := store.IssueBook(badDate, ParseSample);
    assert r == Err(BadRequest(UnparsableDate)) && store.transactions == [];
  }

  method RepeatedReturn() {
    var store := new Store();
    var _ := store.PushIntoDb();
    var issue := map[BookKey := "name01", PersonKey := "alice", IssueDateKey := "2024-01-01"];
    var r := store.IssueBook(issue, ParseSample);
    var ret := map[BookKey := "name01", PersonKey := "alice", ReturnDateKey := "2024-01-04"];
    r := store.ReturnBook(ret, ParseSample);
    var early := map[BookKey := "name01", PersonKey := "alice", ReturnDateKey := "2023-12-31"];
    r := store.ReturnBook(early, ParseSample);
    assert r == Ok(()) && |store.transactions| == 1;
    assert store.transactions[0].rent == Some(-4);
    var nobody := map[BookKey := "name01", PersonKey := "bob", ReturnDateKey := "2024-01-04"];
    r := store.ReturnBook(nobody, ParseSample);
    assert r == Err(BadRequest(RecordNotFound));
  }
}
