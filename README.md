# Book-rental ledger

A model of the record-keeping core of a small Flask and MongoDB book-rental
service (`index.py`). The service keeps two collections. The catalog holds
books, each with a name, a category and a rent per day. The transaction ledger
holds loans. Issuing a book appends an open record: book name, person name and
issue date. Returning a book finds a record for the book and the person. The
return prices that record from the catalog and writes a return date and a rent
into it. Four queries read the ledger:

- status by book: how many of its records are returned, and who holds the open ones;
- rent generated by a book;
- the books a person has borrowed;
- the records issued within a date range.

The model holds both collections in memory, in a class `Library.Store` with two
sequence fields. Issue and return are methods that change those fields. Each
query is a loop that builds its answer record by record. Each loop is proved
equal to a function of the ledger in module `Ledger`. Lemmas there state what
the figures mean and how issue and return change them.

Modules:

- `Common`: `Option`, and `Result`, the outcome of a handler. A handler either
  delivers its payload, answers 400 itself (`BadRequest`), or raises an uncaught
  exception (`Raised`).
- `Requests`: reading the request fields in the order each handler reads them.
- `Catalog`: books, the seeding data, and the rate lookup used by a return.
- `Ledger`: transaction records, the query figures, the rent arithmetic, and
  lemmas.
- `Library`: the `Store` class with the route handlers, and a client scenario
  (module `Scenario`).

Dates are whole seconds. `timedelta.days` is floor division of the difference
by 86400. Dafny's `/` computes it for a positive divisor.

The model follows the code as written, including where the code differs from
a stricter rewrite:

- The missing-parameter guards join their tests with `and`. So a handler
  answers "missing parameters" only when every required field is absent. When
  only some fields are missing, the first missing one read raises `KeyError`,
  unless a date that is present fails to parse first, which answers 400.
  Nothing has been written at that point.
- A return is not limited to open records. It takes the first record of the
  (book, person) pair in ledger order. So a second return prices that same
  record again. The return never fails with "already returned".
- Rent is not clamped. A return dated before its issue gives a negative rent.
- If the book is missing from the catalog, the return raises `TypeError` before
  writing anything. The cause is subscripting `None`.
- Issuing checks neither the catalog nor whether the book is already out.
- Every list answer (open borrowers, a person's history, a date range) is in
  ledger order.

## Model

| member | source | states |
|---|---|---|
| `Requests.ReadTransfer` | index.py:92-103 | "Missing parameters" exactly when book, person and date are all absent. "Unparsable date" exactly when the date is present and does not parse. Success exactly when all three are present and the date parses, and then the three fields are delivered. A `KeyError` on the date exactly when the date is absent but book or person is present. A `KeyError` on the book name exactly when the date parses and the book is absent. A `KeyError` on the person name exactly when the date parses, the book is present and the person is absent. No other failure is possible. A return reads its fields in the same order (index.py:111-118) |
| `Requests.ReadName` | index.py:131-133 | A query succeeds exactly when its name parameter is present, and delivers that value. Otherwise it answers "missing parameters". The rent and history queries (index.py:144-146, 157-159) use the same guard |
| `Requests.ReadPeriod` | index.py:168-179 | "Missing parameters" only when both bounds are absent. A request with only a start raises `KeyError("end_date")`. A request with a parseable end and no start raises `KeyError("start_date")`. "Unparsable date" exactly when the end is present and does not parse, or when it parses and the start is present and does not parse. No other failure is possible. Success exactly when both bounds are present and parse, and then the parsed (start, end) is delivered |
| `Catalog.SampleBooks` | index.py:39-60 | The seeding data has twenty books. Every rate is between 1 and 4. No two books share a name |
| `Catalog.RateOf` | index.py:123 | None exactly when no catalog entry has the name. Otherwise it is the rate of an entry with that name, and no earlier entry has the name: the first match wins |
| `Catalog.RateOfAppend` | index.py:61 | Inserting more books after a catalog never changes the rate of a name the catalog already has. Seeding twice therefore keeps the first prices. A name the catalog lacks is priced from the added books |
| `Ledger.WholeDays` | index.py:122 | The result d is the floor of seconds / 86400: d·86400 ≤ seconds < d·86400 + 86400, so negative spans round down |
| `Ledger.RentFor` | index.py:122-124 | The rent is 0 when less than a full day elapsed. It is non-negative when the return is not before the issue and the rate is non-negative. It is negative when the return is before the issue and the rate is positive |
| `Ledger.RentForWholeDays` | index.py:122-124 | A loan of `days` whole days plus less than a day costs exactly days × rate |
| `Ledger.FirstMatch` | index.py:118 | None exactly when no record has the book and the person. Otherwise an index of a record that has them, with no earlier record that has them. Whether the record is open plays no part |
| `Ledger.ForBook` | index.py:135 | The records of a book: exactly the ledger records with that book name, and never more than the ledger holds |
| `Ledger.ForPerson` | index.py:161 | The records of a person: exactly the ledger records with that person name |
| `Ledger.ClosedCount` | index.py:136-137 | The returned count never exceeds the number of records of the book |
| `Ledger.OpenBorrowers` | index.py:136-138 | A name is among the open borrowers exactly when some open record of the book has that borrower |
| `Ledger.RentTotal` | index.py:148-151 | The total is non-negative when every rent that the book's records carry is non-negative |
| `Ledger.BooksOf` | index.py:161-162 | A book is in a person's history exactly when some record of that person names it |
| `Ledger.IssuedBetween` | index.py:181-184 | A (book, person) pair is in the answer exactly when some record with that book and person was issued at or after the start and at or before the end. Both bounds are included |
| `Ledger.StatusPartition` | index.py:135-139 | The returned count plus the number of open borrowers equals the number of records of the book |
| `Ledger.RentWithoutRecords` | index.py:144-152 | A book with no records has generated a rent of 0 |
| `Ledger.RentTotalOfForBook` | index.py:148-151 | The rent generated by a book is the sum over that book's own records. Records of other books never contribute |
| `Ledger.RentOverReturned` | index.py:137-151 | When every record carries a return date exactly when it carries a rent, as issue and return keep it, the rent generated by a book equals the sum of the rents of the records the status query counts as returned |
| `Ledger.NoReturnsNoRent` | index.py:137-151 | Under the same invariant, a book with no returned records has generated a rent of 0 |
| `Ledger.HistoryMatchesRecords` | index.py:161-162 | A person's history has exactly one entry per record of that person. Entry i is the book of the person's i-th record |
| `Ledger.EmptyWindow` | index.py:181 | A window whose start is after its end selects nothing |
| `Ledger.OpenBorrowersConcat` | index.py:135-138 | Ledger order: the open borrowers of a ledger split in two are those of the first part, then those of the second |
| `Ledger.BooksOfConcat` | index.py:161-162 | Ledger order: a person's history over a split ledger is the first part's history, then the second part's |
| `Ledger.IssuedBetweenConcat` | index.py:181-184 | Ledger order: the date-range answer over a split ledger is the first part's answer, then the second part's |
| `Ledger.AppendOpen` | index.py:100-105 | Appending an open record adds its borrower to the end of its book's open list and its book to the end of its person's history. It changes no returned count and no rent total |
| `Ledger.CloseKeepsHistory` | index.py:125 | Writing a return date and rent into one record leaves every person's history unchanged |
| `Ledger.CloseKeepsWindow` | index.py:125 | Writing a return date and rent into one record leaves every date-range answer unchanged |
| `Ledger.CloseKeepsRecordCount` | index.py:125 | After a return, every book has as many records as before |
| `Ledger.CloseStatus` | index.py:125 | After a return, the book's returned count rises by one if the record was open, and stays the same on a repeated return. Its open list shrinks by the same amount |
| `Ledger.CloseRent` | index.py:125 | After a return, the book's rent total changes by the new rent minus the rent the record carried before. A first return adds the rent; a repeated return replaces it. Other books are unaffected |
| `Library.Store.PushIntoDb` | index.py:36-62 | The twenty sample books are appended after the existing catalog. The ledger is unchanged. The reply is a success |
| `Library.Store.IssueBook` | index.py:89-106 | A request that reads successfully appends exactly one open record: that book, person and date, with no return date and no rent. All earlier records are kept. A request that fails to read writes nothing and fails the same way. Every book's rent total and returned count stay the same. Every record stays open or closed as a whole |
| `Library.Store.ReturnBook` | index.py:108-126 | A request that fails to read writes nothing. With no record for the pair, the answer is "record not found" and nothing changes. With no catalog entry for the book, the handler raises `TypeError` and nothing changes. Otherwise exactly the first record of the pair, open or not, gets the return date and `RentFor(issue, return, first catalog rate)`. All other records, and that record's book, person and issue date, are unchanged. The ledger length, every history and every date-range answer are unchanged |
| `Library.Store.StatusByBook` | index.py:128-139 | The loop answers (`ClosedCount`, `OpenBorrowers`) of the named book, or "missing parameters" |
| `Library.Store.RentGenerated` | index.py:141-152 | The loop answers `RentTotal` of the named book, or "missing parameters" |
| `Library.Store.BooksIssuedTo` | index.py:154-163 | The loop answers `BooksOf` the named person, or "missing parameters" |
| `Library.Store.IssuedInRange` | index.py:165-185 | The loop answers `IssuedBetween` the parsed bounds, or the failure the bounds reading gives |

## Left out

- The list route `list_books` (index.py:64-87). It raises before doing anything, because line 67 reads `args` before assigning it. Its name filter is a MongoDB `$regex`, which the model cannot see.
- Application setup, the home page, logging, the environment check, the database connection and the server start (index.py:1-26, 188-189). These are process plumbing.
- ISO-8601 parsing (`datetime.fromisoformat`) is a parameter of type `string -> Option<int>`. The model does not capture the `TypeError` raised when a naive and an aware datetime are subtracted. It does not capture the millisecond truncation of stored dates. It does not capture sub-second parts: dates are whole seconds.
- JSON serialisation (`jsonify`, `dumps`) and `Response` objects. Outcomes are `Result` values. A `KeyError` is modelled as raised in every handler. For a query argument, Flask's `MultiDict` raises a `KeyError` subclass that the framework answers with 400. For a JSON body it becomes a server error.
- Request bodies that are not JSON objects, and field values that are not strings (a number as a date, say). Request fields are modelled as a map from name to text.
- The race between `find_one` and `update_one` in a return (index.py:118, 125), and the `upsert` flag. Each operation is one atomic step on the sequence. The record just found is the one updated.
- MongoDB's natural order. The ledger is a sequence, a query visits it in sequence order, and "first match" is the lowest index.
- Document identifiers (`_id`), which the handlers never expose.
