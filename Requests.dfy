/** How the route handlers read their parameters: the JSON body of a POST or the
    query arguments of a GET, both as a map from field name to text. Each reader
    follows its handler's order of checks, so that a request missing some but not
    all fields fails where the handler fails: the guard in front of each handler
    joins its tests with `and`, and only when every field is absent does it answer
    "missing parameters"; otherwise the first absent field read raises KeyError,
    unless a date that is present fails to parse first, which answers 400. */
module Requests {
  import opened Common

  const BookKey := "book name"
  const PersonKey := "person name"
  const IssueDateKey := "issue date"
  const ReturnDateKey := "return date"
  const StartKey := "start_date"
  const EndKey := "end_date"

  /** The fields of a request, by name. */
  type Fields = map<string, string>

  /** ISO-8601 parsing (`datetime.fromisoformat`): a timestamp in seconds, or
      None where the library raises ValueError. The model takes it as a parameter. */
  type DateParser = string -> Option<int>

  /** The fields of an issue or a return, once read. */
  datatype Transfer = Transfer(book: string, person: string, date: int)

  /** The two bounds of a date-range query, once read. */
  datatype Period = Period(start: int, finish: int)

  /** Reads an issue (dateKey = IssueDateKey) or a return (dateKey = ReturnDateKey):
      the guard, then the date, then the book name, then the person name. */
  function ReadTransfer(req: Fields, dateKey: string, parse: DateParser): (r: Result<Transfer>)
    requires dateKey in {IssueDateKey, ReturnDateKey}
    ensures r == Err(BadRequest(MissingParams)) <==> BookKey !in req && PersonKey !in req && dateKey !in req
    ensures r == Err(BadRequest(UnparsableDate)) <==> dateKey in req && parse(req[dateKey]).None?
    ensures r.Ok? <==> BookKey in req && PersonKey in req && dateKey in req && parse(req[dateKey]).Some?
    ensures r.Ok? ==> r.value == Transfer(req[BookKey], req[PersonKey], parse(req[dateKey]).value)
    ensures r == Err(Raised(KeyError(dateKey))) <==>
              dateKey !in req && (BookKey in req || PersonKey in req)
    ensures r == Err(Raised(KeyError(BookKey))) <==>
              dateKey in req && parse(req[dateKey]).Some? && BookKey !in req
    ensures r == Err(Raised(KeyError(PersonKey))) <==>
              dateKey in req && parse(req[dateKey]).Some? && BookKey in req && PersonKey !in req
    ensures r.Err? ==>
              r.failure in {BadRequest(MissingParams), BadRequest(UnparsableDate),
                            Raised(KeyError(dateKey)), Raised(KeyError(BookKey)), Raised(KeyError(PersonKey))}
  {
    if BookKey !in req && PersonKey !in req && dateKey !in req then Err(BadRequest(MissingParams))
    else if dateKey !in req then Err(Raised(KeyError(dateKey)))
    else match parse(req[dateKey])
      case None => Err(BadRequest(UnparsableDate))
      case Some(date) =>
        if BookKey !in req then Err(Raised(KeyError(BookKey)))
        else if PersonKey !in req then Err(Raised(KeyError(PersonKey)))
        else Ok(Transfer(req[BookKey], req[PersonKey], date))
  }

  /** Reads the one name a status, rent or history query needs. */
  function ReadName(args: Fields, key: string): (r: Result<string>)
    ensures r.Ok? <==> key in args
    ensures r.Ok? ==> r.value == args[key]
    ensures r.Err? ==> r.failure == BadRequest(MissingParams)
  {
    if key !in args then Err(BadRequest(MissingParams)) else Ok(args[key])
  }

  /** Reads a date-range query: the guard, then the end date, then the start date. */
  function ReadPeriod(args: Fields, parse: DateParser): (r: Result<Period>)
    ensures r == Err(BadRequest(MissingParams)) <==> StartKey !in args && EndKey !in args
    ensures r == Err(Raised(KeyError(EndKey))) <==> StartKey in args && EndKey !in args
    ensures r == Err(Raised(KeyError(StartKey))) <==>
              EndKey in args && parse(args[EndKey]).Some? && StartKey !in args
    ensures r == Err(BadRequest(UnparsableDate)) <==>
              EndKey in args && (parse(args[EndKey]).None? || (StartKey in args && parse(args[StartKey]).None?))
    ensures r.Ok? <==>
              StartKey in args && EndKey in args && parse(args[StartKey]).Some? && parse(args[EndKey]).Some?
    ensures r.Err? ==>
              r.failure in {BadRequest(MissingParams), BadRequest(UnparsableDate),
                            Raised(KeyError(EndKey)), Raised(KeyError(StartKey))}
    ensures r.Ok? ==> r.value == Period(parse(args[StartKey]).value, parse(args[EndKey]).value)
  {
    if EndKey !in args && StartKey !in args then Err(BadRequest(MissingParams))
    else if EndKey !in args then Err(Raised(KeyError(EndKey)))
    else match parse(args[EndKey])
      case None => Err(BadRequest(UnparsableDate))
      case Some(finish) =>
        if StartKey !in args then Err(Raised(KeyError(StartKey)))
        else match parse(args[StartKey])
          case None => Err(BadRequest(UnparsableDate))
          case Some(start) => Ok(Period(start, finish))
  }
}
