/** The catalog of rentable books, and the lookup that prices a return. */
module Catalog {
  import opened Common

  /** One catalog document: "book name", "category", "rent per day". */
  datatype Book = Book(name: string, category: string, ratePerDay: int)

  /** The twenty books the seeding route inserts. */
  function SampleBooks(): (s: seq<Book>)
    ensures |s| == 20
    ensures forall i :: 0 <= i < |s| ==> 1 <= s[i].ratePerDay <= 4
    ensures forall i, j :: 0 <= i < j < |s| ==> s[i].name != s[j].name
  {
    [ Book("name01", "g", 4), Book("name02", "m", 2), Book("name03", "a", 3),
      Book("name04", "m", 4), Book("name05", "g", 3), Book("name06", "a", 1),
      Book("name07", "u", 1), Book("name08", "u", 3), Book("name09", "m", 3),
      Book("name10", "g", 3), Book("name11", "t", 1), Book("name12", "u", 4),
      Book("name13", "t", 2), Book("name14", "t", 3), Book("name15", "t", 2),
      Book("name16", "u", 1), Book("name17", "m", 3), Book("name18", "g", 2),
      Book("name19", "m", 3), Book("name20", "m", 2) ]
  }

  /** The "rent per day" of the first catalog entry named `name`, as a
      single-document lookup by name finds it; None when there is no such entry. */
  function RateOf(books: seq<Book>, name: string): (r: Option<int>)
    ensures r.None? <==> forall i :: 0 <= i < |books| ==> books[i].name != name
    ensures r.Some? ==>
              exists i :: 0 <= i < |books| && books[i].name == name && books[i].ratePerDay == r.value &&
                          forall j :: 0 <= j < i ==> books[j].name != name
  {
    if books == [] then None
    else if books[0].name == name then Some(books[0].ratePerDay)
    else
      var r := RateOf(books[1..], name);
      if r.Some? then
        ghost var i :| 0 <= i < |books[1..]| && books[1..][i].name == name && books[1..][i].ratePerDay == r.value &&
                       forall j :: 0 <= j < i ==> books[1..][j].name != name;
        assert books[i + 1].name == name && books[i + 1].ratePerDay == r.value;
        r
      else r
  }

  /** The first entry wins: loading more books after `first` (seeding the catalog a
      second time, say) never changes the rate of a name `first` already has, and a
      name `first` lacks is priced from what was added. */
  lemma {:induction false} RateOfAppend(first: seq<Book>, more: seq<Book>, name: string)
    ensures RateOf(first, name).Some? ==> RateOf(first + more, name) == RateOf(first, name)
    ensures RateOf(first, name).None? ==> RateOf(first + more, name) == RateOf(more, name)
  {
    if first != [] {
      assert (first + more)[1..] == first[1..] + more;
      RateOfAppend(first[1..], more, name);
    } else {
      assert first + more == more;
    }
  }
}
