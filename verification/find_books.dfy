/** The `GET /find_books` handler: a conjunction of the filters whose values
    are truthy (Python's `if x:`), over every stored row. */
module FindBooks {
  import opened Wrappers
  import opened Text
  import opened Genres
  import opened Books
  import opened Store

  // ---------------------------------------------------------------------------
  // Truthiness of filter values
  // ---------------------------------------------------------------------------

  /** `if filters.name:` -- `None` and `""` are falsy. */
  predicate TextActive(v: Option<String>) {
    v.Some? && v.value != []
  }

  /** `if filters.price_from:` -- `None` and `0.0` are falsy. */
  predicate PriceActive(v: Option<real>) {
    v.Some? && v.value != 0.0
  }

  /** `if filters.genre:` -- every enum member is truthy. */
  predicate GenreActive(v: Option<Genre>) {
    v.Some?
  }

  // ---------------------------------------------------------------------------
  // The filter as the handler builds it
  // ---------------------------------------------------------------------------

  /** The row satisfies every filter the handler adds to the query. */
  predicate Matches(f: Filters, row: Row) {
    && (TextActive(f.name) ==> ContainsIgnoreCase(row.name, f.name.value))
    && (TextActive(f.author) ==> ContainsIgnoreCase(row.author, f.author.value))
    && (GenreActive(f.genre) ==> row.genre == f.genre.value)
    && (PriceActive(f.priceFrom) ==> row.price >= f.priceFrom.value)
    && (PriceActive(f.priceTo) ==> row.price <= f.priceTo.value)
  }

  /** The rows the query selects, in store order. */
  function FilterRows(rows: seq<Row>, f: Filters): (r: seq<Row>)
    ensures |r| <= |rows|
    ensures forall row :: row in r <==> row in rows && Matches(f, row)
    decreases |rows|
  {
    if rows == [] then []
    else
      var init := FilterRows(rows[..|rows| - 1], f);
      var last := rows[|rows| - 1];
      assert rows == rows[..|rows| - 1] + [last];
      if Matches(f, last) then init + [last] else init
  }

  /** Filtering distributes over concatenation, so the selected rows keep
      their relative store order. */
  lemma {:induction false} FilterRowsAppend(xs: seq<Row>, ys: seq<Row>, f: Filters)
    ensures FilterRows(xs + ys, f) == FilterRows(xs, f) + FilterRows(ys, f)
    decreases |ys|
  {
    if ys == [] {
      assert xs + ys == xs;
    } else {
      var ys0 := ys[..|ys| - 1];
      assert (xs + ys)[..|xs + ys| - 1] == xs + ys0;
      FilterRowsAppend(xs, ys0, f);
    }
  }

  /** When every row passes, every row is returned in order. */
  lemma {:induction false} FilterRowsAll(rows: seq<Row>, f: Filters)
    requires forall i :: 0 <= i < |rows| ==> Matches(f, rows[i])
    ensures FilterRows(rows, f) == rows
    decreases |rows|
  {
    if rows != [] {
      FilterRowsAll(rows[..|rows| - 1], f);
      assert rows == rows[..|rows| - 1] + [rows[|rows| - 1]];
    }
  }

  /** Every converted book comes from a stored row that passes the filter. */
  lemma SelectedBooksSound(all: seq<Row>, f: Filters, books: seq<Book>, book: Book)
    requires ToBooks(FilterRows(all, f)) == Success(books)
    requires book in books
    ensures exists i :: 0 <= i < |all| && Matches(f, all[i]) && ToBook(all[i]) == Success(book)
  {
    var rows := FilterRows(all, f);
    var k :| 0 <= k < |books| && books[k] == book;
    assert rows[k] in rows;
    var i :| 0 <= i < |all| && all[i] == rows[k];
    assert ToBook(all[i]) == Success(book);
  }

  /** Every stored row that passes the filter contributes its book. */
  lemma SelectedBooksComplete(all: seq<Row>, f: Filters, books: seq<Book>, i: int)
    requires ToBooks(FilterRows(all, f)) == Success(books)
    requires 0 <= i < |all| && Matches(f, all[i])
    ensures ToBook(all[i]).Success? && ToBook(all[i]).value in books
  {
    var rows := FilterRows(all, f);
    assert all[i] in rows;
    var k :| 0 <= k < |rows| && rows[k] == all[i];
    assert books[k] == ToBook(all[i]).value;
  }

  /** A book is in the converted result set exactly when some stored row
      passes the filter and converts to it. */
  lemma SelectedBooks(all: seq<Row>, f: Filters, books: seq<Book>)
    requires ToBooks(FilterRows(all, f)) == Success(books)
    ensures forall book :: book in books <==>
              exists i :: 0 <= i < |all| && Matches(f, all[i]) && ToBook(all[i]) == Success(book)
  {
    forall book | book in books
      ensures exists i :: 0 <= i < |all| && Matches(f, all[i]) && ToBook(all[i]) == Success(book)
    {
      SelectedBooksSound(all, f, books, book);
    }
    forall i | 0 <= i < |all| && Matches(f, all[i])
      ensures ToBook(all[i]).Success? && ToBook(all[i]).value in books
    {
      SelectedBooksComplete(all, f, books, i);
    }
  }

  /** The handler: select, then convert each row to the response record. */
  function Find(st: Store, f: Filters): (r: Result<seq<Book>, ValidationError>)
    ensures r.Success? <==> forall row :: row in FilterRows(st.rows, f) ==> row.photo.Some?
    ensures Committed(st) ==> r.Success?
    ensures r.Success? ==> |r.value| == |FilterRows(st.rows, f)| <= |st.rows|
    ensures r.Success? ==> forall book :: book in r.value <==>
              exists i :: 0 <= i < |st.rows| && Matches(f, st.rows[i]) && ToBook(st.rows[i]) == Success(book)
  {
    var out := ToBooks(FilterRows(st.rows, f));
    if out.Success? then SelectedBooks(st.rows, f, out.value); out else out
  }

  // ---------------------------------------------------------------------------
  // Reference reading: a filter applies when it is present
  // ---------------------------------------------------------------------------

  /** Filters with every falsy value replaced by `None`. */
  function Normalize(f: Filters): (g: Filters)
    ensures g.name.Some? <==> TextActive(f.name)
    ensures g.author.Some? <==> TextActive(f.author)
    ensures g.priceFrom.Some? <==> PriceActive(f.priceFrom)
    ensures g.priceTo.Some? <==> PriceActive(f.priceTo)
    ensures g.name.Some? ==> g.name == f.name
    ensures g.author.Some? ==> g.author == f.author
    ensures g.priceFrom.Some? ==> g.priceFrom == f.priceFrom
    ensures g.priceTo.Some? ==> g.priceTo == f.priceTo
    ensures g.genre == f.genre
  {
    Filters(
      if TextActive(f.name) then f.name else None,
      if TextActive(f.author) then f.author else None,
      f.genre,
      if PriceActive(f.priceFrom) then f.priceFrom else None,
      if PriceActive(f.priceTo) then f.priceTo else None)
  }

  /** The documented meaning of the filters: each present field constrains
      the row; name and author by case-insensitive substring. */
  ghost predicate MatchesPresent(f: Filters, row: Row) {
    && (f.name.Some? ==> IsSubstringIgnoreCase(row.name, f.name.value))
    && (f.author.Some? ==> IsSubstringIgnoreCase(row.author, f.author.value))
    && (f.genre.Some? ==> row.genre == f.genre.value)
    && (f.priceFrom.Some? ==> row.price >= f.priceFrom.value)
    && (f.priceTo.Some? ==> row.price <= f.priceTo.value)
  }

  /** The handler's filter is the documented one applied to the filters with
      their falsy values dropped. */
  lemma MatchesIsPresenceOfTruthy(f: Filters, row: Row)
    ensures Matches(f, row) <==> MatchesPresent(Normalize(f), row)
  {
    ContainsIgnoreCaseCorrect(row.name, if f.name.Some? then f.name.value else []);
    ContainsIgnoreCaseCorrect(row.author, if f.author.Some? then f.author.value else []);
  }

  /** An empty name or author filter is harmless: under the documented
      reading it would match every row anyway. */
  lemma EmptyTextFilterHarmless(f: Filters, row: Row)
    ensures MatchesPresent(f.(name := Some([])), row) <==> MatchesPresent(f.(name := None), row)
    ensures MatchesPresent(f.(author := Some([])), row) <==> MatchesPresent(f.(author := None), row)
  {
    assert OccursAt(row.name, [], 0);
    assert OccursAt(row.author, [], 0);
  }

  /** A price bound of zero is ignored: `price_to = 0` does not exclude a
      positive price, and `price_from = 0` does not exclude a negative one,
      although the documented reading would. */
  lemma ZeroPriceBoundIgnored(f: Filters, row: Row)
    ensures Matches(f.(priceTo := Some(0.0)), row) == Matches(f.(priceTo := None), row)
    ensures Matches(f.(priceFrom := Some(0.0)), row) == Matches(f.(priceFrom := None), row)
    ensures row.price > 0.0 ==> !MatchesPresent(f.(priceTo := Some(0.0)), row)
    ensures row.price < 0.0 ==> !MatchesPresent(f.(priceFrom := Some(0.0)), row)
  {
  }

  /** The filters built with no arguments select every row, in order. */
  lemma NoFiltersSelectAll(rows: seq<Row>)
    ensures FilterRows(rows, NoFilters) == rows
  {
    FilterRowsAll(rows, NoFilters);
  }

  /** With no filters, a committed store is returned whole, in order. */
  lemma FindNoFilters(st: Store)
    requires Committed(st)
    ensures Find(st, NoFilters).Success?
    ensures Find(st, NoFilters) == ToBooks(st.rows)
    ensures |Find(st, NoFilters).value| == |st.rows|
  {
    NoFiltersSelectAll(st.rows);
  }

  /** Non-zero bounds with `price_from > price_to` select nothing: the two
      bounds are independent and nothing checks their order. */
  lemma ReversedRangeEmpty(rows: seq<Row>, f: Filters)
    requires PriceActive(f.priceFrom) && PriceActive(f.priceTo)
    requires f.priceFrom.value > f.priceTo.value
    ensures FilterRows(rows, f) == []
  {
    if FilterRows(rows, f) != [] {
      assert FilterRows(rows, f)[0] in FilterRows(rows, f);
    }
  }

  /** The genre filter keeps exactly the rows of that genre. */
  lemma GenreFilterExact(rows: seq<Row>, g: Genre)
    ensures forall row :: row in FilterRows(rows, NoFilters.(genre := Some(g))) <==> row in rows && row.genre == g
  {
  }

  // ---------------------------------------------------------------------------
  // The id is never exposed
  // ---------------------------------------------------------------------------

  /** Row lists that agree on everything except ids. */
  predicate SameButIds(xs: seq<Row>, ys: seq<Row>) {
    && |xs| == |ys|
    && forall i :: 0 <= i < |xs| ==> SameButId(xs[i], ys[i])
  }

  lemma {:induction false} FilterRowsIgnoresIds(xs: seq<Row>, ys: seq<Row>, f: Filters)
    requires SameButIds(xs, ys)
    ensures SameButIds(FilterRows(xs, f), FilterRows(ys, f))
    decreases |xs|
  {
    if xs != [] {
      FilterRowsIgnoresIds(xs[..|xs| - 1], ys[..|ys| - 1], f);
      var a := FilterRows(xs[..|xs| - 1], f);
      var b := FilterRows(ys[..|ys| - 1], f);
      var x := xs[|xs| - 1];
      var y := ys[|ys| - 1];
      assert SameButId(x, y);
      assert Matches(f, x) == Matches(f, y);
      if Matches(f, x) {
        assert SameButIds(a + [x], b + [y]);
      }
    }
  }

  /** Stores that differ only in the ids they assigned answer every query
      identically: the response never depends on an id. */
  lemma FindIgnoresIds(st1: Store, st2: Store, f: Filters)
    requires SameButIds(st1.rows, st2.rows)
    ensures Find(st1, f) == Find(st2, f)
  {
    var xs := FilterRows(st1.rows, f);
    var ys := FilterRows(st2.rows, f);
    FilterRowsIgnoresIds(st1.rows, st2.rows, f);
    ToBooksIgnoresIds(xs, ys);
  }

  lemma {:induction false} ToBooksIgnoresIds(xs: seq<Row>, ys: seq<Row>)
    requires SameButIds(xs, ys)
    ensures ToBooks(xs) == ToBooks(ys)
    decreases |xs|
  {
    if xs != [] {
      ToBookIgnoresId(xs[0], ys[0]);
      ToBooksIgnoresIds(xs[1..], ys[1..]);
    }
  }
}
