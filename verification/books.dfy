/** The records exchanged with clients and the stored row shape:
    the pydantic schemas `SBookBase`/`SBookFilters` and the ORM row `BookORM`. */
module Books {
  import opened Wrappers
  import opened Text
  import opened Genres

  /** `SBookBase`: a submitted book (photo = base64 payload, optionally with a
      data-URL header) and a returned book (photo = image path). It has no id. */
  datatype Book = Book(name: String, author: String, genre: Genre, price: real, photo: String)

  /** `SBookFilters`: five optional filter values. */
  datatype Filters = Filters(
    name: Option<String>,
    author: Option<String>,
    genre: Option<Genre>,
    priceFrom: Option<real>,
    priceTo: Option<real>)

  /** A filter object built with no arguments: every field `None`. */
  const NoFilters: Filters := Filters(None, None, None, None, None)

  /** `BookORM`: one row of table `books`. `id` is assigned by the store and
      `photo` is nullable. */
  datatype Row = Row(id: nat, name: String, author: String, genre: Genre, photo: Option<String>, price: real)

  /** A book as it arrives on the wire, before the genre has been checked. */
  datatype RawBook = RawBook(name: String, author: String, genre: String, price: real, photo: String)

  /** Filters as they arrive on the wire. */
  datatype RawFilters = RawFilters(
    name: Option<String>,
    author: Option<String>,
    genre: Option<String>,
    priceFrom: Option<real>,
    priceTo: Option<real>)

  /** Why a record could not be built. */
  datatype ValidationError = InvalidGenre(value: String) | MissingPhoto

  /** Schema validation of one submission: the genre must name a member. */
  function ValidateBook(raw: RawBook): (r: Result<Book, ValidationError>)
    ensures r.Success? <==> raw.genre in GenreValues
    ensures r.Failure? ==> r.error == InvalidGenre(raw.genre)
    ensures r.Success? ==>
              && r.value.name == raw.name
              && r.value.author == raw.author
              && ToString(r.value.genre) == raw.genre
              && r.value.price == raw.price
              && r.value.photo == raw.photo
  {
    match FromString(raw.genre)
    case None => Failure(InvalidGenre(raw.genre))
    case Some(g) => Success(Book(raw.name, raw.author, g, raw.price, raw.photo))
  }

  /** Validation of a request body (a JSON list): one bad element rejects the
      whole list, so the handler never sees it. */
  function ValidateBooks(raws: seq<RawBook>): (r: Result<seq<Book>, ValidationError>)
    ensures r.Success? <==> forall i :: 0 <= i < |raws| ==> raws[i].genre in GenreValues
    ensures r.Success? ==> |r.value| == |raws|
    ensures r.Success? ==> forall i :: 0 <= i < |raws| ==> Success(r.value[i]) == ValidateBook(raws[i])
    decreases |raws|
  {
    if raws == [] then Success([])
    else
      match ValidateBook(raws[0])
      case Failure(e) => Failure(e)
      case Success(b) =>
        match ValidateBooks(raws[1..])
        case Failure(e) => Failure(e)
        case Success(bs) => Success([b] + bs)
  }

  /** Schema validation of the filters: a present genre must name a member. */
  function ValidateFilters(raw: RawFilters): (r: Result<Filters, ValidationError>)
    ensures r.Success? <==> (raw.genre.Some? ==> raw.genre.value in GenreValues)
    ensures r.Success? ==>
              && r.value.name == raw.name
              && r.value.author == raw.author
              && (r.value.genre.Some? <==> raw.genre.Some?)
              && (r.value.genre.Some? ==> ToString(r.value.genre.value) == raw.genre.value)
              && r.value.priceFrom == raw.priceFrom
              && r.value.priceTo == raw.priceTo
  {
    match raw.genre
    case None => Success(Filters(raw.name, raw.author, None, raw.priceFrom, raw.priceTo))
    case Some(s) =>
      match FromString(s)
      case None => Failure(InvalidGenre(s))
      case Some(g) => Success(Filters(raw.name, raw.author, Some(g), raw.priceFrom, raw.priceTo))
  }

  /** `SBookBase.from_orm(row)`: drops the id; fails when the photo is null,
      because the schema's photo is a required string. */
  function ToBook(row: Row): (r: Result<Book, ValidationError>)
    ensures r.Success? <==> row.photo.Some?
    ensures r.Failure? ==> r.error == MissingPhoto
    ensures r.Success? ==>
              && r.value.name == row.name
              && r.value.author == row.author
              && r.value.genre == row.genre
              && r.value.price == row.price
              && Some(r.value.photo) == row.photo
  {
    match row.photo
    case None => Failure(MissingPhoto)
    case Some(p) => Success(Book(row.name, row.author, row.genre, row.price, p))
  }

  /** Converting every row of a result set; the first null photo fails it. */
  function ToBooks(rows: seq<Row>): (r: Result<seq<Book>, ValidationError>)
    ensures r.Success? <==> forall i :: 0 <= i < |rows| ==> rows[i].photo.Some?
    ensures r.Success? ==> |r.value| == |rows|
    ensures r.Success? ==> forall i :: 0 <= i < |rows| ==> ToBook(rows[i]) == Success(r.value[i])
    decreases |rows|
  {
    if rows == [] then Success([])
    else
      match ToBook(rows[0])
      case Failure(e) => Failure(e)
      case Success(b) =>
        match ToBooks(rows[1..])
        case Failure(e) => Failure(e)
        case Success(bs) => Success([b] + bs)
  }

  /** Two rows that agree on everything except the id. */
  predicate SameButId(a: Row, b: Row) {
    a.(id := b.id) == b
  }

  /** The id never reaches the returned record: rows that differ only in id
      convert to the same record. */
  lemma ToBookIgnoresId(a: Row, b: Row)
    requires SameButId(a, b)
    ensures ToBook(a) == ToBook(b)
  {
  }
}
