/** The `POST /add_books` handler: each submission's photo payload is
    stripped of its data-URL header and decoded; a payload that does not
    decode is logged and skipped; every other submission becomes a row with a
    store-assigned id, its image is written under a filename derived from the
    id, name and author, and the row's photo is set to that path whether or
    not the write succeeded. The batch is then committed once. */
module AddBooks {
  import opened Wrappers
  import opened Text
  import opened Genres
  import opened Books
  import opened Store

  type Bytes = seq<bv8>

  /** `base64.b64decode`, abstracted: the decoded bytes, or `None` when the
      decoder raises. */
  type Decoder = String -> Option<Bytes>

  /** Whether writing the image file of the given name succeeds. */
  type WriteOutcome = String -> bool

  /** The image directory's contents: file name to bytes. */
  type Files = map<String, Bytes>

  /** What the handler logs at error level. */
  datatype LogEntry = DecodeFailed(book: String) | WriteFailed(book: String) | CommitFailed(error: DbError)

  /** The state threaded through the loop over submissions. */
  datatype Batch = Batch(store: Store, files: Files, log: seq<LogEntry>)

  /** The directory images are written to, with its trailing slash. */
  const ImagePrefix: String := "media/images/"

  // ---------------------------------------------------------------------------
  // Payload and filename derivation
  // ---------------------------------------------------------------------------

  /** `photo.split(",")[-1]`: the text after the last comma (the whole string
      when there is none). */
  function StripDataUrlPrefix(photo: String): (payload: String)
    ensures ',' !in payload
    ensures |payload| <= |photo| && payload == photo[|photo| - |payload|..]
    ensures ',' in photo ==> |payload| < |photo| && photo[|photo| - |payload| - 1] == ','
    ensures ',' !in photo ==> payload == photo
  {
    var parts := Split(photo, ',');
    SplitLastPart(photo, ',');
    parts[|parts| - 1]
  }

  /** Reads the id back out of an image filename: the digits between the
      directory prefix and the first `-`. */
  function ImageIdOf(filename: String): Option<nat> {
    if |ImagePrefix| <= |filename| && filename[..|ImagePrefix|] == ImagePrefix then
      var digits := TakeUntil(filename[|ImagePrefix|..], '-');
      if digits != [] && AllDigits(digits) then Some(ParseDecimal(digits)) else None
    else None
  }

  lemma ImageIdOfParts(id: nat, rest: String)
    ensures ImageIdOf(ImagePrefix + NatToDecimal(id) + "-" + rest) == Some(id)
  {
    var digits := NatToDecimal(id);
    var f := ImagePrefix + digits + "-" + rest;
    assert f[..|ImagePrefix|] == ImagePrefix;
    assert f[|ImagePrefix|..] == digits + ['-'] + rest;
    assert '-' !in digits;
    TakeUntilPrefix(digits, '-', rest);
    ParseNatToDecimal(id);
  }

  /** `f"media/images/{id}-{name.replace(' ', '-')}-{author.replace(' ', '-')}.png"`.
      `ImageFilenameShape` gives the exact shape and reads the id back. */
  function ImageFilename(id: nat, name: String, author: String): (filename: String)
    ensures |ImagePrefix| <= |filename| && filename[..|ImagePrefix|] == ImagePrefix
    ensures |filename| >= 4 && filename[|filename| - 4..] == ".png"
  {
    var rest := ReplaceSpaces(name) + "-" + ReplaceSpaces(author) + ".png";
    ImagePrefix + NatToDecimal(id) + "-" + rest
  }

  /** The filename is the directory, the decimal id, and the name and author
      with spaces turned into hyphens, joined by hyphens, with `.png`. */
  lemma ImageFilenameShape(id: nat, name: String, author: String)
    ensures ImageFilename(id, name, author)
            == "media/images/" + NatToDecimal(id) + "-" + ReplaceSpaces(name) + "-" + ReplaceSpaces(author) + ".png"
    ensures ' ' !in ReplaceSpaces(name) && ' ' !in ReplaceSpaces(author)
    ensures ImageIdOf(ImageFilename(id, name, author)) == Some(id)
  {
    ImageIdOfParts(id, ReplaceSpaces(name) + "-" + ReplaceSpaces(author) + ".png");
  }

  /** Distinct ids give distinct filenames, whatever the names and authors. */
  lemma ImageFilenameInjective(id1: nat, name1: String, author1: String, id2: nat, name2: String, author2: String)
    requires id1 != id2
    ensures ImageFilename(id1, name1, author1) != ImageFilename(id2, name2, author2)
  {
    var f1 := ImageFilename(id1, name1, author1);
    var f2 := ImageFilename(id2, name2, author2);
    ImageFilenameShape(id1, name1, author1);
    ImageFilenameShape(id2, name2, author2);
    assert ImageIdOf(f1) != ImageIdOf(f2);
  }

  /** The path stored in the row: `'/' + filename`. */
  function PhotoPath(filename: String): (path: String)
    ensures |path| == |filename| + 1 && path[0] == '/' && path[1..] == filename
  {
    "/" + filename
  }

  /** The filename a stored row's image lives under. */
  function FilenameOf(row: Row): String {
    ImageFilename(row.id, row.name, row.author)
  }

  // ---------------------------------------------------------------------------
  // One submission
  // ---------------------------------------------------------------------------

  /** The submission's payload decodes. */
  predicate Decodes(book: Book, decode: Decoder) {
    decode(StripDataUrlPrefix(book.photo)).Some?
  }

  /** The bytes a decodable submission's image consists of. */
  function Content(book: Book, decode: Decoder): Bytes
    requires Decodes(book, decode)
  {
    decode(StripDataUrlPrefix(book.photo)).value
  }

  /** `row` is the row created for `book`: fields copied, photo set to the
      path derived from the row's own id. */
  predicate NewRowFor(row: Row, book: Book) {
    && row.name == book.name
    && row.author == book.author
    && row.genre == book.genre
    && row.price == book.price
    && row.photo == Some(PhotoPath(ImageFilename(row.id, book.name, book.author)))
  }

  /** `added` are the rows created for the submissions `d`, pairwise. */
  predicate RowsFor(added: seq<Row>, d: seq<Book>) {
    && |added| == |d|
    && forall k :: 0 <= k < |d| ==> NewRowFor(added[k], d[k])
  }

  /** One iteration of the loop over submissions. */
  function AddOne(b: Batch, book: Book, decode: Decoder, writeOk: WriteOutcome): (r: Batch)
    requires Valid(b.store)
    ensures Valid(r.store)
    ensures b.store.nextId <= r.store.nextId
    ensures !Decodes(book, decode) ==> r == b.(log := b.log + [DecodeFailed(book.name)])
    ensures Decodes(book, decode) ==>
              && |r.store.rows| == |b.store.rows| + 1
              && r.store.rows[..|b.store.rows|] == b.store.rows
              && r.store.rows[|b.store.rows|].id !in Ids(b.store.rows)
              && NewRowFor(r.store.rows[|b.store.rows|], book)
    ensures Decodes(book, decode) ==>
              var fn := FilenameOf(r.store.rows[|b.store.rows|]);
              && r.files == (if writeOk(fn) then b.files[fn := Content(book, decode)] else b.files)
              && r.log == (if writeOk(fn) then b.log else b.log + [WriteFailed(book.name)])
  {
    match decode(StripDataUrlPrefix(book.photo))
    case None => b.(log := b.log + [DecodeFailed(book.name)])
    case Some(content) =>
      var (inserted, id) := Insert(b.store, book.name, book.author, book.genre, book.price);
      var filename := ImageFilename(id, book.name, book.author);
      var written := writeOk(filename);
      Batch(SetPhoto(inserted, id, PhotoPath(filename)),
            if written then b.files[filename := content] else b.files,
            if written then b.log else b.log + [WriteFailed(book.name)])
  }

  // ---------------------------------------------------------------------------
  // The loop over a batch
  // ---------------------------------------------------------------------------

  /** The submissions that decode, in input order. */
  function Decoded(books: seq<Book>, decode: Decoder): (d: seq<Book>)
    ensures |d| <= |books|
    ensures forall i :: 0 <= i < |d| ==> Decodes(d[i], decode)
    ensures forall x :: x in d <==> x in books && Decodes(x, decode)
    decreases |books|
  {
    if books == [] then []
    else
      var init := Decoded(books[..|books| - 1], decode);
      var last := books[|books| - 1];
      if Decodes(last, decode) then init + [last] else init
  }

  /** The names of the submissions that do not decode, in input order. */
  function SkippedNames(books: seq<Book>, decode: Decoder): seq<String>
    decreases |books|
  {
    if books == [] then []
    else
      var init := SkippedNames(books[..|books| - 1], decode);
      var last := books[|books| - 1];
      if Decodes(last, decode) then init else init + [last.name]
  }

  /** Every submission is either kept or skipped. */
  lemma {:induction false} DecodedPartition(books: seq<Book>, decode: Decoder)
    ensures |Decoded(books, decode)| + |SkippedNames(books, decode)| == |books|
    decreases |books|
  {
    if books != [] {
      DecodedPartition(books[..|books| - 1], decode);
    }
  }

  /** When every payload decodes, every submission is kept, in order. */
  lemma {:induction false} DecodedAll(books: seq<Book>, decode: Decoder)
    requires forall i :: 0 <= i < |books| ==> Decodes(books[i], decode)
    ensures Decoded(books, decode) == books
    decreases |books|
  {
    if books != [] {
      DecodedAll(books[..|books| - 1], decode);
      assert books == books[..|books| - 1] + [books[|books| - 1]];
    }
  }

  /** The decode failures recorded in a log, in order. */
  function DecodeFailures(log: seq<LogEntry>): seq<String>
    decreases |log|
  {
    if log == [] then []
    else
      var init := DecodeFailures(log[..|log| - 1]);
      match log[|log| - 1]
      case DecodeFailed(name) => init + [name]
      case _ => init
  }

  /** The loop `for book_data in books`, submissions processed in input order. */
  function AddBatch(b: Batch, books: seq<Book>, decode: Decoder, writeOk: WriteOutcome): (r: Batch)
    requires Valid(b.store)
    ensures Valid(r.store)
    ensures b.store.nextId <= r.store.nextId
    ensures |r.store.rows| == |b.store.rows| + |Decoded(books, decode)|
    ensures r.store.rows[..|b.store.rows|] == b.store.rows
    decreases |books|
  {
    if books == [] then b
    else AddOne(AddBatch(b, books[..|books| - 1], decode, writeOk), books[|books| - 1], decode, writeOk)
  }

  /** The rows a batch adds are, in order, one per decodable submission, each
      carrying that submission's fields and the photo path derived from its
      own id; the photo is set even when the image write failed. */
  lemma {:induction false} AddBatchRows(b: Batch, books: seq<Book>, decode: Decoder, writeOk: WriteOutcome)
    requires Valid(b.store)
    ensures RowsFor(AddBatch(b, books, decode, writeOk).store.rows[|b.store.rows|..], Decoded(books, decode))
    decreases |books|
  {
    if books != [] {
      var init := books[..|books| - 1];
      var last := books[|books| - 1];
      var d0 := Decoded(init, decode);
      assert Decoded(books, decode) == if Decodes(last, decode) then d0 + [last] else d0;
      AddBatchRows(b, init, decode, writeOk);
      var r0 := AddBatch(b, init, decode, writeOk);
      var n := |b.store.rows|;
      if Decodes(last, decode) {
        AddOneRowsStep(r0, last, n, decode, writeOk);
        var rows := AddOne(r0, last, decode, writeOk).store.rows;
        RowsForSnoc(r0.store.rows[n..], d0, rows[|r0.store.rows|], last);
      }
    }
  }

  lemma RowsForSnoc(added0: seq<Row>, d0: seq<Book>, row: Row, book: Book)
    requires RowsFor(added0, d0) && NewRowFor(row, book)
    ensures RowsFor(added0 + [row], d0 + [book])
  {
    forall k | 0 <= k < |d0|
      ensures NewRowFor((added0 + [row])[k], (d0 + [book])[k])
    {
      assert (added0 + [row])[k] == added0[k] && (d0 + [book])[k] == d0[k];
    }
  }

  /** Every added row has an id that no row present before the batch has,
      and the added rows' ids are distinct. */
  lemma AddBatchFreshIds(b: Batch, books: seq<Book>, decode: Decoder, writeOk: WriteOutcome)
    requires Valid(b.store)
    ensures var r := AddBatch(b, books, decode, writeOk);
            forall k :: |b.store.rows| <= k < |r.store.rows| ==> r.store.rows[k].id !in Ids(b.store.rows)
    ensures var r := AddBatch(b, books, decode, writeOk);
            UniqueIds(r.store.rows[|b.store.rows|..])
  {
    var r := AddBatch(b, books, decode, writeOk);
    FreshAfterPrefix(r.store, |b.store.rows|);
    UniqueIdsSuffix(r.store.rows, |b.store.rows|);
  }

  /** The filenames of the given rows. */
  function Filenames(rows: seq<Row>): set<String> {
    set i | 0 <= i < |rows| :: FilenameOf(rows[i])
  }

  /** Each added row whose write succeeded has its submission's decoded
      bytes on disk under its filename. */
  predicate ImagesWritten(files: Files, added: seq<Row>, d: seq<Book>, decode: Decoder, writeOk: WriteOutcome) {
    && |added| == |d|
    && forall k :: 0 <= k < |d| && writeOk(FilenameOf(added[k])) ==>
         && Decodes(d[k], decode)
         && FilenameOf(added[k]) in files
         && files[FilenameOf(added[k])] == Content(d[k], decode)
  }

  /** Only the successfully written filenames of the added rows differ. */
  predicate OnlyWrittenChanged(before: Files, after: Files, added: seq<Row>, writeOk: WriteOutcome) {
    && (forall f :: f in after ==> f in before || (f in Filenames(added) && writeOk(f)))
    && (forall f :: f in before && !(f in Filenames(added) && writeOk(f)) ==> f in after && after[f] == before[f])
  }

  /** A row whose id differs from the ids of earlier rows has a filename
      none of them has. */
  lemma FilenameFresh(added0: seq<Row>, row: Row)
    requires UniqueIds(added0 + [row])
    ensures forall k :: 0 <= k < |added0| ==> FilenameOf(added0[k]) != FilenameOf(row)
  {
    forall k | 0 <= k < |added0|
      ensures FilenameOf(added0[k]) != FilenameOf(row)
    {
      assert (added0 + [row])[k] == added0[k];
      assert (added0 + [row])[|added0|] == row;
      ImageFilenameInjective(added0[k].id, added0[k].name, added0[k].author, row.id, row.name, row.author);
    }
  }

  /** Writing the next row's image keeps the earlier rows' images. */
  lemma ImagesWrittenStep(files0: Files, files: Files, added0: seq<Row>, row: Row, d0: seq<Book>, last: Book,
                          decode: Decoder, writeOk: WriteOutcome)
    requires ImagesWritten(files0, added0, d0, decode, writeOk)
    requires forall k :: 0 <= k < |added0| ==> FilenameOf(added0[k]) != FilenameOf(row)
    requires Decodes(last, decode)
    requires files == if writeOk(FilenameOf(row)) then files0[FilenameOf(row) := Content(last, decode)] else files0
    ensures ImagesWritten(files, added0 + [row], d0 + [last], decode, writeOk)
  {
    var added := added0 + [row];
    var d := d0 + [last];
    forall k | 0 <= k < |d| && writeOk(FilenameOf(added[k]))
      ensures Decodes(d[k], decode)
      ensures FilenameOf(added[k]) in files
      ensures files[FilenameOf(added[k])] == Content(d[k], decode)
    {
      if k < |d0| {
        assert added[k] == added0[k] && d[k] == d0[k];
      }
    }
  }

  /** Writing the next row's image touches only that row's filename. */
  lemma OnlyWrittenStep(before: Files, files0: Files, files: Files, added0: seq<Row>, row: Row, content: Bytes,
                        writeOk: WriteOutcome)
    requires OnlyWrittenChanged(before, files0, added0, writeOk)
    requires files == if writeOk(FilenameOf(row)) then files0[FilenameOf(row) := content] else files0
    ensures OnlyWrittenChanged(before, files, added0 + [row], writeOk)
  {
    var added := added0 + [row];
    assert Filenames(added) == Filenames(added0) + {FilenameOf(row)} by {
      forall f | f in Filenames(added)
        ensures f in Filenames(added0) + {FilenameOf(row)}
      {
        var i :| 0 <= i < |added| && f == FilenameOf(added[i]);
        if i < |added0| {
          assert added[i] == added0[i];
        }
      }
      forall f | f in Filenames(added0)
        ensures f in Filenames(added)
      {
        var i :| 0 <= i < |added0| && f == FilenameOf(added0[i]);
        assert added[i] == added0[i];
      }
      assert added[|added0|] == row;
    }
  }

  /** One decodable submission extends the added rows by one row whose id
      differs from theirs. */
  lemma AddOneRowsStep(r0: Batch, last: Book, n: nat, decode: Decoder, writeOk: WriteOutcome)
    requires Valid(r0.store) && n <= |r0.store.rows|
    requires Decodes(last, decode)
    ensures var rows := AddOne(r0, last, decode, writeOk).store.rows;
            && |rows| == |r0.store.rows| + 1
            && rows[n..] == r0.store.rows[n..] + [rows[|r0.store.rows|]]
            && UniqueIds(rows[n..])
  {
    var rows := AddOne(r0, last, decode, writeOk).store.rows;
    var m := |r0.store.rows|;
    assert rows == rows[..m] + [rows[m]];
    assert rows[n..] == r0.store.rows[n..] + [rows[m]];
    UniqueIdsSuffix(rows, n);
  }

  /** One decodable submission writes at most its own row's file. */
  lemma AddOneFilesStep(r0: Batch, last: Book, decode: Decoder, writeOk: WriteOutcome)
    requires Valid(r0.store)
    requires Decodes(last, decode)
    ensures var r := AddOne(r0, last, decode, writeOk);
            var fn := FilenameOf(r.store.rows[|r0.store.rows|]);
            r.files == if writeOk(fn) then r0.files[fn := Content(last, decode)] else r0.files
  {
  }

  /** Each added row whose write succeeded has its submission's decoded
      bytes on disk under its filename. */
  lemma {:induction false} AddBatchImages(b: Batch, books: seq<Book>, decode: Decoder, writeOk: WriteOutcome)
    requires Valid(b.store)
    ensures var r := AddBatch(b, books, decode, writeOk);
            ImagesWritten(r.files, r.store.rows[|b.store.rows|..], Decoded(books, decode), decode, writeOk)
    decreases |books|
  {
    if books != [] {
      var init := books[..|books| - 1];
      var last := books[|books| - 1];
      var d0 := Decoded(init, decode);
      assert Decoded(books, decode) == if Decodes(last, decode) then d0 + [last] else d0;
      AddBatchImages(b, init, decode, writeOk);
      var r0 := AddBatch(b, init, decode, writeOk);
      var n := |b.store.rows|;
      if Decodes(last, decode) {
        AddOneRowsStep(r0, last, n, decode, writeOk);
        AddOneFilesStep(r0, last, decode, writeOk);
        var r := AddOne(r0, last, decode, writeOk);
        var row := r.store.rows[|r0.store.rows|];
        FilenameFresh(r0.store.rows[n..], row);
        ImagesWrittenStep(r0.files, r.files, r0.store.rows[n..], row, d0, last, decode, writeOk);
      }
    }
  }

  /** Every file other than the successfully written images of the added
      rows is as it was, so a skipped submission creates no file. */
  lemma {:induction false} AddBatchOnlyWritten(b: Batch, books: seq<Book>, decode: Decoder, writeOk: WriteOutcome)
    requires Valid(b.store)
    ensures var r := AddBatch(b, books, decode, writeOk);
            OnlyWrittenChanged(b.files, r.files, r.store.rows[|b.store.rows|..], writeOk)
    decreases |books|
  {
    if books != [] {
      var init := books[..|books| - 1];
      var last := books[|books| - 1];
      AddBatchOnlyWritten(b, init, decode, writeOk);
      var r0 := AddBatch(b, init, decode, writeOk);
      var n := |b.store.rows|;
      if Decodes(last, decode) {
        AddOneRowsStep(r0, last, n, decode, writeOk);
        AddOneFilesStep(r0, last, decode, writeOk);
        var r := AddOne(r0, last, decode, writeOk);
        var row := r.store.rows[|r0.store.rows|];
        OnlyWrittenStep(b.files, r0.files, r.files, r0.store.rows[n..], row, Content(last, decode), writeOk);
      }
    }
  }

  lemma DecodeFailuresSnoc(log: seq<LogEntry>, e: LogEntry)
    ensures DecodeFailures(log + [e]) == DecodeFailures(log) + (if e.DecodeFailed? then [e.book] else [])
  {
    assert (log + [e])[..|log|] == log;
  }

  /** One submission adds its name to the decode failures exactly when it
      does not decode. */
  lemma AddOneDecodeFailures(r0: Batch, last: Book, decode: Decoder, writeOk: WriteOutcome)
    requires Valid(r0.store)
    ensures DecodeFailures(AddOne(r0, last, decode, writeOk).log)
            == DecodeFailures(r0.log) + (if Decodes(last, decode) then [] else [last.name])
  {
    var r := AddOne(r0, last, decode, writeOk);
    if !Decodes(last, decode) {
      DecodeFailuresSnoc(r0.log, DecodeFailed(last.name));
    } else if r.log != r0.log {
      DecodeFailuresSnoc(r0.log, WriteFailed(last.name));
    }
  }

  lemma SkippedNamesSnoc(books: seq<Book>, decode: Decoder)
    requires books != []
    ensures SkippedNames(books, decode)
            == SkippedNames(books[..|books| - 1], decode)
               + (if Decodes(books[|books| - 1], decode) then [] else [books[|books| - 1].name])
  {
  }

  /** The log records, in order, the name of every submission whose payload
      did not decode. */
  lemma {:induction false} AddBatchLog(b: Batch, books: seq<Book>, decode: Decoder, writeOk: WriteOutcome)
    requires Valid(b.store)
    ensures DecodeFailures(AddBatch(b, books, decode, writeOk).log) == DecodeFailures(b.log) + SkippedNames(books, decode)
    decreases |books|
  {
    if books != [] {
      var init := books[..|books| - 1];
      var last := books[|books| - 1];
      AddBatchLog(b, init, decode, writeOk);
      var r0 := AddBatch(b, init, decode, writeOk);
      assert AddBatch(b, books, decode, writeOk) == AddOne(r0, last, decode, writeOk);
      AddOneDecodeFailures(r0, last, decode, writeOk);
      SkippedNamesSnoc(books, decode);
    }
  }

  /** Processing a batch in two parts is processing it whole. */
  lemma {:induction false} AddBatchAppend(b: Batch, xs: seq<Book>, ys: seq<Book>, decode: Decoder, writeOk: WriteOutcome)
    requires Valid(b.store)
    ensures AddBatch(b, xs + ys, decode, writeOk) == AddBatch(AddBatch(b, xs, decode, writeOk), ys, decode, writeOk)
    decreases |ys|
  {
    if ys == [] {
      assert xs + ys == xs;
    } else {
      var ys0 := ys[..|ys| - 1];
      assert (xs + ys)[..|xs + ys| - 1] == xs + ys0;
      AddBatchAppend(b, xs, ys0, decode, writeOk);
    }
  }

  /** The rows and files a batch produces do not depend on what was logged
      before it. */
  lemma {:induction false} AddBatchIgnoresLog(b1: Batch, b2: Batch, books: seq<Book>, decode: Decoder, writeOk: WriteOutcome)
    requires Valid(b1.store)
    requires b1.store == b2.store && b1.files == b2.files
    ensures AddBatch(b1, books, decode, writeOk).store == AddBatch(b2, books, decode, writeOk).store
    ensures AddBatch(b1, books, decode, writeOk).files == AddBatch(b2, books, decode, writeOk).files
    decreases |books|
  {
    if books != [] {
      AddBatchIgnoresLog(b1, b2, books[..|books| - 1], decode, writeOk);
    }
  }

  /** A submission that does not decode does not abort the batch: the rows
      and files are those of the batch without it. */
  lemma SkipDoesNotAbort(b: Batch, xs: seq<Book>, bad: Book, ys: seq<Book>, decode: Decoder, writeOk: WriteOutcome)
    requires Valid(b.store)
    requires !Decodes(bad, decode)
    ensures AddBatch(b, xs + [bad] + ys, decode, writeOk).store == AddBatch(b, xs + ys, decode, writeOk).store
    ensures AddBatch(b, xs + [bad] + ys, decode, writeOk).files == AddBatch(b, xs + ys, decode, writeOk).files
  {
    var mid := AddBatch(b, xs, decode, writeOk);
    AddBatchAppend(b, xs + [bad], ys, decode, writeOk);
    AddBatchAppend(b, xs, ys, decode, writeOk);
    assert (xs + [bad])[..|xs + [bad]| - 1] == xs;
    AddBatchIgnoresLog(AddOne(mid, bad, decode, writeOk), mid, ys, decode, writeOk);
  }

  /** A batch over a committed store leaves every row with a photo. */
  lemma AddBatchKeepsPhotos(b: Batch, books: seq<Book>, decode: Decoder, writeOk: WriteOutcome)
    requires Committed(b.store)
    ensures Committed(AddBatch(b, books, decode, writeOk).store)
  {
    var r := AddBatch(b, books, decode, writeOk);
    var n := |b.store.rows|;
    AddBatchRows(b, books, decode, writeOk);
    PhotosOfParts(r.store.rows, n);
  }

  /** Rows whose prefix has photos and whose suffix copies submissions all
      have photos. */
  lemma PhotosOfParts(rows: seq<Row>, n: nat)
    requires n <= |rows|
    requires forall i :: 0 <= i < n ==> rows[..n][i].photo.Some?
    requires forall k :: 0 <= k < |rows| - n ==> rows[n..][k].photo.Some?
    ensures forall i :: 0 <= i < |rows| ==> rows[i].photo.Some?
  {
    forall i | 0 <= i < |rows|
      ensures rows[i].photo.Some?
    {
      if i < n {
        assert rows[i] == rows[..n][i];
      } else {
        assert rows[i] == rows[n..][i - n];
      }
    }
  }

  // ---------------------------------------------------------------------------
  // Commit and response
  // ---------------------------------------------------------------------------

  /** The error kinds the commit distinguishes. */
  datatype DbError = OperationalError | IntegrityError | ProgrammingError | OtherError

  /** The message carried by the HTTP error. */
  datatype Detail = NetworkFailure | IntegrityFailure | SqlSyntaxFailure | UnknownFailure

  /** `{"success": True}` or an `HTTPException`. */
  datatype Response = Ok | HttpError(status: nat, detail: Detail)

  /** The `except` chain around the commit. */
  function CommitFailure(e: DbError): (r: Response)
    ensures r.HttpError?
    ensures r.status == 400 <==> (e.IntegrityError? || e.ProgrammingError?)
    ensures r.status == 500 <==> (e.OperationalError? || e.OtherError?)
    ensures e.OperationalError? <==> r.detail == NetworkFailure
    ensures e.IntegrityError? <==> r.detail == IntegrityFailure
    ensures e.ProgrammingError? <==> r.detail == SqlSyntaxFailure
    ensures e.OtherError? <==> r.detail == UnknownFailure
  {
    match e
    case OperationalError => HttpError(500, NetworkFailure)
    case IntegrityError => HttpError(400, IntegrityFailure)
    case ProgrammingError => HttpError(400, SqlSyntaxFailure)
    case OtherError => HttpError(500, UnknownFailure)
  }

  datatype AddResult = AddResult(response: Response, store: Store, files: Files, log: seq<LogEntry>)

  /** The whole handler: the loop, then one commit whose outcome is given.
      A failed commit rolls the rows back but not the image files. */
  function AddBooksHandler(st: Store, files: Files, books: seq<Book>, decode: Decoder, writeOk: WriteOutcome,
                           commit: Option<DbError>): (r: AddResult)
    requires Valid(st)
    ensures Valid(r.store)
    ensures r.response == Ok <==> commit.None?
    ensures commit.Some? ==> r.response == CommitFailure(commit.value) && r.store == st
    ensures commit.None? ==>
              && |r.store.rows| == |st.rows| + |Decoded(books, decode)|
              && r.store.rows[..|st.rows|] == st.rows
    ensures r.files == AddBatch(Batch(st, files, []), books, decode, writeOk).files
  {
    var b := AddBatch(Batch(st, files, []), books, decode, writeOk);
    match commit
    case None => AddResult(Ok, b.store, b.files, b.log)
    case Some(e) => AddResult(CommitFailure(e), st, b.files, b.log + [CommitFailed(e)])
  }

  /** After a successful call on a committed store, every row (old and new)
      has its photo, so the store is committed again. */
  lemma AddBooksKeepsCommitted(st: Store, files: Files, books: seq<Book>, decode: Decoder, writeOk: WriteOutcome,
                               commit: Option<DbError>)
    requires Committed(st)
    ensures Committed(AddBooksHandler(st, files, books, decode, writeOk, commit).store)
  {
    AddBatchKeepsPhotos(Batch(st, files, []), books, decode, writeOk);
  }
}
