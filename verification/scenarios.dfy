/** Concrete walk-throughs of the two handlers. */
module Scenarios {
  import opened Wrappers
  import opened Text
  import opened Genres
  import opened Books
  import opened Store
  import opened AddBooks
  import opened FindBooks

  lemma DuneFilenameTail()
    ensures ReplaceSpaces("Dune") + "-" + ReplaceSpaces("Herbert") + ".png" == "Dune-Herbert.png"
  {
    assert ReplaceSpaces("Dune") == "Dune";
    assert ReplaceSpaces("Herbert") == "Herbert";
    assert "Dune" + "-" == "Dune-";
    assert "Dune-" + "Herbert" == "Dune-Herbert";
  }

  lemma DuneFilenameHead()
    ensures ImagePrefix + NatToDecimal(1) + "-" + "Dune-Herbert.png" == "media/images/1-Dune-Herbert.png"
  {
    assert NatToDecimal(1) == "1";
    assert "media/images/" + "1" == "media/images/1";
    assert "media/images/1" + "-" == "media/images/1-";
  }

  /** The image of the first row of "Dune" by "Herbert". */
  lemma DuneFilename()
    ensures ImageFilename(1, "Dune", "Herbert") == "media/images/1-Dune-Herbert.png"
  {
    DuneFilenameTail();
    DuneFilenameHead();
  }

  /** The stored row after adding "Dune" by "Herbert" to the empty table. */
  function DuneRow(): Row {
    Row(1, "Dune", "Herbert", Other, Some(PhotoPath("media/images/1-Dune-Herbert.png")), 15.5)
  }

  /** Adding one decodable book to the empty table succeeds and stores one
      row with id 1 and the derived photo path. */
  lemma AddDune(photo: String, decode: Decoder, writeOk: WriteOutcome)
    requires decode(StripDataUrlPrefix(photo)).Some?
    ensures var added := AddBooksHandler(Empty, map[], [Book("Dune", "Herbert", Other, 15.5, photo)], decode, writeOk, None);
            && added.response == Ok
            && added.store.rows == [DuneRow()]
  {
    var book := Book("Dune", "Herbert", Other, 15.5, photo);
    var start := Batch(Empty, map[], []);
    var b := AddBatch(start, [book], decode, writeOk);
    assert [book][..0] == [];
    assert AddBatch(start, [], decode, writeOk) == start;
    assert b == AddOne(start, book, decode, writeOk);
    var row := b.store.rows[0];
    assert row.id == 1;
    DuneFilename();
    assert row == DuneRow();
  }

  /** A genre-other query on that table returns the book with its path. */
  lemma FindDune()
    ensures Find(Store([DuneRow()], 2), NoFilters.(genre := Some(Other)))
            == Success([Book("Dune", "Herbert", Other, 15.5, PhotoPath("media/images/1-Dune-Herbert.png"))])
  {
    var row := DuneRow();
    var book := Book("Dune", "Herbert", Other, 15.5, PhotoPath("media/images/1-Dune-Herbert.png"));
    assert FilterRows([row], NoFilters.(genre := Some(Other))) == [row] by {
      assert [row][..0] == [];
    }
    assert ToBook(row) == Success(book);
    assert ToBooks([row]) == Success([book]) by {
      assert [row][1..] == [];
      assert ToBooks([]) == Success([]);
      assert [book] + [] == [book];
    }
  }

  /** Adding "Dune" and then asking for its genre returns it with the path
      derived from id 1. */
  lemma AddThenFindDune(photo: String, decode: Decoder, writeOk: WriteOutcome)
    requires decode(StripDataUrlPrefix(photo)).Some?
    ensures var added := AddBooksHandler(Empty, map[], [Book("Dune", "Herbert", Other, 15.5, photo)], decode, writeOk, None);
            && added.response == Ok
            && Find(added.store, NoFilters.(genre := Some(Other)))
               == Success([Book("Dune", "Herbert", Other, 15.5, PhotoPath("media/images/1-Dune-Herbert.png"))])
  {
    AddDune(photo, decode, writeOk);
    FindDune();
    var added := AddBooksHandler(Empty, map[], [Book("Dune", "Herbert", Other, 15.5, photo)], decode, writeOk, None);
    assert Find(added.store, NoFilters.(genre := Some(Other))) == Find(Store([DuneRow()], 2), NoFilters.(genre := Some(Other)));
  }

  /** A case-insensitive substring finds "The Hobbit" by "hobbit". */
  lemma HobbitFoundByLowercase()
    ensures ContainsIgnoreCase("The Hobbit", "hobbit")
  {
    assert OccursAt("The Hobbit", "hobbit", 4);
    ContainsIgnoreCaseCorrect("The Hobbit", "hobbit");
  }
}
