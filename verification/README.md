# Book catalog service: a Dafny model of its request core

The service stores books (name, author, genre, price, cover photo) in one
table and offers two operations:

- `POST /add_books` takes a list of submissions. Each photo arrives as a
  base64 payload, optionally behind a data-URL header. For each submission
  the handler keeps the text after the last comma and decodes it. A payload
  that does not decode is logged and the submission is skipped. Every other
  submission becomes a row with a store-assigned id. Its image is written to
  `media/images/{id}-{name}-{author}.png`, with spaces in the name and
  author replaced by `-`. The row's photo is then set to `/` plus that
  filename, whether or not the write succeeded. The batch is committed once,
  and a commit error is mapped to HTTP 400 or 500.
- `GET /find_books` takes five optional filters and returns the rows that
  satisfy every filter whose value is truthy in Python's sense. Name and
  author match as case-insensitive substrings, genre by equality, and the two
  prices as inclusive bounds. Each row is returned without its id.

The model is functional. The table is a sequence of rows plus the next id
to hand out (`Store`). The image directory is a map from filename to bytes.
The error log is a sequence of entries. The add handler is a fold over the
submissions (`AddBatch`), and the find handler is a filter followed by a
conversion to output records (`Find`). Three outside collaborators are
parameters of the handlers:

- the base64 decoder, a function from payload to optional bytes;
- the outcome of each file write, a predicate on the filename;
- the outcome of the commit, an optional error kind.

Modules: `Wrappers` (Option/Result), `Text` (split and join, decimal
rendering, space replacement, ASCII case-insensitive containment), `Genres`
(the enum), `Books` (the request/response schemas, the row shape and their
validation), `Store` (insert and photo update), `AddBooks`, `FindBooks`, and
`Scenarios` (two worked examples).

The photo path is assigned after the write attempt whether or not the write
succeeded (api/router.py:60-66); `AddBatchRows` states this for every added
row.

## Model

| member | source | states |
|---|---|---|
| Text.Split | api/router.py:39 | `str.split(',')` yields at least one piece; no piece contains the separator; a string without the separator splits into itself, and only such a string gives a single piece |
| Text.JoinSplit | api/router.py:39 | joining the pieces with the separator gives back the original string |
| Text.SplitLastPart | api/router.py:39 | the last piece is a suffix of the string, and the character right before it (if any) is the separator |
| AddBooks.StripDataUrlPrefix | api/router.py:39 | the payload is the suffix after the last comma: it contains no comma, is preceded by a comma when the input has one, and is the whole input when it has none |
| Text.NatToDecimal | api/router.py:58 | `str(id)` is a non-empty string of decimal digits with no leading zero |
| Text.ParseNatToDecimal | api/router.py:58 | reading the decimal rendering back yields the id, so the rendering is lossless |
| Text.NatToDecimalInjective | api/router.py:58 | distinct ids render to distinct strings |
| Text.ReplaceSpaces | api/router.py:58 | `replace(' ', '-')` keeps the length, turns every space into `-`, keeps every other character, and leaves no space |
| AddBooks.ImageFilename | api/router.py:57-58 | the filename lies under `media/images/` and ends in `.png` |
| AddBooks.ImageFilenameShape | api/router.py:58 | the filename is `media/images/` + decimal id + `-` + name + `-` + author + `.png`, with spaces in name and author replaced, so those parts have no spaces, and the id can be read back from it |
| AddBooks.ImageFilenameInjective | api/router.py:56-58 | rows with distinct ids get distinct filenames, whatever their names and authors |
| AddBooks.PhotoPath | api/router.py:66 | the stored photo is `/` followed by the filename |
| AddBooks.AddOne | api/router.py:36-66 | an undecodable submission changes nothing but the log; a decodable one appends one row with a fresh id, the submission's fields and the derived photo path; its bytes are written under that filename exactly when the write succeeds, and a failed write is logged |
| AddBooks.Decoded | api/router.py:38-43 | the submissions kept by the loop are exactly the decodable submissions, none more than the input holds |
| AddBooks.DecodedPartition | api/router.py:38-43 | every submission is either kept or skipped, so one skipped submission in N leaves N-1 rows to add |
| AddBooks.DecodedAll | api/router.py:38-56 | when every payload decodes, all N submissions are kept in order, so the batch adds N rows |
| AddBooks.AddBatch | api/router.py:34-66 | the loop keeps the id invariant and the existing rows, and adds exactly one row per decodable submission |
| AddBooks.AddBatchRows | api/router.py:45-66 | the added rows, in input order, copy name, author, genre and price of the decodable submissions, and each photo is the path derived from the row's own id, even when the file write failed |
| AddBooks.AddBatchFreshIds | api/router.py:53-56 | every added row has an id that no row present before the batch has, and the added rows' ids are distinct |
| AddBooks.AddBatchImages | api/router.py:57-64 | each added row whose write succeeded has its submission's decoded bytes under its filename |
| AddBooks.AddBatchOnlyWritten | api/router.py:57-64 | in the model, where a failed write leaves the image directory unchanged, every file other than the successfully written images of the added rows is unchanged, so a skipped submission or a failed write adds no file |
| AddBooks.AddBatchLog | api/router.py:41-43 | the log names every submission that failed to decode, in input order |
| AddBooks.AddBatchAppend | api/router.py:35 | processing a list in two parts equals processing it whole, so submissions are handled strictly in input order |
| AddBooks.SkipDoesNotAbort | api/router.py:41-43 | inserting an undecodable submission anywhere in a batch leaves the resulting rows and files as if it were absent; later submissions are still processed |
| AddBooks.AddBatchKeepsPhotos | api/router.py:49-66 | starting from a table whose rows all have photos, every row still has a photo after the batch |
| AddBooks.CommitFailure | api/router.py:68-81 | OperationalError gives 500, IntegrityError 400, ProgrammingError 400, any other error 500, each with its own message |
| AddBooks.AddBooksHandler | api/router.py:19-83 | the response is `{"success": True}` exactly when the commit succeeds, whatever failed to decode; a failed commit keeps the old rows and reports the mapped error; a successful one adds one row per decodable submission; image files are written either way |
| AddBooks.AddBooksKeepsCommitted | api/router.py:49-83 | after the handler, a table whose rows all had photos still has a photo on every row |
| Store.Insert | models/book.py:47-52 | an insert picks a positive id no existing row has, appends the row with a null photo, and keeps the primary-key invariant |
| Store.SetPhoto | api/router.py:66 | setting the photo changes only the photo of the row with that id; ids, other fields and other rows are unchanged |
| Store.FreshAfterPrefix | models/book.py:47 | under the primary-key invariant, a row after position n has an id that no row before n has |
| Genres.GenreMembers | models/book.py:25-28 | the enum has exactly four members |
| Genres.FromString | models/book.py:9-28 | lookup by value succeeds exactly for the four member values and returns the member with that value |
| Genres.GenreRoundTrip | models/book.py:25-28 | every member's value looks up to that member |
| Genres.ToStringInjective | models/book.py:25-28 | distinct members have distinct values |
| Books.ValidateBook | shemas/book.py:24-28 | a submission is accepted exactly when its genre is a member value, and the record keeps all five fields |
| Books.ValidateBooks | api/router.py:20 | a request body is accepted exactly when every element's genre is a member value, so an invalid genre never reaches the handler |
| Books.ValidateFilters | shemas/book.py:47-51 | the filters are accepted exactly when the genre, if given, is a member value; the other four fields pass through |
| Books.ToBook | shemas/book.py:24-28 | a row converts to a record without its id; conversion succeeds exactly when the photo is non-null |
| Books.ToBooks | api/router.py:122-123 | a result set converts exactly when every row has a photo, element by element and in order |
| Books.ToBookIgnoresId | shemas/book.py:24-28 | rows that differ only in id convert to the same record |
| FindBooks.FilterRows | api/router.py:101-120 | a row is selected exactly when it is stored and passes every truthy filter |
| FindBooks.FilterRowsAppend | api/router.py:119-120 | selection distributes over concatenation, so the selected rows keep store order |
| FindBooks.FilterRowsAll | api/router.py:101-120 | when every row passes, all rows are returned in order |
| FindBooks.Find | api/router.py:86-125 | the response holds exactly the records of stored rows that pass the filters, one per selected row; it fails only on a row without a photo, so it never fails on a committed table |
| FindBooks.Normalize | api/router.py:103-117 | after normalisation a filter is present exactly when its value is truthy, a kept value is unchanged, and the genre is kept |
| FindBooks.MatchesIsPresenceOfTruthy | api/router.py:103-117 | the handler's filter equals the documented one (substring, equality, bounds) applied to the truthy filter values only |
| FindBooks.EmptyTextFilterHarmless | api/router.py:103-108 | an empty name or author filter would match every row even if it were applied |
| FindBooks.ZeroPriceBoundIgnored | api/router.py:112-117 | a zero price bound is ignored, so `price_to = 0` keeps positive prices that the documented reading would exclude (and `price_from = 0` keeps negative ones) |
| FindBooks.NoFiltersSelectAll | shemas/book.py:47-51 | the default filter object selects every row in order |
| FindBooks.FindNoFilters | shemas/book.py:47-51 | with the default filters, a committed table is returned whole, in order |
| FindBooks.ReversedRangeEmpty | shemas/book.py:50-51 | non-zero bounds with `price_from > price_to` select no row; nothing checks their order |
| FindBooks.GenreFilterExact | api/router.py:109-111 | a genre filter selects exactly the stored rows of that genre |
| FindBooks.FilterRowsIgnoresIds | api/router.py:101-120 | selection does not depend on ids |
| FindBooks.FindIgnoresIds | shemas/book.py:24-28 | tables that differ only in their ids answer every query identically, so no id is exposed |
| Text.ContainsIgnoreCaseCorrect | api/router.py:103-108 | the containment scan succeeds exactly when the needle occurs somewhere in the text, ignoring ASCII case |
| Scenarios.AddThenFindDune | api/router.py:19-125 | adding "Dune" by "Herbert" (genre other, price 15.5) to the empty table succeeds, and a genre-other query returns it with photo `/media/images/1-Dune-Herbert.png` |
| Scenarios.HobbitFoundByLowercase | api/router.py:105 | "The Hobbit" is found by the name filter "hobbit" |

## Left out

- Base64 decoding (`base64.b64decode`) is a parameter: a function from payload to optional bytes. The codec itself is not modelled.
- File writes (api/router.py:60-64) are a parameter: a success predicate on the filename. A failed write is modelled as leaving the image directory unchanged and adding a log entry. In the source, `aiofiles.open(filename, 'wb')` creates or truncates the file before `f.write`. So a write that fails after the open leaves an empty or partial file, which may replace an image left under a reused id by a rolled-back batch. The model does not represent such partial files.
- `os.makedirs` (api/router.py:57) sits outside the `try` block. If it raises, the exception leaves `async with db.begin()`, the batch rolls back, and no `except` clause maps it, so the request fails with an unhandled error. This abort path is not modelled: the model treats the directory as always creatable.
- SQL `ILIKE` is modelled as case-insensitive substring containment with ASCII case folding, which is what SQLite's `lower()` does. The `%` and `_` characters in the user's text are not escaped by the source (api/router.py:105, :108), so they act as wildcards in the real query. The model treats them literally.
- Result order: the query has no `ORDER BY`. The model returns rows in insertion order, which SQLite's rowid scan yields for this table.
- Transactions: the model has one commit outcome per batch. On failure the rows roll back to the state before the batch, and written image files stay. The source actually commits when the `async with db.begin()` block exits (api/router.py:34), so an error there escapes the `except` chain. The explicit `db.commit()` at line 69 then runs on an empty transaction. The model keeps the `except` chain's mapping as written and does not separate flush-time, block-exit and explicit-commit errors.
- Store.Insert: ids are unbounded naturals starting at 1 (SQLite's rowid for an empty table). The 64-bit rowid limit is not modelled.
- Price is a `real`, because only comparisons are needed. Floating-point rounding, NaN and `-0.0` (also falsy in Python) are not modelled.
- The HTTP detail texts are an enumeration (`Detail`), not the literal messages. The text of log messages is reduced to the book name or error kind.
- Request routing, JSON and pydantic parsing beyond the genre check, async scheduling and concurrency are not modelled.
- Infrastructure: main.py (dropping and recreating the table at startup, static file mount), db/database.py (engine and session setup) and logger_config.py are configuration and I/O. The model's `Store.Empty` stands for the freshly recreated table.
