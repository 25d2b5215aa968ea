# notesbible: the offline import and storage core, in Dafny

This project models the core of notesbible, an Android app. The app downloads fixed Bible
translations, reads them offline by book and chapter, and stores handwritten notes per chapter or
verse. The following parts are modelled, and properties of each are proved:

- **The JSON flattener** (`BibleJsonParser.parse`). It walks a decoded JSON tree, book → chapter →
  verse, and produces one flat row per verse.
  - It is a method with three nested loops.
  - It is proved equal to a recursive reference definition, `Flatten`.
  - The properties (positional numbering, strict key order, completeness, the count, the exact
    failure conditions, the name fallback) are proved about `Flatten`.
- **The three tables** (`VerseDao`, `BibleVersionDao`, `HandwrittenNoteDao`). Each is a map from
  its primary key to a row.
  - The subset type of each table records that every row is stored under its own key.
  - The queries are pure functions over the table contents.
  - The writes are methods of the `BibleDatabase` class.
- **The repository** (`OfflineFirstBibleRepository`):
  - `downloadVersion`: fetch, parse, then one transaction. The transaction deletes the version's
    verses, inserts the rows 500 at a time, and upserts the version record. It runs on a working
    copy that is committed only when every statement succeeds.
  - The event list it emits.
  - The catalog left join.
  - The book, chapter and note mappings.
- **The static catalog** (`DefaultBibleVersions`).
- **The reader's selection state**, and the screen state derived from it.
- **The per-version download tracker** of the version list.

Module layout:

- Data: `Wrappers`, `Json`, `Text`, `Ordering`, `Models`.
- The catalog: `Catalog`.
- The tables and the database: `VerseDao`, `BibleVersionDao`, `HandwrittenNoteDao`, `Database`.
- The parser and its properties: `BibleJsonParser`, `ParserProperties`.
- The repository: `Repository`.
- The view models: `ReaderViewModel`, `VersionListViewModel`.

### Parser behaviour worth knowing

- **A book with no non-null `book` or `name` field is named** `"Libro {n}"`, where n is its
  1-based position.
- **An empty `book` or `name` field is kept as the book's name.** Only an absent field or a JSON
  null falls through to the next choice.
- **Four kinds of malformed element make the parser throw:** a book that is not an object, a
  `book`/`name` field that is an array or object, a chapter that is not an array, and a verse that
  is not a primitive.
  The failure becomes the download's Error event, after InProgress(45). A book without a `chapters`
  array is skipped silently.
- **The name is resolved before the `chapters` check.** A book with an array-valued `book` field
  and no chapters therefore still fails.
- **A JSON null verse is stored as the text `"null"`.**

## Model

| member | source | states |
|---|---|---|
| BibleJsonParser.Parse | app/src/main/java/com/notesbible/app/data/remote/BibleJsonParser.kt:12-43 | the three nested loops return exactly the reference definition: a syntax error, the first malformed element, or the flat rows in book, chapter, verse order |
| ParserProperties.FlattenNotArray | app/src/main/java/com/notesbible/app/data/remote/BibleJsonParser.kt:14 | a top level that is not an array gives no rows and no error |
| ParserProperties.FlattenSpec | app/src/main/java/com/notesbible/app/data/remote/BibleJsonParser.kt:17-40 | every row carries the version id and describes the verse at its own position: bookIndex is the position in the top-level array, skipped books included; chapter and verse numbers are 1-based positions; the text is the trimmed verse. Keys strictly increase in (bookIndex, chapter, verse) order, so they are distinct. The row count is the number of verses of the books that have a chapters array |
| ParserProperties.FlattenComplete | app/src/main/java/com/notesbible/app/data/remote/BibleJsonParser.kt:22-38 | every verse of every book with a chapters array gets a row |
| ParserProperties.FlattenOkIff | app/src/main/java/com/notesbible/app/data/remote/BibleJsonParser.kt:18-27 | the parse fails exactly when a book is not an object, a reached name field is an array or object, a chapter is not an array, or a verse is not a primitive |
| ParserProperties.BooksFromOk | app/src/main/java/com/notesbible/app/data/remote/BibleJsonParser.kt:17-40 | the suffix of books from position i: soundness, strict key order, count, bookIndex at least i |
| ParserProperties.ChaptersFromOk | app/src/main/java/com/notesbible/app/data/remote/BibleJsonParser.kt:23-39 | the chapters of one book: each row is a verse of its chapter, in strict key order, counted |
| ParserProperties.VersesFromOk | app/src/main/java/com/notesbible/app/data/remote/BibleJsonParser.kt:26-37 | the verses of one chapter: one row each, numbered densely from 1, text trimmed |
| ParserProperties.BookNameFallback | app/src/main/java/com/notesbible/app/data/remote/BibleJsonParser.kt:19-21 | the book field wins when present and non-null, even if empty; then the name field; then "Libro {bookIndex+1}" |
| ParserProperties.VerseTextCases | app/src/main/java/com/notesbible/app/data/remote/BibleJsonParser.kt:27-35 | a JSON null verse becomes "null"; a string verse is trimmed |
| ParserProperties.HelloExample | app/src/main/java/com/notesbible/app/data/remote/BibleJsonParser.kt:17-40 | a single book with no name and one chapter ["Hello"] gives one row: "Libro 1", chapter 1, verse 1, "Hello" |
| Json.ContentOrNull | app/src/main/java/com/notesbible/app/data/remote/BibleJsonParser.kt:19-27 | contentOrNull is absent exactly for JSON null, and a string gives its own text |
| Text.TrimSpec | app/src/main/java/com/notesbible/app/data/remote/BibleJsonParser.kt:35 | trim returns a contiguous slice with no whitespace at either end, and it is empty iff the input is all whitespace |
| Text.TrimIdempotent | app/src/main/java/com/notesbible/app/data/remote/BibleJsonParser.kt:35 | trimming twice gives the same result as trimming once |
| Text.NatToStringSpec | app/src/main/java/com/notesbible/app/data/remote/BibleJsonParser.kt:21 | the decimal rendering of the book number is non-empty, all digits, has no leading zero and reads back as the number |
| VerseDao.InsertVersesSpec | app/src/main/java/com/notesbible/app/data/local/dao/VerseDao.kt:12-13 | REPLACE semantics: each key in the batch holds the last batch row with that key; every other key keeps its row or stays absent |
| VerseDao.LastWithKey | app/src/main/java/com/notesbible/app/data/local/dao/VerseDao.kt:12-13 | the row that wins for a key is the last batch row with that key: no later batch row has the key. There is none iff no batch row has the key |
| VerseDao.InsertVersesConcat | app/src/main/java/com/notesbible/app/data/OfflineFirstBibleRepository.kt:85-87 | inserting a + b is inserting a, then b, so splitting the list into batches changes nothing |
| VerseDao.RowAtOwnKey | app/src/main/java/com/notesbible/app/data/local/entities/VerseEntity.kt:5-16 | every stored row sits under its own key (versionId, bookIndex, chapterNumber, verseNumber). The book name is not part of the key |
| VerseDao.DeleteByVersion | app/src/main/java/com/notesbible/app/data/local/dao/VerseDao.kt:15-16 | removes exactly the keys of that version; other rows are unchanged |
| VerseDao.ObserveBooks | app/src/main/java/com/notesbible/app/data/local/dao/VerseDao.kt:18-27 | one entry per distinct (book, bookIndex) group of the version, each group once, in non-decreasing bookIndex; the count is the group's largest chapter number |
| VerseDao.GroupMaxRows | app/src/main/java/com/notesbible/app/data/local/dao/VerseDao.kt:20 | the count is the chapter number of some row of the group, and no row of the group has a larger one |
| VerseDao.ObserveChapter | app/src/main/java/com/notesbible/app/data/local/dao/VerseDao.kt:29-36 | exactly the rows with that version, book name and chapter, each once, in non-decreasing verse number |
| BibleVersionDao.ObserveVersions | app/src/main/java/com/notesbible/app/data/local/dao/BibleVersionDao.kt:12-13 | every row once, sorted by (language, name) |
| BibleVersionDao.ValuesCard | app/src/main/java/com/notesbible/app/data/local/entities/BibleVersionEntity.kt:8 | one row per id: there are as many rows as ids |
| BibleVersionDao.Upsert | app/src/main/java/com/notesbible/app/data/local/dao/BibleVersionDao.kt:15-16 | the row under the id becomes the new one; no other row changes |
| BibleVersionDao.FindById | app/src/main/java/com/notesbible/app/data/local/dao/BibleVersionDao.kt:18-19 | the row with that id, or none exactly when there is no such row |
| BibleVersionDao.DeleteById | app/src/main/java/com/notesbible/app/data/local/dao/BibleVersionDao.kt:21-22 | only that id's row goes |
| BibleVersionDao.FindAfterWrites | app/src/main/java/com/notesbible/app/data/local/dao/BibleVersionDao.kt:15-22 | a row just upserted is found; a row just deleted is not; other ids are unaffected |
| HandwrittenNoteDao.ObserveNote | app/src/main/java/com/notesbible/app/data/local/dao/HandwrittenNoteDao.kt:12-20 | the note matching all four key fields, or none when no note matches |
| HandwrittenNoteDao.Upsert | app/src/main/java/com/notesbible/app/data/local/dao/HandwrittenNoteDao.kt:22-23 | the note under its key (versionId, book, chapter, verse) becomes the new one; no other note changes |
| HandwrittenNoteDao.ObserveAfterUpsert | app/src/main/java/com/notesbible/app/data/local/entities/HandwrittenNoteEntity.kt:5-16 | after an upsert the note is found at its own key, and every other location, reads as before. In particular a verse note leaves the whole-chapter note (verse 0) of its chapter as it was |
| Database.BibleDatabase.InsertVerses | app/src/main/java/com/notesbible/app/data/local/dao/VerseDao.kt:12-13 | the loop of single REPLACEs leaves the verse table equal to the batch insert; the other tables are unchanged |
| Database.BibleDatabase.DeleteByVersion | app/src/main/java/com/notesbible/app/data/local/dao/VerseDao.kt:15-16 | the verse table loses that version's rows; the other tables are unchanged |
| Database.BibleDatabase.UpsertVersion | app/src/main/java/com/notesbible/app/data/local/dao/BibleVersionDao.kt:15-16 | the version table gets the upsert; the other tables are unchanged |
| Database.BibleDatabase.DeleteVersionById | app/src/main/java/com/notesbible/app/data/local/dao/BibleVersionDao.kt:21-22 | the version table loses that id; the other tables are unchanged |
| Database.BibleDatabase.UpsertNote | app/src/main/java/com/notesbible/app/data/local/dao/HandwrittenNoteDao.kt:22-23 | the note table gets the upsert; the other tables are unchanged |
| Database.BibleDatabase.Commit | app/src/main/java/com/notesbible/app/data/OfflineFirstBibleRepository.kt:73-99 | a finished transaction's tables become the database's |
| Catalog.DefaultIdsDistinct | app/src/main/java/com/notesbible/app/data/models/BibleVersionDefinition.kt:12-45 | the catalog has exactly four entries, with pairwise distinct ids |
| Catalog.DefaultLanguages | app/src/main/java/com/notesbible/app/data/models/BibleVersionDefinition.kt:16-40 | two entries are "Español" and two are "English" |
| Catalog.DefaultDownloadPaths | app/src/main/java/com/notesbible/app/data/models/BibleVersionDefinition.kt:18-42 | each download path ends in /json/{id}.json for its own id |
| Catalog.FindDefinition | app/src/main/java/com/notesbible/app/data/OfflineFirstBibleRepository.kt:63 | firstOrNull: none iff no entry has the id, otherwise the first entry with it |
| Catalog.FindDefaultDefinition | app/src/main/java/com/notesbible/app/data/OfflineFirstBibleRepository.kt:63-64 | every catalog id is found at its own entry |
| Repository.ChunkedConcat | app/src/main/java/com/notesbible/app/data/OfflineFirstBibleRepository.kt:85-87 | the chunks of 500, joined in order, give back the entity list, so each entity is inserted exactly once and in order |
| Repository.ChunkedSizes | app/src/main/java/com/notesbible/app/data/OfflineFirstBibleRepository.kt:85 | no chunk is empty or longer than 500, and only the last one may be shorter |
| Repository.Transaction | app/src/main/java/com/notesbible/app/data/OfflineFirstBibleRepository.kt:73-99 | delete, chunked insert, upsert. It succeeds iff no statement throws; on success the verse table is delete-then-insert of the entities and the version table gets the record |
| Repository.ReplaceVersionSpec | app/src/main/java/com/notesbible/app/data/OfflineFirstBibleRepository.kt:74-87 | with rows of one version under distinct keys: other versions' rows are kept, the version's rows become exactly the new rows, and it has that many keys |
| Repository.DownloadedRows | app/src/main/java/com/notesbible/app/data/OfflineFirstBibleRepository.kt:70-87 | after commit the version's rows are exactly the parsed rows, their count is the parsed count, and every other version is untouched |
| Repository.NonArrayPayloadErases | app/src/main/java/com/notesbible/app/data/OfflineFirstBibleRepository.kt:70-87 | a payload that is not an array commits an empty replace, erasing the version's verses |
| Repository.OfflineFirstBibleRepository.DownloadVersion | app/src/main/java/com/notesbible/app/data/OfflineFirstBibleRepository.kt:62-106 | an unknown id is rejected before any event. Otherwise the events are InProgress 0, 45, 75, 100 and Success(parsed count), and the first failure ends them with one Error. The database changes only on success: the version's verses are replaced and its record is upserted with the catalog fields, the time and the verse count |
| Repository.DownloadResultSucceeds | app/src/main/java/com/notesbible/app/data/OfflineFirstBibleRepository.kt:62-106 | the reported outcome ends in Success exactly when the id is known and the fetch, the parse and every transaction statement succeed. It is Rejected exactly for an unknown id. An emitted list starts with InProgress(0), holds only InProgress before its last event, and ends in Success or Error |
| Repository.AssociateBySpec | app/src/main/java/com/notesbible/app/data/OfflineFirstBibleRepository.kt:45 | associateBy has exactly the ids of the rows, and keeps for each id a row with that id |
| Repository.AssociateByLast | app/src/main/java/com/notesbible/app/data/OfflineFirstBibleRepository.kt:45 | the row kept for an id is the last row with that id |
| Repository.AssociateObserved | app/src/main/java/com/notesbible/app/data/OfflineFirstBibleRepository.kt:44-45 | indexing the whole sorted version table by id gives back the table |
| Repository.OfflineFirstBibleRepository.ObserveAvailableVersions | app/src/main/java/com/notesbible/app/data/OfflineFirstBibleRepository.kt:43-60 | one entry per catalog definition, in catalog order, with its fields. isDownloaded iff a local row has the id; then that row's verse count and timestamp, else 0 and none |
| Repository.OfflineFirstBibleRepository.ObserveBooks | app/src/main/java/com/notesbible/app/data/OfflineFirstBibleRepository.kt:108-112 | the summaries carry over every group, once, in bookIndex order, with each group's largest chapter |
| Repository.SummariesMirror | app/src/main/java/com/notesbible/app/data/OfflineFirstBibleRepository.kt:108-112 | the summary mapping keeps every property of the projections |
| Repository.OfflineFirstBibleRepository.ObserveChapter | app/src/main/java/com/notesbible/app/data/OfflineFirstBibleRepository.kt:114-118 | the DAO rows mapped to (number, text) in DAO order: one verse per stored row of the chapter, each verse as often as there are rows with its number and text, in verse-number order |
| Repository.VersesCover | app/src/main/java/com/notesbible/app/data/OfflineFirstBibleRepository.kt:114-118 | the verses are exactly the (number, text) pairs of the chapter's rows, and each occurs as often as there are rows with that pair |
| Repository.MappedCount | app/src/main/java/com/notesbible/app/data/OfflineFirstBibleRepository.kt:116 | mapping a list of distinct rows to (number, text) gives each pair as often as there are rows with it |
| Repository.OfflineFirstBibleRepository.ObserveHandwrittenNote | app/src/main/java/com/notesbible/app/data/OfflineFirstBibleRepository.kt:120-129 | a note iff one is stored at that key, and then the stored row mapped to the domain: the key fields and timestamp copied, the strokes decoded, an empty stroke text read as no strokes |
| Repository.OfflineFirstBibleRepository.SaveHandwrittenNote | app/src/main/java/com/notesbible/app/data/OfflineFirstBibleRepository.kt:131-135 | the note table gets the upsert of the note's entity stamped with the given time; nothing else changes |
| Repository.ToDomain | app/src/main/java/com/notesbible/app/data/OfflineFirstBibleRepository.kt:137-151 | the key fields and timestamp are copied; an empty stroke text is an empty list and is never decoded |
| Repository.ToEntity | app/src/main/java/com/notesbible/app/data/OfflineFirstBibleRepository.kt:153-162 | the four key fields are copied and the strokes are encoded; updatedAt is the clock time, never the note's own |
| Repository.SaveThenObserve | app/src/main/java/com/notesbible/app/data/OfflineFirstBibleRepository.kt:131-162 | saving then observing a note gives it back with updatedAt set to the save time, when the stroke codec round-trips |
| ReaderViewModel.ReaderViewModel.constructor | app/src/main/java/com/notesbible/app/ui/reader/ReaderViewModel.kt:23-24 | initially no book is selected and the chapter is 1 |
| ReaderViewModel.ReaderViewModel.SelectBook | app/src/main/java/com/notesbible/app/ui/reader/ReaderViewModel.kt:77-80 | sets the book and resets the chapter to 1, whatever it was |
| ReaderViewModel.ReaderViewModel.SelectChapter | app/src/main/java/com/notesbible/app/ui/reader/ReaderViewModel.kt:82-84 | changes only the chapter and does not clamp it |
| ReaderViewModel.ReaderViewModel.OnBooks | app/src/main/java/com/notesbible/app/ui/reader/ReaderViewModel.kt:66-75 | the selection becomes the collector's result for the arrived list |
| ReaderViewModel.AfterBooks | app/src/main/java/com/notesbible/app/ui/reader/ReaderViewModel.kt:68-72 | an empty list or a listed book keeps the selection; otherwise the first book is selected at chapter 1 |
| ReaderViewModel.AfterBooksSelectsListedBook | app/src/main/java/com/notesbible/app/ui/reader/ReaderViewModel.kt:68-72 | after a non-empty list arrives, the stored book is one of its names |
| ReaderViewModel.AfterBooksIdempotent | app/src/main/java/com/notesbible/app/ui/reader/ReaderViewModel.kt:68-72 | the same list arriving again changes nothing |
| ReaderViewModel.FindBook | app/src/main/java/com/notesbible/app/ui/reader/ReaderViewModel.kt:56 | firstOrNull by name: none iff no book has the name, otherwise the first index with it |
| ReaderViewModel.CurrentBook | app/src/main/java/com/notesbible/app/ui/reader/ReaderViewModel.kt:48 | the stored book, else the first book's name, else none |
| ReaderViewModel.DeriveUiState | app/src/main/java/com/notesbible/app/ui/reader/ReaderViewModel.kt:42-59 | book names in list order; the current book; the chapter count of the first book with that name, else 0; the stored chapter; the verses as given; hasContent iff the list is non-empty |
| ReaderViewModel.ShownBookIsListed | app/src/main/java/com/notesbible/app/ui/reader/ReaderViewModel.kt:48-72 | once a non-empty list has arrived, the shown book is in the list and its count is that book's chapter count |
| ReaderViewModel.ReaderViewModel.SelectedVerses | app/src/main/java/com/notesbible/app/ui/reader/ReaderViewModel.kt:32-40 | no verses while no book is stored, else the stored chapter's verses |
| ReaderViewModel.ReaderViewModel.Render | app/src/main/java/com/notesbible/app/ui/reader/ReaderViewModel.kt:42-59 | the state is derived from the stored selection and its verses; a missing book is written back as the first book, and the chapter is left unchanged |
| VersionListViewModel.StatusOf | app/src/main/java/com/notesbible/app/ui/version/VersionListViewModel.kt:39 | the recorded status, or Idle("") when none is recorded |
| VersionListViewModel.Items | app/src/main/java/com/notesbible/app/ui/version/VersionListViewModel.kt:29-41 | one item per version, in the same order, with its fields copied and its status |
| VersionListViewModel.ItemsAfterStatus | app/src/main/java/com/notesbible/app/ui/version/VersionListViewModel.kt:29-55 | recording a status changes only the items of that id, which then show it |
| VersionListViewModel.Recorded | app/src/main/java/com/notesbible/app/ui/version/VersionListViewModel.kt:53-55 | after the events the id holds the last event; no other id changes |
| VersionListViewModel.VersionListViewModel.OnStatus | app/src/main/java/com/notesbible/app/ui/version/VersionListViewModel.kt:54 | each event overwrites only that id's entry |
| VersionListViewModel.VersionListViewModel.Collect | app/src/main/java/com/notesbible/app/ui/version/VersionListViewModel.kt:53-55 | the events are recorded in order |
| VersionListViewModel.VersionListViewModel.Refresh | app/src/main/java/com/notesbible/app/ui/version/VersionListViewModel.kt:25-47 | the items are the projection of the catalog versions and the recorded statuses |
| VersionListViewModel.VersionListViewModel.Download | app/src/main/java/com/notesbible/app/ui/version/VersionListViewModel.kt:49-57 | InProgress blocks the call, and only InProgress does. Otherwise the outcome is exactly the repository download's outcome for the same inputs, and its events are recorded. The database gets that download's replace and upsert when it commits, and is otherwise unchanged. Afterwards the status is never InProgress, so a new download is allowed |

## Left out

- **Compose screens, theming, navigation and `MainActivity`** are left out. They are layout,
  gestures and drawing.
- **The app wiring in `NotesBibleApp` is left out.** That wiring passes no handwritten-note DAO to
  the repository constructor. The model's repository always has its database.
- **The `HandwrittenNoteViewModel`** is left out. It is coroutine glue around save and observe.
- **The database schema version and destructive migration** are left out.
- **The network is an input.** `DownloadVersion` receives the fetch result as
  `Result<JsonText, string>`.
- **Decoding JSON text into a tree is outside the model.**
  - A payload is either a decoded tree or `Malformed`, for the decoder's exception.
  - `Json { ignoreUnknownKeys }` has no effect on tree decoding.
- **The kotlinx stroke serialization is a pair of abstract functions held by the repository.**
  - Repository.SaveThenObserve needs the codec to round-trip, and to encode only the empty list as
    the empty text. These are assumptions about the library, not proved.
- **Floating point is not modelled.**
  - Progress values 0, 0.45, 0.75 and 1 become the whole percentages 0, 45, 75 and 100.
  - Stroke widths and point coordinates are `real` and are only copied.
- **Reactivity is not modelled.** This covers Flow re-emission, `stateIn`, `combine`,
  `flatMapLatest` and the dispatchers.
  - Each `observe*` is a pure query of the current tables.
  - ReaderViewModel.ReaderViewModel.Render is one evaluation of `uiState`. It receives the latest
    book list held by `booksState` as a parameter.
  - Re-subscription timing is not modelled.
- **VersionListViewModel.VersionListViewModel.Download runs the download synchronously.**
  - The launched coroutine, and the interleaving of its events with other calls, are not modelled.
  - So the guard race is not modelled either: a second call made before the first event is stored
    is not blocked.
  - For an id outside the catalog, the repository's exception escapes the coroutine; the model
    records nothing.
- **Repository.DownloadStatus.Error carries a `Failure` value instead of a `Throwable`.** The
  failure is the transport message, the parse error, or the storage fault.
- **Storage faults are an input.** `StorageFault` says which transaction statement throws, if any.
  Room's rollback is modelled by running the transaction on a copy and discarding the copy.
- **SQL leaves some orders open; the model picks one.**
  - VerseDao.ObserveBooks orders book groups that share a bookIndex by name.
  - VerseDao.ObserveChapter orders rows that share a verse number by bookIndex.
  - BibleVersionDao.ObserveVersions orders rows with equal language and name by id.
  - The contracts state only what the queries promise.
- **Kotlin `Int` and `Long` are unbounded integers,** because counts and positions stay far below
  2^31. 32-bit wrap-around of `bookIndex + 1` and of row counts is not modelled.
- **Kotlin default arguments are not modelled.** The `verse = 0` default of `observeNote` and
  of the note entity is not modelled, because every caller in the core passes `verse`
  explicitly. `Models.WholeChapter` names the value 0, and HandwrittenNoteDao.ObserveAfterUpsert
  states that notes at verse 0 and at other verses do not interfere.
- **The clock is a parameter.** `System.currentTimeMillis()` is the `now` argument of the download
  and the save.
- **Strings are Unicode code-point sequences.**
  - `trim` uses Kotlin's `isWhitespace` character set, written out.
  - Collation compares code points, like SQLite's default BINARY collation.
