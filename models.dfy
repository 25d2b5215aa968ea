/**
 * Plain records of the data layer: the three Room entities (one row of each table),
 * their primary keys, and the domain records the repository hands to the UI.
 */
module Models {
  import opened Wrappers

  // ----- entities (rows of the local tables) -----

  /** A row of `verses`; its primary key is (versionId, bookIndex, chapterNumber, verseNumber). */
  datatype VerseEntity = VerseEntity(
    versionId: string,
    book: string,
    bookIndex: int,
    chapterNumber: int,
    verseNumber: int,
    text: string)

  datatype VerseKey = VerseKey(versionId: string, bookIndex: int, chapterNumber: int, verseNumber: int)

  /** The primary key of a verse row; the book name is not part of it. */
  function VerseKeyOf(e: VerseEntity): VerseKey {
    VerseKey(e.versionId, e.bookIndex, e.chapterNumber, e.verseNumber)
  }

  /** A row of `bible_versions`; its primary key is `id`. */
  datatype BibleVersionEntity = BibleVersionEntity(
    id: string,
    name: string,
    language: string,
    abbreviation: string,
    description: string,
    lastDownloaded: int,
    totalVerses: int)

  /** A row of `handwritten_notes`; its primary key is (versionId, book, chapter, verse). */
  datatype HandwrittenNoteEntity = HandwrittenNoteEntity(
    versionId: string,
    book: string,
    chapter: int,
    verse: int,
    strokes: string,
    updatedAt: int)

  datatype NoteKey = NoteKey(versionId: string, book: string, chapter: int, verse: int)

  function NoteKeyOf(e: HandwrittenNoteEntity): NoteKey {
    NoteKey(e.versionId, e.book, e.chapter, e.verse)
  }

  /** The default of the `verse` column and parameter: a note on the whole chapter. */
  const WholeChapter: int := 0

  // ----- domain records -----

  datatype BibleVersion = BibleVersion(
    id: string,
    name: string,
    language: string,
    abbreviation: string,
    isDownloaded: bool,
    description: string,
    totalVerses: int,
    lastDownloadedAt: Option<int>)

  datatype BookSummary = BookSummary(name: string, bookIndex: int, chapterCount: int)

  datatype Verse = Verse(verseNumber: int, text: string)

  /** Point coordinates and widths are Kotlin `Float`s; the model only stores and copies them. */
  datatype DrawPoint = DrawPoint(x: real, y: real)

  datatype Stroke = Stroke(color: int, strokeWidth: real, points: seq<DrawPoint>)

  datatype HandwrittenNote = HandwrittenNote(
    versionId: string,
    book: string,
    chapter: int,
    verse: int,
    strokes: seq<Stroke>,
    updatedAt: int)
}
