/**
 * `BibleJsonParser.parse`: walks a JSON array of books, each with an array of chapters, each an
 * array of verse texts, and produces one flat row per verse with positional numbering.
 * `Flatten` is the reference definition (book, then chapter, then verse); `Parse` is the
 * source's three nested loops, proved equal to it.
 */
module BibleJsonParser {
  import opened Wrappers
  import opened Json
  import opened Text

  datatype ParsedVerse = ParsedVerse(
    versionId: string,
    book: string,
    bookIndex: int,
    chapterNumber: int,
    verseNumber: int,
    text: string)

  /** The exceptions `parse` can raise; positions are 0-based indices into the arrays. */
  datatype ParseError =
    | MalformedJson                                   // parseToJsonElement
    | BookNotObject(bookIndex: nat)                   // bookElement.jsonObject
    | NameNotPrimitive(bookIndex: nat, field: string) // obj[field]?.jsonPrimitive
    | ChapterNotArray(bookIndex: nat, chapterIndex: nat)                  // chapterElement.jsonArray
    | VerseNotPrimitive(bookIndex: nat, chapterIndex: nat, verseIndex: nat) // verseElement.jsonPrimitive

  type Rows = Result<seq<ParsedVerse>, ParseError>

  /** Run `a`, then `b`, appending their rows; the first exception wins. */
  function Then(a: Rows, b: Rows): Rows {
    match a
    case Err(e) => Err(e)
    case Ok(x) =>
      match b
      case Err(e) => Err(e)
      case Ok(y) => Ok(x + y)
  }

  lemma ThenAssoc(a: Rows, b: Rows, c: Rows)
    ensures Then(Then(a, b), c) == Then(a, Then(b, c))
  {
    if a.Ok? && b.Ok? && c.Ok? {
      assert (a.value + b.value) + c.value == a.value + (b.value + c.value);
    }
  }

  lemma ThenUnit(a: Rows)
    ensures Then(Ok([]), a) == a && Then(a, Ok([])) == a
  {
    if a.Ok? {
      assert [] + a.value == a.value && a.value + [] == a.value;
    }
  }

  const PlaceholderPrefix: string := "Libro "

  /** `obj[field]?.jsonPrimitive?.contentOrNull`: absent and JSON null give `None`. */
  function FieldContent(obj: map<string, Json>, field: string, bookIndex: nat): Result<Option<string>, ParseError> {
    if field !in obj then Ok(None)
    else if IsPrimitive(obj[field]) then Ok(ContentOrNull(obj[field]))
    else Err(NameNotPrimitive(bookIndex, field))
  }

  /** The `book` field, else the `name` field, else `"Libro {bookIndex + 1}"`. */
  function BookName(obj: map<string, Json>, bookIndex: nat): Result<string, ParseError> {
    match FieldContent(obj, "book", bookIndex)
    case Err(e) => Err(e)
    case Ok(Some(s)) => Ok(s)
    case Ok(None) =>
      match FieldContent(obj, "name", bookIndex)
      case Err(e) => Err(e)
      case Ok(Some(s)) => Ok(s)
      case Ok(None) => Ok(PlaceholderPrefix + NatToString(bookIndex + 1))
  }

  /** `(jsonPrimitive.contentOrNull ?: toString()).trim()`; `toString()` of JSON null is "null". */
  function VerseText(e: Json): string
    requires IsPrimitive(e)
  {
    Trim(ContentOrNull(e).GetOr("null"))
  }

  function VerseRow(versionId: string, name: string, b: nat, c: nat, k: nat, e: Json): Rows {
    if IsPrimitive(e) then Ok([ParsedVerse(versionId, name, b, c + 1, k + 1, VerseText(e))])
    else Err(VerseNotPrimitive(b, c, k))
  }

  /** Rows of the verses `vs[k..]` of chapter `c` of book `b`. */
  function VersesFrom(versionId: string, name: string, b: nat, c: nat, vs: seq<Json>, k: nat): Rows
    requires k <= |vs|
    decreases |vs| - k
  {
    if k == |vs| then Ok([])
    else Then(VerseRow(versionId, name, b, c, k, vs[k]), VersesFrom(versionId, name, b, c, vs, k + 1))
  }

  function ChapterRows(versionId: string, name: string, b: nat, c: nat, chapter: Json): Rows {
    match chapter
    case JArr(vs) => VersesFrom(versionId, name, b, c, vs, 0)
    case _ => Err(ChapterNotArray(b, c))
  }

  /** Rows of the chapters `chs[j..]` of book `b`. */
  function ChaptersFrom(versionId: string, name: string, b: nat, chs: seq<Json>, j: nat): Rows
    requires j <= |chs|
    decreases |chs| - j
  {
    if j == |chs| then Ok([])
    else Then(ChapterRows(versionId, name, b, j, chs[j]), ChaptersFrom(versionId, name, b, chs, j + 1))
  }

  /** The `chapters` array of a book object, when it has one. */
  function ChaptersOf(obj: map<string, Json>): Option<seq<Json>> {
    if "chapters" in obj && obj["chapters"].JArr? then Some(obj["chapters"].elems) else None
  }

  /** The name is resolved first; a book without a `chapters` array then contributes nothing. */
  function BookRows(versionId: string, b: nat, book: Json): Rows {
    match book
    case JObj(obj) =>
      (match BookName(obj, b)
       case Err(e) => Err(e)
       case Ok(name) =>
         match ChaptersOf(obj)
         case None => Ok([])
         case Some(chs) => ChaptersFrom(versionId, name, b, chs, 0))
    case _ => Err(BookNotObject(b))
  }

  /** Rows of the books `books[i..]`. */
  function BooksFrom(versionId: string, books: seq<Json>, i: nat): Rows
    requires i <= |books|
    decreases |books| - i
  {
    if i == |books| then Ok([])
    else Then(BookRows(versionId, i, books[i]), BooksFrom(versionId, books, i + 1))
  }

  /** The reference definition of the parser on a decoded tree; a non-array top level yields no rows. */
  function Flatten(versionId: string, root: Json): Rows {
    match root
    case JArr(books) => BooksFrom(versionId, books, 0)
    case _ => Ok([])
  }

  /** The parser on raw text: a syntax error is an exception too. */
  function ParseSpec(versionId: string, raw: JsonText): Rows {
    match raw
    case Malformed => Err(MalformedJson)
    case WellFormed(root) => Flatten(versionId, root)
  }

  /** `BibleJsonParser.parse`, loop for loop. */
  method Parse(versionId: string, rawJson: JsonText) returns (r: Rows)
    ensures r == ParseSpec(versionId, rawJson)
  {
    if rawJson.Malformed? {
      return Err(MalformedJson);
    }
    if !rawJson.root.JArr? {
      return Ok([]);
    }
    var books := rawJson.root.elems;
    var verses: seq<ParsedVerse> := [];
    var i := 0;
    ThenUnit(BooksFrom(versionId, books, 0));
    while i < |books|
      invariant 0 <= i <= |books|
      invariant BooksFrom(versionId, books, 0) == Then(Ok(verses), BooksFrom(versionId, books, i))
    {
      ghost var rest := BooksFrom(versionId, books, i + 1);
      if !books[i].JObj? {
        return Err(BookNotObject(i));
      }
      var obj := books[i].fields;
      var name := BookName(obj, i);
      if name.Err? {
        return Err(name.error);
      }
      var bookName := name.value;
      if ChaptersOf(obj).None? {
        ThenAssoc(Ok(verses), Ok([]), rest);
        assert verses + [] == verses;
        i := i + 1;
        continue;
      }
      var chapters := ChaptersOf(obj).value;
      var j := 0;
      while j < |chapters|
        invariant 0 <= j <= |chapters|
        invariant BooksFrom(versionId, books, 0) ==
          Then(Ok(verses), Then(ChaptersFrom(versionId, bookName, i, chapters, j), rest))
      {
        ghost var restChapters := ChaptersFrom(versionId, bookName, i, chapters, j + 1);
        ThenAssoc(ChapterRows(versionId, bookName, i, j, chapters[j]), restChapters, rest);
        if !chapters[j].JArr? {
          return Err(ChapterNotArray(i, j));
        }
        var vs := chapters[j].elems;
        var k := 0;
        while k < |vs|
          invariant 0 <= k <= |vs|
          invariant BooksFrom(versionId, books, 0) ==
            Then(Ok(verses), Then(VersesFrom(versionId, bookName, i, j, vs, k), Then(restChapters, rest)))
        {
          ghost var restVerses := VersesFrom(versionId, bookName, i, j, vs, k + 1);
          ThenAssoc(VerseRow(versionId, bookName, i, j, k, vs[k]), restVerses, Then(restChapters, rest));
          if !IsPrimitive(vs[k]) {
            return Err(VerseNotPrimitive(i, j, k));
          }
          var row := ParsedVerse(versionId, bookName, i, j + 1, k + 1, VerseText(vs[k]));
          ThenAssoc(Ok(verses), Ok([row]), Then(restVerses, Then(restChapters, rest)));
          verses := verses + [row];
          k := k + 1;
        }
        ThenAssoc(Ok(verses), Ok([]), Then(restChapters, rest));
        assert verses + [] == verses;
        j := j + 1;
      }
      ThenAssoc(Ok(verses), Ok([]), rest);
      assert verses + [] == verses;
      i := i + 1;
    }
    assert verses + [] == verses;
    return Ok(verses);
  }
}
