/**
 * What the parser promises about its output, proved of the reference definition `Flatten`
 * (and so of `Parse`): each row says where its verse sits in the document, rows come in
 * book/chapter/verse order with strictly increasing keys, every verse of a book that has a
 * `chapters` array appears, the row count is the number of such verses, and the parse
 * succeeds exactly when every element has the shape the code insists on.
 */
module ParserProperties {
  import opened Wrappers
  import opened Json
  import opened Text
  import opened BibleJsonParser

  /** (bookIndex, chapterNumber, verseNumber) of `a` is lexicographically before that of `b`. */
  predicate KeyLess(a: ParsedVerse, b: ParsedVerse) {
    || a.bookIndex < b.bookIndex
    || (a.bookIndex == b.bookIndex && a.chapterNumber < b.chapterNumber)
    || (a.bookIndex == b.bookIndex && a.chapterNumber == b.chapterNumber && a.verseNumber < b.verseNumber)
  }

  predicate StrictlySorted(rows: seq<ParsedVerse>) {
    forall n, m :: 0 <= n < m < |rows| ==> KeyLess(rows[n], rows[m])
  }

  /** `r` is the verse at (chapterNumber - 1, verseNumber - 1) of the chapter array `chs` of book `b`. */
  predicate InChapters(versionId: string, name: string, b: nat, chs: seq<Json>, r: ParsedVerse) {
    && r.versionId == versionId && r.book == name && r.bookIndex == b
    && 1 <= r.chapterNumber <= |chs| && chs[r.chapterNumber - 1].JArr?
    && 1 <= r.verseNumber <= |chs[r.chapterNumber - 1].elems|
    && IsPrimitive(chs[r.chapterNumber - 1].elems[r.verseNumber - 1])
    && r.text == VerseText(chs[r.chapterNumber - 1].elems[r.verseNumber - 1])
  }

  /**
   * `r` describes a verse of the document: its bookIndex is the book's position in the top-level
   * array, its book name is that book's resolved name, its chapter and verse numbers are
   * 1-based positions, and its text is that verse's trimmed content.
   */
  predicate Locates(versionId: string, books: seq<Json>, r: ParsedVerse) {
    && 0 <= r.bookIndex < |books| && books[r.bookIndex].JObj?
    && BookName(books[r.bookIndex].fields, r.bookIndex) == Ok(r.book)
    && ChaptersOf(books[r.bookIndex].fields).Some?
    && InChapters(versionId, r.book, r.bookIndex, ChaptersOf(books[r.bookIndex].fields).value, r)
  }

  // ----- counting -----

  function ChapterVerseCount(chs: seq<Json>, j: nat): nat
    requires j <= |chs|
    decreases |chs| - j
  {
    if j == |chs| then 0
    else (if chs[j].JArr? then |chs[j].elems| else 0) + ChapterVerseCount(chs, j + 1)
  }

  /** Verses of the books `books[i..]` that have a `chapters` array. */
  function BooksVerseCount(books: seq<Json>, i: nat): nat
    requires i <= |books|
    decreases |books| - i
  {
    if i == |books| then 0
    else
      (if books[i].JObj? && ChaptersOf(books[i].fields).Some?
       then ChapterVerseCount(ChaptersOf(books[i].fields).value, 0) else 0)
      + BooksVerseCount(books, i + 1)
  }

  // ----- verse level -----

  /** `row` is the row of verse `vs[i]` of chapter `c` of book `b`: numbered `i + 1`, its text trimmed. */
  predicate RowIsVerse(versionId: string, name: string, b: nat, c: nat, vs: seq<Json>, i: nat, row: ParsedVerse) {
    i < |vs| && IsPrimitive(vs[i]) && row == ParsedVerse(versionId, name, b, c + 1, i + 1, VerseText(vs[i]))
  }

  /** `rows` are the verses `vs[k..]` of chapter `c` of book `b`, one each, numbered densely from `k + 1`. */
  predicate NumberedVerses(versionId: string, name: string, b: nat, c: nat, vs: seq<Json>, k: nat, rows: seq<ParsedVerse>) {
    && k <= |vs| && |rows| == |vs| - k
    && forall n :: 0 <= n < |rows| ==> RowIsVerse(versionId, name, b, c, vs, k + n, rows[n])
  }

  lemma {:induction false} VersesFromOk(versionId: string, name: string, b: nat, c: nat, vs: seq<Json>, k: nat)
    requires k <= |vs| && VersesFrom(versionId, name, b, c, vs, k).Ok?
    ensures NumberedVerses(versionId, name, b, c, vs, k, VersesFrom(versionId, name, b, c, vs, k).value)
    decreases |vs| - k
  {
    if k < |vs| {
      VersesFromOk(versionId, name, b, c, vs, k + 1);
      var rows := VersesFrom(versionId, name, b, c, vs, k).value;
      var tail := VersesFrom(versionId, name, b, c, vs, k + 1).value;
      assert IsPrimitive(vs[k]);
      assert rows == [ParsedVerse(versionId, name, b, c + 1, k + 1, VerseText(vs[k]))] + tail;
      forall n | 0 <= n < |rows| ensures RowIsVerse(versionId, name, b, c, vs, k + n, rows[n]) {
        if n > 0 {
          assert rows[n] == tail[n - 1];
          assert RowIsVerse(versionId, name, b, c, vs, k + 1 + (n - 1), tail[n - 1]);
        }
      }
    }
  }

  lemma {:induction false} VersesFromOkIff(versionId: string, name: string, b: nat, c: nat, vs: seq<Json>, k: nat)
    requires k <= |vs|
    ensures VersesFrom(versionId, name, b, c, vs, k).Ok? <==> forall n :: k <= n < |vs| ==> IsPrimitive(vs[n])
    decreases |vs| - k
  {
    if k < |vs| {
      VersesFromOkIff(versionId, name, b, c, vs, k + 1);
    }
  }

  /** Rows that are sorted on their own and every one of `a` before every one of `b` stay sorted when joined. */
  lemma SortedConcat(a: seq<ParsedVerse>, b: seq<ParsedVerse>)
    requires StrictlySorted(a) && StrictlySorted(b)
    requires forall n, m :: 0 <= n < |a| && 0 <= m < |b| ==> KeyLess(a[n], b[m])
    ensures StrictlySorted(a + b)
  {
    var ab := a + b;
    forall n, m | 0 <= n < m < |ab| ensures KeyLess(ab[n], ab[m]) {
      if m < |a| {
        assert ab[n] == a[n] && ab[m] == a[m];
      } else if n >= |a| {
        assert ab[n] == b[n - |a|] && ab[m] == b[m - |a|];
      } else {
        assert ab[n] == a[n] && ab[m] == b[m - |a|];
      }
    }
  }

  // ----- chapter level -----

  /** The rows of one chapter: all in chapter `j + 1` of book `b`, in verse order, each one a verse of it. */
  lemma ChapterHead(versionId: string, name: string, b: nat, chs: seq<Json>, j: nat)
    requires j < |chs| && ChapterRows(versionId, name, b, j, chs[j]).Ok?
    ensures var head := ChapterRows(versionId, name, b, j, chs[j]).value;
      && chs[j].JArr? && |head| == |chs[j].elems|
      && StrictlySorted(head)
      && forall n :: 0 <= n < |head| ==>
           InChapters(versionId, name, b, chs, head[n]) && head[n].chapterNumber == j + 1
  {
    var vs := chs[j].elems;
    VersesFromOk(versionId, name, b, j, vs, 0);
  }

  lemma {:induction false} ChaptersFromOk(versionId: string, name: string, b: nat, chs: seq<Json>, j: nat)
    requires j <= |chs| && ChaptersFrom(versionId, name, b, chs, j).Ok?
    ensures var rows := ChaptersFrom(versionId, name, b, chs, j).value;
      && |rows| == ChapterVerseCount(chs, j)
      && StrictlySorted(rows)
      && forall n :: 0 <= n < |rows| ==> InChapters(versionId, name, b, chs, rows[n]) && rows[n].chapterNumber > j
    decreases |chs| - j
  {
    if j < |chs| {
      ChaptersFromOk(versionId, name, b, chs, j + 1);
      ChapterHead(versionId, name, b, chs, j);
      var rows := ChaptersFrom(versionId, name, b, chs, j).value;
      var tail := ChaptersFrom(versionId, name, b, chs, j + 1).value;
      var head := ChapterRows(versionId, name, b, j, chs[j]).value;
      assert rows == head + tail;
      SortedConcat(head, tail);
      forall n | 0 <= n < |rows|
        ensures InChapters(versionId, name, b, chs, rows[n]) && rows[n].chapterNumber > j
      {
        if n < |head| { assert rows[n] == head[n]; } else { assert rows[n] == tail[n - |head|]; }
      }
    }
  }

  lemma {:induction false} ChaptersFromOkIff(versionId: string, name: string, b: nat, chs: seq<Json>, j: nat)
    requires j <= |chs|
    ensures ChaptersFrom(versionId, name, b, chs, j).Ok? <==>
      forall c :: j <= c < |chs| ==> chs[c].JArr? && forall n :: 0 <= n < |chs[c].elems| ==> IsPrimitive(chs[c].elems[n])
    decreases |chs| - j
  {
    if j < |chs| {
      ChaptersFromOkIff(versionId, name, b, chs, j + 1);
      if chs[j].JArr? {
        VersesFromOkIff(versionId, name, b, j, chs[j].elems, 0);
      }
    }
  }

  lemma {:induction false} ChaptersFromComplete(versionId: string, name: string, b: nat, chs: seq<Json>, j: nat,
                                                c: nat, v: nat)
    requires j <= c < |chs| && chs[c].JArr? && v < |chs[c].elems|
    requires ChaptersFrom(versionId, name, b, chs, j).Ok?
    ensures var rows := ChaptersFrom(versionId, name, b, chs, j).value;
      exists n :: 0 <= n < |rows| && rows[n].chapterNumber == c + 1 && rows[n].verseNumber == v + 1
    decreases |chs| - j
  {
    var rows := ChaptersFrom(versionId, name, b, chs, j).value;
    var head := ChapterRows(versionId, name, b, j, chs[j]).value;
    var tail := ChaptersFrom(versionId, name, b, chs, j + 1).value;
    assert rows == head + tail;
    if c == j {
      VersesFromOk(versionId, name, b, j, chs[j].elems, 0);
      assert rows[v] == head[v];
    } else {
      ChaptersFromComplete(versionId, name, b, chs, j + 1, c, v);
      var n :| 0 <= n < |tail| && tail[n].chapterNumber == c + 1 && tail[n].verseNumber == v + 1;
      assert rows[|head| + n] == tail[n];
    }
  }

  // ----- book level -----

  /** The shape `parse` insists on for the book at position `b`. */
  predicate WellShapedBook(b: nat, book: Json) {
    && book.JObj?
    && BookName(book.fields, b).Ok?
    && (ChaptersOf(book.fields).Some? ==>
         var chs := ChaptersOf(book.fields).value;
         forall c :: 0 <= c < |chs| ==>
           chs[c].JArr? && forall n :: 0 <= n < |chs[c].elems| ==> IsPrimitive(chs[c].elems[n]))
  }

  /** The rows of one book: all with bookIndex `i`, sorted, each one a verse of that book. */
  lemma BookHead(versionId: string, books: seq<Json>, i: nat)
    requires i < |books| && BookRows(versionId, i, books[i]).Ok?
    ensures var head := BookRows(versionId, i, books[i]).value;
      && |head| == (if ChaptersOf(books[i].fields).Some? then ChapterVerseCount(ChaptersOf(books[i].fields).value, 0) else 0)
      && StrictlySorted(head)
      && forall n :: 0 <= n < |head| ==> Locates(versionId, books, head[n]) && head[n].bookIndex == i
  {
    var obj := books[i].fields;
    var name := BookName(obj, i).value;
    if ChaptersOf(obj).Some? {
      ChaptersFromOk(versionId, name, i, ChaptersOf(obj).value, 0);
    }
  }

  lemma {:induction false} BooksFromOk(versionId: string, books: seq<Json>, i: nat)
    requires i <= |books| && BooksFrom(versionId, books, i).Ok?
    ensures var rows := BooksFrom(versionId, books, i).value;
      && |rows| == BooksVerseCount(books, i)
      && StrictlySorted(rows)
      && forall n :: 0 <= n < |rows| ==> Locates(versionId, books, rows[n]) && rows[n].bookIndex >= i
    decreases |books| - i
  {
    if i < |books| {
      BooksFromOk(versionId, books, i + 1);
      BookHead(versionId, books, i);
      var rows := BooksFrom(versionId, books, i).value;
      var tail := BooksFrom(versionId, books, i + 1).value;
      var head := BookRows(versionId, i, books[i]).value;
      assert rows == head + tail;
      SortedConcat(head, tail);
      forall n | 0 <= n < |rows| ensures Locates(versionId, books, rows[n]) && rows[n].bookIndex >= i {
        if n < |head| { assert rows[n] == head[n]; } else { assert rows[n] == tail[n - |head|]; }
      }
    }
  }

  lemma {:induction false} BooksFromOkIff(versionId: string, books: seq<Json>, i: nat)
    requires i <= |books|
    ensures BooksFrom(versionId, books, i).Ok? <==> forall b :: i <= b < |books| ==> WellShapedBook(b, books[b])
    decreases |books| - i
  {
    if i < |books| {
      BooksFromOkIff(versionId, books, i + 1);
      if books[i].JObj? && BookName(books[i].fields, i).Ok? && ChaptersOf(books[i].fields).Some? {
        ChaptersFromOkIff(versionId, BookName(books[i].fields, i).value, i, ChaptersOf(books[i].fields).value, 0);
      }
    }
  }

  lemma {:induction false} BooksFromComplete(versionId: string, books: seq<Json>, i: nat, b: nat, c: nat, v: nat)
    requires i <= b < |books| && books[b].JObj? && ChaptersOf(books[b].fields).Some?
    requires c < |ChaptersOf(books[b].fields).value| && ChaptersOf(books[b].fields).value[c].JArr?
    requires v < |ChaptersOf(books[b].fields).value[c].elems|
    requires BooksFrom(versionId, books, i).Ok?
    ensures var rows := BooksFrom(versionId, books, i).value;
      exists n :: 0 <= n < |rows| && rows[n].bookIndex == b && rows[n].chapterNumber == c + 1 && rows[n].verseNumber == v + 1
    decreases |books| - i
  {
    var rows := BooksFrom(versionId, books, i).value;
    var head := BookRows(versionId, i, books[i]).value;
    var tail := BooksFrom(versionId, books, i + 1).value;
    assert rows == head + tail;
    if b == i {
      var obj := books[i].fields;
      var name := BookName(obj, i).value;
      var chs := ChaptersOf(obj).value;
      ChaptersFromComplete(versionId, name, i, chs, 0, c, v);
      ChaptersFromOk(versionId, name, i, chs, 0);
      var n :| 0 <= n < |head| && head[n].chapterNumber == c + 1 && head[n].verseNumber == v + 1;
      assert rows[n] == head[n];
    } else {
      BooksFromComplete(versionId, books, i + 1, b, c, v);
      var n :| 0 <= n < |tail| && tail[n].bookIndex == b && tail[n].chapterNumber == c + 1 && tail[n].verseNumber == v + 1;
      assert rows[|head| + n] == tail[n];
    }
  }

  // ----- the parser as a whole -----

  /** A top-level value that is not an array yields no rows and no error. */
  lemma FlattenNotArray(versionId: string, root: Json)
    requires !root.JArr?
    ensures Flatten(versionId, root) == Ok([])
  {
  }

  /**
   * Every row carries `versionId` and describes the verse at its own position (bookIndex is the
   * position in the top-level array, skipped books included; chapter and verse numbers are
   * 1-based positions); keys strictly increase in (bookIndex, chapter, verse) order, so no two
   * rows share one; and there is one row per verse of the books that have a `chapters` array.
   */
  lemma FlattenSpec(versionId: string, books: seq<Json>)
    requires Flatten(versionId, JArr(books)).Ok?
    ensures var rows := Flatten(versionId, JArr(books)).value;
      && |rows| == BooksVerseCount(books, 0)
      && StrictlySorted(rows)
      && (forall n :: 0 <= n < |rows| ==> Locates(versionId, books, rows[n]) && rows[n].versionId == versionId)
      && (forall n, m :: 0 <= n < m < |rows| ==>
            (rows[n].bookIndex, rows[n].chapterNumber, rows[n].verseNumber) !=
            (rows[m].bookIndex, rows[m].chapterNumber, rows[m].verseNumber))
  {
    BooksFromOk(versionId, books, 0);
  }

  /** Every verse of every book that has a `chapters` array gets a row. */
  lemma FlattenComplete(versionId: string, books: seq<Json>, b: nat, c: nat, v: nat)
    requires b < |books| && books[b].JObj? && ChaptersOf(books[b].fields).Some?
    requires c < |ChaptersOf(books[b].fields).value| && ChaptersOf(books[b].fields).value[c].JArr?
    requires v < |ChaptersOf(books[b].fields).value[c].elems|
    requires Flatten(versionId, JArr(books)).Ok?
    ensures var rows := Flatten(versionId, JArr(books)).value;
      exists n :: 0 <= n < |rows| && rows[n].bookIndex == b && rows[n].chapterNumber == c + 1 && rows[n].verseNumber == v + 1
  {
    BooksFromComplete(versionId, books, 0, b, c, v);
  }

  /**
   * The parse fails exactly when some book is not an object, has a non-primitive `book`/`name`
   * field that the fallback reaches, or has a `chapters` array holding a non-array chapter or a
   * non-primitive verse. A missing or non-array `chapters` entry is not a failure.
   */
  lemma FlattenOkIff(versionId: string, books: seq<Json>)
    ensures Flatten(versionId, JArr(books)).Ok? <==>
      forall b :: 0 <= b < |books| ==> WellShapedBook(b, books[b])
  {
    BooksFromOkIff(versionId, books, 0);
  }

  /**
   * The name fallback: a present, non-null primitive `book` field wins (even the empty string);
   * otherwise a present, non-null primitive `name` field; otherwise "Libro {bookIndex + 1}".
   */
  lemma BookNameFallback(obj: map<string, Json>, b: nat)
    ensures "book" in obj && IsPrimitive(obj["book"]) && !obj["book"].JNull? ==>
      BookName(obj, b) == Ok(ContentOrNull(obj["book"]).value)
    ensures "book" in obj && obj["book"] == JStr("") ==> BookName(obj, b) == Ok("")
    ensures ("book" !in obj || obj["book"] == JNull) && "name" in obj && IsPrimitive(obj["name"]) && !obj["name"].JNull? ==>
      BookName(obj, b) == Ok(ContentOrNull(obj["name"]).value)
    ensures ("book" !in obj || obj["book"] == JNull) && ("name" !in obj || obj["name"] == JNull) ==>
      BookName(obj, b) == Ok("Libro " + NatToString(b + 1))
  {
  }

  /** A JSON null verse becomes the text "null"; string verses are trimmed. */
  lemma VerseTextCases(e: Json)
    requires IsPrimitive(e)
    ensures e.JNull? ==> VerseText(e) == "null"
    ensures e.JStr? ==> VerseText(e) == Trim(e.s)
  {
    assert !IsWhitespace('n') && !IsWhitespace('l');
  }

  /** `[{"chapters":[["Hello"]]}]` gives one verse of "Libro 1", chapter 1, verse 1, text "Hello". */
  lemma HelloExample(versionId: string)
    ensures Flatten(versionId, JArr([JObj(map["chapters" := JArr([JArr([JStr("Hello")])])])])) ==
      Ok([ParsedVerse(versionId, "Libro 1", 0, 1, 1, "Hello")])
  {
    var vs := [JStr("Hello")];
    var chs := [JArr(vs)];
    var obj := map["chapters" := JArr(chs)];
    assert Trim("Hello") == "Hello";
    assert VerseText(JStr("Hello")) == "Hello";
    var row := ParsedVerse(versionId, "Libro 1", 0, 1, 1, "Hello");
    assert NatToString(1) == "1";
    assert "book" !in obj && "name" !in obj;
    assert FieldContent(obj, "book", 0) == Ok(None) && FieldContent(obj, "name", 0) == Ok(None);
    assert PlaceholderPrefix + NatToString(1) == "Libro 1";
    assert BookName(obj, 0) == Ok("Libro 1");
    assert VerseRow(versionId, "Libro 1", 0, 0, 0, JStr("Hello")) == Ok([row]);
    assert [row] + [] == [row];
    assert VersesFrom(versionId, "Libro 1", 0, 0, vs, 1) == Ok([]);
    assert VersesFrom(versionId, "Libro 1", 0, 0, vs, 0) == Ok([row]);
    assert ChaptersFrom(versionId, "Libro 1", 0, chs, 1) == Ok([]);
    assert ChaptersFrom(versionId, "Libro 1", 0, chs, 0) == Ok([row]);
    assert BookRows(versionId, 0, JObj(obj)) == Ok([row]);
    assert BooksFrom(versionId, [JObj(obj)], 1) == Ok([]);
  }
}
