/**
 * `ReaderViewModel`: the reader's selection (a book name, or none yet, and a chapter number)
 * and the screen state derived from it, the version's book list and the selected chapter's verses.
 */
module ReaderViewModel {
  import opened Wrappers
  import opened Models
  import Repository

  datatype VerseUi = VerseUi(number: int, text: string)

  datatype ReaderUiState = ReaderUiState(
    versionId: string,
    bookNames: seq<string>,
    selectedBook: Option<string>,
    chapterCount: int,
    selectedChapter: int,
    verses: seq<VerseUi>)
  {
    predicate HasContent() {
      |bookNames| > 0
    }
  }

  /** The selection as one value: the stored book (if any) and chapter. */
  datatype Selection = Selection(book: Option<string>, chapter: int)

  const InitialSelection: Selection := Selection(None, 1)

  function Names(books: seq<BookSummary>): (r: seq<string>)
    ensures |r| == |books| && forall i :: 0 <= i < |r| ==> r[i] == books[i].name
  {
    seq(|books|, i requires 0 <= i < |books| => books[i].name)
  }

  /**
   * The books collector: when a non-empty list arrives and the stored book is none or not one
   * of its names, select the first book at chapter 1; otherwise keep the selection.
   */
  function AfterBooks(s: Selection, books: seq<BookSummary>): (r: Selection)
    ensures |books| == 0 ==> r == s
    ensures s.book.Some? && s.book.value in Names(books) ==> r == s
    ensures |books| > 0 && (s.book.None? || s.book.value !in Names(books)) ==> r == Selection(Some(books[0].name), 1)
  {
    if |books| > 0 && (s.book.None? || s.book.value !in Names(books)) then Selection(Some(books[0].name), 1) else s
  }

  /** After a non-empty list has arrived, the stored book is one of its names. */
  lemma AfterBooksSelectsListedBook(s: Selection, books: seq<BookSummary>)
    requires |books| > 0
    ensures AfterBooks(s, books).book.Some? && AfterBooks(s, books).book.value in Names(books)
  {
    assert Names(books)[0] == books[0].name;
  }

  /** A second arrival of the same list changes nothing. */
  lemma AfterBooksIdempotent(s: Selection, books: seq<BookSummary>)
    ensures AfterBooks(AfterBooks(s, books), books) == AfterBooks(s, books)
  {
    if |books| > 0 {
      AfterBooksSelectsListedBook(s, books);
    }
  }

  /** The first index whose book has name `name`, if any (`firstOrNull { it.name == name }`). */
  function FindBook(books: seq<BookSummary>, name: string): (r: Option<nat>)
    ensures r.None? <==> forall i :: 0 <= i < |books| ==> books[i].name != name
    ensures r.Some? ==> r.value < |books| && books[r.value].name == name &&
                        forall j :: 0 <= j < r.value ==> books[j].name != name
  {
    if |books| == 0 then None
    else if books[0].name == name then Some(0)
    else
      match FindBook(books[1..], name)
      case None => None
      case Some(i) => Some(i + 1)
  }

  /** The book shown: the stored one, else the first book's name, else none. */
  function CurrentBook(stored: Option<string>, books: seq<BookSummary>): (r: Option<string>)
    ensures stored.Some? ==> r == stored
    ensures stored.None? && |books| > 0 ==> r == Some(books[0].name)
    ensures stored.None? && |books| == 0 ==> r.None?
  {
    if stored.Some? then stored else if |books| > 0 then Some(books[0].name) else None
  }

  /**
   * The `uiState` combination: the book names in list order, the current book, the chapter
   * count of the first book with that name (0 when none has it), the stored chapter unclamped,
   * and the verses as given; there is content exactly when the book list is non-empty.
   */
  function DeriveUiState(versionId: string, books: seq<BookSummary>, stored: Option<string>, chapter: int,
                         verses: seq<Verse>): (ui: ReaderUiState)
    ensures ui.versionId == versionId && ui.selectedChapter == chapter
    ensures |ui.bookNames| == |books| && forall i :: 0 <= i < |books| ==> ui.bookNames[i] == books[i].name
    ensures ui.selectedBook == CurrentBook(stored, books)
    ensures ui.selectedBook.None? ==> ui.chapterCount == 0
    ensures ui.selectedBook.Some? && (forall i :: 0 <= i < |books| ==> books[i].name != ui.selectedBook.value) ==>
      ui.chapterCount == 0
    ensures forall i :: 0 <= i < |books| && ui.selectedBook == Some(books[i].name) &&
                        (forall j :: 0 <= j < i ==> books[j].name != books[i].name) ==>
      ui.chapterCount == books[i].chapterCount
    ensures |ui.verses| == |verses| &&
      forall i :: 0 <= i < |verses| ==> ui.verses[i] == VerseUi(verses[i].verseNumber, verses[i].text)
    ensures ui.HasContent() <==> |books| > 0
  {
    var current := CurrentBook(stored, books);
    var count := if current.None? then 0 else match FindBook(books, current.value) {
      case None => 0
      case Some(i) => books[i].chapterCount
    };
    var shown := seq(|verses|, i requires 0 <= i < |verses| => VerseUi(verses[i].verseNumber, verses[i].text));
    ReaderUiState(versionId, Names(books), current, count, chapter, shown)
  }

  /**
   * Once a non-empty list has arrived, the screen shows a book of that list, and its chapter
   * count is the count of the first book with that name.
   */
  lemma ShownBookIsListed(versionId: string, s: Selection, books: seq<BookSummary>, verses: seq<Verse>)
    requires |books| > 0
    ensures var sel := AfterBooks(s, books);
      var ui := DeriveUiState(versionId, books, sel.book, sel.chapter, verses);
      && ui.selectedBook.Some? && ui.selectedBook.value in ui.bookNames
      && exists i :: 0 <= i < |books| && books[i].name == ui.selectedBook.value && ui.chapterCount == books[i].chapterCount
  {
    var sel := AfterBooks(s, books);
    AfterBooksSelectsListedBook(s, books);
    var ui := DeriveUiState(versionId, books, sel.book, sel.chapter, verses);
    assert ui.bookNames == Names(books);
    var name := sel.book.value;
    var k :| 0 <= k < |books| && Names(books)[k] == name;
    var i := FindBook(books, name).value;
    assert books[i].name == name;
  }

  class ReaderViewModel {
    const repository: Repository.OfflineFirstBibleRepository
    const versionId: string
    var selectedBook: Option<string>
    var selectedChapter: int

    constructor (repository: Repository.OfflineFirstBibleRepository, versionId: string)
      ensures this.repository == repository && this.versionId == versionId
      ensures selectedBook == None && selectedChapter == 1
    {
      this.repository := repository;
      this.versionId := versionId;
      selectedBook := None;
      selectedChapter := 1;
    }

    /** `selectBook`: that book, chapter back to 1. */
    method SelectBook(book: string)
      modifies this
      ensures selectedBook == Some(book) && selectedChapter == 1
    {
      selectedBook := Some(book);
      selectedChapter := 1;
    }

    /** `selectChapter`: only the chapter changes, and it is not checked against the chapter count. */
    method SelectChapter(chapter: int)
      modifies this
      ensures selectedChapter == chapter && selectedBook == old(selectedBook)
    {
      selectedChapter := chapter;
    }

    /** The collector in `init`, run when a book list arrives. */
    method OnBooks(books: seq<BookSummary>)
      modifies this
      ensures Selection(selectedBook, selectedChapter) == AfterBooks(old(Selection(selectedBook, selectedChapter)), books)
    {
      if |books| > 0 && (selectedBook.None? || selectedBook.value !in Names(books)) {
        selectedBook := Some(books[0].name);
        selectedChapter := 1;
      }
    }

    /** `versesFlow`: no verses while no book is stored, else the stored chapter's verses. */
    method SelectedVerses() returns (verses: seq<Verse>)
      ensures verses == if selectedBook.None? then []
                        else repository.ObserveChapter(versionId, selectedBook.value, selectedChapter)
    {
      if selectedBook.None? {
        return [];
      }
      verses := repository.ObserveChapter(versionId, selectedBook.value, selectedChapter);
    }

    /**
     * One evaluation of `uiState`, given the latest book list held by `booksState`. The verses
     * are those of the stored selection (none while no book is stored); when no book is stored
     * but the list is non-empty, the first book is written back as the stored book, and the
     * chapter is left as it was.
     */
    method Render(books: seq<BookSummary>) returns (ui: ReaderUiState)
      modifies this
      ensures ui == DeriveUiState(versionId, books, old(selectedBook), old(selectedChapter),
                                  if old(selectedBook).None? then []
                                  else repository.ObserveChapter(versionId, old(selectedBook).value, old(selectedChapter)))
      ensures selectedBook == CurrentBook(old(selectedBook), books)
      ensures selectedChapter == old(selectedChapter)
    {
      var verses := SelectedVerses();
      ui := DeriveUiState(versionId, books, selectedBook, selectedChapter, verses);
      if selectedBook.None? && ui.selectedBook.Some? {
        selectedBook := ui.selectedBook;
      }
    }
  }
}
