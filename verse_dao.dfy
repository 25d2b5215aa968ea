/**
 * The `verses` table and the queries of `VerseDao`, as functions over the table's contents.
 * A table is a map from primary key to row; the subset type records that every row is
 * stored under its own key, which Room's primary-key constraint guarantees.
 */
module VerseDao {
  import opened Wrappers
  import opened Models
  import opened Ordering

  type VerseTable = t: map<VerseKey, VerseEntity> | forall k :: k in t ==> VerseKeyOf(t[k]) == k

  /** Every row of the table is stored under its own key. */
  lemma RowAtOwnKey(t: VerseTable, r: VerseEntity)
    requires r in t.Values
    ensures VerseKeyOf(r) in t && t[VerseKeyOf(r)] == r
  {
    var k :| k in t && t[k] == r;
  }

  // ----- insertVerses: @Insert(onConflict = REPLACE) -----

  /** Inserting the rows of `batch` one after the other; a row replaces the one with its key. */
  function InsertVerses(t: VerseTable, batch: seq<VerseEntity>): (r: VerseTable)
    decreases |batch|
  {
    if batch == [] then t
    else
      var t' := t[VerseKeyOf(batch[0]) := batch[0]];
      InsertVerses(t', batch[1..])
  }

  /** The last row of `batch` whose key is `k`, if any. */
  function LastWithKey(batch: seq<VerseEntity>, k: VerseKey): (r: Option<VerseEntity>)
    ensures r.Some? ==> VerseKeyOf(r.value) == k && r.value in batch
    ensures r.Some? ==> exists i :: 0 <= i < |batch| && batch[i] == r.value &&
                          forall j :: i < j < |batch| ==> VerseKeyOf(batch[j]) != k
    ensures r.None? <==> forall i :: 0 <= i < |batch| ==> VerseKeyOf(batch[i]) != k
  {
    if batch == [] then None
    else if VerseKeyOf(batch[|batch| - 1]) == k then Some(batch[|batch| - 1])
    else LastWithKey(batch[..|batch| - 1], k)
  }

  lemma {:induction false} LastWithKeyCons(e: VerseEntity, rest: seq<VerseEntity>, k: VerseKey)
    ensures LastWithKey([e] + rest, k) ==
      if LastWithKey(rest, k).Some? then LastWithKey(rest, k)
      else if VerseKeyOf(e) == k then Some(e) else None
    decreases |rest|
  {
    var s := [e] + rest;
    if rest != [] {
      assert s[..|s| - 1] == [e] + rest[..|rest| - 1];
      LastWithKeyCons(e, rest[..|rest| - 1], k);
    } else {
      assert s[..|s| - 1] == [];
    }
  }

  /**
   * REPLACE semantics: after the batch, each key it mentions holds the LAST batch row with
   * that key, and every other key keeps what it had (or stays absent).
   */
  lemma {:induction false} InsertVersesSpec(t: VerseTable, batch: seq<VerseEntity>, k: VerseKey)
    ensures k in InsertVerses(t, batch) <==> k in t || LastWithKey(batch, k).Some?
    ensures LastWithKey(batch, k).Some? ==> InsertVerses(t, batch)[k] == LastWithKey(batch, k).value
    ensures LastWithKey(batch, k).None? ==> (k in t ==> InsertVerses(t, batch)[k] == t[k])
    decreases |batch|
  {
    if batch != [] {
      var t' := t[VerseKeyOf(batch[0]) := batch[0]];
      InsertVersesSpec(t', batch[1..], k);
      LastWithKeyCons(batch[0], batch[1..], k);
      assert [batch[0]] + batch[1..] == batch;
    }
  }

  /** Inserting `a + b` is inserting `a`, then `b`: splitting a list into batches changes nothing. */
  lemma {:induction false} InsertVersesConcat(t: VerseTable, a: seq<VerseEntity>, b: seq<VerseEntity>)
    ensures InsertVerses(t, a + b) == InsertVerses(InsertVerses(t, a), b)
    decreases |a|
  {
    if a == [] {
      assert a + b == b;
    } else {
      assert (a + b)[1..] == a[1..] + b;
      InsertVersesConcat(t[VerseKeyOf(a[0]) := a[0]], a[1..], b);
    }
  }

  // ----- deleteByVersion -----

  /** `DELETE FROM verses WHERE versionId = :versionId`. */
  function DeleteByVersion(t: VerseTable, versionId: string): (r: VerseTable)
    ensures forall k :: k in r <==> k in t && k.versionId != versionId
    ensures forall k :: k in r ==> r[k] == t[k]
  {
    map k | k in t && k.versionId != versionId :: t[k]
  }

  // ----- observeBooks: GROUP BY book, bookIndex / MAX(chapterNumber) / ORDER BY bookIndex -----

  datatype BookProjection = BookProjection(name: string, bookIndex: int, chapterCount: int)

  /** The (book, bookIndex) groups among a version's rows. */
  function BookGroups(t: VerseTable, versionId: string): set<(string, int)> {
    set r | r in t.Values && r.versionId == versionId :: (r.book, r.bookIndex)
  }

  /** The chapter numbers found in one group. */
  function GroupChapters(t: VerseTable, versionId: string, g: (string, int)): set<int> {
    set r | r in t.Values && r.versionId == versionId && r.book == g.0 && r.bookIndex == g.1 :: r.chapterNumber
  }

  /**
   * Result order: by bookIndex as the query says; groups with the same bookIndex (rows that
   * differ in book name) are put in name order, where SQL leaves the order open.
   */
  predicate GroupLess(a: (string, int), b: (string, int)) {
    a.1 < b.1 || (a.1 == b.1 && StrLess(a.0, b.0))
  }

  lemma GroupLessIsStrictTotal(s: set<(string, int)>)
    ensures StrictTotalOn(s, GroupLess)
  {
    StrLessIsStrictTotal();
  }

  function Summarize(t: VerseTable, versionId: string, g: (string, int)): (p: BookProjection)
    requires g in BookGroups(t, versionId)
    ensures p.name == g.0 && p.bookIndex == g.1
    ensures p.chapterCount in GroupChapters(t, versionId, g)
    ensures forall c :: c in GroupChapters(t, versionId, g) ==> c <= p.chapterCount
  {
    var r :| r in t.Values && r.versionId == versionId && (r.book, r.bookIndex) == g;
    assert r.chapterNumber in GroupChapters(t, versionId, g);
    BookProjection(g.0, g.1, MaxOf(GroupChapters(t, versionId, g)))
  }

  /** `p` is the summary of its own group: its count is the group's largest chapter number. */
  predicate IsGroupMax(t: VerseTable, versionId: string, p: BookProjection) {
    var chapters := GroupChapters(t, versionId, (p.name, p.bookIndex));
    p.chapterCount in chapters && forall c :: c in chapters ==> c <= p.chapterCount
  }

  /**
   * One entry per distinct (book, bookIndex) among the version's rows, each group exactly once,
   * with `chapterCount` the largest chapter number of the group, in non-decreasing bookIndex order.
   */
  function ObserveBooks(t: VerseTable, versionId: string): (r: seq<BookProjection>)
    ensures forall i :: 0 <= i < |r| ==> (r[i].name, r[i].bookIndex) in BookGroups(t, versionId)
    ensures forall g :: g in BookGroups(t, versionId) ==>
      exists i :: 0 <= i < |r| && (r[i].name, r[i].bookIndex) == g
    ensures forall i, j :: 0 <= i < j < |r| ==>
      r[i].bookIndex <= r[j].bookIndex && (r[i].name, r[i].bookIndex) != (r[j].name, r[j].bookIndex)
    ensures forall i :: 0 <= i < |r| ==> IsGroupMax(t, versionId, r[i])
  {
    var groups := BookGroups(t, versionId);
    GroupLessIsStrictTotal(groups);
    var gs := SortSet(groups, GroupLess);
    var r := SummarizeAll(t, versionId, gs);
    SortedGroupsProperties(groups, gs, r);
    r
  }

  /** The summaries of the groups `gs`, in the same order. */
  function SummarizeAll(t: VerseTable, versionId: string, gs: seq<(string, int)>): (r: seq<BookProjection>)
    requires forall i :: 0 <= i < |gs| ==> gs[i] in BookGroups(t, versionId)
    ensures |r| == |gs|
    ensures forall i :: 0 <= i < |r| ==> (r[i].name, r[i].bookIndex) == gs[i] && IsGroupMax(t, versionId, r[i])
  {
    if gs == [] then [] else [Summarize(t, versionId, gs[0])] + SummarizeAll(t, versionId, gs[1..])
  }

  lemma SortedGroupsProperties(groups: set<(string, int)>, gs: seq<(string, int)>, r: seq<BookProjection>)
    requires forall g :: g in gs <==> g in groups
    requires forall i, j :: 0 <= i < j < |gs| ==> GroupLess(gs[i], gs[j])
    requires |r| == |gs| && forall i :: 0 <= i < |r| ==> (r[i].name, r[i].bookIndex) == gs[i]
    ensures forall i :: 0 <= i < |r| ==> (r[i].name, r[i].bookIndex) in groups
    ensures forall g :: g in groups ==> exists i :: 0 <= i < |r| && (r[i].name, r[i].bookIndex) == g
    ensures forall i, j :: 0 <= i < j < |r| ==>
      r[i].bookIndex <= r[j].bookIndex && (r[i].name, r[i].bookIndex) != (r[j].name, r[j].bookIndex)
  {
    forall g | g in groups ensures exists i :: 0 <= i < |r| && (r[i].name, r[i].bookIndex) == g {
      var i :| 0 <= i < |gs| && gs[i] == g;
      assert (r[i].name, r[i].bookIndex) == g;
    }
    forall i, j | 0 <= i < j < |r|
      ensures r[i].bookIndex <= r[j].bookIndex && (r[i].name, r[i].bookIndex) != (r[j].name, r[j].bookIndex)
    {
      assert GroupLess(gs[i], gs[j]);
      StrLessIrreflexive(gs[i].0);
    }
  }

  /** The group maximum in terms of rows: some row of the group has that chapter, none has a later one. */
  lemma GroupMaxRows(t: VerseTable, versionId: string, p: BookProjection)
    requires IsGroupMax(t, versionId, p)
    ensures exists e :: e in t.Values && e.versionId == versionId && e.book == p.name &&
                        e.bookIndex == p.bookIndex && e.chapterNumber == p.chapterCount
    ensures forall e :: (e in t.Values && e.versionId == versionId && e.book == p.name &&
                         e.bookIndex == p.bookIndex) ==> e.chapterNumber <= p.chapterCount
  {
    var g := (p.name, p.bookIndex);
    forall e | e in t.Values && e.versionId == versionId && e.book == p.name && e.bookIndex == p.bookIndex
      ensures e.chapterNumber <= p.chapterCount
    {
      assert e.chapterNumber in GroupChapters(t, versionId, g);
    }
  }

  // ----- observeChapter: WHERE versionId, book, chapterNumber / ORDER BY verseNumber -----

  function ChapterRows(t: VerseTable, versionId: string, book: string, chapter: int): set<VerseEntity> {
    set r | r in t.Values && r.versionId == versionId && r.book == book && r.chapterNumber == chapter
  }

  /** By verse number; rows of one chapter that share a verse number (two books with one name) by bookIndex. */
  predicate VerseOrderLess(a: VerseEntity, b: VerseEntity) {
    a.verseNumber < b.verseNumber || (a.verseNumber == b.verseNumber && a.bookIndex < b.bookIndex)
  }

  lemma ChapterOrderIsStrictTotal(t: VerseTable, versionId: string, book: string, chapter: int)
    ensures StrictTotalOn(ChapterRows(t, versionId, book, chapter), VerseOrderLess)
  {
    var s := ChapterRows(t, versionId, book, chapter);
    forall a, b | a in s && b in s && a != b ensures VerseOrderLess(a, b) || VerseOrderLess(b, a) {
      RowAtOwnKey(t, a);
      RowAtOwnKey(t, b);
    }
  }

  /** Exactly the rows with that version, book name and chapter, each once, by non-decreasing verse number. */
  function ObserveChapter(t: VerseTable, versionId: string, book: string, chapter: int): (r: seq<VerseEntity>)
    ensures |r| == |ChapterRows(t, versionId, book, chapter)|
    ensures forall e :: e in r <==>
      e in t.Values && e.versionId == versionId && e.book == book && e.chapterNumber == chapter
    ensures forall i, j :: 0 <= i < j < |r| ==> r[i].verseNumber <= r[j].verseNumber && r[i] != r[j]
  {
    ChapterOrderIsStrictTotal(t, versionId, book, chapter);
    SortSet(ChapterRows(t, versionId, book, chapter), VerseOrderLess)
  }
}
