/**
 * `OfflineFirstBibleRepository`: the offline-first repository over the local database.
 * Downloading a version fetches its JSON, parses it, and replaces that version's verses and
 * its catalog record in one transaction; the queries shape table rows into domain records.
 */
module Repository {
  import opened Wrappers
  import opened Models
  import opened Json
  import opened Catalog
  import opened BibleJsonParser
  import ParserProperties
  import VerseDao
  import BibleVersionDao
  import HandwrittenNoteDao
  import opened Database

  // ----- download status stream -----

  /** What a failed download reports in its `Error` event. */
  datatype Failure =
    | TransportFailure(message: string)     // bibleApi.downloadVersion threw
    | ParseFailure(error: ParseError)       // parser.parse threw
    | StorageFailure(fault: StorageFault)   // a statement of the transaction threw

  /** `DownloadStatus`; `InProgress` carries the progress as a whole percentage (0, 45, 75, 100). */
  datatype DownloadStatus =
    | Idle(message: string)
    | InProgress(percent: nat)
    | Success(versesInserted: int)
    | Error(cause: Failure)

  /** `downloadVersion` either throws before returning its flow, or the flow emits a list of events. */
  datatype DownloadOutcome = Rejected(message: string) | Emitted(events: seq<DownloadStatus>)

  /** Where, if anywhere, the database throws during the transaction; an environment input. */
  datatype StorageFault = NoFault | FailOnDelete | FailOnInsert(batch: nat) | FailOnUpsert

  const UnsupportedPrefix: string := "Versión no soportada: "

  /** The event list ends in `Success`, the only outcome that changes the database. */
  predicate Succeeded(outcome: DownloadOutcome) {
    outcome.Emitted? && |outcome.events| > 0 && outcome.events[|outcome.events| - 1].Success?
  }

  /**
   * The outcome `downloadVersion` reports for its inputs: rejection of an id outside the catalog,
   * otherwise the progress events up to the first failure, ending in one `Error`, or in
   * `Success` with the number of parsed verses.
   */
  function DownloadResult(catalog: seq<BibleVersionDefinition>, versionId: string, fetch: Result<JsonText, string>,
                          fault: StorageFault): DownloadOutcome {
    if FindDefinition(catalog, versionId).None? then Rejected(UnsupportedPrefix + versionId)
    else if fetch.Err? then Emitted([InProgress(0), Error(TransportFailure(fetch.error))])
    else
      match ParseSpec(versionId, fetch.value)
      case Err(e) => Emitted([InProgress(0), InProgress(45), Error(ParseFailure(e))])
      case Ok(rows) =>
        if TransactionFails(fault, |Chunked(Entities(rows), ChunkSize)|) then
          Emitted([InProgress(0), InProgress(45), InProgress(75), Error(StorageFailure(fault))])
        else
          Emitted([InProgress(0), InProgress(45), InProgress(75), InProgress(100), Success(|rows|)])
  }

  /** A download succeeds exactly when the id is known, the fetch, the parse and every statement of the transaction succeed. */
  predicate DownloadCommits(catalog: seq<BibleVersionDefinition>, versionId: string, fetch: Result<JsonText, string>,
                            fault: StorageFault) {
    && FindDefinition(catalog, versionId).Some? && fetch.Ok? && ParseSpec(versionId, fetch.value).Ok?
    && !TransactionFails(fault, |Chunked(Entities(ParseSpec(versionId, fetch.value).value), ChunkSize)|)
  }

  lemma DownloadResultSucceeds(catalog: seq<BibleVersionDefinition>, versionId: string, fetch: Result<JsonText, string>,
                               fault: StorageFault)
    ensures Succeeded(DownloadResult(catalog, versionId, fetch, fault)) <==> DownloadCommits(catalog, versionId, fetch, fault)
    ensures DownloadResult(catalog, versionId, fetch, fault).Rejected? <==> FindDefinition(catalog, versionId).None?
    ensures DownloadResult(catalog, versionId, fetch, fault).Emitted? ==>
      var events := DownloadResult(catalog, versionId, fetch, fault).events;
      && |events| >= 2 && events[0] == InProgress(0)
      && (forall i :: 0 <= i < |events| - 1 ==> events[i].InProgress?)
      && (events[|events| - 1].Success? || events[|events| - 1].Error?)
  {
  }

  // ----- chunked(500) -----

  const ChunkSize: nat := 500

  /** `xs.chunked(size)`: consecutive pieces of `size` elements, the last one possibly shorter. */
  function Chunked<T>(xs: seq<T>, size: nat): seq<seq<T>>
    requires size > 0
    decreases |xs|
  {
    if xs == [] then []
    else if |xs| <= size then [xs]
    else [xs[..size]] + Chunked(xs[size..], size)
  }

  function Concat<T>(xss: seq<seq<T>>): seq<T> {
    if xss == [] then [] else xss[0] + Concat(xss[1..])
  }

  lemma {:induction false} ConcatSnoc<T>(xss: seq<seq<T>>, b: nat)
    requires b < |xss|
    ensures Concat(xss[..b + 1]) == Concat(xss[..b]) + xss[b]
  {
    if b == 0 {
      assert xss[..1] == [xss[0]];
      assert Concat(xss[..1]) == xss[0] + Concat(xss[..1][1..]);
      assert xss[..1][1..] == [];
    } else {
      ConcatSnoc(xss[1..], b - 1);
      assert xss[..b + 1][1..] == xss[1..][..b];
      assert xss[..b][1..] == xss[1..][..b - 1];
    }
  }

  /** The chunks, joined in order, give back the list: every element is inserted exactly once, in order. */
  lemma {:induction false} ChunkedConcat<T>(xs: seq<T>, size: nat)
    requires size > 0
    ensures Concat(Chunked(xs, size)) == xs
    decreases |xs|
  {
    var r := Chunked(xs, size);
    if xs == [] {
    } else if |xs| <= size {
      assert r[1..] == [];
      assert Concat(r) == xs + [];
      assert xs + [] == xs;
    } else {
      ChunkedConcat(xs[size..], size);
      assert r[1..] == Chunked(xs[size..], size);
      assert xs[..size] + xs[size..] == xs;
    }
  }

  /** No chunk is empty or longer than `size`, and only the last one may be shorter. */
  lemma {:induction false} ChunkedSizes<T>(xs: seq<T>, size: nat)
    requires size > 0
    ensures forall i :: 0 <= i < |Chunked(xs, size)| ==> 0 < |Chunked(xs, size)[i]| <= size
    ensures forall i :: 0 <= i < |Chunked(xs, size)| - 1 ==> |Chunked(xs, size)[i]| == size
    decreases |xs|
  {
    var r := Chunked(xs, size);
    if |xs| > size {
      var rest := Chunked(xs[size..], size);
      ChunkedSizes(xs[size..], size);
      forall i | 0 < i < |r| ensures 0 < |r[i]| <= size && (i < |r| - 1 ==> |r[i]| == size) {
        assert r[i] == rest[i - 1];
      }
    }
  }

  // ----- the transaction -----

  /** The rows `parsed.map { VerseEntity(...) }`: every field copied. */
  function ToVerseEntity(p: ParsedVerse): VerseEntity {
    VerseEntity(p.versionId, p.book, p.bookIndex, p.chapterNumber, p.verseNumber, p.text)
  }

  function Entities(parsed: seq<ParsedVerse>): (r: seq<VerseEntity>)
    ensures |r| == |parsed|
    ensures forall n :: 0 <= n < |r| ==> r[n] == ToVerseEntity(parsed[n])
  {
    seq(|parsed|, n requires 0 <= n < |parsed| => ToVerseEntity(parsed[n]))
  }

  /** The record upserted on success: the catalog fields, the commit time and the verse count. */
  function VersionRecord(d: BibleVersionDefinition, now: int, total: int): BibleVersionEntity {
    BibleVersionEntity(d.id, d.name, d.language, d.abbreviation, d.description, now, total)
  }

  /** The verse table after delete-then-insert of `entities` for `versionId`. */
  function ReplaceVersion(t: VerseDao.VerseTable, versionId: string, entities: seq<VerseEntity>): VerseDao.VerseTable {
    VerseDao.InsertVerses(VerseDao.DeleteByVersion(t, versionId), entities)
  }

  /** Whether the transaction throws, given how many insert batches it runs. */
  predicate TransactionFails(fault: StorageFault, batches: nat) {
    fault.FailOnDelete? || (fault.FailOnInsert? && fault.batch < batches) || fault.FailOnUpsert?
  }

  predicate KeysDistinct(es: seq<VerseEntity>) {
    forall n, m :: 0 <= n < m < |es| ==> VerseKeyOf(es[n]) != VerseKeyOf(es[m])
  }

  /** The keys of the rows of one version. */
  function VersionKeys(t: VerseDao.VerseTable, versionId: string): set<VerseKey> {
    set k | k in t && k.versionId == versionId
  }

  function KeyImage(es: seq<VerseEntity>): set<VerseKey> {
    set e | e in es :: VerseKeyOf(e)
  }

  lemma LastWithKeyDistinct(es: seq<VerseEntity>, n: nat)
    requires KeysDistinct(es) && n < |es|
    ensures VerseDao.LastWithKey(es, VerseKeyOf(es[n])) == Some(es[n])
  {
    var r := VerseDao.LastWithKey(es, VerseKeyOf(es[n]));
    assert r.Some?;
    var m :| 0 <= m < |es| && es[m] == r.value;
  }

  lemma KeyImageSnoc(front: seq<VerseEntity>, last: VerseEntity)
    ensures KeyImage(front + [last]) == KeyImage(front) + {VerseKeyOf(last)}
  {
    var es := front + [last];
    forall e | e in es ensures e in front || e == last {
      var m :| 0 <= m < |es| && es[m] == e;
      if m < |front| {
        assert front[m] == e;
      }
    }
  }

  /** With distinct keys, the last row's key is not among those of the rows before it. */
  lemma LastKeyIsNew(es: seq<VerseEntity>)
    requires KeysDistinct(es) && es != []
    ensures KeysDistinct(es[..|es| - 1])
    ensures VerseKeyOf(es[|es| - 1]) !in KeyImage(es[..|es| - 1])
  {
    var front := es[..|es| - 1];
    forall e | e in front ensures VerseKeyOf(e) != VerseKeyOf(es[|es| - 1]) {
      var m :| 0 <= m < |front| && front[m] == e;
      assert es[m] == e;
    }
  }

  lemma {:induction false} KeyImageCard(es: seq<VerseEntity>)
    requires KeysDistinct(es)
    ensures |KeyImage(es)| == |es|
    decreases |es|
  {
    if es != [] {
      var front := es[..|es| - 1];
      var last := es[|es| - 1];
      LastKeyIsNew(es);
      KeyImageCard(front);
      assert es == front + [last];
      KeyImageSnoc(front, last);
    }
  }

  /**
   * Delete-then-insert of rows that all belong to `versionId` and have distinct keys: the rows of
   * every other version are kept as they were, the version's rows become exactly `es`, and the
   * version has exactly `|es|` keys.
   */
  lemma ReplaceVersionSpec(t: VerseDao.VerseTable, versionId: string, es: seq<VerseEntity>)
    requires forall n :: 0 <= n < |es| ==> es[n].versionId == versionId
    requires KeysDistinct(es)
    ensures var r := ReplaceVersion(t, versionId, es);
      && (forall k: VerseKey :: k.versionId != versionId ==> (k in r <==> k in t))
      && (forall k :: k in r && k.versionId != versionId ==> r[k] == t[k])
      && (forall e :: e in r.Values && e.versionId == versionId <==> e in es)
      && |VersionKeys(r, versionId)| == |es|
  {
    var d := VerseDao.DeleteByVersion(t, versionId);
    var r := ReplaceVersion(t, versionId, es);
    forall k: VerseKey | k.versionId != versionId ensures (k in r <==> k in t) && (k in r ==> r[k] == t[k]) {
      VerseDao.InsertVersesSpec(d, es, k);
    }
    forall e | e in r.Values && e.versionId == versionId ensures e in es {
      VerseDao.RowAtOwnKey(r, e);
      VerseDao.InsertVersesSpec(d, es, VerseKeyOf(e));
    }
    forall e | e in es ensures e in r.Values {
      var n :| 0 <= n < |es| && es[n] == e;
      LastWithKeyDistinct(es, n);
      VerseDao.InsertVersesSpec(d, es, VerseKeyOf(e));
    }
    assert VersionKeys(r, versionId) == KeyImage(es) by {
      forall k | k in VersionKeys(r, versionId) ensures k in KeyImage(es) {
        VerseDao.InsertVersesSpec(d, es, k);
      }
      forall k | k in KeyImage(es) ensures k in VersionKeys(r, versionId) {
        var e :| e in es && VerseKeyOf(e) == k;
        var n :| 0 <= n < |es| && es[n] == e;
        LastWithKeyDistinct(es, n);
        VerseDao.InsertVersesSpec(d, es, k);
      }
    }
    KeyImageCard(es);
  }

  /**
   * What a committed download leaves in the verse table: the parsed rows are stored under
   * distinct keys, so after the commit the version's rows are exactly the parsed rows, their
   * number is the parsed count, and every other version's rows are untouched.
   */
  lemma DownloadedRows(t: VerseDao.VerseTable, versionId: string, raw: JsonText)
    requires ParseSpec(versionId, raw).Ok?
    ensures var es := Entities(ParseSpec(versionId, raw).value);
      var r := ReplaceVersion(t, versionId, es);
      && (forall k: VerseKey :: k.versionId != versionId ==> (k in r <==> k in t))
      && (forall k :: k in r && k.versionId != versionId ==> r[k] == t[k])
      && (forall e :: e in r.Values && e.versionId == versionId <==> e in es)
      && |VersionKeys(r, versionId)| == |ParseSpec(versionId, raw).value|
  {
    var rows := ParseSpec(versionId, raw).value;
    var es := Entities(rows);
    if raw.root.JArr? {
      ParserProperties.FlattenSpec(versionId, raw.root.elems);
      forall n, m | 0 <= n < m < |es| ensures VerseKeyOf(es[n]) != VerseKeyOf(es[m]) {
        assert (rows[n].bookIndex, rows[n].chapterNumber, rows[n].verseNumber) !=
               (rows[m].bookIndex, rows[m].chapterNumber, rows[m].verseNumber);
      }
    }
    ReplaceVersionSpec(t, versionId, es);
  }

  /**
   * The body of `database.withTransaction { ... }`, run on the working copy `tx`: delete the
   * version's verses, insert the rows in chunks of 500, then upsert the version record. It
   * reports whether every statement succeeded; when it did, the copy holds the new tables.
   */
  method Transaction(tx: BibleDatabase, versionId: string, entities: seq<VerseEntity>, record: BibleVersionEntity,
                     fault: StorageFault) returns (ok: bool)
    modifies tx
    ensures ok <==> !TransactionFails(fault, |Chunked(entities, ChunkSize)|)
    ensures ok ==> tx.verses == ReplaceVersion(old(tx.verses), versionId, entities)
    ensures ok ==> tx.versions == BibleVersionDao.Upsert(old(tx.versions), record)
    ensures tx.notes == old(tx.notes)
  {
    tx.DeleteByVersion(versionId);
    if fault == FailOnDelete {
      return false;
    }
    ghost var deleted := tx.verses;
    var chunks := Chunked(entities, ChunkSize);
    var b := 0;
    while b < |chunks|
      invariant 0 <= b <= |chunks|
      invariant tx.verses == VerseDao.InsertVerses(deleted, Concat(chunks[..b]))
      invariant tx.versions == old(tx.versions) && tx.notes == old(tx.notes)
      invariant !(fault.FailOnInsert? && fault.batch < b)
    {
      if fault == FailOnInsert(b) {
        return false;
      }
      ConcatSnoc(chunks, b);
      VerseDao.InsertVersesConcat(deleted, Concat(chunks[..b]), chunks[b]);
      tx.InsertVerses(chunks[b]);
      b := b + 1;
    }
    ChunkedConcat(entities, ChunkSize);
    assert chunks[..b] == chunks;
    if fault == FailOnUpsert {
      return false;
    }
    tx.UpsertVersion(record);
    return true;
  }

  /**
   * A payload whose top level is not an array parses to no rows, and committing it leaves the
   * version with no verses at all: the old copy is erased, not kept.
   */
  lemma NonArrayPayloadErases(t: VerseDao.VerseTable, versionId: string, root: Json)
    requires !root.JArr?
    ensures ParseSpec(versionId, WellFormed(root)) == Ok([])
    ensures VersionKeys(ReplaceVersion(t, versionId, Entities([])), versionId) == {}
  {
    ReplaceVersionSpec(t, versionId, Entities([]));
  }

  // ----- catalog join -----

  /** `associateBy { it.id }`: for each id, the last row with that id. */
  function AssociateBy(rows: seq<BibleVersionEntity>): map<string, BibleVersionEntity>
    decreases |rows|
  {
    if rows == [] then map[]
    else AssociateBy(rows[..|rows| - 1])[rows[|rows| - 1].id := rows[|rows| - 1]]
  }

  lemma {:induction false} AssociateBySpec(rows: seq<BibleVersionEntity>)
    ensures forall id :: id in AssociateBy(rows) <==> exists e :: e in rows && e.id == id
    ensures forall id :: id in AssociateBy(rows) ==> AssociateBy(rows)[id] in rows && AssociateBy(rows)[id].id == id
    decreases |rows|
  {
    if rows != [] {
      var front := rows[..|rows| - 1];
      AssociateBySpec(front);
      assert rows == front + [rows[|rows| - 1]];
    }
  }

  /** The row kept for an id is the last row with that id: no later row has it. */
  lemma {:induction false} AssociateByLast(rows: seq<BibleVersionEntity>, id: string)
    requires id in AssociateBy(rows)
    ensures exists i :: 0 <= i < |rows| && rows[i] == AssociateBy(rows)[id] && forall j :: i < j < |rows| ==> rows[j].id != id
    decreases |rows|
  {
    var front := rows[..|rows| - 1];
    var last := rows[|rows| - 1];
    assert rows == front + [last];
    if id == last.id {
      assert rows[|rows| - 1] == AssociateBy(rows)[id];
    } else {
      AssociateByLast(front, id);
      var i :| 0 <= i < |front| && front[i] == AssociateBy(front)[id] && forall j :: i < j < |front| ==> front[j].id != id;
      assert rows[i] == AssociateBy(rows)[id];
      forall j | i < j < |rows| ensures rows[j].id != id {
        if j < |front| { assert rows[j] == front[j]; }
      }
    }
  }

  lemma AssociateObserved(t: BibleVersionDao.VersionTable)
    ensures AssociateBy(BibleVersionDao.ObserveVersions(t)) == t
  {
    var rows := BibleVersionDao.ObserveVersions(t);
    var m := AssociateBy(rows);
    AssociateBySpec(rows);
    forall id | id in t ensures id in m {
      assert t[id] in t.Values;
    }
    forall id | id in m ensures id in t && m[id] == t[id] {
      assert m[id] in t.Values;
      var k :| k in t && t[k] == m[id];
    }
  }

  /** One entry per catalog definition, in catalog order, completed from the local row with its id. */
  function JoinCatalog(catalog: seq<BibleVersionDefinition>, local: map<string, BibleVersionEntity>): seq<BibleVersion> {
    seq(|catalog|, i requires 0 <= i < |catalog| =>
      var d := catalog[i];
      BibleVersion(d.id, d.name, d.language, d.abbreviation, d.id in local, d.description,
                   if d.id in local then local[d.id].totalVerses else 0,
                   if d.id in local then Some(local[d.id].lastDownloaded) else None))
  }

  // ----- note mapping -----

  /** `HandwrittenNoteEntity.toDomain()`; an empty `strokes` text is an empty list, never decoded. */
  function ToDomain(decode: string -> seq<Stroke>, e: HandwrittenNoteEntity): (n: HandwrittenNote)
    ensures n.versionId == e.versionId && n.book == e.book && n.chapter == e.chapter && n.verse == e.verse
    ensures n.updatedAt == e.updatedAt
    ensures e.strokes == "" ==> n.strokes == []
    ensures e.strokes != "" ==> n.strokes == decode(e.strokes)
  {
    HandwrittenNote(e.versionId, e.book, e.chapter, e.verse, if e.strokes == "" then [] else decode(e.strokes), e.updatedAt)
  }

  /** `HandwrittenNote.toEntity()`: the key and the encoded strokes, stamped with the current time. */
  function ToEntity(encode: seq<Stroke> -> string, n: HandwrittenNote, now: int): (e: HandwrittenNoteEntity)
    ensures NoteKeyOf(e) == NoteKey(n.versionId, n.book, n.chapter, n.verse)
    ensures e.strokes == encode(n.strokes)
    ensures e.updatedAt == now
  {
    HandwrittenNoteEntity(n.versionId, n.book, n.chapter, n.verse, encode(n.strokes), now)
  }

  /**
   * Saving a note and observing its location gives the note back, with `updatedAt` replaced by
   * the save time, provided the stroke codec decodes what it encodes and encodes only the empty
   * list as the empty text.
   */
  lemma SaveThenObserve(encode: seq<Stroke> -> string, decode: string -> seq<Stroke>,
                        t: HandwrittenNoteDao.NoteTable, n: HandwrittenNote, now: int)
    requires decode(encode(n.strokes)) == n.strokes
    requires encode(n.strokes) == "" ==> n.strokes == []
    ensures var after := HandwrittenNoteDao.Upsert(t, ToEntity(encode, n, now));
      var found := HandwrittenNoteDao.ObserveNote(after, n.versionId, n.book, n.chapter, n.verse);
      found.Some? && ToDomain(decode, found.value) == n.(updatedAt := now)
  {
    var e := ToEntity(encode, n, now);
    HandwrittenNoteDao.ObserveAfterUpsert(t, e, n.versionId, n.book, n.chapter, n.verse);
  }

  // ----- query mappings -----

  /** `projections.map { BookSummary(it.name, it.bookIndex, it.chapterCount) }`. */
  function ToSummaries(ps: seq<VerseDao.BookProjection>): (r: seq<BookSummary>)
    ensures |r| == |ps|
    ensures forall i :: 0 <= i < |r| ==>
      VerseDao.BookProjection(r[i].name, r[i].bookIndex, r[i].chapterCount) == ps[i]
  {
    seq(|ps|, i requires 0 <= i < |ps| => BookSummary(ps[i].name, ps[i].bookIndex, ps[i].chapterCount))
  }

  /** The summaries carry over everything `VerseDao.ObserveBooks` promises of its projections. */
  lemma SummariesMirror(t: VerseDao.VerseTable, versionId: string, ps: seq<VerseDao.BookProjection>, r: seq<BookSummary>)
    requires ps == VerseDao.ObserveBooks(t, versionId)
    requires |r| == |ps| && forall i :: 0 <= i < |r| ==>
      VerseDao.BookProjection(r[i].name, r[i].bookIndex, r[i].chapterCount) == ps[i]
    ensures forall i :: 0 <= i < |r| ==> (r[i].name, r[i].bookIndex) in VerseDao.BookGroups(t, versionId)
    ensures forall g :: g in VerseDao.BookGroups(t, versionId) ==>
      exists i :: 0 <= i < |r| && (r[i].name, r[i].bookIndex) == g
    ensures forall i, j :: 0 <= i < j < |r| ==>
      r[i].bookIndex <= r[j].bookIndex && (r[i].name, r[i].bookIndex) != (r[j].name, r[j].bookIndex)
    ensures forall i :: 0 <= i < |r| ==>
      VerseDao.IsGroupMax(t, versionId, VerseDao.BookProjection(r[i].name, r[i].bookIndex, r[i].chapterCount))
  {
    forall g | g in VerseDao.BookGroups(t, versionId) ensures exists i :: 0 <= i < |r| && (r[i].name, r[i].bookIndex) == g {
      var i :| 0 <= i < |ps| && (ps[i].name, ps[i].bookIndex) == g;
      assert (r[i].name, r[i].bookIndex) == (ps[i].name, ps[i].bookIndex);
    }
  }

  /** `entities.map { Verse(it.verseNumber, it.text) }`. */
  function ToVerses(es: seq<VerseEntity>): (r: seq<Verse>)
    ensures |r| == |es|
    ensures forall i :: 0 <= i < |r| ==> r[i] == Verse(es[i].verseNumber, es[i].text)
  {
    seq(|es|, i requires 0 <= i < |es| => Verse(es[i].verseNumber, es[i].text))
  }

  /** The verses carry over what `VerseDao.ObserveChapter` promises of its rows: count and order. */
  lemma VersesMirror(t: VerseDao.VerseTable, versionId: string, book: string, chapter: int, es: seq<VerseEntity>, r: seq<Verse>)
    requires es == VerseDao.ObserveChapter(t, versionId, book, chapter)
    requires |r| == |es| && forall i :: 0 <= i < |r| ==> r[i] == Verse(es[i].verseNumber, es[i].text)
    ensures |r| == |VerseDao.ChapterRows(t, versionId, book, chapter)|
    ensures forall i, j :: 0 <= i < j < |r| ==> r[i].verseNumber <= r[j].verseNumber
  {
  }

  /** The (number, text) pairs of the rows stored for a chapter. */
  function ChapterVerses(t: VerseDao.VerseTable, versionId: string, book: string, chapter: int): set<Verse> {
    set e | e in VerseDao.ChapterRows(t, versionId, book, chapter) :: Verse(e.verseNumber, e.text)
  }

  function Elements(es: seq<VerseEntity>): set<VerseEntity> {
    set e | e in es
  }

  /** The rows among `es` whose (number, text) pair is `v`. */
  function RowsGiving(es: set<VerseEntity>, v: Verse): set<VerseEntity> {
    set e | e in es && Verse(e.verseNumber, e.text) == v
  }

  lemma ToVersesSnoc(front: seq<VerseEntity>, last: VerseEntity)
    ensures ToVerses(front + [last]) == ToVerses(front) + [Verse(last.verseNumber, last.text)]
  {
  }

  lemma RowsGivingSnoc(front: seq<VerseEntity>, last: VerseEntity, v: Verse)
    requires last !in front
    ensures var before := RowsGiving(Elements(front), v);
      var after := RowsGiving(Elements(front + [last]), v);
      && (Verse(last.verseNumber, last.text) == v ==> after == before + {last} && last !in before)
      && (Verse(last.verseNumber, last.text) != v ==> after == before)
  {
    assert Elements(front + [last]) == Elements(front) + {last};
  }

  /** Mapping a list of distinct rows gives each verse as often as there are rows with its pair. */
  lemma {:induction false} MappedCount(es: seq<VerseEntity>, v: Verse)
    requires forall i, j :: 0 <= i < j < |es| ==> es[i] != es[j]
    ensures multiset(ToVerses(es))[v] == |RowsGiving(Elements(es), v)|
    decreases |es|
  {
    if es != [] {
      var front := es[..|es| - 1];
      var last := es[|es| - 1];
      assert es == front + [last];
      MappedCount(front, v);
      ToVersesSnoc(front, last);
      assert last !in front by {
        forall i | 0 <= i < |front| ensures front[i] != last {
          assert es[i] == front[i];
        }
      }
      RowsGivingSnoc(front, last, v);
    }
  }

  /**
   * Each verse comes from a row of the chapter, each row of the chapter gives a verse, and each
   * verse occurs as often as there are rows of the chapter with its number and text.
   */
  lemma VersesCover(t: VerseDao.VerseTable, versionId: string, book: string, chapter: int, es: seq<VerseEntity>, r: seq<Verse>)
    requires es == VerseDao.ObserveChapter(t, versionId, book, chapter)
    requires |r| == |es| && forall i :: 0 <= i < |r| ==> r[i] == Verse(es[i].verseNumber, es[i].text)
    ensures forall v :: v in r <==> v in ChapterVerses(t, versionId, book, chapter)
    ensures forall v :: multiset(r)[v] == |RowsGiving(VerseDao.ChapterRows(t, versionId, book, chapter), v)|
  {
    assert r == ToVerses(es);
    assert Elements(es) == VerseDao.ChapterRows(t, versionId, book, chapter);
    forall v ensures multiset(r)[v] == |RowsGiving(VerseDao.ChapterRows(t, versionId, book, chapter), v)| {
      MappedCount(es, v);
    }
    var rows := VerseDao.ChapterRows(t, versionId, book, chapter);
    assert forall e :: e in es <==> e in rows;
    forall v | v in r ensures v in ChapterVerses(t, versionId, book, chapter) {
      var i :| 0 <= i < |r| && r[i] == v;
      assert es[i] in es;
    }
    forall v | v in ChapterVerses(t, versionId, book, chapter) ensures v in r {
      var e :| e in rows && v == Verse(e.verseNumber, e.text);
      var i :| 0 <= i < |es| && es[i] == e;
      assert r[i] == v;
    }
  }

  // ----- the repository -----

  class OfflineFirstBibleRepository {
    const availableVersions: seq<BibleVersionDefinition>
    const database: BibleDatabase
    /** The kotlinx serialization of stroke lists, outside the model. */
    const encodeStrokes: seq<Stroke> -> string
    const decodeStrokes: string -> seq<Stroke>

    constructor (availableVersions: seq<BibleVersionDefinition>, database: BibleDatabase,
                 encodeStrokes: seq<Stroke> -> string, decodeStrokes: string -> seq<Stroke>)
      ensures this.availableVersions == availableVersions && this.database == database
      ensures this.encodeStrokes == encodeStrokes && this.decodeStrokes == decodeStrokes
    {
      this.availableVersions := availableVersions;
      this.database := database;
      this.encodeStrokes := encodeStrokes;
      this.decodeStrokes := decodeStrokes;
    }

    /**
     * One entry per catalog definition, in catalog order, with the catalog's fields; it is
     * downloaded iff the local table has a row with its id, and then carries that row's verse
     * count and timestamp, else 0 and none.
     */
    function ObserveAvailableVersions(): (r: seq<BibleVersion>)
      reads database
      ensures |r| == |availableVersions|
      ensures forall i :: 0 <= i < |r| ==>
        var d := availableVersions[i];
        && r[i].id == d.id && r[i].name == d.name && r[i].language == d.language
        && r[i].abbreviation == d.abbreviation && r[i].description == d.description
        && (r[i].isDownloaded <==> d.id in database.versions)
        && r[i].totalVerses == (if d.id in database.versions then database.versions[d.id].totalVerses else 0)
        && r[i].lastDownloadedAt == (if d.id in database.versions then Some(database.versions[d.id].lastDownloaded) else None)
    {
      AssociateObserved(database.versions);
      JoinCatalog(availableVersions, AssociateBy(BibleVersionDao.ObserveVersions(database.versions)))
    }

    /**
     * One summary per (book, bookIndex) group of the version's rows, each group once, in
     * non-decreasing bookIndex order, with the group's largest chapter number as its count.
     */
    function ObserveBooks(versionId: string): (r: seq<BookSummary>)
      reads database
      ensures forall i :: 0 <= i < |r| ==> (r[i].name, r[i].bookIndex) in VerseDao.BookGroups(database.verses, versionId)
      ensures forall g :: g in VerseDao.BookGroups(database.verses, versionId) ==>
        exists i :: 0 <= i < |r| && (r[i].name, r[i].bookIndex) == g
      ensures forall i, j :: 0 <= i < j < |r| ==>
        r[i].bookIndex <= r[j].bookIndex && (r[i].name, r[i].bookIndex) != (r[j].name, r[j].bookIndex)
      ensures forall i :: 0 <= i < |r| ==>
        VerseDao.IsGroupMax(database.verses, versionId, VerseDao.BookProjection(r[i].name, r[i].bookIndex, r[i].chapterCount))
    {
      var ps := VerseDao.ObserveBooks(database.verses, versionId);
      var r := ToSummaries(ps);
      SummariesMirror(database.verses, versionId, ps, r);
      r
    }

    /**
     * The number and text of each verse stored for that version, book name and chapter, one
     * entry per row, in non-decreasing verse-number order.
     */
    function ObserveChapter(versionId: string, book: string, chapter: int): (r: seq<Verse>)
      reads database
      ensures |r| == |VerseDao.ChapterRows(database.verses, versionId, book, chapter)|
      ensures forall v :: v in r <==> v in ChapterVerses(database.verses, versionId, book, chapter)
      ensures forall i, j :: 0 <= i < j < |r| ==> r[i].verseNumber <= r[j].verseNumber
      ensures forall v :: multiset(r)[v] == |RowsGiving(VerseDao.ChapterRows(database.verses, versionId, book, chapter), v)|
      ensures r == ToVerses(VerseDao.ObserveChapter(database.verses, versionId, book, chapter))
    {
      var es := VerseDao.ObserveChapter(database.verses, versionId, book, chapter);
      var r := ToVerses(es);
      VersesMirror(database.verses, versionId, book, chapter, es, r);
      VersesCover(database.verses, versionId, book, chapter, es, r);
      r
    }

    /** The note stored at that location, decoded, or none. */
    function ObserveHandwrittenNote(versionId: string, book: string, chapter: int, verse: int): (r: Option<HandwrittenNote>)
      reads database
      ensures r.Some? <==> NoteKey(versionId, book, chapter, verse) in database.notes
      ensures r.Some? ==>
        var e := database.notes[NoteKey(versionId, book, chapter, verse)];
        && r.value.versionId == versionId && r.value.book == book && r.value.chapter == chapter
        && r.value.verse == verse && r.value.updatedAt == e.updatedAt
        && (e.strokes == "" ==> r.value.strokes == [])
      ensures r.Some? ==> r.value == ToDomain(decodeStrokes, database.notes[NoteKey(versionId, book, chapter, verse)])
    {
      match HandwrittenNoteDao.ObserveNote(database.notes, versionId, book, chapter, verse)
      case None => None
      case Some(e) => Some(ToDomain(decodeStrokes, e))
    }

    /** `saveHandwrittenNote`: upserts the note's entity, stamped with `now`; nothing else changes. */
    method SaveHandwrittenNote(note: HandwrittenNote, now: int)
      modifies database
      ensures database.notes == HandwrittenNoteDao.Upsert(old(database.notes), ToEntity(encodeStrokes, note, now))
      ensures database.versions == old(database.versions) && database.verses == old(database.verses)
    {
      database.UpsertNote(ToEntity(encodeStrokes, note, now));
    }

    /**
     * `downloadVersion(versionId)`. An id outside the catalog is rejected before any event. Otherwise
     * the events are InProgress(0), then InProgress(45) once fetched, InProgress(75) once parsed,
     * and InProgress(100), Success(count) once committed; the first failure ends the list with one
     * Error event. The transaction runs on a working copy that is committed only if every step
     * succeeds, so on every failure the database is unchanged; on success the version's verses are
     * replaced by the parsed rows and its record is upserted with the verse count.
     */
    method DownloadVersion(versionId: string, fetch: Result<JsonText, string>, fault: StorageFault, now: int)
      returns (outcome: DownloadOutcome)
      modifies database
      ensures FindDefinition(availableVersions, versionId).None? ==>
        outcome == Rejected(UnsupportedPrefix + versionId)
      ensures FindDefinition(availableVersions, versionId).Some? && fetch.Err? ==>
        outcome == Emitted([InProgress(0), Error(TransportFailure(fetch.error))])
      ensures FindDefinition(availableVersions, versionId).Some? && fetch.Ok? && ParseSpec(versionId, fetch.value).Err? ==>
        outcome == Emitted([InProgress(0), InProgress(45), Error(ParseFailure(ParseSpec(versionId, fetch.value).error))])
      ensures FindDefinition(availableVersions, versionId).Some? && fetch.Ok? && ParseSpec(versionId, fetch.value).Ok? ==>
        var rows := ParseSpec(versionId, fetch.value).value;
        var batches := |Chunked(Entities(rows), ChunkSize)|;
        if TransactionFails(fault, batches) then
          outcome == Emitted([InProgress(0), InProgress(45), InProgress(75), Error(StorageFailure(fault))])
        else
          && outcome == Emitted([InProgress(0), InProgress(45), InProgress(75), InProgress(100), Success(|rows|)])
          && database.verses == ReplaceVersion(old(database.verses), versionId, Entities(rows))
          && database.versions == BibleVersionDao.Upsert(old(database.versions),
               VersionRecord(FindDefinition(availableVersions, versionId).value, now, |rows|))
          && database.notes == old(database.notes)
      ensures !Succeeded(outcome) ==>
        database.versions == old(database.versions) && database.verses == old(database.verses) &&
        database.notes == old(database.notes)
      ensures outcome == DownloadResult(availableVersions, versionId, fetch, fault)
    {
      var found := FindDefinition(availableVersions, versionId);
      if found.None? {
        return Rejected(UnsupportedPrefix + versionId);
      }
      if fetch.Err? {
        return Emitted([InProgress(0), Error(TransportFailure(fetch.error))]);
      }
      var parsed := Parse(versionId, fetch.value);
      if parsed.Err? {
        return Emitted([InProgress(0), InProgress(45), Error(ParseFailure(parsed.error))]);
      }
      var entities := Entities(parsed.value);
      var tx := new BibleDatabase.Copy(database);
      var ok := Transaction(tx, versionId, entities, VersionRecord(found.value, now, |entities|), fault);
      if !ok {
        return Emitted([InProgress(0), InProgress(45), InProgress(75), Error(StorageFailure(fault))]);
      }
      database.Commit(tx);
      return Emitted([InProgress(0), InProgress(45), InProgress(75), InProgress(100), Success(|parsed.value|)]);
    }
  }
}
