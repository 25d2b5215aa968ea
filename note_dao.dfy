/** The `handwritten_notes` table and the operations of `HandwrittenNoteDao`. */
module HandwrittenNoteDao {
  import opened Wrappers
  import opened Models

  /** At most one note per (versionId, book, chapter, verse), the composite primary key. */
  type NoteTable = t: map<NoteKey, HandwrittenNoteEntity> | forall k :: k in t ==> NoteKeyOf(t[k]) == k

  /** `SELECT * ... WHERE versionId AND book AND chapter AND verse LIMIT 1`. */
  function ObserveNote(t: NoteTable, versionId: string, book: string, chapter: int, verse: int)
    : (r: Option<HandwrittenNoteEntity>)
    ensures r.Some? ==> r.value in t.Values && r.value.versionId == versionId && r.value.book == book &&
                        r.value.chapter == chapter && r.value.verse == verse
    ensures r.None? ==> forall e :: e in t.Values ==>
      !(e.versionId == versionId && e.book == book && e.chapter == chapter && e.verse == verse)
  {
    var k := NoteKey(versionId, book, chapter, verse);
    if k in t then Some(t[k]) else None
  }

  /** `@Insert(onConflict = REPLACE)`: the note under `e`'s key becomes `e`; no other note changes. */
  function Upsert(t: NoteTable, e: HandwrittenNoteEntity): (r: NoteTable)
    ensures r.Keys == t.Keys + {NoteKeyOf(e)} && r[NoteKeyOf(e)] == e
    ensures forall k :: k in t && k != NoteKeyOf(e) ==> r[k] == t[k]
  {
    t[NoteKeyOf(e) := e]
  }

  /**
   * After an upsert the note is observed at its own key, and every other location, including
   * the whole-chapter note (verse 0) beside a verse note, is observed as before.
   */
  lemma ObserveAfterUpsert(t: NoteTable, e: HandwrittenNoteEntity,
                           versionId: string, book: string, chapter: int, verse: int)
    ensures ObserveNote(Upsert(t, e), e.versionId, e.book, e.chapter, e.verse) == Some(e)
    ensures NoteKey(versionId, book, chapter, verse) != NoteKeyOf(e) ==>
      ObserveNote(Upsert(t, e), versionId, book, chapter, verse) == ObserveNote(t, versionId, book, chapter, verse)
    ensures e.verse != WholeChapter ==>
      ObserveNote(Upsert(t, e), e.versionId, e.book, e.chapter, WholeChapter) ==
      ObserveNote(t, e.versionId, e.book, e.chapter, WholeChapter)
  {
  }
}
