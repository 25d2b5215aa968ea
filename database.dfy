/**
 * The Room database: the three tables as fields of one object, and the DAO operations that
 * change them as methods. Queries are the pure functions of the DAO modules, applied to the fields.
 */
module Database {
  import opened Models
  import VerseDao
  import BibleVersionDao
  import HandwrittenNoteDao

  class BibleDatabase {
    var versions: BibleVersionDao.VersionTable
    var verses: VerseDao.VerseTable
    var notes: HandwrittenNoteDao.NoteTable

    /** A fresh, empty database. */
    constructor ()
      ensures versions == map[] && verses == map[] && notes == map[]
    {
      versions, verses, notes := map[], map[], map[];
    }

    /** A private working copy, on which a transaction runs before it is committed. */
    constructor Copy(other: BibleDatabase)
      ensures versions == other.versions && verses == other.verses && notes == other.notes
    {
      versions, verses, notes := other.versions, other.verses, other.notes;
    }

    /** `VerseDao.insertVerses`: one REPLACE per row of the batch, in order. */
    method InsertVerses(batch: seq<VerseEntity>)
      modifies this
      ensures verses == VerseDao.InsertVerses(old(verses), batch)
      ensures versions == old(versions) && notes == old(notes)
    {
      var i := 0;
      while i < |batch|
        invariant 0 <= i <= |batch|
        invariant VerseDao.InsertVerses(old(verses), batch) == VerseDao.InsertVerses(verses, batch[i..])
        invariant versions == old(versions) && notes == old(notes)
      {
        assert batch[i..][1..] == batch[i + 1..];
        verses := verses[VerseKeyOf(batch[i]) := batch[i]];
        i := i + 1;
      }
    }

    /** `VerseDao.deleteByVersion`. */
    method DeleteByVersion(versionId: string)
      modifies this
      ensures verses == VerseDao.DeleteByVersion(old(verses), versionId)
      ensures versions == old(versions) && notes == old(notes)
    {
      verses := VerseDao.DeleteByVersion(verses, versionId);
    }

    /** `BibleVersionDao.upsert`. */
    method UpsertVersion(e: BibleVersionEntity)
      modifies this
      ensures versions == BibleVersionDao.Upsert(old(versions), e)
      ensures verses == old(verses) && notes == old(notes)
    {
      versions := BibleVersionDao.Upsert(versions, e);
    }

    /** `BibleVersionDao.deleteById`. */
    method DeleteVersionById(id: string)
      modifies this
      ensures versions == BibleVersionDao.DeleteById(old(versions), id)
      ensures verses == old(verses) && notes == old(notes)
    {
      versions := BibleVersionDao.DeleteById(versions, id);
    }

    /** `HandwrittenNoteDao.upsert`. */
    method UpsertNote(e: HandwrittenNoteEntity)
      modifies this
      ensures notes == HandwrittenNoteDao.Upsert(old(notes), e)
      ensures versions == old(versions) && verses == old(verses)
    {
      notes := HandwrittenNoteDao.Upsert(notes, e);
    }

    /** The end of a successful transaction: the working copy's tables become the database's. */
    method Commit(tx: BibleDatabase)
      modifies this
      ensures versions == old(tx.versions) && verses == old(tx.verses) && notes == old(tx.notes)
    {
      versions, verses, notes := tx.versions, tx.verses, tx.notes;
    }
  }
}
