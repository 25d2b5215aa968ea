/** The `bible_versions` table and the operations of `BibleVersionDao`. */
module BibleVersionDao {
  import opened Wrappers
  import opened Models
  import opened Ordering

  /** At most one row per `id`, the primary key: every row is stored under its own id. */
  type VersionTable = t: map<string, BibleVersionEntity> | forall id :: id in t ==> t[id].id == id

  /** `ORDER BY language, name`; two rows with equal language and name are put in id order. */
  predicate VersionOrderLess(a: BibleVersionEntity, b: BibleVersionEntity) {
    || StrLess(a.language, b.language)
    || (a.language == b.language && StrLess(a.name, b.name))
    || (a.language == b.language && a.name == b.name && StrLess(a.id, b.id))
  }

  /** `a` is not after `b` in (language, name) order. */
  predicate LanguageNameLe(a: BibleVersionEntity, b: BibleVersionEntity) {
    StrLess(a.language, b.language) || (a.language == b.language && !StrLess(b.name, a.name))
  }

  lemma VersionOrderIsStrictTotal(t: VersionTable)
    ensures StrictTotalOn(t.Values, VersionOrderLess)
  {
    StrLessIsStrictTotal();
    forall a, b | a in t.Values && b in t.Values && a != b
      ensures VersionOrderLess(a, b) || VersionOrderLess(b, a)
    {
      var ka :| ka in t && t[ka] == a;
      var kb :| kb in t && t[kb] == b;
    }
  }

  /** `SELECT * FROM bible_versions ORDER BY language, name`: every row once, in that order. */
  function ObserveVersions(t: VersionTable): (r: seq<BibleVersionEntity>)
    ensures |r| == |t|
    ensures forall e :: e in r <==> e in t.Values
    ensures forall i, j :: 0 <= i < j < |r| ==> r[i] != r[j] && LanguageNameLe(r[i], r[j])
  {
    VersionOrderIsStrictTotal(t);
    var r := SortSet(t.Values, VersionOrderLess);
    assert |t.Values| == |t| by {
      ValuesCard(t);
    }
    forall i, j | 0 <= i < j < |r| ensures r[i] != r[j] && LanguageNameLe(r[i], r[j]) {
      assert VersionOrderLess(r[i], r[j]);
      StrLessIsStrictTotal();
    }
    r
  }

  /** Rows are stored under their own ids, so there are as many rows as keys. */
  lemma {:induction false} ValuesCard(t: VersionTable)
    ensures |t.Values| == |t|
    decreases |t|
  {
    if |t| > 0 {
      var id :| id in t;
      var t' := t - {id};
      ValuesCard(t');
      assert t.Values == t'.Values + {t[id]} by {
        forall e | e in t.Values ensures e in t'.Values + {t[id]} {
          var k :| k in t && t[k] == e;
          if k != id { assert e == t'[k]; }
        }
        assert forall k :: k in t' ==> t'[k] == t[k];
      }
      assert t[id] !in t'.Values by {
        forall k | k in t' ensures t'[k] != t[id] {
          assert t'[k].id == k;
        }
      }
      assert |t.Keys| == |t'.Keys| + 1 by {
        assert t.Keys == t'.Keys + {id};
      }
    }
  }

  /** `@Insert(onConflict = REPLACE)`: the row under `e.id` becomes `e`, no other row changes. */
  function Upsert(t: VersionTable, e: BibleVersionEntity): (r: VersionTable)
    ensures r.Keys == t.Keys + {e.id} && r[e.id] == e
    ensures forall id :: id in t && id != e.id ==> r[id] == t[id]
  {
    t[e.id := e]
  }

  /** `SELECT * ... WHERE id = :id LIMIT 1`. */
  function FindById(t: VersionTable, id: string): (r: Option<BibleVersionEntity>)
    ensures r.Some? <==> id in t
    ensures r.Some? ==> r.value == t[id] && r.value.id == id
  {
    if id in t then Some(t[id]) else None
  }

  /** `DELETE FROM bible_versions WHERE id = :id`: only that row goes. */
  function DeleteById(t: VersionTable, id: string): (r: VersionTable)
    ensures r.Keys == t.Keys - {id}
    ensures forall k :: k in r ==> r[k] == t[k]
  {
    t - {id}
  }

  /** A row just upserted is found by its id; a row just deleted is not; others are unaffected. */
  lemma FindAfterWrites(t: VersionTable, e: BibleVersionEntity, id: string)
    ensures FindById(Upsert(t, e), e.id) == Some(e)
    ensures id != e.id ==> FindById(Upsert(t, e), id) == FindById(t, id)
    ensures FindById(DeleteById(t, id), id) == None
    ensures id != e.id ==> FindById(DeleteById(t, id), e.id) == FindById(t, e.id)
  {
  }
}
