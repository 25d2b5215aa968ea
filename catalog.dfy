/** The compiled-in list of translations that can be downloaded (`DefaultBibleVersions`). */
module Catalog {
  import opened Wrappers

  datatype BibleVersionDefinition = BibleVersionDefinition(
    id: string,
    name: string,
    language: string,
    abbreviation: string,
    downloadPath: string,
    description: string)

  const DefaultBibleVersions: seq<BibleVersionDefinition> := [
    BibleVersionDefinition(
      "es_1909",
      "Reina Valera 1909",
      "Español",
      "RVR1909",
      "https://raw.githubusercontent.com/thiagobodruk/bible/master/json/es_1909.json",
      "Edición histórica castellana con ortografía clásica."),
    BibleVersionDefinition(
      "es_rvc",
      "Reina Valera Contemporánea",
      "Español",
      "RVC",
      "https://raw.githubusercontent.com/thiagobodruk/bible/master/json/es_rvc.json",
      "Traducción moderna fácil de leer."),
    BibleVersionDefinition(
      "en_kjv",
      "King James Version",
      "English",
      "KJV",
      "https://raw.githubusercontent.com/thiagobodruk/bible/master/json/en_kjv.json",
      "Publicada en 1611, una de las versiones inglesas más conocidas."),
    BibleVersionDefinition(
      "en_bbe",
      "Bible in Basic English",
      "English",
      "BBE",
      "https://raw.githubusercontent.com/thiagobodruk/bible/master/json/en_bbe.json",
      "Inglés simple pensado para lectores no nativos.")
  ]

  /** `catalog.firstOrNull { it.id == id }`. */
  function FindDefinition(catalog: seq<BibleVersionDefinition>, id: string): (r: Option<BibleVersionDefinition>)
    ensures r.None? <==> forall i :: 0 <= i < |catalog| ==> catalog[i].id != id
    ensures r.Some? ==> exists i :: 0 <= i < |catalog| && catalog[i] == r.value && r.value.id == id &&
                                    forall j :: 0 <= j < i ==> catalog[j].id != id
  {
    if |catalog| == 0 then None
    else if catalog[0].id == id then Some(catalog[0])
    else
      var r := FindDefinition(catalog[1..], id);
      assert r.Some? ==> exists i :: 0 <= i < |catalog[1..]| && catalog[1..][i] == r.value && r.value.id == id &&
                                     forall j :: 0 <= j < i ==> catalog[1..][j].id != id;
      assert r.Some? ==> exists i :: 1 <= i < |catalog| && catalog[i] == r.value && r.value.id == id &&
                                     forall j :: 0 <= j < i ==> catalog[j].id != id by {
        if r.Some? {
          var i :| 0 <= i < |catalog[1..]| && catalog[1..][i] == r.value && r.value.id == id &&
                   forall j :: 0 <= j < i ==> catalog[1..][j].id != id;
          assert catalog[i + 1] == r.value;
          assert forall j :: 0 <= j < i + 1 ==> catalog[j].id != id by {
            forall j | 0 <= j < i + 1 ensures catalog[j].id != id {
              if j > 0 { assert catalog[j] == catalog[1..][j - 1]; }
            }
          }
        }
      }
      r
  }

  predicate EndsWith(s: string, suffix: string) {
    |suffix| <= |s| && s[|s| - |suffix|..] == suffix
  }

  /** The catalog has four entries, with pairwise distinct ids. */
  lemma DefaultIdsDistinct()
    ensures |DefaultBibleVersions| == 4
    ensures forall i, j :: 0 <= i < j < |DefaultBibleVersions| ==>
      DefaultBibleVersions[i].id != DefaultBibleVersions[j].id
  {
    var c := DefaultBibleVersions;
    assert c[0].id[3] == '1' && c[1].id[3] == 'r';
    assert c[2].id[3] == 'k' && c[3].id[3] == 'b';
    assert c[0].id[0] == 'e' && c[0].id[1] == 's';
    assert c[2].id[0] == 'e' && c[2].id[1] == 'n';
  }

  /** Two Spanish and two English translations. */
  lemma DefaultLanguages()
    ensures DefaultBibleVersions[0].language == DefaultBibleVersions[1].language == "Español"
    ensures DefaultBibleVersions[2].language == DefaultBibleVersions[3].language == "English"
  {
  }

  const GithubBase: string := "https://raw.githubusercontent.com/thiagobodruk/bible/master"

  lemma EndsWithConcat(prefix: string, suffix: string)
    ensures EndsWith(prefix + suffix, suffix)
  {
    assert (prefix + suffix)[|prefix|..] == suffix;
  }

  lemma PathOf(i: nat)
    requires i < |DefaultBibleVersions|
    ensures DefaultBibleVersions[i].downloadPath == GithubBase + "/json/" + DefaultBibleVersions[i].id + ".json"
  {
  }

  /** Each entry is fetched from `.../json/{id}.json`, named after its own id. */
  lemma DefaultDownloadPaths()
    ensures forall i :: 0 <= i < |DefaultBibleVersions| ==>
      EndsWith(DefaultBibleVersions[i].downloadPath, "/json/" + DefaultBibleVersions[i].id + ".json")
  {
    var c := DefaultBibleVersions;
    forall i | 0 <= i < |c| ensures EndsWith(c[i].downloadPath, "/json/" + c[i].id + ".json") {
      PathOf(i);
      assert GithubBase + "/json/" + c[i].id + ".json" == GithubBase + ("/json/" + c[i].id + ".json");
      EndsWithConcat(GithubBase, "/json/" + c[i].id + ".json");
    }
  }

  /** Because the ids are distinct, the lookup finds each entry at its own position. */
  lemma FindDefaultDefinition(i: nat)
    requires i < |DefaultBibleVersions|
    ensures FindDefinition(DefaultBibleVersions, DefaultBibleVersions[i].id) == Some(DefaultBibleVersions[i])
  {
    DefaultIdsDistinct();
  }
}
