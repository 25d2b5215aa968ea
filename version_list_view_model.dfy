/**
 * `VersionListViewModel`: the latest download status per version id, the guard that refuses a
 * second download of a version whose status is in progress, and the list items shown for the
 * catalog versions.
 */
module VersionListViewModel {
  import opened Wrappers
  import opened Models
  import opened Json
  import opened Catalog
  import opened BibleJsonParser
  import BibleVersionDao
  import Repository

  type DownloadStatus = Repository.DownloadStatus

  datatype VersionItemUiState = VersionItemUiState(
    id: string,
    name: string,
    language: string,
    abbreviation: string,
    description: string,
    isDownloaded: bool,
    totalVerses: int,
    lastDownloadedAt: Option<int>,
    downloadStatus: DownloadStatus)

  /** `DownloadStatus.Idle()`: the status of a version with no recorded event. */
  const IdleStatus: DownloadStatus := Repository.Idle("")

  /** The guard of `download`: a recorded `InProgress` status blocks a new download. */
  predicate InProgress(downloads: map<string, DownloadStatus>, versionId: string) {
    versionId in downloads && downloads[versionId].InProgress?
  }

  /** `downloadMap[id] ?: DownloadStatus.Idle()`. */
  function StatusOf(downloads: map<string, DownloadStatus>, versionId: string): (r: DownloadStatus)
    ensures versionId in downloads ==> r == downloads[versionId]
    ensures versionId !in downloads ==> r == IdleStatus
  {
    if versionId in downloads then downloads[versionId] else IdleStatus
  }

  /**
   * The item list: one item per version, in the same order, every field copied from the
   * version, with the recorded status or Idle when there is none.
   */
  function Items(versions: seq<BibleVersion>, downloads: map<string, DownloadStatus>): (r: seq<VersionItemUiState>)
    ensures |r| == |versions|
    ensures forall i :: 0 <= i < |r| ==>
      var v := versions[i];
      r[i] == VersionItemUiState(v.id, v.name, v.language, v.abbreviation, v.description, v.isDownloaded,
                                 v.totalVerses, v.lastDownloadedAt, StatusOf(downloads, v.id))
  {
    seq(|versions|, i requires 0 <= i < |versions| =>
      var v := versions[i];
      VersionItemUiState(v.id, v.name, v.language, v.abbreviation, v.description, v.isDownloaded,
                         v.totalVerses, v.lastDownloadedAt, StatusOf(downloads, v.id)))
  }

  /** Recording a status for one id changes only the items of that id, and those show the new status. */
  lemma ItemsAfterStatus(versions: seq<BibleVersion>, downloads: map<string, DownloadStatus>,
                         versionId: string, status: DownloadStatus)
    ensures var before := Items(versions, downloads);
      var after := Items(versions, downloads[versionId := status]);
      && |after| == |before|
      && forall i :: 0 <= i < |after| ==>
           (versions[i].id == versionId ==> after[i] == before[i].(downloadStatus := status))
           && (versions[i].id != versionId ==> after[i] == before[i])
  {
  }

  /** The map after the events of one download, each overwriting the id's entry in turn. */
  function Recorded(downloads: map<string, DownloadStatus>, versionId: string, events: seq<DownloadStatus>)
    : (r: map<string, DownloadStatus>)
    ensures events == [] ==> r == downloads
    ensures events != [] ==> r == downloads[versionId := events[|events| - 1]]
    decreases |events|
  {
    if events == [] then downloads
    else Recorded(downloads, versionId, events[..|events| - 1])[versionId := events[|events| - 1]]
  }

  class VersionListViewModel {
    const repository: Repository.OfflineFirstBibleRepository
    var downloads: map<string, DownloadStatus>
    var uiState: seq<VersionItemUiState>

    constructor (repository: Repository.OfflineFirstBibleRepository)
      ensures this.repository == repository && downloads == map[] && uiState == []
    {
      this.repository := repository;
      downloads := map[];
      uiState := [];
    }

    /** The collector of the combined flow: the items for the catalog versions and the recorded statuses. */
    method Refresh()
      modifies this
      ensures uiState == Items(repository.ObserveAvailableVersions(), downloads)
      ensures downloads == old(downloads)
    {
      uiState := Items(repository.ObserveAvailableVersions(), downloads);
    }

    /** `downloads.update { it + (versionId to status) }`: only that id's entry changes. */
    method OnStatus(versionId: string, status: DownloadStatus)
      modifies this
      ensures downloads == old(downloads)[versionId := status]
      ensures uiState == old(uiState)
    {
      downloads := downloads[versionId := status];
    }

    /** Collecting the events of one download, in order. */
    method Collect(versionId: string, events: seq<DownloadStatus>)
      modifies this
      ensures downloads == Recorded(old(downloads), versionId, events)
      ensures uiState == old(uiState)
    {
      var i := 0;
      while i < |events|
        invariant 0 <= i <= |events|
        invariant downloads == Recorded(old(downloads), versionId, events[..i])
        invariant uiState == old(uiState)
      {
        assert events[..i + 1][..i] == events[..i];
        OnStatus(versionId, events[i]);
        i := i + 1;
      }
      assert events[..i] == events;
    }

    /**
     * `download(versionId)`: nothing happens while the recorded status is `InProgress`; otherwise
     * the repository's download runs and its events are recorded in order. Afterwards the status
     * is `Success` or `Error`, never `InProgress`, so the next download is allowed again. A
     * rejected id records nothing.
     */
    method Download(versionId: string, fetch: Result<JsonText, string>, fault: Repository.StorageFault, now: int)
      returns (outcome: Option<Repository.DownloadOutcome>)
      modifies this, repository.database
      ensures outcome.None? <==> InProgress(old(downloads), versionId)
      ensures outcome.None? ==> downloads == old(downloads) && unchanged(repository.database)
      ensures outcome.Some? && outcome.value.Rejected? ==> downloads == old(downloads)
      ensures outcome.Some? && outcome.value.Emitted? ==>
        downloads == Recorded(old(downloads), versionId, outcome.value.events)
      ensures outcome.Some? ==> !InProgress(downloads, versionId)
      ensures outcome.Some? ==>
        outcome.value == Repository.DownloadResult(repository.availableVersions, versionId, fetch, fault)
      ensures outcome.Some? && Repository.DownloadCommits(repository.availableVersions, versionId, fetch, fault) ==>
        var rows := ParseSpec(versionId, fetch.value).value;
        && repository.database.verses ==
             Repository.ReplaceVersion(old(repository.database.verses), versionId, Repository.Entities(rows))
        && repository.database.versions == BibleVersionDao.Upsert(old(repository.database.versions),
             Repository.VersionRecord(FindDefinition(repository.availableVersions, versionId).value, now, |rows|))
        && repository.database.notes == old(repository.database.notes)
      ensures outcome.Some? && !Repository.DownloadCommits(repository.availableVersions, versionId, fetch, fault) ==>
        && repository.database.verses == old(repository.database.verses)
        && repository.database.versions == old(repository.database.versions)
        && repository.database.notes == old(repository.database.notes)
      ensures uiState == old(uiState)
    {
      if InProgress(downloads, versionId) {
        return None;
      }
      var o := repository.DownloadVersion(versionId, fetch, fault, now);
      Repository.DownloadResultSucceeds(repository.availableVersions, versionId, fetch, fault);
      if o.Emitted? {
        Collect(versionId, o.events);
      }
      return Some(o);
    }
  }
}
