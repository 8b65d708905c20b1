/** The HTTP views of the backups module: request-field checks, the status code each outcome of
    a service maps to, and the legacy status summary built from the repository catalogue. The
    services are inputs of the views, so a view that answers without asking a service is one
    whose response does not depend on it. */
module BackupsApi {
  import opened Wrappers
  import opened Strings
  import opened Dates
  import opened Catalog
  import opened Versions
  import opened Restore

  /** The fields of a request body. */
  type Fields = map<string, string>

  /** `request.data.get(key)`. */
  function Get(data: Fields, key: string): Option<string>
  {
    if key in data then Some(data[key]) else None
  }

  const HttpOk := 200
  const BadRequest := 400
  const NotFound := 404
  const ServerError := 500

  /** The legacy summary of the catalogue. */
  datatype LegacySummary = LegacySummary(
    repositoriesMonitored: nat,
    healthy: nat,
    failing: nat,
    lastRun: Option<string>)

  /** One repository in the legacy format. */
  datatype LegacyEntry = LegacyEntry(name: string, provider: string, lastBackup: Option<string>, status: string)

  datatype LegacyStatus = LegacyStatus(summary: LegacySummary, repositories: seq<LegacyEntry>)

  datatype Body =
    | ErrorBody(error: string)
    | PreviewBody(preview: Preview)
    | LinkBody(downloadUrl: string)
    | RestoreBody(result: RestoreResult)
    | StatusBody(legacy: LegacyStatus)

  datatype Response = Response(status: int, body: Body)

  // ---------------------------------------------------------------------------
  // Restore preview

  const BackupIdRequired := "backup_id is required"

  /** `RestorePreviewView.post`: `preview` answers `get_restore_preview(repo_id, backup_id)`. */
  function PreviewPost(repoId: string, data: Fields, preview: (string, string) -> Result<Preview, string>): (resp: Response)
    ensures !Truthy(Get(data, "backup_id")) ==> resp == Response(BadRequest, ErrorBody(BackupIdRequired))
    ensures Truthy(Get(data, "backup_id")) ==>
      match preview(repoId, data["backup_id"])
      case Err(e) => resp == Response(NotFound, ErrorBody(e))
      case Ok(p) => resp == Response(HttpOk, PreviewBody(p))
  {
    var backupId := Get(data, "backup_id");
    if !Truthy(backupId) then Response(BadRequest, ErrorBody(BackupIdRequired))
    else
      match preview(repoId, backupId.value)
      case Err(e) => Response(NotFound, ErrorBody(e))
      case Ok(p) => Response(HttpOk, PreviewBody(p))
  }

  /** Against the restore-preview service: the view answers 200 exactly when a backup id is
      given, the backup is among the repository's versions and the repository id splits into
      three parts; a 404 names which of the last two failed. */
  lemma PreviewStatus(cfg: Config, listing: Listing, repoId: string, data: Fields, now: Instant,
                      preview: (string, string) -> Result<Preview, string>)
    requires ValidNow(now)
    requires "backup_id" in data ==> preview(repoId, data["backup_id"]) == GetRestorePreview(cfg, listing, repoId, data["backup_id"], now)
    ensures var resp := PreviewPost(repoId, data, preview);
      && resp.status in {HttpOk, BadRequest, NotFound}
      && (resp.status == HttpOk <==>
            Truthy(Get(data, "backup_id"))
            && FindVersion(BackupVersions(cfg, listing, repoId, now), data["backup_id"]).Some?
            && |SplitN(repoId, '-', 2)| == 3)
      && (resp.status == NotFound ==>
            resp.body == ErrorBody("Backup not found") || resp.body == ErrorBody("Invalid repository ID"))
  {
  }

  // ---------------------------------------------------------------------------
  // Download link

  const LinkFailed := "Failed to generate download link"

  /** `DownloadLinkView.post`: `link` answers `get_download_link(repo_id, backup_id)`. */
  function DownloadPost(repoId: string, data: Fields, link: (string, string) -> Option<string>): (resp: Response)
    ensures !Truthy(Get(data, "backup_id")) ==> resp == Response(BadRequest, ErrorBody(BackupIdRequired))
    ensures Truthy(Get(data, "backup_id")) ==>
      var url := link(repoId, data["backup_id"]);
      resp == if Truthy(url) then Response(HttpOk, LinkBody(url.value)) else Response(ServerError, ErrorBody(LinkFailed))
  {
    var backupId := Get(data, "backup_id");
    if !Truthy(backupId) then Response(BadRequest, ErrorBody(BackupIdRequired))
    else
      var url := link(repoId, backupId.value);
      if !Truthy(url) then Response(ServerError, ErrorBody(LinkFailed))
      else Response(HttpOk, LinkBody(url.value))
  }

  /** Against the download-link service, with a storage client, a successful listing and a
      signer that never yields an empty URL: the view answers 200 exactly when a backup id is
      given and, outside mock mode, names one of the repository's versions. */
  lemma DownloadStatus(cfg: Config, listing: Listing, repoId: string, data: Fields, now: Instant,
                       sign: string -> string, link: (string, string) -> Option<string>)
    requires ValidNow(now)
    requires cfg.storageConfigured && listing.Listed?
    requires forall path :: sign(path) != ""
    requires "backup_id" in data ==> link(repoId, data["backup_id"]) == GetDownloadLink(cfg, listing, repoId, data["backup_id"], now, sign)
    ensures var resp := DownloadPost(repoId, data, link);
      && resp.status in {HttpOk, BadRequest, ServerError}
      && (resp.status == HttpOk <==>
            Truthy(Get(data, "backup_id"))
            && (cfg.mockMode || FindVersion(BackupVersions(cfg, listing, repoId, now), data["backup_id"]).Some?))
  {
    if Truthy(Get(data, "backup_id")) {
      var backupId := data["backup_id"];
      ListedBackupHasLink(cfg, listing, repoId, backupId, now, sign);
      assert cfg.mockMode ==> MockLink(backupId) != "" by {
        assert |MockLink(backupId)| >= |"https://"|;
      }
    }
  }

  // ---------------------------------------------------------------------------
  // Restore

  /** The arguments `RestoreView.post` passes to `restore_to_azure_devops`. */
  datatype RestoreRequest = RestoreRequest(
    repoId: string,
    backupId: string,
    targetOrg: string,
    targetProject: string,
    targetRepoName: string,
    visibility: string)

  const FieldsRequired := "backup_id, target_org, target_project, and target_repo_name are required"

  /** The restore request a body makes: none unless all four required fields are non-empty;
      the visibility is `private` unless the body gives one. */
  function RestoreRequestOf(repoId: string, data: Fields): (r: Option<RestoreRequest>)
    ensures r.Some? <==>
      Truthy(Get(data, "backup_id")) && Truthy(Get(data, "target_org"))
      && Truthy(Get(data, "target_project")) && Truthy(Get(data, "target_repo_name"))
    ensures r.Some? ==>
      && r.value.repoId == repoId
      && r.value.backupId == data["backup_id"]
      && r.value.targetOrg == data["target_org"]
      && r.value.targetProject == data["target_project"]
      && r.value.targetRepoName == data["target_repo_name"]
      && r.value.visibility == (if "visibility" in data then data["visibility"] else "private")
  {
    var backupId := Get(data, "backup_id");
    var targetOrg := Get(data, "target_org");
    var targetProject := Get(data, "target_project");
    var targetRepoName := Get(data, "target_repo_name");
    var visibility := if "visibility" in data then data["visibility"] else "private";
    if !(Truthy(backupId) && Truthy(targetOrg) && Truthy(targetProject) && Truthy(targetRepoName)) then None
    else Some(RestoreRequest(repoId, backupId.value, targetOrg.value, targetProject.value, targetRepoName.value, visibility))
  }

  /** `RestoreView.post`: `restore` answers `restore_to_azure_devops` for a request. */
  function RestorePost(repoId: string, data: Fields, restore: RestoreRequest -> RestoreResult): (resp: Response)
    ensures RestoreRequestOf(repoId, data).None? ==> resp == Response(BadRequest, ErrorBody(FieldsRequired))
    ensures RestoreRequestOf(repoId, data).Some? ==>
      var result := restore(RestoreRequestOf(repoId, data).value);
      && resp.body == RestoreBody(result)
      && (resp.status == BadRequest <==> Status(result) == "error")
      && (resp.status == HttpOk <==> Status(result) != "error")
  {
    match RestoreRequestOf(repoId, data)
    case None => Response(BadRequest, ErrorBody(FieldsRequired))
    case Some(request) =>
      var result := restore(request);
      if Status(result) == "error" then Response(BadRequest, RestoreBody(result))
      else Response(HttpOk, RestoreBody(result))
  }

  /** A body missing a required field is refused whatever the restore service would have done:
      the service is not asked. */
  lemma RestoreRefusesIncompleteBody(repoId: string, data: Fields,
                                     restore: RestoreRequest -> RestoreResult, restore': RestoreRequest -> RestoreResult)
    requires RestoreRequestOf(repoId, data).None?
    ensures RestorePost(repoId, data, restore) == RestorePost(repoId, data, restore')
    ensures RestorePost(repoId, data, restore).status == BadRequest
  {
  }

  /** Against the restore service: in mock mode every complete body is answered 200; outside it,
      without an access token every body is answered 400, and a complete one with the token's
      message. */
  lemma RestoreStatus(cfg: Config, listing: Listing, repoId: string, data: Fields, now: Instant,
                      sign: string -> string, host: CreateRepoCall -> HostingReply,
                      restore: RestoreRequest -> RestoreResult)
    requires ValidNow(now)
    requires RestoreRequestOf(repoId, data).Some? ==>
      var q := RestoreRequestOf(repoId, data).value;
      restore(q) == RestoreToAzureDevOps(cfg, listing, q.repoId, q.backupId, q.targetOrg, q.targetProject,
                                         q.targetRepoName, q.visibility, now, sign, host).result
    ensures var resp := RestorePost(repoId, data, restore);
      && (cfg.mockMode ==> (resp.status == HttpOk <==> RestoreRequestOf(repoId, data).Some?))
      && (!cfg.mockMode && !Truthy(cfg.pat) ==> resp.status == BadRequest)
  {
    if RestoreRequestOf(repoId, data).Some? && !cfg.mockMode && !Truthy(cfg.pat) {
      var q := RestoreRequestOf(repoId, data).value;
      var run := RestoreToAzureDevOps(cfg, listing, q.repoId, q.backupId, q.targetOrg, q.targetProject,
                                      q.targetRepoName, q.visibility, now, sign, host);
      assert run.calls == [];
    }
  }

  // ---------------------------------------------------------------------------
  // Legacy status

  /** The legacy name of a repository: `org/project/repo`. */
  function LegacyName(r: RepoSummary): string
  {
    r.org + "/" + r.project + "/" + r.repo
  }

  /** `GitBackupStatusView.get` on the catalogue `repos`: every repository counts as monitored
      and healthy, none as failing; the last run is the first repository's last backup. */
  function GitBackupStatus(repos: seq<RepoSummary>): (s: LegacyStatus)
    ensures s.summary.repositoriesMonitored == s.summary.healthy == |repos|
    ensures s.summary.failing == 0
    ensures s.summary.lastRun == if repos == [] then None else repos[0].lastBackup
    ensures |s.repositories| == |repos|
    ensures forall i :: 0 <= i < |repos| ==>
      s.repositories[i] == LegacyEntry(LegacyName(repos[i]), "Azure DevOps", repos[i].lastBackup, "Healthy")
  {
    LegacyStatus(
      LegacySummary(|repos|, |repos|, 0, if repos != [] then repos[0].lastBackup else None),
      seq(|repos|, i requires 0 <= i < |repos| =>
        LegacyEntry(LegacyName(repos[i]), "Azure DevOps", repos[i].lastBackup, "Healthy")))
  }

  /** The status view always answers 200, with the legacy summary of the catalogue. */
  function GitBackupStatusGet(repos: seq<RepoSummary>): (resp: Response)
    ensures resp.status == HttpOk && resp.body.StatusBody?
    ensures resp == Response(HttpOk, StatusBody(GitBackupStatus(repos)))
  {
    Response(HttpOk, StatusBody(GitBackupStatus(repos)))
  }

  /** A legacy name splits back, with `split("/", 2)`, into the organisation, the project and
      the repository exactly when neither the organisation nor the project holds a `/`. */
  lemma LegacyNameRoundTrip(r: RepoSummary)
    ensures SplitN(LegacyName(r), '/', 2) == [r.org, r.project, r.repo] <==> '/' !in r.org && '/' !in r.project
  {
    assert LegacyName(r) == r.org + ['/'] + r.project + ['/'] + r.repo;
    SplitTwiceJoin(r.org, r.project, r.repo, '/');
  }

  /** Every legacy entry of the catalogue `list_repositories` returns names its repository
      unambiguously: the name splits back into the entry's organisation, project and
      repository, a repository spread over several segments included. */
  lemma LegacyNamesIdentifyRepositories(cfg: Config, listing: Listing)
    ensures var repos := Repositories(cfg, listing);
      forall i :: 0 <= i < |repos| ==>
        SplitN(GitBackupStatus(repos).repositories[i].name, '/', 2) == [repos[i].org, repos[i].project, repos[i].repo]
  {
    var repos := Repositories(cfg, listing);
    RepositoriesSlashFree(cfg, listing);
    forall i | 0 <= i < |repos|
      ensures SplitN(GitBackupStatus(repos).repositories[i].name, '/', 2) == [repos[i].org, repos[i].project, repos[i].repo]
    {
      assert repos[i] in repos;
      LegacyNameRoundTrip(repos[i]);
    }
  }
}
