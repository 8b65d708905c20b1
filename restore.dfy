/** Restoring a backup: the restore preview, the download link of one backup version, and the
    decisions `restore_to_azure_devops` takes before and after asking the hosting service to
    create the target repository. */
module Restore {
  import opened Wrappers
  import opened Strings
  import opened Dates
  import opened Catalog
  import opened Versions

  /** `next((v for v in versions if v["id"] == backup_id), None)`: the first version with that
      id, or none when no version has it. */
  function FindVersion(versions: seq<Version>, backupId: string): (r: Option<Version>)
    ensures r.None? <==> forall i :: 0 <= i < |versions| ==> versions[i].id != backupId
    ensures r.Some? ==> r.value.id == backupId
    ensures r.Some? ==>
      exists i :: 0 <= i < |versions| && versions[i] == r.value
        && forall j :: 0 <= j < i ==> versions[j].id != backupId
  {
    if versions == [] then None
    else if versions[0].id == backupId then Some(versions[0])
    else
      var r := FindVersion(versions[1..], backupId);
      assert forall i :: 0 < i < |versions| ==> versions[i] == versions[1..][i - 1];
      r
  }

  /** In a newest-first listing the version found for an id is the newest with that id: as
      version ids are per day, a backup id names the day's latest backup. */
  lemma FoundIsNewest(versions: seq<Version>, backupId: string)
    requires NewestFirst(versions)
    ensures FindVersion(versions, backupId).Some? ==>
      forall v :: v in versions && v.id == backupId ==> v.timestamp <= FindVersion(versions, backupId).value.timestamp
  {
    var found := FindVersion(versions, backupId);
    if found.Some? {
      var i :| 0 <= i < |versions| && versions[i] == found.value
        && forall j :: 0 <= j < i ==> versions[j].id != backupId;
      forall v | v in versions && v.id == backupId
        ensures v.timestamp <= found.value.timestamp
      {
        var j :| 0 <= j < |versions| && versions[j] == v;
        assert i <= j;
      }
    }
  }

  /** A Python string in a condition: `None` and the empty string are false. */
  predicate Truthy(s: Option<string>)
  {
    s.Some? && s.value != ""
  }

  // ---------------------------------------------------------------------------
  // Restore preview

  /** What `get_restore_preview` reports about a backup it found. The size is kept in bytes;
      the service reports it in megabytes. */
  datatype Preview = Preview(
    sourceOrg: string,
    sourceProject: string,
    sourceRepo: string,
    backupTimestamp: Instant,
    backupSizeBytes: nat,
    suggestedTargetRepoName: string)

  /** `get_restore_preview`: the backup is looked up among the versions `list_backup_versions`
      returns for the same repository id, and the id is split back into its three parts. */
  function GetRestorePreview(cfg: Config, listing: Listing, repoId: string, backupId: string, now: Instant): (r: Result<Preview, string>)
    requires ValidNow(now)
    ensures var found := FindVersion(BackupVersions(cfg, listing, repoId, now), backupId);
      && (r == Err("Backup not found") <==> found.None?)
      && (r == Err("Invalid repository ID") <==> found.Some? && |SplitN(repoId, '-', 2)| < 3)
      && (r.Ok? <==> found.Some? && |SplitN(repoId, '-', 2)| == 3)
    ensures r.Ok? ==>
      var found := FindVersion(BackupVersions(cfg, listing, repoId, now), backupId).value;
      && [r.value.sourceOrg, r.value.sourceProject, r.value.sourceRepo] == SplitN(repoId, '-', 2)
      && r.value.suggestedTargetRepoName == r.value.sourceRepo
      && r.value.backupTimestamp == found.timestamp
      && r.value.backupSizeBytes == found.sizeBytes
  {
    var backup := FindVersion(BackupVersions(cfg, listing, repoId, now), backupId);
    if backup.None? then Err("Backup not found")
    else
      var parts := SplitN(repoId, '-', 2);
      if |parts| < 3 then Err("Invalid repository ID")
      else
        var org, project, repo := parts[0], parts[1], parts[2];
        Ok(Preview(org, project, repo, backup.value.timestamp, backup.value.sizeBytes, repo))
  }

  /** For the id of a repository whose organisation and project hold no `-`, a preview of a
      backup that exists names that very repository as source and suggests its name as target. */
  lemma PreviewNamesSource(cfg: Config, listing: Listing, org: string, project: string, repo: string, backupId: string, now: Instant)
    requires ValidNow(now)
    requires '-' !in org && '-' !in project
    requires FindVersion(BackupVersions(cfg, listing, RepoId(org, project, repo), now), backupId).Some?
    ensures GetRestorePreview(cfg, listing, RepoId(org, project, repo), backupId, now).Ok?
    ensures var p := GetRestorePreview(cfg, listing, RepoId(org, project, repo), backupId, now).value;
      p.sourceOrg == org && p.sourceProject == project && p.sourceRepo == repo
      && p.suggestedTargetRepoName == repo
  {
    RepoIdRoundTrip(org, project, repo);
  }

  /** Outside mock mode an id that does not split into three parts has no versions, so its
      preview reports a missing backup: "Invalid repository ID" is only ever seen in mock mode,
      for one of the mock backups. */
  lemma InvalidIdOnlyInMockMode(cfg: Config, listing: Listing, repoId: string, backupId: string, now: Instant)
    requires ValidNow(now)
    requires |SplitN(repoId, '-', 2)| < 3
    ensures GetRestorePreview(cfg, listing, repoId, backupId, now) == Err("Invalid repository ID")
      <==> cfg.mockMode && FindVersion(MockVersions(repoId, now), backupId).Some?
  {
    if !cfg.mockMode && cfg.storageConfigured && listing.Listed? {
      VersionsOfOrdered(cfg.prefixSetting, listing.blobs, repoId, now);
    }
  }

  // ---------------------------------------------------------------------------
  // Download link

  /** The link served in mock mode. */
  function MockLink(backupId: string): string
  {
    "https://mock-storage.example.com/download/" + backupId + "?mock=true"
  }

  /** `get_download_link`. Outside mock mode the backup is looked up among the versions
      `list_backup_versions` returns for the same repository id; `sign` stands for turning
      the found blob path into a URL (a signed URL when an account key is configured, the plain
      blob URL otherwise). */
  function GetDownloadLink(cfg: Config, listing: Listing, repoId: string, backupId: string, now: Instant,
                           sign: string -> string): (r: Option<string>)
    requires ValidNow(now)
    ensures cfg.mockMode ==> r == Some(MockLink(backupId))
    ensures !cfg.mockMode ==>
      var found := FindVersion(BackupVersions(cfg, listing, repoId, now), backupId);
      && (r.Some? <==> cfg.storageConfigured && found.Some? && found.value.blobPath != "")
      && (r.Some? ==> r.value == sign(found.value.blobPath))
  {
    if cfg.mockMode then Some(MockLink(backupId))
    else if !cfg.storageConfigured then None
    else
      var backup := FindVersion(BackupVersions(cfg, listing, repoId, now), backupId);
      if backup.None? then None
      else
        var blobPath := backup.value.blobPath;
        if blobPath == "" then None
        else Some(sign(blobPath))
  }

  /** With a storage client and a successful listing, every listed backup has a link: the
      versions come from `.zip` blobs, so their blob path is never empty. */
  lemma ListedBackupHasLink(cfg: Config, listing: Listing, repoId: string, backupId: string, now: Instant,
                            sign: string -> string)
    requires ValidNow(now)
    requires cfg.storageConfigured && listing.Listed?
    ensures GetDownloadLink(cfg, listing, repoId, backupId, now, sign).Some?
      <==> cfg.mockMode || FindVersion(BackupVersions(cfg, listing, repoId, now), backupId).Some?
  {
    if !cfg.mockMode {
      var versions := BackupVersions(cfg, listing, repoId, now);
      var found := FindVersion(versions, backupId);
      if found.Some? {
        ListedVersionFacts(cfg.prefixSetting, listing.blobs, repoId, now, found.value);
      }
    }
  }

  // ---------------------------------------------------------------------------
  // Restore

  /** The one call `restore_to_azure_devops` makes to the hosting service: create repository
      `name` in `projectId` through `url`, authenticated by the access token `pat`. */
  datatype CreateRepoCall = CreateRepoCall(url: string, pat: string, name: string, projectId: string)

  /** The fields of the created repository the service reads from the reply. */
  datatype RepoData = RepoData(id: Option<string>, webUrl: Option<string>)

  /** What the create call gives back: it raises, or it replies with a status code, a body
      text, and a body that reads as a repository description or fails to (`json` raises). */
  datatype HostingReply =
    | Raised(error: string)
    | Replied(statusCode: int, text: string, json: Result<RepoData, string>)

  /** What a created repository's restore reports besides its URL. */
  datatype Created = Created(repoId: Option<string>, downloadUrl: string)

  /** The status dictionary `restore_to_azure_devops` returns: status `error` with a message,
      or status `success` with a message, a repository URL and, when the repository was
      really created, its id and the download link. */
  datatype RestoreResult =
    | Failed(message: string)
    | Restored(message: string, repoUrl: string, created: Option<Created>)

  function Status(r: RestoreResult): string
  {
    if r.Failed? then "error" else "success"
  }

  /** A restore's result and the hosting calls it made. */
  datatype RestoreRun = RestoreRun(result: RestoreResult, calls: seq<CreateRepoCall>)

  const TokenMissing := "Azure DevOps PAT not configured. Set AZURE_DEVOPS_PAT environment variable."
  const LinkMissing := "Failed to generate download link for backup"

  function CreateRepoUrl(org: string, project: string): string
  {
    "https://dev.azure.com/" + org + "/" + project + "/_apis/git/repositories?api-version=7.1"
  }

  /** The web address of a repository, used when the hosting reply gives none. */
  function DefaultRepoUrl(org: string, project: string, name: string): (u: string)
    ensures u != ""
  {
    "https://dev.azure.com/" + org + "/" + project + "/_git/" + name
  }

  /** The decision on the reply to the create call. */
  function CreateOutcome(reply: HostingReply, org: string, project: string, name: string, downloadUrl: string): (r: RestoreResult)
    ensures r.Restored? <==> reply.Replied? && reply.statusCode in {200, 201} && reply.json.Ok?
    ensures reply.Replied? && reply.statusCode == 409 ==>
      r == Failed("Repository " + name + " already exists in " + project)
    ensures reply.Replied? && reply.statusCode !in {200, 201, 409} ==>
      r == Failed("Failed to create repository: " + reply.text)
    ensures r.Restored? ==>
      && r.created == Some(Created(reply.json.value.id, downloadUrl))
      && r.repoUrl == if Truthy(reply.json.value.webUrl) then reply.json.value.webUrl.value
                      else DefaultRepoUrl(org, project, name)
  {
    match reply
    case Raised(e) => Failed("Restore failed: " + e)
    case Replied(code, text, json) =>
      if code != 200 && code != 201 then
        if code == 409 then Failed("Repository " + name + " already exists in " + project)
        else Failed("Failed to create repository: " + text)
      else
        match json
        case Err(e) => Failed("Restore failed: " + e)
        case Ok(data) =>
          Restored(
            "Repository " + name + " created. Import backup manually or implement import API.",
            if Truthy(data.webUrl) then data.webUrl.value else DefaultRepoUrl(org, project, name),
            Some(Created(data.id, downloadUrl)))
  }

  /** `restore_to_azure_devops`: `host` answers the create call. The link is asked for with
      the same repository and backup ids; `visibility` is accepted and not used. */
  function RestoreToAzureDevOps(cfg: Config, listing: Listing, repoId: string, backupId: string,
                                targetOrg: string, targetProject: string, targetRepoName: string,
                                visibility: string, now: Instant,
                                sign: string -> string, host: CreateRepoCall -> HostingReply): (run: RestoreRun)
    requires ValidNow(now)
    ensures var link := GetDownloadLink(cfg, listing, repoId, backupId, now, sign);
      run.calls == if cfg.mockMode || !Truthy(link) || !Truthy(cfg.pat) then []
                   else [CreateRepoCall(CreateRepoUrl(targetOrg, targetProject), cfg.pat.value, targetRepoName, targetProject)]
    ensures run.result.Restored? <==>
      cfg.mockMode || (run.calls != [] && host(run.calls[0]).Replied?
                       && host(run.calls[0]).statusCode in {200, 201} && host(run.calls[0]).json.Ok?)
    ensures run.result.Restored? ==> run.result.repoUrl != ""
  {
    if cfg.mockMode then
      RestoreRun(
        Restored("Mock restore: " + backupId + " -> " + targetOrg + "/" + targetProject + "/" + targetRepoName,
                 DefaultRepoUrl(targetOrg, targetProject, targetRepoName), None),
        [])
    else
      var link := GetDownloadLink(cfg, listing, repoId, backupId, now, sign);
      if !Truthy(link) then RestoreRun(Failed(LinkMissing), [])
      else if !Truthy(cfg.pat) then RestoreRun(Failed(TokenMissing), [])
      else
        var call := CreateRepoCall(CreateRepoUrl(targetOrg, targetProject), cfg.pat.value, targetRepoName, targetProject);
        RestoreRun(CreateOutcome(host(call), targetOrg, targetProject, targetRepoName, link.value), [call])
  }

  /** Without a download link, or without an access token, the restore fails before any call
      to the hosting service, whatever that service would have answered. */
  lemma RestoreStopsEarly(cfg: Config, listing: Listing, repoId: string, backupId: string,
                          targetOrg: string, targetProject: string, targetRepoName: string,
                          visibility: string, now: Instant,
                          sign: string -> string, host: CreateRepoCall -> HostingReply, host': CreateRepoCall -> HostingReply)
    requires ValidNow(now) && !cfg.mockMode
    ensures var link := GetDownloadLink(cfg, listing, repoId, backupId, now, sign);
      var run := RestoreToAzureDevOps(cfg, listing, repoId, backupId, targetOrg, targetProject, targetRepoName, visibility, now, sign, host);
      && (!Truthy(link) ==> run == RestoreRun(Failed(LinkMissing), []))
      && (Truthy(link) && !Truthy(cfg.pat) ==> run == RestoreRun(Failed(TokenMissing), []))
      && (run.calls == [] ==>
            run == RestoreToAzureDevOps(cfg, listing, repoId, backupId, targetOrg, targetProject, targetRepoName, visibility, now, sign, host'))
  {
  }

  /** The reply to the create call decides the outcome: 409 is "already exists", any other code
      but 200 and 201 is a failure carrying the reply text, and a success carries the reply's
      web URL or, without one, the repository's default address. */
  lemma RestoreReplies(cfg: Config, listing: Listing, repoId: string, backupId: string,
                       targetOrg: string, targetProject: string, targetRepoName: string,
                       visibility: string, now: Instant,
                       sign: string -> string, host: CreateRepoCall -> HostingReply)
    requires ValidNow(now)
    ensures var run := RestoreToAzureDevOps(cfg, listing, repoId, backupId, targetOrg, targetProject, targetRepoName, visibility, now, sign, host);
      run.calls != [] ==>
        var reply := host(run.calls[0]);
        && (reply.Replied? && reply.statusCode == 409 ==>
              run.result == Failed("Repository " + targetRepoName + " already exists in " + targetProject))
        && (reply.Replied? && reply.statusCode !in {200, 201, 409} ==>
              run.result == Failed("Failed to create repository: " + reply.text))
        && (run.result.Restored? ==>
              run.result.repoUrl == if Truthy(reply.json.value.webUrl) then reply.json.value.webUrl.value
                                    else DefaultRepoUrl(targetOrg, targetProject, targetRepoName))
  {
  }

  /** The requested visibility makes no difference to a restore. */
  lemma VisibilityIgnored(cfg: Config, listing: Listing, repoId: string, backupId: string,
                          targetOrg: string, targetProject: string, targetRepoName: string,
                          visibility: string, visibility': string, now: Instant,
                          sign: string -> string, host: CreateRepoCall -> HostingReply)
    requires ValidNow(now)
    ensures RestoreToAzureDevOps(cfg, listing, repoId, backupId, targetOrg, targetProject, targetRepoName, visibility, now, sign, host)
         == RestoreToAzureDevOps(cfg, listing, repoId, backupId, targetOrg, targetProject, targetRepoName, visibility', now, sign, host)
  {
  }
}
