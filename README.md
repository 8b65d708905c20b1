# Git-backup catalogue, restore decisions and menu registry — a Dafny model

This project models the Git-backup module of an internal operations portal. Zip archives of
Azure DevOps repositories are kept in an object store under keys of the form
`{prefix}/{org}/{project}/{repo}/yyyy-MM-dd-HHmm.zip`. The backend reads these keys back and
serves the following:

- a catalogue with one entry per `org-project-repo` identity: its number of backups and its
  latest backup date;
- the versions of one repository, newest first, each with a 90-day retention expiry;
- a restore preview, a download link, and a restore into Azure DevOps that creates the target
  repository;
- a legacy status summary of the catalogue.

It also models the registry that modules add their menu definitions to at start-up.

The model follows the code module by module:

- `Strings` (`strings.dfy`): the Python `str` operations the service relies on (`strip`, `split`, `split` with a limit, `join`, `rsplit`, `endswith`, `replace`, slicing) and their round-trip lemmas
- `Dates` (`dates.dfy`): `datetime.fromisoformat` on a date, `isoformat`, and `strftime('%Y-%m-%d')` / `strftime('%H%M')` of an instant
- `BlobPath` (`blob_path.dfy`): `_parse_blob_path` and its round trip on well-formed keys
- `Catalog` (`catalog.dfy`): `_get_mock_repositories` and `list_repositories`: an imperative loop over the listing that updates an insertion-ordered dictionary, proved against a functional description of the catalogue
- `Versions` (`versions.dfy`): `list_backup_versions`, which collects in a loop and then sorts stably newest first, and `_get_mock_backup_versions`
- `Restore` (`restore.dfy`): `get_restore_preview`, `get_download_link` and the decision chain of `restore_to_azure_devops`
- `Menu` (`menu.dfy`): `MENU_REGISTRY` as a class whose list field `register_module_menu` appends to behind its key check
- `BackupsApi` (`api.dfy`): the request checks and status codes of the restore-preview, download-link and restore views, and the legacy status transform

## Inputs

- **Environment.** The environment variables become a `Catalog.Config` record:
  - `DJANGO_BACKUPS_MOCK`;
  - whether a storage client can be built;
  - `AZURE_STORAGE_PREFIX` as written;
  - `AZURE_DEVOPS_PAT`.
- **Storage listing.** The object-store listing becomes a `Catalog.Listing`. It is either the
  sequence of `(name, size, last_modified)` blobs in listing order, or a listing that raised.
- **Current time.** `datetime.utcnow()` becomes a parameter `now`: an instant in whole seconds
  since 1970-01-01 UTC.
- **External calls.** These become function parameters, so a view or service that answers
  without calling one is a view or service whose result does not depend on it:
  - the URL signing of the download link;
  - the hosting service's reply to the create-repository call;
  - the services behind the HTTP views.

## Specification functions

Several functions define what an operation computes and carry no contract of their own. The
lemmas and methods in the table below state their properties.

- `Catalog.Accept` (backend/modules/backups/services.py:162-167): the parsed path of a `.zip`
  blob, or nothing. `Catalog.AcceptWhen` states when it accepts.
- `Catalog.Summaries` (backend/modules/backups/services.py:169-189): the catalogue of a list of
  accepted paths. `Catalog.SummariesFacts`, `Catalog.SummariesCoverPaths`,
  `Catalog.SummariesDistinct` and `Catalog.SummaryOrigin` describe it.
- `Catalog.Repositories` (backend/modules/backups/services.py:139-193): the result of
  `list_repositories` for a configuration and a listing. `Catalog.ListRepositories` is proved
  equal to it, and `Catalog.RepositoriesSlashFree` is a property of it.
- `Versions.Collected` (backend/modules/backups/services.py:222-237): the records the version
  loop collects, before sorting. `Versions.CollectedExactly`, `Versions.CollectedStep` and
  `Versions.CollectedRecords` describe it.
- `Versions.VersionsOf` (backend/modules/backups/services.py:208-240): the sorted versions of
  one repository in a listing. `Versions.VersionsOfOrdered` and `Versions.ListedVersionFacts`
  describe it.
- `Versions.BackupVersions` (backend/modules/backups/services.py:196-244): the result of
  `list_backup_versions`. `Versions.ListBackupVersions` is proved equal to it, and
  `Versions.BackupVersionsNewestFirst` is a property of it.
- `Restore.MockLink` (backend/modules/backups/services.py:253): the mock download URL.
  `Restore.GetDownloadLink` returns it in mock mode.

## Model

| member | source | states |
|---|---|---|
| `BlobPath.RawSegments` | backend/modules/backups/services.py:49 | a key stripped of `/` splits into at least one segment, none holding `/` |
| `BlobPath.PathSegments` | backend/modules/backups/services.py:53-56 | the kept segments are the raw ones, less the first exactly when a prefix is set and the first segment equals it; no segment holds `/` |
| `BlobPath.DateStamp` | backend/modules/backups/services.py:72-81 | a date is set only for a file name ending in `.zip`, and it is ten characters long |
| `BlobPath.RepoAndFile` | backend/modules/backups/services.py:63-70 | one remaining segment is the repository with an empty file name; otherwise the repository is the `/`-join of all but the last segment and the file is the last |
| `BlobPath.FromSegments` | backend/modules/backups/services.py:61-89 | `org` and `project` are the first two segments; `repo` is everything between `project` and the last `/`; the date comes from the last segment; `blob_name` is the key unchanged |
| `BlobPath.ParseBlobPath` | backend/modules/backups/services.py:43-89 | the result is None exactly when the stripped key has fewer than four segments; otherwise it is `FromSegments` of the segments left after the prefix is dropped, so at least three remain |
| `BlobPath.DateStampOfStamp` | backend/modules/backups/services.py:73-81 | for a stamp without `.`, the date of `{stamp}.zip` is the stamp's first ten characters when it has ten, and None otherwise |
| `BlobPath.FromBackupSegments` | backend/modules/backups/services.py:61-89 | the segments of a backup key are read back into exactly the organisation, project, repository path and date they were built from |
| `BlobPath.ParseBackupKey` | backend/modules/backups/services.py:43-89 | round trip: parsing `{pfx}/{org}/{project}/{repo...}/{stamp}.zip` recovers org, project, the multi-segment repository path and the date, with or without a prefix |
| `BlobPath.MultiSegmentPrefixKept` | backend/modules/backups/services.py:54-56 | a prefix with an inner `/` is never dropped, so keys under it parse as if no prefix were set |
| `Strings.SplitTwiceJoin` | backend/modules/backups/services.py:209 | `split(c, 2)` of `a c b c rest` gives `[a, b, rest]` back if and only if neither `a` nor `b` holds `c` |
| `Catalog.RepoIdRoundTrip` | backend/modules/backups/services.py:209-213 | the id `org-project-repo` built at line 169 splits back into `(org, project, repo)` if and only if org and project hold no `-` |
| `Catalog.MockRepositories` | backend/modules/backups/services.py:92-119 | the mock catalogue has three entries, with the fixed data |
| `Catalog.ListPrefix` | backend/modules/backups/services.py:152-154 | the listing filter is empty without a prefix, and otherwise is the stripped prefix followed by one `/` |
| `Catalog.ListBlobs` | backend/modules/backups/services.py:161 | the listing yields exactly the blobs whose name starts with the filter, each as often as the container lists it, and no others |
| `Catalog.AcceptWhen` | backend/modules/backups/services.py:162-167 | a blob is counted if and only if its name ends in `.zip` and has at least four segments; its path keeps the blob name |
| `Catalog.SomesExactly` | backend/modules/backups/services.py:161-167 | skipping blobs keeps exactly the present results: each kept one comes from a blob, and none is dropped |
| `Catalog.AcceptedPathsExactly` | backend/modules/backups/services.py:161-167 | the paths the loop counts are exactly those of the accepted blobs |
| `Catalog.AcceptedPathsStep` | backend/modules/backups/services.py:161-167 | each further blob adds its parsed path when it is accepted, and adds nothing otherwise |
| `Catalog.Ids` | backend/modules/backups/services.py:169 | the key of every counted path, one per path, in order |
| `Catalog.FirstOccurrences` | backend/modules/backups/services.py:170-178 | the dictionary's keys are exactly the keys met |
| `Catalog.FirstOccurrencesDistinct` | backend/modules/backups/services.py:170-178 | no key is listed twice |
| `Catalog.DateOf` | backend/modules/backups/services.py:181-183 | a path's date exists only when its date string parses with `fromisoformat` |
| `Catalog.LatestDate` | backend/modules/backups/services.py:181-187 | the latest date of a key is a real calendar date |
| `Catalog.LatestDateIsMax` | backend/modules/backups/services.py:181-187 | the latest date is the date of one of the key's paths, and no path of the key has a later one; an undated or unparseable path never sets it |
| `Catalog.FirstWithIdIsFirst` | backend/modules/backups/services.py:170-178 | the entry's `org`, `project` and `repo` come from the first path with the key |
| `Catalog.StampOf` | backend/modules/backups/services.py:185 | the stored `last_backup` exists exactly when a date does, and its first ten characters parse back to that date |
| `Catalog.EntryFacts` | backend/modules/backups/services.py:170-187 | an entry's key is rebuilt from its own org, project and repo, and it counts at least one backup |
| `Catalog.SummariesFacts` | backend/modules/backups/services.py:161-189 | every catalogue entry counts exactly the accepted blobs with its key, at least one; it has a `last_backup` exactly when one of those blobs has a parseable date, and that `last_backup` reads back as their latest date |
| `Catalog.SummariesCoverPaths` | backend/modules/backups/services.py:161-189 | every accepted blob has its entry |
| `Catalog.SummariesDistinct` | backend/modules/backups/services.py:170-189 | no key has two entries |
| `Catalog.SummaryOrigin` | backend/modules/backups/services.py:170-178 | every entry is named after one of the paths it was built from |
| `Catalog.IdsAppend` | backend/modules/backups/services.py:169 | one more path adds its key at the end |
| `Catalog.LatestDateAbsent` | backend/modules/backups/services.py:177 | a key not met has no latest date |
| `Catalog.LatestDateAppend` | backend/modules/backups/services.py:181-187 | one more path moves its own key's latest date forward only when its date is later, and leaves other keys alone |
| `Catalog.FirstWithIdAppend` | backend/modules/backups/services.py:170-178 | a later path never changes an entry's names |
| `Catalog.CountAppend` | backend/modules/backups/services.py:180 | one more path adds exactly one to its own key's count and nothing to any other |
| `Catalog.EntryAppendOther` | backend/modules/backups/services.py:170-187 | one more path leaves the entries of other keys unchanged |
| `Catalog.EntryAppendKnown` | backend/modules/backups/services.py:180-187 | a path of a known key increments its count by one and keeps the later date |
| `Catalog.EntryAppendNew` | backend/modules/backups/services.py:170-180 | a path of a new key starts an entry with its names and a count of one |
| `Catalog.NewLastBackup` | backend/modules/backups/services.py:181-187 | `last_backup` either stays as it was or becomes the midnight stamp of the blob's date, and only when that date parses |
| `Catalog.NewLastBackupStep` | backend/modules/backups/services.py:181-187 | applied to a stored stamp, the update keeps the later of the stored date and the new one, because the reparse of `last_backup[:10]` never raises |
| `Catalog.EntryMap` | backend/modules/backups/services.py:158-187 | the dictionary holds exactly the keys met |
| `Catalog.EntryMapAppend` | backend/modules/backups/services.py:170-187 | one more path changes the dictionary at its own key only |
| `Catalog.EntryUpdate` | backend/modules/backups/services.py:170-187 | the loop body's create-then-count-then-date update of an entry yields the entry of the longer path list |
| `Catalog.RecordBackup` | backend/modules/backups/services.py:169-187 | one loop iteration keeps the invariant: the dictionary and its key order describe exactly the paths seen so far |
| `Catalog.DictValues` | backend/modules/backups/services.py:189 | `list(values())` follows the key order |
| `Catalog.DictValuesTracks` | backend/modules/backups/services.py:189 | the returned values are the catalogue of the paths seen |
| `Catalog.AcceptedSlashFree` | backend/modules/backups/services.py:49-62 | an accepted blob's organisation and project hold no `/` |
| `Catalog.RepositoriesSlashFree` | backend/modules/backups/services.py:139-189 | no catalogue entry names an organisation or project holding `/` |
| `Catalog.ListRepositories` | backend/modules/backups/services.py:139-193 | returns the mock catalogue in mock mode; nothing without a client or when the listing raises; otherwise the catalogue of the accepted blobs under the prefix |
| `Versions.Insert` | backend/modules/backups/services.py:240 | insertion changes no record: the result is a permutation of the input plus the new one |
| `Versions.SortNewestFirst` | backend/modules/backups/services.py:240 | the sort is a permutation of the listing |
| `Versions.InsertNewestFirst` | backend/modules/backups/services.py:240 | insertion keeps a newest-first list newest first |
| `Versions.SortIsNewestFirst` | backend/modules/backups/services.py:240 | the sorted versions are newest first |
| `Versions.InsertStable` | backend/modules/backups/services.py:240 | an inserted version goes ahead of those with its own timestamp and passes only newer ones |
| `Versions.SortIsStable` | backend/modules/backups/services.py:240 | versions of equal timestamp keep their listing order |
| `Versions.VersionPrefix` | backend/modules/backups/services.py:215-216 | the version listing prefix is `{prefix}/{org}/{project}/{repo}/`, or the same without the prefix |
| `Versions.MakeVersion` | backend/modules/backups/services.py:230-237 | id is `{repo_id}-{date_str}`; the timestamp is last-modified or now; the size is the blob size or 0; retention is last-modified plus 90 days, or None without it; blob path is the name |
| `Versions.VersionIdsPerDay` | backend/modules/backups/services.py:231 | two versions share an id exactly when they carry the same date string, so the backups of one day share one id |
| `Versions.VersionResults` | backend/modules/backups/services.py:222-237 | each listed blob yields a record exactly when the catalogue loop would accept it |
| `Versions.CollectedExactly` | backend/modules/backups/services.py:222-237 | the collected versions are exactly the records of the accepted blobs |
| `Versions.CollectedStep` | backend/modules/backups/services.py:222-237 | each further blob appends its record when it is accepted |
| `Versions.CollectedRecords` | backend/modules/backups/services.py:222-237 | every collected version has the path and size of a `.zip` blob of the listing, is stamped with its last-modified time (or `now` without one) and expires 90 days after that last-modified time, or never |
| `Versions.VersionsOfOrdered` | backend/modules/backups/services.py:208-240 | the result is empty for an id with fewer than three parts; otherwise it is newest first, a permutation of the collected records, and stable on equal timestamps |
| `Versions.ListedVersionFacts` | backend/modules/backups/services.py:222-240 | every listed version comes from a `.zip` blob of the listing, with that blob's size or 0, its last-modified time (or `now`) as timestamp, and retention exactly 90 days after last-modified or None |
| `Versions.BackupVersionsNewestFirst` | backend/modules/backups/services.py:196-240 | every version listing is newest first, the mock one included |
| `Versions.ListBackupVersions` | backend/modules/backups/services.py:196-244 | returns the mock versions in mock mode; nothing without a client or when the listing raises; otherwise the versions under the repository's prefix, sorted |
| `Versions.MockVersions` | backend/modules/backups/services.py:126 | there are ten mock versions |
| `Versions.MockBackupVersions` | backend/modules/backups/services.py:122-136 | the loop appends the `i`-th version, taken `i` days before now, for `i` in `range(10)` |
| `Versions.MockVersionsOrdered` | backend/modules/backups/services.py:126-133 | the mock versions are newest first, exactly one day apart, and each expires 90 days after it was taken |
| `Versions.MockPathParses` | backend/modules/backups/services.py:134 | a mock blob path parses to `myorg/project/repo` with the day as its date |
| `Versions.MockBlobPathParses` | backend/modules/backups/services.py:129-134 | each mock version id ends in its day, and its blob path parses back to that day |
| `Dates.ParseIsoDate` | backend/modules/backups/services.py:183 | a parsed date is a real calendar date written in ten characters |
| `Dates.StampRoundTrip` | backend/modules/backups/services.py:184-185 | the stored `isoformat() + "Z"` stamp's first ten characters parse back to the same date |
| `Dates.BeforeTotal` | backend/modules/backups/services.py:184 | the date comparison is a strict total order |
| `Dates.FormatYmd` | backend/modules/backups/services.py:129 | `%Y-%m-%d` has ten characters and no `/` or `.` |
| `Dates.FormatHm` | backend/modules/backups/services.py:134 | `%H%M` is four digits |
| `Restore.FindVersion` | backend/modules/backups/services.py:395 | the result is the first version with the id, and None if and only if no version has it |
| `Restore.FoundIsNewest` | backend/modules/backups/services.py:395 | in a newest-first listing the backup found for an id is the newest with that id |
| `Restore.GetRestorePreview` | backend/modules/backups/services.py:392-413 | returns "Backup not found" exactly when the id is not listed, and "Invalid repository ID" exactly when the id is listed but the repo id has fewer than three parts; otherwise the source fields are the split repo id, the suggested name is the source repo, and the timestamp and size are the backup's |
| `Restore.PreviewNamesSource` | backend/modules/backups/services.py:400-413 | for an id made from an org and project without `-`, a found backup's preview names that very repository and suggests its name |
| `Restore.InvalidIdOnlyInMockMode` | backend/modules/backups/services.py:392-402 | for a short repo id, "Invalid repository ID" occurs if and only if mock mode is on and a mock backup matches; elsewhere the empty listing reports "Backup not found" |
| `Restore.GetDownloadLink` | backend/modules/backups/services.py:247-267 | gives the mock link in mock mode; otherwise a link exists exactly when there is a client, the backup is listed and its blob path is non-empty, and the link signs that path |
| `Restore.ListedBackupHasLink` | backend/modules/backups/services.py:258-267 | with a client and a successful listing, every listed backup has a link: the empty blob-path guard never fires |
| `Restore.DefaultRepoUrl` | backend/modules/backups/services.py:381 | the fallback repository URL is never empty |
| `Restore.CreateOutcome` | backend/modules/backups/services.py:359-389 | success if and only if the reply is 200 or 201 and its body parses; 409 gives "already exists"; any other code gives "Failed to create repository" with the text; on success the URL is `webUrl` or the default |
| `Restore.RestoreToAzureDevOps` | backend/modules/backups/services.py:310-389 | one create call is made exactly when mock mode is off and both the link and the token are set, and its arguments are the targets; success holds exactly in mock mode or on a 200/201 parsed reply; success always carries a non-empty repository URL |
| `Restore.RestoreStopsEarly` | backend/modules/backups/services.py:329-343 | without a link, or without a token, the restore fails with the source's message before any call, whatever the hosting service would answer |
| `Restore.RestoreReplies` | backend/modules/backups/services.py:359-384 | after the call, 409 is "already exists", other non-200/201 codes carry the reply text, and success carries `webUrl` or the default URL |
| `Restore.VisibilityIgnored` | backend/modules/backups/services.py:310-317 | the requested visibility does not change the result |
| `Menu.RequiredKeysOnly` | backend/core/menu.py:22-23 | the check is passed exactly by definitions holding `id`, `title` and `routes`; extra keys never make it fail |
| `Menu.Accepted` | backend/core/menu.py:22-26 | never more definitions are registered than were offered |
| `Menu.AcceptedExactly` | backend/core/menu.py:22-26 | a definition ends up registered if and only if it was offered and has the required keys |
| `Menu.MenuRegistry.constructor` | backend/core/menu.py:3 | the registry starts empty |
| `Menu.MenuRegistry.RegisterModuleMenu` | backend/core/menu.py:6-26 | a definition lacking a key raises "Menu definition missing required keys" and leaves the list unchanged; any other is appended at the end with earlier entries untouched; the list stays the accepted subsequence of all offers |
| `Menu.MenuRegistry.GetRegisteredMenus` | backend/core/menu.py:29-30 | returns the accepted definitions in registration order, each with the required keys |
| `BackupsApi.PreviewPost` | backend/modules/backups/api.py:42-53 | a missing or empty `backup_id` gives 400; a preview error gives 404 with that error; otherwise 200 with the preview |
| `BackupsApi.PreviewStatus` | backend/modules/backups/api.py:42-53 | against the preview service: 200 if and only if a backup id is given, the backup is listed and the repo id has three parts; a 404 names one of the two service errors |
| `BackupsApi.DownloadPost` | backend/modules/backups/api.py:61-75 | a missing `backup_id` gives 400; a None or empty link gives 500; otherwise 200 with the link |
| `BackupsApi.DownloadStatus` | backend/modules/backups/api.py:61-75 | against the link service with a client, a listing and a signer that never returns an empty URL: 200 if and only if a backup id is given and the backup is listed or mock mode is on |
| `BackupsApi.RestoreRequestOf` | backend/modules/backups/api.py:84-105 | a request is formed if and only if the four required fields are non-empty; it carries them, and the visibility defaults to `private` |
| `BackupsApi.RestorePost` | backend/modules/backups/api.py:83-110 | an incomplete body gives 400; otherwise the service's result is returned with 400 if and only if its status is `error`, and 200 otherwise |
| `BackupsApi.RestoreRefusesIncompleteBody` | backend/modules/backups/api.py:90-96 | an incomplete body gets the same 400 response whatever the restore service is, so the service is never asked |
| `BackupsApi.RestoreStatus` | backend/modules/backups/api.py:98-110 | against the restore service: in mock mode a complete body gets 200; outside mock mode without a token every body gets 400 |
| `BackupsApi.GitBackupStatus` | backend/modules/backups/api.py:117-136 | monitored and healthy both equal the number of repositories; failing is 0; last run is the first repository's `last_backup`, or None; entries map one-to-one and in order to `org/project/repo` with the entry's `last_backup` |
| `BackupsApi.GitBackupStatusGet` | backend/modules/backups/api.py:117-120 | the legacy view always answers 200, and its body is the legacy summary of the repositories it is given |
| `BackupsApi.LegacyNameRoundTrip` | backend/modules/backups/api.py:129 | a legacy name splits back with `split("/", 2)` into org, project and repo if and only if org and project hold no `/` |
| `BackupsApi.LegacyNamesIdentifyRepositories` | backend/modules/backups/api.py:118-135 | every legacy name of the real catalogue splits back into its entry's org, project and repo, even when the repository path has several segments |

## Left out

- Azure SDK client construction and credential selection (backend/modules/backups/services.py:24-40) are left out. Whether a client exists is the `storageConfigured` flag, and the listing is an input.
- The container name is not modelled, because the listing input already belongs to one container.
- SAS generation, connection-string parsing, `quote` and the fallback blob URL in `get_download_link` (backend/modules/backups/services.py:269-307) are left out. They are the `sign` parameter, and the account-key, managed-identity and exception paths are not told apart.
- The HTTP request of `restore_to_azure_devops` is reduced to the recorded create call and the hosting reply. Left out are its URL payload, the base64 `Authorization` header, the 30-second timeout and the `requests` import.
- The `except` branch that turns any exception into "Restore failed" is modelled for the POST raising and for the body failing to parse. Exceptions from other statements are not modelled.
- `size_mb` (backend/modules/backups/services.py:132, 234) is not modelled, because it is floating-point rounding; sizes stay in bytes. The preview reports `backup_size_mb`; the model keeps the backup's byte size instead.
- `Versions.SortNewestFirst`: sorts on the instant. The source compares the `isoformat()` strings, which agree with instant order only while all timestamps share one rendering. A blob without last-modified is stamped `...Z`, other blobs `+00:00`, and that string order is not captured.
- `Versions.ListBackupVersions`: one `now` is used for every blob without a last-modified time. The source calls `utcnow()` once per such blob.
- The in-place Timsort of `versions.sort` is modelled as a functional stable insertion sort with the same result. In-place update and aliasing of the list are not captured.
- `Versions.ListBackupVersions`, `Versions.MockBackupVersions`, `Restore.GetRestorePreview`, `Restore.GetDownloadLink` and `Restore.RestoreToAzureDevOps` require `now` to lie at least nine days after 0001-01-01. Python's date arithmetic on `now` raises `OverflowError` earlier only in mock mode (backend/modules/backups/services.py:124-133). On the other paths no arithmetic is done on `now` outside the signing step that `sign` stands for, and there the requirement is only a modelling convenience. It lets every path go through the one version-listing function.
- `Versions.MakeVersion` and `Versions.MockVersions`: a retention expiry past year 9999 makes Python raise `OverflowError`. In the listing, the `except` at backend/modules/backups/services.py:242-244 then returns `[]` for the whole listing. In mock mode the error propagates. The model adds the 90 days without that bound, so these cases are not captured.
- Instants are whole seconds. Microseconds and the `isoformat()` text of timestamps and retention dates are not modelled.
- `Dates.FormatYmd`: four-digit year padding matches `strftime` only for years 1000 to 9999.
- `fromisoformat` is modelled on the strict `yyyy-MM-dd` form. Under the model's `ParseIsoDate`, a date string of another form reads as unparseable. Python 3.11 accepts a few further ten-character forms, such as `yyyyMMdd` with padding or week dates, and those are not modelled.
- The exception handlers that print and return `[]` are one failure branch, `ListingFailed`, and the printed text is dropped. A listing that raises part-way returns nothing, as in the source.
- `get_registered_menus` returns the module-level list itself, so a caller can mutate the registry through it. That aliasing is not modelled: the function returns the value of the list.
- Request bodies are modelled as string-valued fields. JSON values of other types, such as numbers, lists or booleans, are not modelled.
- `RepositoriesListView` and `BackupVersionsView` (backend/modules/backups/api.py:17-34) are not modelled. They return the service result unchanged.
- Permissions, URL routing and the `apps.py` registrations are framework glue. backend/core/permissions.py always allows, and is not part of this model.

