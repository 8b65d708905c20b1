/** The repository catalogue: `list_repositories` folds the storage listing into one summary per
    `org-project-repo` identity, counting its backups and keeping its latest backup date. */
module Catalog {
  import opened Wrappers
  import opened Strings
  import opened Dates
  import opened BlobPath

  /** The environment the services read: `DJANGO_BACKUPS_MOCK`, whether a storage client can be
      built (the SDK is installed and an account name or connection string is set),
      `AZURE_STORAGE_PREFIX` as written, and `AZURE_DEVOPS_PAT`. */
  datatype Config = Config(
    mockMode: bool,
    storageConfigured: bool,
    prefixSetting: string,
    pat: Option<string>)

  /** A blob as the listing reports it: name, size in bytes and last-modified instant. */
  datatype Blob = Blob(name: string, size: Option<nat>, lastModified: Option<Instant>)

  /** The container's contents, or a listing that raised part-way. */
  datatype Listing = Listed(blobs: seq<Blob>) | ListingFailed

  /** One entry of the catalogue. `lastBackup` is the stored text, as the mock data and the
      aggregation write it. */
  datatype RepoSummary = RepoSummary(
    id: string,
    org: string,
    project: string,
    repo: string,
    backupCount: nat,
    lastBackup: Option<string>)

  /** The catalogue key `f"{org}-{project}-{repo}"`. */
  function RepoId(org: string, project: string, repo: string): string
  {
    org + "-" + project + "-" + repo
  }

  function IdOf(p: ParsedPath): string
  {
    RepoId(p.org, p.project, p.repo)
  }

  /** `split("-", 2)` of an id gives back the organisation, the project and the repository
      exactly when neither the organisation nor the project holds a `-`; otherwise the first
      `-` inside them is taken for a separator. */
  lemma RepoIdRoundTrip(org: string, project: string, repo: string)
    ensures SplitN(RepoId(org, project, repo), '-', 2) == [org, project, repo]
        <==> '-' !in org && '-' !in project
  {
    assert RepoId(org, project, repo) == org + ['-'] + project + ['-'] + repo;
    SplitTwiceJoin(org, project, repo, '-');
  }

  /** The fixed catalogue served in mock mode. */
  function MockRepositories(): (repos: seq<RepoSummary>)
    ensures |repos| == 3
  {
    [ RepoSummary("org1-project1-repo1", "myorg", "ProjectAlpha", "infra-terraform", 45, Some("2025-01-15T14:30:00Z")),
      RepoSummary("org1-project1-repo2", "myorg", "ProjectAlpha", "core-app", 42, Some("2025-01-15T12:00:00Z")),
      RepoSummary("org1-project2-repo1", "myorg", "ProjectBeta", "api-service", 38, Some("2025-01-14T18:00:00Z")) ]
  }

  /** The `name_starts_with` filter of the catalogue listing: the prefix stripped of `/` and
      followed by one `/`, or nothing when no prefix is configured. */
  function ListPrefix(prefixSetting: string): (p: string)
    ensures PrefixSegment(prefixSetting) == "" ==> p == ""
    ensures PrefixSegment(prefixSetting) != "" ==> p == PrefixSegment(prefixSetting) + "/"
  {
    var pfx := PrefixSegment(prefixSetting);
    if pfx != "" then pfx + "/" else ""
  }

  /** The storage side of `list_blobs(name_starts_with=...)`: the blobs whose name starts with
      the filter, in listing order. */
  function ListBlobs(blobs: seq<Blob>, startsWith: string): (r: seq<Blob>)
    ensures |r| <= |blobs|
    ensures forall b :: b in r <==> b in blobs && StartsWith(b.name, startsWith)
    ensures forall b :: multiset(r)[b] == if StartsWith(b.name, startsWith) then multiset(blobs)[b] else 0
  {
    if blobs == [] then []
    else
      var rest := ListBlobs(blobs[1..], startsWith);
      assert blobs == [blobs[0]] + blobs[1..];
      assert multiset(blobs) == multiset{blobs[0]} + multiset(blobs[1..]);
      if StartsWith(blobs[0].name, startsWith) then [blobs[0]] + rest else rest
  }

  /** What the aggregation makes of one blob: the parsed path of a `.zip` blob the parser
      accepts, nothing otherwise. */
  function Accept(b: Blob, prefixSetting: string): Option<ParsedPath>
  {
    if !EndsWith(b.name, ".zip") then None else ParseBlobPath(b.name, prefixSetting)
  }

  /** A blob is counted exactly when its name ends in `.zip` and has at least four segments;
      its path then records the blob's name. */
  lemma AcceptWhen(b: Blob, prefixSetting: string)
    ensures Accept(b, prefixSetting).Some? <==> EndsWith(b.name, ".zip") && |RawSegments(b.name)| >= 4
    ensures Accept(b, prefixSetting).Some? ==> Accept(b, prefixSetting).value.blobName == b.name
  {
  }

  /** The values of the present options, in order. */
  function Somes<T>(opts: seq<Option<T>>): (vs: seq<T>)
    ensures |vs| <= |opts|
  {
    if opts == [] then []
    else
      var vs := Somes(opts[..|opts| - 1]);
      match opts[|opts| - 1]
      case None => vs
      case Some(v) => vs + [v]
  }

  /** `Somes` keeps exactly the present values: each comes from some option, and no present
      option is dropped. */
  lemma {:induction false} SomesExactly<T>(opts: seq<Option<T>>)
    ensures forall v :: v in Somes(opts) ==> exists i :: 0 <= i < |opts| && opts[i] == Some(v)
    ensures forall i :: 0 <= i < |opts| && opts[i].Some? ==> opts[i].value in Somes(opts)
  {
    if opts != [] {
      var init := opts[..|opts| - 1];
      SomesExactly(init);
      assert forall i :: 0 <= i < |init| ==> init[i] == opts[i];
    }
  }

  /** What the aggregation makes of each listed blob. */
  function AcceptResults(blobs: seq<Blob>, prefixSetting: string): (r: seq<Option<ParsedPath>>)
    ensures |r| == |blobs|
    ensures forall i :: 0 <= i < |blobs| ==> r[i] == Accept(blobs[i], prefixSetting)
  {
    seq(|blobs|, i requires 0 <= i < |blobs| => Accept(blobs[i], prefixSetting))
  }

  /** The parsed paths of the accepted blobs, in listing order. */
  function AcceptedPaths(blobs: seq<Blob>, prefixSetting: string): (ps: seq<ParsedPath>)
    ensures |ps| <= |blobs|
  {
    Somes(AcceptResults(blobs, prefixSetting))
  }

  /** The accepted paths are exactly what the accepted blobs parse to: nothing else is counted
      and no accepted blob is skipped. */
  lemma AcceptedPathsExactly(blobs: seq<Blob>, prefixSetting: string)
    ensures forall p :: p in AcceptedPaths(blobs, prefixSetting) ==>
      exists i :: 0 <= i < |blobs| && Accept(blobs[i], prefixSetting) == Some(p)
    ensures forall i :: 0 <= i < |blobs| && Accept(blobs[i], prefixSetting).Some? ==>
      Accept(blobs[i], prefixSetting).value in AcceptedPaths(blobs, prefixSetting)
  {
    SomesExactly(AcceptResults(blobs, prefixSetting));
  }

  /** The catalogue keys of parsed paths, in order. */
  function Ids(ps: seq<ParsedPath>): (ids: seq<string>)
    ensures |ids| == |ps|
    ensures forall k :: 0 <= k < |ps| ==> ids[k] == IdOf(ps[k])
  {
    if ps == [] then [] else Ids(ps[..|ps| - 1]) + [IdOf(ps[|ps| - 1])]
  }

  /** The distinct keys in order of first occurrence: the key order of an insertion-ordered
      dictionary filled from `ids`. */
  function FirstOccurrences(ids: seq<string>): (r: seq<string>)
    ensures forall x :: x in r <==> x in ids
  {
    if ids == [] then []
    else
      var init := ids[..|ids| - 1];
      var prev := FirstOccurrences(init);
      assert forall x :: x in ids <==> x in init || x == ids[|ids| - 1];
      if ids[|ids| - 1] in prev then prev else prev + [ids[|ids| - 1]]
  }

  /** No key is listed twice. */
  lemma {:induction false} FirstOccurrencesDistinct(ids: seq<string>)
    ensures forall i, j :: 0 <= i < j < |FirstOccurrences(ids)| ==> FirstOccurrences(ids)[i] != FirstOccurrences(ids)[j]
  {
    if ids != [] {
      FirstOccurrencesDistinct(ids[..|ids| - 1]);
    }
  }

  /** The date a parsed path carries, when its date string is a real `yyyy-MM-dd` date. */
  function DateOf(p: ParsedPath): (d: Option<Date>)
    ensures d.Some? ==> p.dateStr.Some? && ParseIsoDate(p.dateStr.value) == d
  {
    if p.dateStr.Some? then ParseIsoDate(p.dateStr.value) else None
  }

  /** The latest date among the paths with key `id`, or `None` when none of them has one. */
  function LatestDate(ps: seq<ParsedPath>, id: string): (r: Option<Date>)
    ensures r.Some? ==> ValidDate(r.value)
  {
    if ps == [] then None
    else
      var p := ps[|ps| - 1];
      var prev := LatestDate(ps[..|ps| - 1], id);
      if IdOf(p) == id && DateOf(p).Some? && (prev.None? || Before(prev.value, DateOf(p).value))
      then DateOf(p)
      else prev
  }

  /** `LatestDate` is the maximum: it is the date of some path with the key, and no path with
      the key has a later one. */
  lemma {:induction false} LatestDateIsMax(ps: seq<ParsedPath>, id: string)
    ensures LatestDate(ps, id).Some? ==>
      exists k :: 0 <= k < |ps| && IdOf(ps[k]) == id && DateOf(ps[k]) == LatestDate(ps, id)
    ensures forall k :: 0 <= k < |ps| && IdOf(ps[k]) == id && DateOf(ps[k]).Some? ==>
      LatestDate(ps, id).Some? && !Before(LatestDate(ps, id).value, DateOf(ps[k]).value)
  {
    if ps != [] {
      var init := ps[..|ps| - 1];
      LatestDateIsMax(init, id);
      assert forall k :: 0 <= k < |init| ==> ps[k] == init[k];
    }
  }

  /** The first path with key `id`: it fixes the entry's `org`, `project` and `repo`. */
  function FirstWithId(ps: seq<ParsedPath>, id: string): (p: ParsedPath)
    requires id in Ids(ps)
  {
    var init := ps[..|ps| - 1];
    assert Ids(ps) == Ids(init) + [IdOf(ps[|ps| - 1])];
    if id in Ids(init) then FirstWithId(init, id) else ps[|ps| - 1]
  }

  /** `FirstWithId` is the earliest path with the key. */
  lemma {:induction false} FirstWithIdIsFirst(ps: seq<ParsedPath>, id: string)
    requires id in Ids(ps)
    ensures exists k ::
      0 <= k < |ps| && ps[k] == FirstWithId(ps, id) && forall j :: 0 <= j < k ==> IdOf(ps[j]) != id
    ensures IdOf(FirstWithId(ps, id)) == id
  {
    var init := ps[..|ps| - 1];
    assert Ids(ps) == Ids(init) + [IdOf(ps[|ps| - 1])];
    assert forall k :: 0 <= k < |init| ==> ps[k] == init[k];
    if id in Ids(init) {
      FirstWithIdIsFirst(init, id);
    } else {
      assert forall j :: 0 <= j < |init| ==> IdOf(ps[j]) == Ids(init)[j];
    }
  }

  /** The stored form of an optional date. */
  function StampOf(d: Option<Date>): (s: Option<string>)
    requires d.Some? ==> ValidDate(d.value)
    ensures s.Some? <==> d.Some?
    ensures s.Some? ==> ParseIsoDate(Take(s.value, 10)) == d
  {
    match d
    case None => None
    case Some(date) => StampRoundTrip(date); Some(MidnightStamp(date))
  }

  /** The catalogue entry the paths `ps` give key `id`. */
  function Entry(ps: seq<ParsedPath>, id: string): RepoSummary
    requires id in Ids(ps)
  {
    var first := FirstWithId(ps, id);
    RepoSummary(id, first.org, first.project, first.repo, multiset(Ids(ps))[id], StampOf(LatestDate(ps, id)))
  }

  /** The catalogue of the paths `ps`: one entry per key, keys in order of first occurrence. */
  function Summaries(ps: seq<ParsedPath>): (repos: seq<RepoSummary>)
  {
    var order := FirstOccurrences(Ids(ps));
    seq(|order|, k requires 0 <= k < |order| => Entry(ps, order[k]))
  }

  /** What an entry of the catalogue of the paths `ps` says: its key is made of its own
      organisation, project and repository; it counts every path with that key, at least one;
      and its `last_backup` reads back as the latest date among them. */
  ghost predicate Describes(ps: seq<ParsedPath>, r: RepoSummary)
  {
    && r.id == RepoId(r.org, r.project, r.repo)
    && r.backupCount == multiset(Ids(ps))[r.id] >= 1
    && (r.lastBackup.Some? <==> LatestDate(ps, r.id).Some?)
    && (r.lastBackup.Some? ==> ParseIsoDate(Take(r.lastBackup.value, 10)) == LatestDate(ps, r.id))
  }

  lemma EntryFacts(ps: seq<ParsedPath>, id: string)
    requires id in Ids(ps)
    ensures Entry(ps, id).id == id
    ensures Describes(ps, Entry(ps, id))
  {
    FirstWithIdIsFirst(ps, id);
  }

  /** Every entry of the catalogue says what `Describes` states. */
  lemma SummariesFacts(ps: seq<ParsedPath>)
    ensures forall r :: r in Summaries(ps) ==> Describes(ps, r)
  {
    var order := FirstOccurrences(Ids(ps));
    var repos := Summaries(ps);
    forall k | 0 <= k < |repos|
      ensures Describes(ps, repos[k])
    {
      assert order[k] in Ids(ps);
      EntryFacts(ps, order[k]);
    }
  }

  /** Every path has an entry in the catalogue. */
  lemma SummariesCoverPaths(ps: seq<ParsedPath>)
    ensures forall p :: p in ps ==> exists r :: r in Summaries(ps) && r.id == IdOf(p)
  {
    var order := FirstOccurrences(Ids(ps));
    var repos := Summaries(ps);
    forall p | p in ps
      ensures exists r :: r in repos && r.id == IdOf(p)
    {
      var k :| 0 <= k < |ps| && ps[k] == p;
      assert Ids(ps)[k] == IdOf(p);
      assert IdOf(p) in order;
      var j :| 0 <= j < |order| && order[j] == IdOf(p);
      assert repos[j] in repos;
    }
  }

  /** No key has two entries in the catalogue. */
  lemma SummariesDistinct(ps: seq<ParsedPath>)
    ensures forall i, j :: 0 <= i < j < |Summaries(ps)| ==> Summaries(ps)[i].id != Summaries(ps)[j].id
  {
    FirstOccurrencesDistinct(Ids(ps));
  }

  lemma IdsAppend(ps: seq<ParsedPath>, p: ParsedPath)
    ensures Ids(ps + [p]) == Ids(ps) + [IdOf(p)]
    ensures (Ids(ps) + [IdOf(p)])[..|ps|] == Ids(ps)
  {
    assert (ps + [p])[..|ps|] == ps;
  }

  /** A key that does not occur has no latest date. */
  lemma LatestDateAbsent(ps: seq<ParsedPath>, id: string)
    requires id !in Ids(ps)
    ensures LatestDate(ps, id) == None
  {
    LatestDateIsMax(ps, id);
  }

  /** One more path moves the latest date of its own key forward when its date is later, and
      leaves every other key's latest date alone. */
  lemma LatestDateAppend(ps: seq<ParsedPath>, p: ParsedPath, id: string)
    ensures LatestDate(ps + [p], id) ==
      var prev := LatestDate(ps, id);
      if IdOf(p) == id && DateOf(p).Some? && (prev.None? || Before(prev.value, DateOf(p).value))
      then DateOf(p) else prev
  {
    assert (ps + [p])[..|ps|] == ps;
  }

  lemma FirstWithIdAppend(ps: seq<ParsedPath>, p: ParsedPath, id: string)
    requires id in Ids(ps)
    ensures id in Ids(ps + [p])
    ensures FirstWithId(ps + [p], id) == FirstWithId(ps, id)
  {
    IdsAppend(ps, p);
  }

  lemma CountAppend(ps: seq<ParsedPath>, p: ParsedPath, id: string)
    ensures multiset(Ids(ps + [p]))[id] == multiset(Ids(ps))[id] + if id == IdOf(p) then 1 else 0
  {
    IdsAppend(ps, p);
    assert multiset(Ids(ps + [p])) == multiset(Ids(ps)) + multiset{IdOf(p)};
  }

  /** Appending a path leaves the entries of the other keys as they were. */
  lemma EntryAppendOther(ps: seq<ParsedPath>, p: ParsedPath, id: string)
    requires id in Ids(ps) && id != IdOf(p)
    ensures id in Ids(ps + [p])
    ensures Entry(ps + [p], id) == Entry(ps, id)
  {
    FirstWithIdAppend(ps, p, id);
    CountAppend(ps, p, id);
    LatestDateAppend(ps, p, id);
  }

  /** Appending a path of a known key counts it once more and keeps the later date. */
  lemma EntryAppendKnown(ps: seq<ParsedPath>, p: ParsedPath)
    requires IdOf(p) in Ids(ps)
    ensures IdOf(p) in Ids(ps + [p])
    ensures Entry(ps + [p], IdOf(p)) ==
      var e := Entry(ps, IdOf(p));
      e.(backupCount := e.backupCount + 1, lastBackup := StampOf(LatestDate(ps + [p], IdOf(p))))
  {
    FirstWithIdAppend(ps, p, IdOf(p));
    CountAppend(ps, p, IdOf(p));
  }

  /** Appending a path of a new key starts its entry from that path, with a count of one. */
  lemma EntryAppendNew(ps: seq<ParsedPath>, p: ParsedPath)
    requires IdOf(p) !in Ids(ps)
    ensures IdOf(p) in Ids(ps + [p])
    ensures Entry(ps + [p], IdOf(p)) ==
      RepoSummary(IdOf(p), p.org, p.project, p.repo, 1, StampOf(LatestDate(ps + [p], IdOf(p))))
  {
    IdsAppend(ps, p);
    CountAppend(ps, p, IdOf(p));
    assert multiset(Ids(ps))[IdOf(p)] == 0;
  }

  /** The `last_backup` an entry holds after one more backup with date string `dateStr`: the
      date, stored as its midnight stamp, when it parses and is later than the stored one; the
      stored value otherwise, also when either parse raises. A date string is either `None` or
      ten characters long, so its truthiness is `Some?`. */
  function NewLastBackup(last: Option<string>, dateStr: Option<string>): (r: Option<string>)
    ensures r == last || (dateStr.Some? && ParseIsoDate(dateStr.value).Some?)
    ensures r != last ==>
              && dateStr.Some? && ParseIsoDate(dateStr.value).Some?
              && r == Some(MidnightStamp(ParseIsoDate(dateStr.value).value))
  {
    if dateStr.None? then last
    else
      match ParseIsoDate(dateStr.value)
      case None => last
      case Some(backupDate) =>
        if last.None? then Some(MidnightStamp(backupDate))
        else
          match ParseIsoDate(Take(last.value, 10))
          case None => last
          case Some(stored) => if Before(stored, backupDate) then Some(MidnightStamp(backupDate)) else last
  }

  /** On a stored stamp, `NewLastBackup` keeps the later of the stored date and the new one:
      the re-parse of the stamp's first ten characters never raises. */
  lemma NewLastBackupStep(prev: Option<Date>, p: ParsedPath)
    requires prev.Some? ==> ValidDate(prev.value)
    ensures NewLastBackup(StampOf(prev), p.dateStr) ==
      StampOf(if DateOf(p).Some? && (prev.None? || Before(prev.value, DateOf(p).value)) then DateOf(p) else prev)
  {
  }

  /** The dictionary the aggregation builds from the paths `ps`: each key with its entry. */
  function EntryMap(ps: seq<ParsedPath>): (m: map<string, RepoSummary>)
    ensures forall id :: id in m <==> id in Ids(ps)
  {
    map id | id in Ids(ps) :: Entry(ps, id)
  }

  /** One more path changes the dictionary at its own key only. */
  lemma EntryMapAppend(ps: seq<ParsedPath>, p: ParsedPath)
    ensures IdOf(p) in Ids(ps + [p])
    ensures EntryMap(ps + [p]) == EntryMap(ps)[IdOf(p) := Entry(ps + [p], IdOf(p))]
  {
    IdsAppend(ps, p);
    var m1 := EntryMap(ps + [p]);
    var m2 := EntryMap(ps)[IdOf(p) := Entry(ps + [p], IdOf(p))];
    forall id | id in m1 || id in m2 ensures id in m1 && id in m2 && m1[id] == m2[id] {
      assert id in Ids(ps + [p]);
      if id != IdOf(p) {
        EntryAppendOther(ps, p, id);
      }
    }
  }

  /** The loop body's update of one entry: created with a count of zero when the key is new,
      then counted and given the later date, it is the entry of the longer path list. */
  lemma EntryUpdate(ps: seq<ParsedPath>, p: ParsedPath, e: RepoSummary)
    requires IdOf(p) in Ids(ps) ==> e == Entry(ps, IdOf(p))
    requires IdOf(p) !in Ids(ps) ==> e == RepoSummary(IdOf(p), p.org, p.project, p.repo, 0, None)
    ensures IdOf(p) in Ids(ps + [p])
    ensures e.(backupCount := e.backupCount + 1, lastBackup := NewLastBackup(e.lastBackup, p.dateStr))
         == Entry(ps + [p], IdOf(p))
  {
    LatestDateAppend(ps, p, IdOf(p));
    if IdOf(p) in Ids(ps) {
      NewLastBackupStep(LatestDate(ps, IdOf(p)), p);
      EntryAppendKnown(ps, p);
    } else {
      LatestDateAbsent(ps, IdOf(p));
      NewLastBackupStep(None, p);
      EntryAppendNew(ps, p);
    }
  }

  /** The state of the aggregation after the paths `ps`: the dictionary holds exactly their
      keys, each with its catalogue entry, and its key order is their first-occurrence order. */
  ghost predicate Tracks(reposMap: map<string, RepoSummary>, order: seq<string>, ps: seq<ParsedPath>)
  {
    order == FirstOccurrences(Ids(ps)) && reposMap == EntryMap(ps)
  }

  /** One accepted blob of the aggregation loop: its entry is created with a count of zero on
      first sight, then counted, and its date considered for `last_backup`. */
  method RecordBackup(reposMap: map<string, RepoSummary>, order: seq<string>, ghost ps: seq<ParsedPath>, p: ParsedPath)
    returns (newMap: map<string, RepoSummary>, newOrder: seq<string>)
    requires Tracks(reposMap, order, ps)
    ensures Tracks(newMap, newOrder, ps + [p])
  {
    newMap, newOrder := reposMap, order;
    var repoId := RepoId(p.org, p.project, p.repo);
    assert repoId == IdOf(p);
    IdsAppend(ps, p);
    assert repoId in reposMap <==> repoId in Ids(ps);
    if repoId !in newMap {
      newMap := newMap[repoId := RepoSummary(repoId, p.org, p.project, p.repo, 0, None)];
      newOrder := newOrder + [repoId];
    }
    var entry := newMap[repoId];
    EntryUpdate(ps, p, entry);
    entry := entry.(backupCount := entry.backupCount + 1, lastBackup := NewLastBackup(entry.lastBackup, p.dateStr));
    newMap := newMap[repoId := entry];
    assert newMap == reposMap[repoId := entry];
    EntryMapAppend(ps, p);
    assert newOrder == FirstOccurrences(Ids(ps) + [repoId]);
  }

  /** One more blob of the listing adds its parsed path, if it is accepted. */
  lemma AcceptedPathsStep(blobs: seq<Blob>, i: nat, prefixSetting: string)
    requires i < |blobs|
    ensures AcceptedPaths(blobs[..i + 1], prefixSetting) ==
      match Accept(blobs[i], prefixSetting)
      case None => AcceptedPaths(blobs[..i], prefixSetting)
      case Some(p) => AcceptedPaths(blobs[..i], prefixSetting) + [p]
  {
    var r := AcceptResults(blobs[..i + 1], prefixSetting);
    assert r[..i] == AcceptResults(blobs[..i], prefixSetting);
    assert r[i] == Accept(blobs[i], prefixSetting);
  }

  /** `list(d.values())` of an insertion-ordered dictionary with key order `order`. */
  function DictValues(m: map<string, RepoSummary>, order: seq<string>): (vs: seq<RepoSummary>)
    requires forall k :: 0 <= k < |order| ==> order[k] in m
    ensures |vs| == |order|
    ensures forall k :: 0 <= k < |order| ==> vs[k] == m[order[k]]
  {
    seq(|order|, k requires 0 <= k < |order| => m[order[k]])
  }

  /** The values of the aggregated dictionary are the catalogue. */
  lemma DictValuesTracks(m: map<string, RepoSummary>, order: seq<string>, ps: seq<ParsedPath>)
    requires Tracks(m, order, ps)
    ensures forall k :: 0 <= k < |order| ==> order[k] in m
    ensures DictValues(m, order) == Summaries(ps)
  {
  }

  /** What `list_repositories` returns: in mock mode the fixed catalogue; without a storage
      client or when the listing raises, nothing; otherwise the catalogue of the accepted blobs
      under the prefix. */
  function Repositories(cfg: Config, listing: Listing): seq<RepoSummary>
  {
    if cfg.mockMode then MockRepositories()
    else if !cfg.storageConfigured || listing.ListingFailed? then []
    else Summaries(AcceptedPaths(ListBlobs(listing.blobs, ListPrefix(cfg.prefixSetting)), cfg.prefixSetting))
  }

  /** An accepted blob names an organisation and a project without `/`. */
  lemma AcceptedSlashFree(b: Blob, prefixSetting: string)
    requires Accept(b, prefixSetting).Some?
    ensures '/' !in Accept(b, prefixSetting).value.org && '/' !in Accept(b, prefixSetting).value.project
  {
    var parts := PathSegments(b.name, prefixSetting);
    assert Accept(b, prefixSetting).value == FromSegments(parts, b.name);
  }

  /** Every catalogue entry is named after one of the paths it was built from. */
  lemma SummaryOrigin(ps: seq<ParsedPath>, r: RepoSummary)
    requires r in Summaries(ps)
    ensures exists p :: p in ps && r.org == p.org && r.project == p.project && r.repo == p.repo
  {
    var order := FirstOccurrences(Ids(ps));
    var k :| 0 <= k < |order| && Summaries(ps)[k] == r;
    var id := order[k];
    FirstWithIdIsFirst(ps, id);
  }

  /** No catalogue entry names an organisation or a project holding a `/`. */
  lemma RepositoriesSlashFree(cfg: Config, listing: Listing)
    ensures forall r :: r in Repositories(cfg, listing) ==> '/' !in r.org && '/' !in r.project
  {
    if !cfg.mockMode && cfg.storageConfigured && listing.Listed? {
      var blobs := ListBlobs(listing.blobs, ListPrefix(cfg.prefixSetting));
      var ps := AcceptedPaths(blobs, cfg.prefixSetting);
      AcceptedPathsExactly(blobs, cfg.prefixSetting);
      forall r | r in Summaries(ps)
        ensures '/' !in r.org && '/' !in r.project
      {
        SummaryOrigin(ps, r);
        var p :| p in ps && r.org == p.org && r.project == p.project;
        var i :| 0 <= i < |blobs| && Accept(blobs[i], cfg.prefixSetting) == Some(p);
        AcceptedSlashFree(blobs[i], cfg.prefixSetting);
      }
    }
  }

  /** `list_repositories`, with the storage listing as input. */
  method ListRepositories(cfg: Config, listing: Listing) returns (repos: seq<RepoSummary>)
    ensures repos == Repositories(cfg, listing)
  {
    if cfg.mockMode {
      return MockRepositories();
    }
    if !cfg.storageConfigured {
      return [];
    }
    if listing.ListingFailed? {
      return [];
    }
    var blobs := ListBlobs(listing.blobs, ListPrefix(cfg.prefixSetting));
    var reposMap: map<string, RepoSummary> := map[];
    var order: seq<string> := [];
    ghost var ps: seq<ParsedPath> := [];
    for i := 0 to |blobs|
      invariant ps == AcceptedPaths(blobs[..i], cfg.prefixSetting)
      invariant Tracks(reposMap, order, ps)
    {
      var blob := blobs[i];
      AcceptedPathsStep(blobs, i, cfg.prefixSetting);
      if !EndsWith(blob.name, ".zip") {
        continue;
      }
      var parsed := ParseBlobPath(blob.name, cfg.prefixSetting);
      if parsed.None? {
        continue;
      }
      reposMap, order := RecordBackup(reposMap, order, ps, parsed.value);
      ps := ps + [parsed.value];
    }
    assert blobs[..|blobs|] == blobs;
    DictValuesTracks(reposMap, order, ps);
    repos := DictValues(reposMap, order);
  }
}
