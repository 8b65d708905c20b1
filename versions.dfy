/** The version listing: `list_backup_versions` collects the backups stored under one
    repository's prefix into version records and orders them newest first; in mock mode
    `_get_mock_backup_versions` makes ten daily versions ending today. */
module Versions {
  import opened Wrappers
  import opened Strings
  import opened Dates
  import opened BlobPath
  import opened Catalog

  /** Backups are kept for ninety days after they were last modified. */
  const RetentionDays: nat := 90
  const RetentionSeconds: nat := RetentionDays * SecondsPerDay

  /** One backup version. `timestamp` and `retentionExpires` are instants; the service renders
      them with `isoformat()`. */
  datatype Version = Version(
    id: string,
    timestamp: Instant,
    sizeBytes: nat,
    retentionExpires: Option<Instant>,
    blobPath: string)

  // ---------------------------------------------------------------------------
  // Newest first: Python's stable `sort(key=..., reverse=True)` on the timestamp

  ghost predicate NewestFirst(vs: seq<Version>)
  {
    forall i, j :: 0 <= i < j < |vs| ==> vs[i].timestamp >= vs[j].timestamp
  }

  /** The versions of `vs` with timestamp `t`, in order. */
  function WithTimestamp(vs: seq<Version>, t: Instant): seq<Version>
  {
    if vs == [] then []
    else (if vs[0].timestamp == t then [vs[0]] else []) + WithTimestamp(vs[1..], t)
  }

  /** `v` placed in front of the first version that is not newer than it. */
  function Insert(v: Version, vs: seq<Version>): (r: seq<Version>)
    ensures multiset(r) == multiset(vs) + multiset{v}
  {
    if vs == [] || vs[0].timestamp <= v.timestamp then [v] + vs
    else
      assert vs == [vs[0]] + vs[1..];
      [vs[0]] + Insert(v, vs[1..])
  }

  /** The listing sorted newest first, equal timestamps in listing order. */
  function SortNewestFirst(vs: seq<Version>): (r: seq<Version>)
    ensures multiset(r) == multiset(vs)
  {
    if vs == [] then []
    else
      assert vs == [vs[0]] + vs[1..];
      Insert(vs[0], SortNewestFirst(vs[1..]))
  }

  lemma {:induction false} InsertNewestFirst(v: Version, vs: seq<Version>)
    requires NewestFirst(vs)
    ensures NewestFirst(Insert(v, vs))
  {
    if vs != [] && vs[0].timestamp > v.timestamp {
      InsertNewestFirst(v, vs[1..]);
      var r := Insert(v, vs[1..]);
      assert multiset(r) == multiset(vs[1..]) + multiset{v};
      forall k | 0 <= k < |r| ensures vs[0].timestamp >= r[k].timestamp {
        assert r[k] in multiset(r);
        if r[k] != v {
          assert r[k] in multiset(vs[1..]);
        }
      }
    }
  }

  /** The sorted listing is newest first. */
  lemma {:induction false} SortIsNewestFirst(vs: seq<Version>)
    ensures NewestFirst(SortNewestFirst(vs))
  {
    if vs != [] {
      SortIsNewestFirst(vs[1..]);
      InsertNewestFirst(vs[0], SortNewestFirst(vs[1..]));
    }
  }

  /** Inserting `v` puts it ahead of every version of its own timestamp: it passes only newer
      ones. */
  lemma {:induction false} InsertStable(v: Version, vs: seq<Version>, t: Instant)
    ensures WithTimestamp(Insert(v, vs), t) == (if v.timestamp == t then [v] else []) + WithTimestamp(vs, t)
  {
    if vs == [] || vs[0].timestamp <= v.timestamp {
      assert ([v] + vs)[1..] == vs;
    } else {
      InsertStable(v, vs[1..], t);
      assert ([vs[0]] + Insert(v, vs[1..]))[1..] == Insert(v, vs[1..]);
    }
  }

  /** Sorting keeps the versions of one timestamp in listing order: the sort is stable. */
  lemma {:induction false} SortIsStable(vs: seq<Version>, t: Instant)
    ensures WithTimestamp(SortNewestFirst(vs), t) == WithTimestamp(vs, t)
  {
    if vs != [] {
      SortIsStable(vs[1..], t);
      InsertStable(vs[0], SortNewestFirst(vs[1..]), t);
    }
  }

  // ---------------------------------------------------------------------------
  // Collecting the versions of one repository

  /** The listing prefix of one repository: `{prefix}/{org}/{project}/{repo}/`, or without the
      prefix when none is configured. */
  function VersionPrefix(prefixSetting: string, org: string, project: string, repo: string): (p: string)
    ensures PrefixSegment(prefixSetting) == "" ==> p == org + "/" + project + "/" + repo + "/"
    ensures PrefixSegment(prefixSetting) != "" ==>
      p == PrefixSegment(prefixSetting) + "/" + org + "/" + project + "/" + repo + "/"
  {
    var pfx := PrefixSegment(prefixSetting);
    if pfx != "" then pfx + "/" + org + "/" + project + "/" + repo + "/"
    else org + "/" + project + "/" + repo + "/"
  }

  /** The text a date string contributes to a version id: the date, or `None` as an f-string
      renders a missing one. */
  function DateText(dateStr: Option<string>): string
  {
    match dateStr
    case None => "None"
    case Some(d) => d
  }

  /** The version record of one accepted blob. Without a last-modified instant the timestamp is
      the current time and there is no retention expiry. */
  function MakeVersion(repoId: string, b: Blob, p: ParsedPath, now: Instant): (v: Version)
    ensures v.id == repoId + "-" + DateText(p.dateStr)
    ensures v.timestamp == if b.lastModified.Some? then b.lastModified.value else now
    ensures v.retentionExpires.Some? <==> b.lastModified.Some?
    ensures v.retentionExpires.Some? ==> v.retentionExpires.value == v.timestamp + RetentionSeconds
    ensures v.sizeBytes == if b.size.Some? then b.size.value else 0
    ensures v.blobPath == b.name
  {
    Version(
      repoId + "-" + DateText(p.dateStr),
      match b.lastModified case Some(t) => t case None => now,
      match b.size case Some(n) => n case None => 0,
      match b.lastModified case Some(t) => Some(t + RetentionSeconds) case None => None,
      b.name)
  }

  /** Version ids are per day: two versions of a repository share an id exactly when their
      blobs carry the same date string, so several backups of one day share one id. */
  lemma VersionIdsPerDay(repoId: string, b1: Blob, p1: ParsedPath, b2: Blob, p2: ParsedPath, now: Instant)
    ensures MakeVersion(repoId, b1, p1, now).id == MakeVersion(repoId, b2, p2, now).id
      <==> DateText(p1.dateStr) == DateText(p2.dateStr)
  {
    var head := repoId + "-";
    var id1, id2 := head + DateText(p1.dateStr), head + DateText(p2.dateStr);
    if id1 == id2 {
      assert id1[|head|..] == DateText(p1.dateStr);
      assert id2[|head|..] == DateText(p2.dateStr);
    }
  }

  /** What the listing loop makes of each blob. */
  function VersionResults(blobs: seq<Blob>, repoId: string, prefixSetting: string, now: Instant): (r: seq<Option<Version>>)
    ensures |r| == |blobs|
    ensures forall i :: 0 <= i < |blobs| ==>
      r[i] == match Accept(blobs[i], prefixSetting)
              case None => None
              case Some(p) => Some(MakeVersion(repoId, blobs[i], p, now))
  {
    seq(|blobs|, i requires 0 <= i < |blobs| =>
      match Accept(blobs[i], prefixSetting)
      case None => None
      case Some(p) => Some(MakeVersion(repoId, blobs[i], p, now)))
  }

  /** The versions of the accepted blobs, in listing order. */
  function Collected(blobs: seq<Blob>, repoId: string, prefixSetting: string, now: Instant): seq<Version>
  {
    Somes(VersionResults(blobs, repoId, prefixSetting, now))
  }

  /** Every collected version is the record of an accepted blob, and every accepted blob has one:
      its size is the blob's size or 0, and its retention expiry is ninety days after the blob's
      last modification, or absent when that is unknown. */
  lemma CollectedExactly(blobs: seq<Blob>, repoId: string, prefixSetting: string, now: Instant)
    ensures forall v :: v in Collected(blobs, repoId, prefixSetting, now) ==>
      exists i ::
        0 <= i < |blobs| && Accept(blobs[i], prefixSetting).Some?
        && v == MakeVersion(repoId, blobs[i], Accept(blobs[i], prefixSetting).value, now)
    ensures forall i :: 0 <= i < |blobs| && Accept(blobs[i], prefixSetting).Some? ==>
      MakeVersion(repoId, blobs[i], Accept(blobs[i], prefixSetting).value, now)
        in Collected(blobs, repoId, prefixSetting, now)
  {
    var r := VersionResults(blobs, repoId, prefixSetting, now);
    SomesExactly(r);
    forall v | v in Somes(r)
      ensures exists i ::
        0 <= i < |blobs| && Accept(blobs[i], prefixSetting).Some?
        && v == MakeVersion(repoId, blobs[i], Accept(blobs[i], prefixSetting).value, now)
    {
      var i :| 0 <= i < |r| && r[i] == Some(v);
      assert Accept(blobs[i], prefixSetting).Some?;
    }
  }

  lemma CollectedStep(blobs: seq<Blob>, i: nat, repoId: string, prefixSetting: string, now: Instant)
    requires i < |blobs|
    ensures Collected(blobs[..i + 1], repoId, prefixSetting, now) ==
      match Accept(blobs[i], prefixSetting)
      case None => Collected(blobs[..i], repoId, prefixSetting, now)
      case Some(p) => Collected(blobs[..i], repoId, prefixSetting, now) + [MakeVersion(repoId, blobs[i], p, now)]
  {
    var r := VersionResults(blobs[..i + 1], repoId, prefixSetting, now);
    assert r[..i] == VersionResults(blobs[..i], repoId, prefixSetting, now);
  }

  /** The versions `list_backup_versions` returns for a configured store and a successful
      listing: nothing for an id that does not split into three parts, otherwise the versions
      under the repository's prefix, newest first. */
  function VersionsOf(prefixSetting: string, all: seq<Blob>, repoId: string, now: Instant): seq<Version>
  {
    var parts := SplitN(repoId, '-', 2);
    if |parts| < 3 then []
    else
      var blobs := ListBlobs(all, VersionPrefix(prefixSetting, parts[0], parts[1], parts[2]));
      SortNewestFirst(Collected(blobs, repoId, prefixSetting, now))
  }

  /** The listed versions are newest first, the sort changes no record, and records of equal
      timestamp keep their listing order. */
  lemma VersionsOfOrdered(prefixSetting: string, all: seq<Blob>, repoId: string, now: Instant)
    ensures NewestFirst(VersionsOf(prefixSetting, all, repoId, now))
    ensures |SplitN(repoId, '-', 2)| < 3 ==> VersionsOf(prefixSetting, all, repoId, now) == []
    ensures |SplitN(repoId, '-', 2)| == 3 ==>
      var parts := SplitN(repoId, '-', 2);
      var collected := Collected(ListBlobs(all, VersionPrefix(prefixSetting, parts[0], parts[1], parts[2])), repoId, prefixSetting, now);
      && multiset(VersionsOf(prefixSetting, all, repoId, now)) == multiset(collected)
      && forall t :: WithTimestamp(VersionsOf(prefixSetting, all, repoId, now), t) == WithTimestamp(collected, t)
  {
    var parts := SplitN(repoId, '-', 2);
    if |parts| == 3 {
      var collected := Collected(ListBlobs(all, VersionPrefix(prefixSetting, parts[0], parts[1], parts[2])), repoId, prefixSetting, now);
      SortIsNewestFirst(collected);
      forall t ensures WithTimestamp(SortNewestFirst(collected), t) == WithTimestamp(collected, t) {
        SortIsStable(collected, t);
      }
    }
  }

  /** What `list_backup_versions` returns: the mock versions in mock mode; nothing without a
      storage client or when the listing raises; otherwise the versions under the repository's
      prefix, newest first. */
  function BackupVersions(cfg: Config, listing: Listing, repoId: string, now: Instant): seq<Version>
    requires ValidNow(now)
  {
    if cfg.mockMode then MockVersions(repoId, now)
    else if !cfg.storageConfigured || listing.ListingFailed? then []
    else VersionsOf(cfg.prefixSetting, listing.blobs, repoId, now)
  }

  /** A collected version has the blob path, size, timestamp and retention expiry of a `.zip`
      blob of the listing: it is stamped when the blob was last modified, or `now` when that is
      unknown, and expires ninety days after the blob was last modified, or never. */
  predicate RecordOf(v: Version, b: Blob, now: Instant)
  {
    && EndsWith(b.name, ".zip")
    && v.blobPath == b.name
    && v.sizeBytes == (if b.size.Some? then b.size.value else 0)
    && v.timestamp == (if b.lastModified.Some? then b.lastModified.value else now)
    && v.retentionExpires == (if b.lastModified.Some? then Some(b.lastModified.value + RetentionSeconds) else None)
  }

  lemma CollectedRecords(blobs: seq<Blob>, repoId: string, prefixSetting: string, now: Instant, v: Version)
    requires v in Collected(blobs, repoId, prefixSetting, now)
    ensures exists b :: b in blobs && RecordOf(v, b, now)
  {
    CollectedExactly(blobs, repoId, prefixSetting, now);
    var i :| 0 <= i < |blobs| && Accept(blobs[i], prefixSetting).Some?
      && v == MakeVersion(repoId, blobs[i], Accept(blobs[i], prefixSetting).value, now);
    AcceptWhen(blobs[i], prefixSetting);
    assert RecordOf(v, blobs[i], now);
  }

  /** Every listed version is the record of a `.zip` blob of the listing: its size is that
      blob's size or 0, and it expires ninety days after the blob was last modified, or never
      when that is unknown. */
  lemma ListedVersionFacts(prefixSetting: string, all: seq<Blob>, repoId: string, now: Instant, v: Version)
    requires v in VersionsOf(prefixSetting, all, repoId, now)
    ensures exists b :: b in all && RecordOf(v, b, now)
  {
    var parts := SplitN(repoId, '-', 2);
    var blobs := ListBlobs(all, VersionPrefix(prefixSetting, parts[0], parts[1], parts[2]));
    var collected := Collected(blobs, repoId, prefixSetting, now);
    assert v in multiset(collected);
    CollectedRecords(blobs, repoId, prefixSetting, now, v);
    var b :| b in blobs && RecordOf(v, b, now);
    assert b in all;
  }

  /** Every version listing is newest first, in mock mode as well. */
  lemma BackupVersionsNewestFirst(cfg: Config, listing: Listing, repoId: string, now: Instant)
    requires ValidNow(now)
    ensures NewestFirst(BackupVersions(cfg, listing, repoId, now))
  {
    if cfg.mockMode {
      MockVersionsOrdered(repoId, now);
    } else if cfg.storageConfigured && listing.Listed? {
      VersionsOfOrdered(cfg.prefixSetting, listing.blobs, repoId, now);
    }
  }

  /** `list_backup_versions`, with the storage listing and the current time as inputs. */
  method ListBackupVersions(cfg: Config, listing: Listing, repoId: string, now: Instant) returns (versions: seq<Version>)
    requires ValidNow(now)
    ensures versions == BackupVersions(cfg, listing, repoId, now)
  {
    if cfg.mockMode {
      versions := MockBackupVersions(repoId, now);
      return;
    }
    if !cfg.storageConfigured {
      return [];
    }
    var parts := SplitN(repoId, '-', 2);
    if |parts| < 3 {
      return [];
    }
    var org, project, repo := parts[0], parts[1], parts[2];
    var blobPrefix := VersionPrefix(cfg.prefixSetting, org, project, repo);
    if listing.ListingFailed? {
      return [];
    }
    var blobs := ListBlobs(listing.blobs, blobPrefix);
    versions := [];
    for i := 0 to |blobs|
      invariant versions == Collected(blobs[..i], repoId, cfg.prefixSetting, now)
    {
      var blob := blobs[i];
      CollectedStep(blobs, i, repoId, cfg.prefixSetting, now);
      if !EndsWith(blob.name, ".zip") {
        continue;
      }
      var parsed := ParseBlobPath(blob.name, cfg.prefixSetting);
      if parsed.None? {
        continue;
      }
      versions := versions + [MakeVersion(repoId, blob, parsed.value, now)];
    }
    assert blobs[..|blobs|] == blobs;
    versions := SortNewestFirst(versions);
  }

  // ---------------------------------------------------------------------------
  // Mock versions

  /** A current time Python's `datetime` can hold, far enough from year 1 that the nine days
      before it can be held too. */
  predicate ValidNow(now: Instant)
  {
    now >= -(EpochOrdinal * SecondsPerDay) + 9 * SecondsPerDay
  }

  /** The blob path of a mock version taken on `day` at `hm`. */
  function MockPath(day: string, hm: string): string
  {
    "myorg/project/repo/" + day + "-" + hm + ".zip"
  }

  /** The `k`-th mock version, taken at `t`, which falls on `day` at `hm`. */
  function MockVersionOn(repoId: string, k: nat, t: Instant, day: string, hm: string): Version
  {
    Version(repoId + "-" + day, t, 15728640 + k * 1024, Some(t + RetentionSeconds), MockPath(day, hm))
  }

  /** The instant `k` days before `now`, no earlier than the first day `FormatYmd` writes. */
  function MockTime(now: Instant, k: nat): (t: Instant)
    requires ValidNow(now) && k < 10
    ensures -(EpochOrdinal * SecondsPerDay) <= t <= now
  {
    now - k * SecondsPerDay
  }

  /** The `k`-th mock version: taken `k` days before `now`. */
  function MockVersion(repoId: string, now: Instant, k: nat): (v: Version)
    requires ValidNow(now) && k < 10
  {
    var t := MockTime(now, k);
    MockVersionOn(repoId, k, t, FormatYmd(t), FormatHm(t))
  }

  function MockVersions(repoId: string, now: Instant): (vs: seq<Version>)
    requires ValidNow(now)
    ensures |vs| == 10
  {
    seq(10, k requires 0 <= k < 10 => MockVersion(repoId, now, k))
  }

  /** `_get_mock_backup_versions`: ten daily versions, today's first. */
  method MockBackupVersions(repoId: string, now: Instant) returns (versions: seq<Version>)
    requires ValidNow(now)
    ensures versions == MockVersions(repoId, now)
  {
    versions := [];
    for i := 0 to 10
      invariant |versions| == i
      invariant forall k :: 0 <= k < i ==> versions[k] == MockVersion(repoId, now, k)
    {
      var backupDate := now - i * SecondsPerDay;
      assert backupDate == MockTime(now, i);
      var version := MockVersionOn(repoId, i, backupDate, FormatYmd(backupDate), FormatHm(backupDate));
      assert version == MockVersion(repoId, now, i);
      versions := versions + [version];
    }
  }

  /** The mock versions are newest first, a day apart, and each expires ninety days after it
      was taken. */
  lemma MockVersionsOrdered(repoId: string, now: Instant)
    requires ValidNow(now)
    ensures NewestFirst(MockVersions(repoId, now))
    ensures forall k :: 0 <= k < 9 ==>
      MockVersions(repoId, now)[k + 1].timestamp == MockVersions(repoId, now)[k].timestamp - SecondsPerDay
    ensures forall k :: 0 <= k < 10 ==>
      MockVersions(repoId, now)[k].retentionExpires == Some(MockVersions(repoId, now)[k].timestamp + RetentionSeconds)
  {
  }

  /** The key of a backup of a one-segment repository, without a prefix, written out. */
  lemma PlainKey(org: string, project: string, repo: string, stamp: string)
    ensures BackupKey("", org, project, [repo], stamp) == org + "/" + project + "/" + repo + "/" + stamp + ".zip"
  {
    var file := stamp + ".zip";
    var segs := [org, project, repo, file];
    assert KeySegments("", org, project, [repo], stamp) == segs;
    assert segs[1..][1..][1..] == [file];
    assert Join(segs[1..][1..], '/') == repo + "/" + file;
    assert Join(segs[1..], '/') == project + "/" + (repo + "/" + file);
  }

  /** A mock blob path for day `day` and time `hm` parses back to the `myorg/project/repo`
      repository with that day as its date. */
  lemma MockPathParses(day: string, hm: string)
    requires |day| == 10 && '/' !in day && '.' !in day
    requires |hm| == 4 && AllDigits(hm)
    ensures ParseBlobPath(MockPath(day, hm), "") == Some(ParsedPath("myorg", "project", "repo", Some(day), MockPath(day, hm)))
  {
    var stamp := day + "-" + hm;
    assert '/' !in stamp && '.' !in stamp && stamp[..10] == day by {
      assert forall j :: 0 <= j < |hm| ==> IsDigit(hm[j]);
    }
    assert Join(["repo"], '/') == "repo";
    assert BackupKey("", "myorg", "project", ["repo"], stamp) == MockPath(day, hm) by {
      PlainKey("myorg", "project", "repo", stamp);
      assert "myorg" + "/" + "project" + "/" + "repo" + "/" == "myorg/project/repo/";
    }
    ParseBackupKey("", "myorg", "project", ["repo"], stamp);
  }

  /** The mock version of day `day` carries that day in its id, and its path parses back to it. */
  lemma MockVersionOnParses(repoId: string, k: nat, t: Instant, day: string, hm: string)
    requires |day| == 10 && '/' !in day && '.' !in day
    requires |hm| == 4 && AllDigits(hm)
    ensures var v := MockVersionOn(repoId, k, t, day, hm);
      && v.id == repoId + "-" + day
      && v.timestamp == t
      && ParseBlobPath(v.blobPath, "") == Some(ParsedPath("myorg", "project", "repo", Some(day), v.blobPath))
  {
    MockPathParses(day, hm);
  }

  /** Each mock version's id ends in its day, and its blob path parses back to the
      `myorg/project/repo` repository with that day as its date. */
  lemma MockBlobPathParses(repoId: string, now: Instant, k: nat)
    requires ValidNow(now) && k < 10
    ensures var v := MockVersion(repoId, now, k);
      && v.id == repoId + "-" + FormatYmd(v.timestamp)
      && ParseBlobPath(v.blobPath, "") == Some(ParsedPath("myorg", "project", "repo", Some(FormatYmd(v.timestamp)), v.blobPath))
  {
    var t := MockTime(now, k);
    var day, hm := FormatYmd(t), FormatHm(t);
    assert MockVersion(repoId, now, k) == MockVersionOn(repoId, k, t, day, hm);
    MockVersionOnParses(repoId, k, t, day, hm);
  }

}
