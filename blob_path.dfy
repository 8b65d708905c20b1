/** The storage path parser: an object-store key of the form
    `{prefix}/{org}/{project}/{repo}/yyyy-MM-dd-HHmm.zip` read back into its parts. */
module BlobPath {
  import opened Wrappers
  import opened Strings

  /** What the parser makes of a key. `dateStr` is the first ten characters of the file name
      without `.zip`, or `None`; `blobName` is the key as given. */
  datatype ParsedPath = ParsedPath(
    org: string,
    project: string,
    repo: string,
    dateStr: Option<string>,
    blobName: string)

  /** The configured prefix (`AZURE_STORAGE_PREFIX`) as the parser compares it: stripped of `/`. */
  function PrefixSegment(prefixSetting: string): string
  {
    Strip(prefixSetting, '/')
  }

  /** The `/`-separated segments of a key stripped of leading and trailing `/`. */
  function RawSegments(name: string): (parts: seq<string>)
    ensures |parts| >= 1
    ensures forall k :: 0 <= k < |parts| ==> '/' !in parts[k]
  {
    Split(Strip(name, '/'), '/')
  }

  /** The segments the parser reads: the raw ones, less the first exactly when a prefix is set
      and the first segment is that prefix. */
  function PathSegments(name: string, prefixSetting: string): (parts: seq<string>)
    ensures parts == RawSegments(name) || parts == RawSegments(name)[1..]
    ensures parts != RawSegments(name)
      <==> PrefixSegment(prefixSetting) != "" && RawSegments(name)[0] == PrefixSegment(prefixSetting)
    ensures forall k :: 0 <= k < |parts| ==> '/' !in parts[k]
  {
    var raw := RawSegments(name);
    var pfx := PrefixSegment(prefixSetting);
    if pfx != "" && raw[0] == pfx then raw[1..] else raw
  }

  /** The date of a file name: set only for a `.zip` name whose text without `.zip` has at least
      ten characters, and then its first ten. */
  function DateStamp(filename: string): (r: Option<string>)
    ensures r.Some? ==> |r.value| == 10 && EndsWith(filename, ".zip")
  {
    if EndsWith(filename, ".zip") then
      var datePart := RemoveAll(filename, ".zip");
      if |datePart| >= 10 then Some(datePart[..10]) else None
    else None
  }

  /** The repository and the file name in the segments after the project: they are joined with
      `/` and split again at the last `/`, if there is one. */
  function RepoAndFile(rest: seq<string>): (halves: (string, string))
    requires |rest| >= 1
    requires forall k :: 0 <= k < |rest| ==> '/' !in rest[k]
    ensures |rest| == 1 ==> halves == (rest[0], "")
    ensures |rest| >= 2 ==> halves == (Join(rest[..|rest| - 1], '/'), rest[|rest| - 1])
  {
    var repoWithDate := Join(rest, '/');
    JoinHasSeparator(rest, '/');
    if '/' in repoWithDate then
      RSplitJoin(rest, '/');
      RSplitOnce(repoWithDate, '/')
    else (repoWithDate, "")
  }

  /** The parsed path read from the segments after the prefix: `org` and `project` are the first
      two, `repo` is everything between them and the last `/`, and the date comes from the last
      segment. */
  function FromSegments(parts: seq<string>, name: string): (p: ParsedPath)
    requires |parts| >= 3
    requires forall k :: 0 <= k < |parts| ==> '/' !in parts[k]
    ensures p.org == parts[0] && p.project == parts[1] && p.blobName == name
    ensures |parts| == 3 ==> p.repo == parts[2] && p.dateStr == None
    ensures |parts| >= 4 ==> p.repo == Join(parts[2..|parts| - 1], '/')
    ensures |parts| >= 4 ==> p.dateStr == DateStamp(parts[|parts| - 1])
  {
    var rest := parts[2..];
    var halves := RepoAndFile(rest);
    assert |parts| >= 4 ==> rest[..|rest| - 1] == parts[2..|parts| - 1];
    ParsedPath(parts[0], parts[1], halves.0, DateStamp(halves.1), name)
  }

  /** `_parse_blob_path`. Rejects a key of fewer than four segments; otherwise the path is read
      from the segments left once the prefix is dropped. The second length check of the source
      (fewer than three segments once the prefix is dropped) can never fire: dropping one of four
      or more segments leaves three or more. */
  function ParseBlobPath(name: string, prefixSetting: string): (r: Option<ParsedPath>)
    ensures r.None? <==> |RawSegments(name)| < 4
    ensures r.Some? ==> |PathSegments(name, prefixSetting)| >= 3
    ensures r.Some? ==> r.value == FromSegments(PathSegments(name, prefixSetting), name)
  {
    if |RawSegments(name)| < 4 then None
    else
      var parts := PathSegments(name, prefixSetting);
      if |parts| < 3 then None
      else Some(FromSegments(parts, name))
  }

  // ---------------------------------------------------------------------------
  // Round trip

  /** The segments of the key a backup of `org/project/repoSegs...` taken at `stamp` is stored
      under, without and with a prefix segment. */
  function BackupSegments(org: string, project: string, repoSegs: seq<string>, stamp: string): seq<string>
  {
    [org, project] + repoSegs + [stamp + ".zip"]
  }

  function KeySegments(pfx: string, org: string, project: string, repoSegs: seq<string>, stamp: string): seq<string>
  {
    if pfx == "" then BackupSegments(org, project, repoSegs, stamp)
    else [pfx] + BackupSegments(org, project, repoSegs, stamp)
  }

  /** The key itself: `{pfx}/{org}/{project}/{repo...}/{stamp}.zip`, or without `{pfx}/`. */
  function BackupKey(pfx: string, org: string, project: string, repoSegs: seq<string>, stamp: string): string
  {
    Join(KeySegments(pfx, org, project, repoSegs, stamp), '/')
  }

  /** A time stamp without `.` keeps its first ten characters as the date. */
  lemma DateStampOfStamp(stamp: string)
    requires '.' !in stamp
    ensures DateStamp(stamp + ".zip") == if |stamp| >= 10 then Some(stamp[..10]) else None
  {
    var f := stamp + ".zip";
    assert f[|f| - 4..] == ".zip";
    RemoveAllSuffix(stamp, ".zip");
  }

  lemma KeySegmentsLackSlash(pfx: string, org: string, project: string, repoSegs: seq<string>, stamp: string)
    requires '/' !in pfx && '/' !in org && '/' !in project && '/' !in stamp
    requires forall k :: 0 <= k < |repoSegs| ==> '/' !in repoSegs[k]
    ensures forall k :: 0 <= k < |KeySegments(pfx, org, project, repoSegs, stamp)| ==>
      '/' !in KeySegments(pfx, org, project, repoSegs, stamp)[k]
  {
    var file := stamp + ".zip";
    assert '/' !in file by {
      assert forall j :: |stamp| <= j < |file| ==> file[j] == ".zip"[j - |stamp|];
    }
    var segs := BackupSegments(org, project, repoSegs, stamp);
    forall k | 0 <= k < |segs| ensures '/' !in segs[k] {
      if k < 2 {
        assert segs[k] == [org, project][k];
      } else if k < |segs| - 1 {
        assert segs[k] == repoSegs[k - 2];
      } else {
        assert segs[k] == file;
      }
    }
    var all := KeySegments(pfx, org, project, repoSegs, stamp);
    if pfx != "" {
      forall k | 0 <= k < |all| ensures '/' !in all[k] {
        if k > 0 { assert all[k] == segs[k - 1]; }
      }
    }
  }

  /** A key with a non-empty first segment and a `.zip` name neither starts nor ends with `/`,
      so its stripped segments are exactly the segments it was built from. */
  lemma RawSegmentsOfBackupKey(pfx: string, org: string, project: string, repoSegs: seq<string>, stamp: string)
    requires '/' !in pfx && '/' !in org && '/' !in project && '/' !in stamp
    requires org != []
    requires forall k :: 0 <= k < |repoSegs| ==> '/' !in repoSegs[k]
    ensures RawSegments(BackupKey(pfx, org, project, repoSegs, stamp)) == KeySegments(pfx, org, project, repoSegs, stamp)
  {
    var all := KeySegments(pfx, org, project, repoSegs, stamp);
    var key := BackupKey(pfx, org, project, repoSegs, stamp);
    KeySegmentsLackSlash(pfx, org, project, repoSegs, stamp);
    assert key == all[0] + ['/'] + Join(all[1..], '/');
    assert all[0] != [] && all[0][0] != '/';
    JoinSnoc(all, '/');
    assert key[|key| - 1] == 'p';
    assert Strip(key, '/') == key;
    SplitJoin(all, '/');
  }

  lemma PathSegmentsOfBackupKey(pfx: string, org: string, project: string, repoSegs: seq<string>, stamp: string)
    requires '/' !in pfx
    requires org != [] && '/' !in org && '/' !in project
    requires |repoSegs| >= 1 && forall k :: 0 <= k < |repoSegs| ==> '/' !in repoSegs[k]
    requires '/' !in stamp
    ensures |RawSegments(BackupKey(pfx, org, project, repoSegs, stamp))| >= 4
    ensures PathSegments(BackupKey(pfx, org, project, repoSegs, stamp), pfx) == BackupSegments(org, project, repoSegs, stamp)
  {
    var key := BackupKey(pfx, org, project, repoSegs, stamp);
    var segs := BackupSegments(org, project, repoSegs, stamp);
    var all := KeySegments(pfx, org, project, repoSegs, stamp);
    assert RawSegments(key) == all by {
      RawSegmentsOfBackupKey(pfx, org, project, repoSegs, stamp);
    }
    assert |segs| >= 4;
    assert PrefixSegment(pfx) == pfx;
    if pfx != "" {
      assert all == [pfx] + segs;
      assert all[0] == pfx;
      assert all[1..] == segs;
    } else {
      assert all == segs;
    }
  }

  /** The segments of a backup key read back into the parts they were built from. */
  lemma FromBackupSegments(org: string, project: string, repoSegs: seq<string>, stamp: string, key: string)
    requires '/' !in org && '/' !in project
    requires |repoSegs| >= 1 && forall k :: 0 <= k < |repoSegs| ==> '/' !in repoSegs[k]
    requires '/' !in stamp && '.' !in stamp
    ensures |BackupSegments(org, project, repoSegs, stamp)| >= 4
    ensures forall k :: 0 <= k < |BackupSegments(org, project, repoSegs, stamp)| ==>
      '/' !in BackupSegments(org, project, repoSegs, stamp)[k]
    ensures FromSegments(BackupSegments(org, project, repoSegs, stamp), key)
         == ParsedPath(org, project, Join(repoSegs, '/'),
                       if |stamp| >= 10 then Some(stamp[..10]) else None, key)
  {
    var parts := BackupSegments(org, project, repoSegs, stamp);
    KeySegmentsLackSlash("", org, project, repoSegs, stamp);
    assert KeySegments("", org, project, repoSegs, stamp) == parts;
    assert |parts| >= 4;
    assert parts[0] == org;
    assert parts[1] == project;
    assert parts[2..|parts| - 1] == repoSegs;
    assert parts[|parts| - 1] == stamp + ".zip";
    DateStampOfStamp(stamp);
  }

  /** Parsing a well-formed key recovers the organisation, the project, the repository path and
      the date exactly, with or without a prefix. */
  lemma ParseBackupKey(pfx: string, org: string, project: string, repoSegs: seq<string>, stamp: string)
    requires '/' !in pfx
    requires org != [] && '/' !in org && '/' !in project
    requires |repoSegs| >= 1 && forall k :: 0 <= k < |repoSegs| ==> '/' !in repoSegs[k]
    requires '/' !in stamp && '.' !in stamp
    ensures ParseBlobPath(BackupKey(pfx, org, project, repoSegs, stamp), pfx)
         == Some(ParsedPath(org, project, Join(repoSegs, '/'),
                            if |stamp| >= 10 then Some(stamp[..10]) else None,
                            BackupKey(pfx, org, project, repoSegs, stamp)))
  {
    var key := BackupKey(pfx, org, project, repoSegs, stamp);
    PathSegmentsOfBackupKey(pfx, org, project, repoSegs, stamp);
    FromBackupSegments(org, project, repoSegs, stamp, key);
  }

  /** A prefix of more than one segment is never dropped (a segment holds no `/`), so such a key
      parses as if no prefix were configured: the prefix's first two segments are taken for the
      organisation and the project. */
  lemma MultiSegmentPrefixKept(name: string, prefixSetting: string)
    requires '/' in PrefixSegment(prefixSetting)
    ensures ParseBlobPath(name, prefixSetting) == ParseBlobPath(name, "")
  {
    assert RawSegments(name)[0] != PrefixSegment(prefixSetting);
    assert PrefixSegment("") == "";
  }
}
