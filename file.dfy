/** The file helpers every handler is built on: classifying a path by its extension, the list
    of system files that are ignored, the non-recursive scan of a directory's files, counting
    them, and a rename that can pick a free "_1", "_2", ... name instead of overwriting. */
module FileUtil {
  import opened Wrappers
  import opened Strings
  import opened Paths
  import opened Ordering
  import opened FileSystem
  import opened Errors

  datatype MediaType = Video | Image | Doc | Audio | Unknown

  /** Lower-case extension to media type. */
  function ExtToFileType(): map<string, MediaType> { map[
    ".mp4" := Video, ".mov" := Video, ".avi" := Video, ".mkv" := Video,
    ".flv" := Video, ".wmv" := Video, ".webm" := Video,
    ".jpg" := Image, ".jpeg" := Image, ".png" := Image, ".gif" := Image,
    ".bmp" := Image, ".webp" := Image, ".tiff" := Image,
    ".txt" := Doc, ".pdf" := Doc, ".docx" := Doc, ".xlsx" := Doc, ".pptx" := Doc,
    ".mp3" := Audio, ".wav" := Audio, ".flac" := Audio, ".aac" := Audio
  ]
  }

  /** System and trash files that are never listed or counted. */
  function FilteredNames(): set<string> { {".DS_Store", ".Trash", "Thumbs.db", ".deleted"} }

  /** The media type of a path, decided by its extension without regard to ASCII case. */
  function GetFileTypeByExt(filePath: string): MediaType
  {
    var ext := ToLower(Ext(filePath));
    if ext in ExtToFileType() then ExtToFileType()[ext] else Unknown
  }

  predicate FilterFile(fileName: string)
  {
    fileName in FilteredNames()
  }

  /** The type does not depend on the case of the path. */
  lemma FileTypeIgnoresCase(p: string)
    ensures GetFileTypeByExt(ToLower(p)) == GetFileTypeByExt(p)
  {
    ExtOfLower(p);
    ToLowerIdempotent(Ext(p));
  }

  /** A file's type is the type of its name, whatever directory it is in. */
  lemma FileTypeOfJoin(dir: string, name: string)
    requires ValidName(name)
    ensures GetFileTypeByExt(Join(dir, name)) == GetFileTypeByExt(name)
  {
    ExtOfJoin(dir, name);
  }

  /** A name made of a zero-padded number and an extension is never one of the ignored names,
      so renumbered files stay visible to later scans. */
  lemma NumberedNameNotFiltered(n: nat, width: nat, ext: string)
    ensures !FilterFile(ZeroPad(n, width) + ext)
  {
    ZeroPadShape(n, width);
    var s := ZeroPad(n, width) + ext;
    assert s[0] == ZeroPad(n, width)[0];
    assert IsDigit(s[0]);
  }

  // ---------------------------------------------------------------- directory scan

  datatype Meta = Meta(fullPath: string, fileName: string, ext: string, modTime: int)

  /** An entry the scan and the count take in: not a directory and not an ignored name. */
  predicate Eligible(e: DirEntry)
  {
    !e.isDir && !FilterFile(e.name)
  }

  /** Scanning the listed entries in order: ineligible entries are skipped, every other entry
      is looked up again, and the first lookup that does not find a file stops the scan with
      an error. */
  function MetasFrom(m: FsMap, dir: string, es: seq<DirEntry>): Result<seq<Meta>, Error>
    decreases |es|
  {
    if es == [] then Ok([])
    else match MetasFrom(m, dir, es[..|es| - 1])
      case Err(e) => Err(e)
      case Ok(ms) =>
        var e := es[|es| - 1];
        if !Eligible(e) then Ok(ms)
        else
          var full := Join(dir, e.name);
          if !IsFile(m, full) then Err(StatFailed(full))
          else Ok(ms + [Meta(full, e.name, Ext(e.name), m[full].modTime)])
  }

  lemma MetasFromStep(m: FsMap, dir: string, es: seq<DirEntry>, i: nat)
    requires i < |es|
    ensures MetasFrom(m, dir, es[..i + 1]) == match MetasFrom(m, dir, es[..i])
      case Err(e) => Err(e)
      case Ok(ms) =>
        if !Eligible(es[i]) then Ok(ms)
        else if !IsFile(m, Join(dir, es[i].name)) then Err(StatFailed(Join(dir, es[i].name)))
        else Ok(ms + [Meta(Join(dir, es[i].name), es[i].name, Ext(es[i].name), m[Join(dir, es[i].name)].modTime)])
  {
    assert es[..i + 1][..i] == es[..i];
  }

  /** Once the scan has failed, later entries do not change the error. */
  lemma {:induction false} MetasFromErrorStays(m: FsMap, dir: string, es: seq<DirEntry>, i: nat)
    requires i <= |es| && MetasFrom(m, dir, es[..i]).Err?
    ensures MetasFrom(m, dir, es) == MetasFrom(m, dir, es[..i])
    decreases |es| - i
  {
    if i < |es| {
      MetasFromStep(m, dir, es, i);
      MetasFromErrorStays(m, dir, es, i + 1);
    } else {
      assert es[..i] == es;
    }
  }

  ghost function GetFileMetasSpec(m: FsMap, dir: string): Result<seq<Meta>, Error>
  {
    if !Exists(m, dir) then Err(DirNotFound(dir))
    else if !IsDir(m, dir) then Err(NotAFolder(dir))
    else match ReadDirSpec(m, dir)
      case Err(e) => Err(ReadDirFailed(e))
      case Ok(es) => MetasFrom(m, dir, es)
  }

  /** The metadata of one file; a directory or a missing path is an error. */
  function GetFileMeta(m: FsMap, path: string): (r: Result<Meta, Error>)
    ensures r.Ok? <==> IsFile(m, path)
    ensures r.Ok? ==> r.value.fullPath == path && r.value.modTime == m[path].modTime
  {
    if !Exists(m, path) then Err(StatFailed(path))
    else if m[path].Directory? then Err(MetaOfDirectory(path))
    else Ok(Meta(path, Base(path), Ext(path), m[path].modTime))
  }

  function FileNames(ms: seq<Meta>): (r: seq<string>)
    ensures |r| == |ms| && forall i :: 0 <= i < |ms| ==> r[i] == ms[i].fileName
  {
    seq(|ms|, i requires 0 <= i < |ms| => ms[i].fileName)
  }

  /** The names of the eligible entries, in listing order. */
  function EligibleNames(es: seq<DirEntry>): seq<string>
    decreases |es|
  {
    if es == [] then []
    else EligibleNames(es[..|es| - 1]) + (if Eligible(es[|es| - 1]) then [es[|es| - 1].name] else [])
  }

  function CountEligible(es: seq<DirEntry>): nat
    decreases |es|
  {
    if es == [] then 0
    else CountEligible(es[..|es| - 1]) + (if Eligible(es[|es| - 1]) then 1 else 0)
  }

  lemma NamesOfInit(es: seq<DirEntry>)
    requires es != []
    ensures NamesOf(es) == NamesOf(es[..|es| - 1]) + [es[|es| - 1].name]
  {
    assert |NamesOf(es)| == |NamesOf(es[..|es| - 1]) + [es[|es| - 1].name]|;
  }

  lemma EligibleNamesInit(es: seq<DirEntry>, i: nat)
    requires es != [] && i < |es| - 1
    ensures es[..|es| - 1][i] == es[i] && NamesOf(es[..|es| - 1])[i] == NamesOf(es)[i]
  {
  }

  /** Keeping the eligible names keeps every eligible entry and adds nothing that was not
      listed; there are as many of them as the count says. */
  lemma {:induction false} EligibleNamesMembers(es: seq<DirEntry>)
    ensures forall i :: 0 <= i < |es| && Eligible(es[i]) ==> es[i].name in EligibleNames(es)
    ensures forall n :: n in EligibleNames(es) ==> n in NamesOf(es)
    ensures |EligibleNames(es)| == CountEligible(es)
    decreases |es|
  {
    if es != [] {
      var init := es[..|es| - 1];
      EligibleNamesMembers(init);
      NamesOfInit(es);
      forall i | 0 <= i < |init| ensures init[i] == es[i] { }
    }
  }

  /** Keeping the eligible names keeps the listing's ascending order. */
  lemma {:induction false} EligibleNamesSorted(es: seq<DirEntry>)
    requires StrictlySorted(NamesOf(es))
    ensures StrictlySorted(EligibleNames(es))
    decreases |es|
  {
    if es != [] {
      var init := es[..|es| - 1];
      var e := es[|es| - 1];
      NamesOfInit(es);
      assert StrictlySorted(NamesOf(init)) by {
        forall i, j | 0 <= i < j < |init| ensures Less(NamesOf(init)[i], NamesOf(init)[j]) {
          EligibleNamesInit(es, i);
          EligibleNamesInit(es, j);
        }
      }
      EligibleNamesSorted(init);
      if Eligible(e) {
        var prev := EligibleNames(init);
        EligibleNamesMembers(init);
        forall k | 0 <= k < |prev| ensures Less(prev[k], e.name) {
          assert prev[k] in NamesOf(init);
          var i :| 0 <= i < |init| && NamesOf(init)[i] == prev[k];
          EligibleNamesInit(es, i);
        }
      }
    }
  }

  /** Entries that agree with the file system, as os.ReadDir returns them for dir. */
  predicate Listing(m: FsMap, dir: string, es: seq<DirEntry>)
  {
    forall i :: 0 <= i < |es| ==>
      ValidName(es[i].name) && Exists(m, Join(dir, es[i].name)) && es[i].isDir == IsDir(m, Join(dir, es[i].name))
  }

  /** What the scan records for a file of dir. */
  predicate MetaOfName(m: FsMap, dir: string, x: Meta)
  {
    x.fullPath == Join(dir, x.fileName) && ValidName(x.fileName) && IsFile(m, x.fullPath)
    && x.ext == Ext(x.fileName) && x.modTime == m[x.fullPath].modTime && !FilterFile(x.fileName)
  }

  /** Scanning a listing never fails; it records each eligible entry's file. */
  lemma {:induction false} ScanOfListing(m: FsMap, dir: string, es: seq<DirEntry>)
    requires Listing(m, dir, es)
    ensures MetasFrom(m, dir, es).Ok?
    ensures forall k :: 0 <= k < |MetasFrom(m, dir, es).value| ==> MetaOfName(m, dir, MetasFrom(m, dir, es).value[k])
    ensures FileNames(MetasFrom(m, dir, es).value) == EligibleNames(es)
    decreases |es|
  {
    if es != [] {
      var init := es[..|es| - 1];
      var e := es[|es| - 1];
      assert Listing(m, dir, init) by {
        forall i | 0 <= i < |init| ensures init[i] == es[i] { }
      }
      ScanOfListing(m, dir, init);
      var ms0 := MetasFrom(m, dir, init).value;
      if Eligible(e) {
        var x := Meta(Join(dir, e.name), e.name, Ext(e.name), m[Join(dir, e.name)].modTime);
        assert MetasFrom(m, dir, es).value == ms0 + [x];
        assert FileNames(ms0 + [x]) == FileNames(ms0) + [e.name];
      }
    }
  }

  /** What a scan of a complete, sorted listing records. */
  ghost predicate ScanResult(m: FsMap, dir: string, ms: seq<Meta>)
  {
    && StrictlySorted(FileNames(ms))
    && (forall n :: n in FileNames(ms) <==> ValidName(n) && IsFile(m, Join(dir, n)) && !FilterFile(n))
    && (forall k :: 0 <= k < |ms| ==>
          ms[k].fullPath == Join(dir, ms[k].fileName) && GetFileMeta(m, ms[k].fullPath) == Ok(ms[k]))
  }

  lemma ScanOfCompleteListing(m: FsMap, dir: string, es: seq<DirEntry>)
    requires Listing(m, dir, es) && StrictlySorted(NamesOf(es))
    requires forall n :: n in NamesOf(es) <==> ValidName(n) && Exists(m, Join(dir, n))
    ensures MetasFrom(m, dir, es).Ok? && ScanResult(m, dir, MetasFrom(m, dir, es).value)
  {
    ScanOfListing(m, dir, es);
    EligibleNamesMembers(es);
    EligibleNamesSorted(es);
    var ms := MetasFrom(m, dir, es).value;
    forall n ensures n in FileNames(ms) <==> ValidName(n) && IsFile(m, Join(dir, n)) && !FilterFile(n) {
      if n in FileNames(ms) {
        var k :| 0 <= k < |ms| && FileNames(ms)[k] == n;
        assert MetaOfName(m, dir, ms[k]);
      }
      if ValidName(n) && IsFile(m, Join(dir, n)) && !FilterFile(n) {
        var i :| 0 <= i < |es| && NamesOf(es)[i] == n;
        assert es[i].name == n && !es[i].isDir;
      }
    }
    forall k | 0 <= k < |ms| ensures GetFileMeta(m, ms[k].fullPath) == Ok(ms[k]) {
      assert MetaOfName(m, dir, ms[k]);
      BaseOfJoin(dir, ms[k].fileName);
      ExtOfJoin(dir, ms[k].fileName);
    }
  }

  /** The scan fails exactly when the path is not a directory. On success it lists every
      non-ignored file directly inside the directory, once each, in ascending name order, and
      each entry is what GetFileMeta reports for its path. */
  lemma GetFileMetasCorrect(m: FsMap, dir: string)
    ensures GetFileMetasSpec(m, dir).Err? <==> !IsDir(m, dir)
    ensures GetFileMetasSpec(m, dir).Ok? ==> ScanResult(m, dir, GetFileMetasSpec(m, dir).value)
  {
    ReadDirCorrect(m, dir);
    if IsDir(m, dir) {
      var es := ReadDirSpec(m, dir).value;
      assert Listing(m, dir, es) by {
        forall i | 0 <= i < |es| ensures ValidName(es[i].name) && Exists(m, Join(dir, es[i].name)) {
          assert NamesOf(es)[i] == es[i].name;
        }
      }
      ScanOfCompleteListing(m, dir, es);
    }
  }

  /** The loop over the listed entries of GetFileMetas. */
  method ScanEntries(fs: OS, dir: string, entries: seq<DirEntry>) returns (r: Result<seq<Meta>, Error>)
    ensures r == MetasFrom(fs.entries, dir, entries)
  {
    var metaList: seq<Meta> := [];
    var i := 0;
    while i < |entries|
      invariant 0 <= i <= |entries|
      invariant MetasFrom(fs.entries, dir, entries[..i]) == Ok(metaList)
    {
      var entry := entries[i];
      MetasFromStep(fs.entries, dir, entries, i);
      if !entry.isDir && !FilterFile(entry.name) {
        var fullPath := Join(dir, entry.name);
        var fileStat := fs.Stat(fullPath);
        if fileStat.None? || fileStat.value.Directory? {
          MetasFromErrorStays(fs.entries, dir, entries, i + 1);
          return Err(StatFailed(fullPath));
        }
        metaList := metaList + [Meta(fullPath, entry.name, Ext(entry.name), fileStat.value.modTime)];
      }
      i := i + 1;
    }
    assert entries[..|entries|] == entries;
    return Ok(metaList);
  }

  method GetFileMetas(fs: OS, dir: string) returns (r: Result<seq<Meta>, Error>)
    ensures r == GetFileMetasSpec(fs.entries, dir)
  {
    var st := fs.Stat(dir);
    if st.None? {
      return Err(DirNotFound(dir));
    }
    if !st.value.Directory? {
      return Err(NotAFolder(dir));
    }
    var listing := fs.ReadDir(dir);
    match listing {
      case Err(e) => r := Err(ReadDirFailed(e));
      case Ok(entries) => r := ScanEntries(fs, dir, entries);
    }
  }

  // ---------------------------------------------------------------- counting

  lemma CountEligibleStep(es: seq<DirEntry>, i: nat)
    requires i < |es|
    ensures CountEligible(es[..i + 1]) == CountEligible(es[..i]) + (if Eligible(es[i]) then 1 else 0)
  {
    assert es[..i + 1][..i] == es[..i];
  }

  /** The count, or -1 together with an error. */
  ghost function CountFilesSpec(m: FsMap, dir: string): (r: (int, Option<Error>))
  {
    if dir == [] then (-1, Some(EmptyDirArgument))
    else match ReadDirSpec(m, dir)
      case Err(e) => (-1, Some(ReadDirFailed(e)))
      case Ok(es) => (CountEligible(es) as int, None)
  }

  /** Counting agrees with the scan: the count is the number of files the scan lists, and
      counting fails (with -1) exactly when the scan fails. */
  lemma CountMatchesMetas(m: FsMap, dir: string)
    ensures GetFileMetasSpec(m, dir).Ok? ==>
      CountFilesSpec(m, dir) == (|GetFileMetasSpec(m, dir).value|, None)
    ensures GetFileMetasSpec(m, dir).Err? <==> CountFilesSpec(m, dir).1.Some?
    ensures CountFilesSpec(m, dir).1.Some? <==> CountFilesSpec(m, dir).0 == -1
  {
    ReadDirCorrect(m, dir);
    if IsDir(m, dir) {
      var es := ReadDirSpec(m, dir).value;
      assert Listing(m, dir, es) by {
        forall i | 0 <= i < |es| ensures ValidName(es[i].name) && Exists(m, Join(dir, es[i].name)) {
          assert NamesOf(es)[i] == es[i].name;
        }
      }
      ScanOfListing(m, dir, es);
      EligibleNamesMembers(es);
    }
  }

  /** The counting loop of CountFiles. */
  method CountEntries(entries: seq<DirEntry>) returns (fileCount: nat)
    ensures fileCount == CountEligible(entries)
  {
    fileCount := 0;
    var i := 0;
    while i < |entries|
      invariant 0 <= i <= |entries|
      invariant fileCount == CountEligible(entries[..i])
    {
      CountEligibleStep(entries, i);
      if !entries[i].isDir && !FilterFile(entries[i].name) {
        fileCount := fileCount + 1;
      }
      i := i + 1;
    }
    assert entries[..|entries|] == entries;
  }

  method CountFiles(fs: OS, dir: string) returns (count: int, err: Option<Error>)
    ensures (count, err) == CountFilesSpec(fs.entries, dir)
  {
    if dir == [] {
      return -1, Some(EmptyDirArgument);
    }
    var listing := fs.ReadDir(dir);
    if listing.Err? {
      return -1, Some(ReadDirFailed(listing.error));
    }
    count := CountEntries(listing.value);
    err := None;
  }

  // ---------------------------------------------------------------- renaming with a free name

  /** The parts of a target path the suffixed names are made from: its directory, its last
      element without the extension, and the extension. */
  datatype NameParts = NameParts(dir: string, stem: string, ext: string)

  /** The stem and the extension of the last element make up that element again. */
  lemma StemAndExt(base: string)
    ensures TrimSuffix(Base(base), Ext(Base(base))) + Ext(Base(base)) == Base(base)
  {
    ExtShape(Base(base));
  }

  /** The directory, the stem and the extension of a path's last element. */
  function PartsOf(p: string): NameParts
  {
    NameParts(Dir(p), TrimSuffix(Base(p), Ext(Base(p))), Ext(Base(p)))
  }

  /** "<stem>_<k><ext>" in the same directory. */
  function Suffixed(parts: NameParts, k: nat): string
  {
    Join(parts.dir, parts.stem + "_" + NatToString(k) + parts.ext)
  }

  /** The k-th name tried for base: base itself, then the k-th suffixed name. */
  function Candidate(base: string, parts: NameParts, k: nat): string
  {
    if k == 0 then base else Suffixed(parts, k)
  }


  /** How many names are tried at most. */
  function Limit(maxTry: int): nat
  {
    if maxTry < 1 then 1 else maxTry
  }

  /** Trying candidates from the k-th on. */
  function Probe(m: FsMap, base: string, parts: NameParts, k: nat, maxTry: int): Result<string, Error>
    decreases Limit(maxTry) - k
  {
    if !Exists(m, Candidate(base, parts, k)) then Ok(Candidate(base, parts, k))
    else if k + 2 > maxTry then Err(TooManyTries)
    else Probe(m, base, parts, k + 1, maxTry)
  }

  /** The path a rename to base should use: base itself when suffixes are off (an error if it
      exists), otherwise the first free candidate. */
  function FinalTarget(m: FsMap, base: string, suffix: bool, maxTry: int): Result<string, Error>
  {
    if !suffix then (if Exists(m, base) then Err(TargetExists(base)) else Ok(base))
    else Probe(m, base, PartsOf(base), 0, maxTry)
  }

  /** What probing from the k-th candidate yields: the first free candidate at or after k,
      or, when the first max(1, maxTry) candidates are all taken, the error saying so. */
  ghost predicate ProbeOutcome(m: FsMap, base: string, parts: NameParts, k: nat, maxTry: int, r: Result<string, Error>)
  {
    && (r.Ok? ==> exists i :: k <= i < Limit(maxTry) && r.value == Candidate(base, parts, i)
                     && !Exists(m, Candidate(base, parts, i))
                     && forall j :: 0 <= j < i ==> Exists(m, Candidate(base, parts, j)))
    && (r.Err? ==> r.error == TooManyTries && forall j :: 0 <= j < Limit(maxTry) ==> Exists(m, Candidate(base, parts, j)))
  }

  lemma {:induction false} ProbeProperties(m: FsMap, base: string, parts: NameParts, k: nat, maxTry: int)
    requires k < Limit(maxTry)
    requires forall j :: 0 <= j < k ==> Exists(m, Candidate(base, parts, j))
    ensures ProbeOutcome(m, base, parts, k, maxTry, Probe(m, base, parts, k, maxTry))
    decreases Limit(maxTry) - k
  {
    var c := Candidate(base, parts, k);
    if !Exists(m, c) {
      assert k <= k < Limit(maxTry) && c == Candidate(base, parts, k);
    } else if k + 2 > maxTry {
      assert Limit(maxTry) == k + 1;
    } else {
      ProbeProperties(m, base, parts, k + 1, maxTry);
    }
  }

  /** Without suffixes the target is base exactly when base is free. */
  lemma FinalTargetExact(m: FsMap, base: string, maxTry: int)
    ensures var r := FinalTarget(m, base, false, maxTry);
      && (r.Ok? <==> !Exists(m, base))
      && (r.Ok? ==> r.value == base)
      && (r.Err? ==> r.error == TargetExists(base))
  {
  }

  /** With suffixes the target is what probing yields from the first candidate of base's
      directory, stem and extension. */
  lemma FinalTargetIsProbe(m: FsMap, base: string, maxTry: int)
    ensures FinalTarget(m, base, true, maxTry) == Probe(m, base, PartsOf(base), 0, maxTry)
  {
  }

  /** A chosen target is free. */
  lemma FinalTargetFree(m: FsMap, base: string, suffix: bool, maxTry: int)
    ensures FinalTarget(m, base, suffix, maxTry).Ok? ==> !Exists(m, FinalTarget(m, base, suffix, maxTry).value)
  {
    if suffix {
      FinalTargetIsProbe(m, base, maxTry);
      ProbeFree(m, base, PartsOf(base), 0, maxTry);
    }
  }

  /** A candidate that probing returns is free. */
  lemma {:induction false} ProbeFree(m: FsMap, base: string, parts: NameParts, k: nat, maxTry: int)
    ensures Probe(m, base, parts, k, maxTry).Ok? ==> !Exists(m, Probe(m, base, parts, k, maxTry).value)
    decreases Limit(maxTry) - k
  {
    if Exists(m, Candidate(base, parts, k)) && k + 2 <= maxTry {
      ProbeFree(m, base, parts, k + 1, maxTry);
    }
  }

  /** One probing step past a taken candidate. */
  lemma ProbeStep(m: FsMap, base: string, parts: NameParts, k: nat, maxTry: int)
    requires Exists(m, Candidate(base, parts, k)) && k + 2 <= maxTry
    ensures Probe(m, base, parts, k, maxTry) == Probe(m, base, parts, k + 1, maxTry)
    ensures Candidate(base, parts, k + 1) == Suffixed(parts, k + 1)
  {
  }

  method GetFinalTargetPath(fs: OS, baseNewPath: string, suffix: bool, maxTry: int) returns (r: Result<string, Error>)
    ensures r == FinalTarget(fs.entries, baseNewPath, suffix, maxTry)
  {
    if !suffix {
      var st := fs.Stat(baseNewPath);
      if st.Some? {
        return Err(TargetExists(baseNewPath));
      }
      return Ok(baseNewPath);
    }
    var dir := Dir(baseNewPath);
    var baseName := Base(baseNewPath);
    var ext := Ext(baseName);
    var parts := NameParts(dir, TrimSuffix(baseName, ext), ext);
    assert parts == PartsOf(baseNewPath);
    FinalTargetIsProbe(fs.entries, baseNewPath, maxTry);
    r := ProbeCandidates(fs, baseNewPath, parts, maxTry);
  }

  /** The suffix loop of GetFinalTargetPath: stat the candidates in turn until one is free
      or the tries run out. */
  method ProbeCandidates(fs: OS, baseNewPath: string, parts: NameParts, maxTry: int) returns (r: Result<string, Error>)
    ensures r == Probe(fs.entries, baseNewPath, parts, 0, maxTry)
  {
    var tryCount := 1;
    var current := baseNewPath;
    while true
      invariant 1 <= tryCount && current == Candidate(baseNewPath, parts, tryCount - 1)
      invariant tryCount == 1 || tryCount <= maxTry
      invariant Probe(fs.entries, baseNewPath, parts, tryCount - 1, maxTry) == Probe(fs.entries, baseNewPath, parts, 0, maxTry)
      decreases Limit(maxTry) - tryCount
    {
      if fs.Stat(current).None? {
        return Ok(current);
      }
      ghost var taken := tryCount - 1;
      current := Suffixed(parts, tryCount);
      tryCount := tryCount + 1;
      if tryCount > maxTry {
        return Err(TooManyTries);
      }
      ProbeStep(fs.entries, baseNewPath, parts, taken, maxTry);
    }
  }

  /** RenameFile's result and the file system after it. */
  function RenameFileSpec(m: FsMap, oldPath: string, newPath: string, suffix: bool, maxTry: int): (Outcome<Error>, FsMap)
  {
    if !Exists(m, oldPath) then (Fail(SourceMissing(oldPath)), m)
    else if m[oldPath].Directory? then (Fail(SourceIsDirectory(oldPath)), m)
    else match FinalTarget(m, newPath, suffix, maxTry)
      case Err(e) => (Fail(e), m)
      case Ok(final) =>
        match RenameMap(m, oldPath, final)
        case Err(e) => (Fail(RenameFailed(e)), m)
        case Ok(m') => (Pass, m')
  }

  /** A rename succeeds exactly when the old path is a file and a non-empty free target is
      found; it then moves the file there and changes nothing else. A failed rename changes
      nothing. */
  lemma RenameFileEffect(m: FsMap, oldPath: string, newPath: string, suffix: bool, maxTry: int)
    ensures var (out, m') := RenameFileSpec(m, oldPath, newPath, suffix, maxTry);
      var t := FinalTarget(m, newPath, suffix, maxTry);
      && (out == Pass <==> IsFile(m, oldPath) && t.Ok? && t.value != [])
      && (out == Pass ==> !Exists(m, t.value) && m' == (m - {oldPath})[t.value := m[oldPath]])
      && (out.Fail? ==> m' == m)
  {
    FinalTargetFree(m, newPath, suffix, maxTry);
    var t := FinalTarget(m, newPath, suffix, maxTry);
    if IsFile(m, oldPath) && t.Ok? && t.value != [] {
      assert oldPath != t.value;
      assert RenameMap(m, oldPath, t.value) == Ok((m - {oldPath})[t.value := m[oldPath]]);
    }
  }

  method RenameFile(fs: OS, oldPath: string, newPath: string, suffix: bool, maxTry: int) returns (r: Outcome<Error>)
    modifies fs
    ensures (r, fs.entries) == RenameFileSpec(old(fs.entries), oldPath, newPath, suffix, maxTry)
  {
    var st := fs.Stat(oldPath);
    if st.None? {
      return Fail(SourceMissing(oldPath));
    }
    if st.value.Directory? {
      return Fail(SourceIsDirectory(oldPath));
    }
    var target := GetFinalTargetPath(fs, newPath, suffix, maxTry);
    if target.Err? {
      return Fail(target.error);
    }
    var res := fs.Rename(oldPath, target.value);
    if res.Fail? {
      return Fail(RenameFailed(res.error));
    }
    return Pass;
  }
}
