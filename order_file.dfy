/** Renumbering the files of a directory by modification time: every file is renamed to a
    zero-padded sequence number of the requested width followed by its extension, oldest first.
    The renames go through temporary names (the old path plus ".tmp") so that a file whose new
    name is another file's old name is not overwritten. */
module OrderFile {
  import opened Wrappers
  import opened Strings
  import opened Paths
  import opened FileSystem
  import opened Errors
  import opened FileUtil
  import opened Sorting
  import opened Ordering

  const TempSuffix: string := ".tmp"

  /** One file's old, temporary and final path. */
  datatype RenameItem = RenameItem(oldPath: string, tempPath: string, finalPath: string)

  function ModTimeOf(x: Meta): int
  {
    x.modTime
  }

  /** The checks WithOrderly makes before renaming anything, then its sort: on success the
      directory's files in ascending modification time. */
  ghost function OrderedMetas(m: FsMap, dir: string, length: int): Result<seq<Meta>, Error>
  {
    if dir == [] then Err(EmptyDirArgument)
    else if length <= 0 then Err(BadLength(length))
    else match GetFileMetasSpec(m, dir)
      case Err(e) => Err(e)
      case Ok(metas) =>
        if |metas| == 0 then Err(NothingToOrder(dir))
        else if NumDigits(|metas|) > length then Err(WidthTooSmall(|metas|, NumDigits(|metas|), length))
        else Ok(SortBy(metas, ModTimeOf))
  }

  /** The item for the file at position idx of the sorted list. */
  function ItemFor(dir: string, width: nat, idx: nat, meta: Meta): RenameItem
  {
    RenameItem(meta.fullPath, meta.fullPath + TempSuffix, Join(dir, ZeroPad(idx + 1, width) + meta.ext))
  }

  function RenameItems(dir: string, width: nat, metas: seq<Meta>): (items: seq<RenameItem>)
    ensures |items| == |metas|
  {
    seq(|metas|, i requires 0 <= i < |metas| => ItemFor(dir, width, i, metas[i]))
  }

  function OldPaths(items: seq<RenameItem>): (r: seq<string>)
    ensures |r| == |items| && forall i :: 0 <= i < |items| ==> r[i] == items[i].oldPath
  {
    seq(|items|, i requires 0 <= i < |items| => items[i].oldPath)
  }

  function FinalPaths(items: seq<RenameItem>): (r: seq<string>)
    ensures |r| == |items| && forall i :: 0 <= i < |items| ==> r[i] == items[i].finalPath
  {
    seq(|items|, i requires 0 <= i < |items| => items[i].finalPath)
  }

  function TempMoves(items: seq<RenameItem>): (ops: seq<Move>)
    ensures |ops| == |items| && forall i :: 0 <= i < |items| ==> ops[i] == Move(items[i].oldPath, items[i].tempPath)
  {
    seq(|items|, i requires 0 <= i < |items| => Move(items[i].oldPath, items[i].tempPath))
  }

  function FinalMoves(items: seq<RenameItem>): (ops: seq<Move>)
    ensures |ops| == |items| && forall i :: 0 <= i < |items| ==> ops[i] == Move(items[i].tempPath, items[i].finalPath)
  {
    seq(|items|, i requires 0 <= i < |items| => Move(items[i].tempPath, items[i].finalPath))
  }

  /** The two rename phases: every old path to its temporary path, then every temporary path to
      its final path; each phase stops at its first failure, leaving earlier renames in place. */
  function RunPlan(m: FsMap, items: seq<RenameItem>): (Outcome<Error>, FsMap)
  {
    var phase1 := RunMoves(m, TempMoves(items));
    if phase1.failed.Some? then (Fail(TempRenameFailed(phase1.failed.value.src, phase1.failed.value.dst)), phase1.fs)
    else
      var phase2 := RunMoves(phase1.fs, FinalMoves(items));
      if phase2.failed.Some? then (Fail(FinalRenameFailed(phase2.failed.value.src, phase2.failed.value.dst)), phase2.fs)
      else (Pass, phase2.fs)
  }

  /** The checks, the sort and the rename items, before anything is renamed. */
  ghost function PlanSpec(m: FsMap, dir: string, length: int): Result<seq<RenameItem>, Error>
  {
    match OrderedMetas(m, dir, length)
    case Err(e) => Err(e)
    case Ok(sorted) => Ok(RenameItems(dir, length as nat, sorted))
  }

  /** WithOrderly as written: its result and the file system after it. */
  ghost function WithOrderlySpec(m: FsMap, dir: string, length: int): (Outcome<Error>, FsMap)
  {
    match PlanSpec(m, dir, length)
    case Err(e) => (Fail(e), m)
    case Ok(items) => RunPlan(m, items)
  }

  // ---------------------------------------------------------------- the methods

  /** The loop that builds the rename items. */
  method BuildRenameItems(dir: string, width: nat, metas: seq<Meta>) returns (items: seq<RenameItem>)
    ensures items == RenameItems(dir, width, metas)
  {
    items := [];
    var idx := 0;
    while idx < |metas|
      invariant 0 <= idx <= |metas|
      invariant |items| == idx && forall k :: 0 <= k < idx ==> items[k] == ItemFor(dir, width, k, metas[k])
    {
      var meta := metas[idx];
      var seqStr := ZeroPad(idx + 1, width);
      var finalPath := Join(dir, seqStr + meta.ext);
      var tempPath := meta.fullPath + TempSuffix;
      items := items + [RenameItem(meta.fullPath, tempPath, finalPath)];
      idx := idx + 1;
    }
  }

  /** Renames one after the other and stops at the first failure. */
  method RunRenames(fs: OS, ops: seq<Move>) returns (failed: Option<Move>)
    modifies fs
    ensures RunResult(fs.entries, failed) == RunMoves(old(fs.entries), ops)
  {
    var i := 0;
    while i < |ops|
      invariant 0 <= i <= |ops|
      invariant RunMoves(old(fs.entries), ops) == RunMoves(fs.entries, ops[i..])
    {
      assert ops[i..][0] == ops[i] && ops[i..][1..] == ops[i + 1..];
      var res := fs.Rename(ops[i].src, ops[i].dst);
      if res.Fail? {
        return Some(ops[i]);
      }
      i := i + 1;
    }
    return None;
  }

  /** The checks, the sort and the rename items of WithOrderly; nothing is renamed yet. */
  method PlanRenames(fs: OS, dir: string, length: int) returns (r: Result<seq<RenameItem>, Error>)
    ensures r == PlanSpec(fs.entries, dir, length)
  {
    if dir == [] {
      return Err(EmptyDirArgument);
    }
    if length <= 0 {
      return Err(BadLength(length));
    }
    var metas := GetFileMetas(fs, dir);
    if metas.Err? {
      return Err(metas.error);
    }
    var metaList := metas.value;
    var fileCount := |metaList|;
    if fileCount == 0 {
      return Err(NothingToOrder(dir));
    }
    var digitCount := |NatToString(fileCount)|;
    if digitCount > length {
      return Err(WidthTooSmall(fileCount, digitCount, length));
    }
    metaList := SortBy(metaList, ModTimeOf);
    var items := BuildRenameItems(dir, length as nat, metaList);
    return Ok(items);
  }

  /** Both rename phases. */
  method ExecutePlan(fs: OS, items: seq<RenameItem>) returns (r: Outcome<Error>)
    modifies fs
    ensures (r, fs.entries) == RunPlan(old(fs.entries), items)
  {
    var failed := RunRenames(fs, TempMoves(items));
    if failed.Some? {
      return Fail(TempRenameFailed(failed.value.src, failed.value.dst));
    }
    failed := RunRenames(fs, FinalMoves(items));
    if failed.Some? {
      return Fail(FinalRenameFailed(failed.value.src, failed.value.dst));
    }
    return Pass;
  }

  method WithOrderly(fs: OS, dir: string, length: int) returns (r: Outcome<Error>)
    modifies fs
    ensures (r, fs.entries) == WithOrderlySpec(old(fs.entries), dir, length)
  {
    var plan := PlanRenames(fs, dir, length);
    if plan.Err? {
      return Fail(plan.error);
    }
    r := ExecutePlan(fs, plan.value);
  }

  // ---------------------------------------------------------------- properties

  /** The preliminary checks pass exactly when the directory is given, the width is positive,
      the path is a directory holding at least one file, and the width fits the file count
      (the count CountFiles reports); a run stopped by a check changes nothing. */
  lemma OrderedMetasChecks(m: FsMap, dir: string, length: int)
    ensures OrderedMetas(m, dir, length).Ok? <==>
      dir != [] && length > 0 && IsDir(m, dir) && CountFilesSpec(m, dir).0 > 0
      && NumDigits(CountFilesSpec(m, dir).0) <= length
    ensures OrderedMetas(m, dir, length).Err? ==>
      WithOrderlySpec(m, dir, length) == (Fail(OrderedMetas(m, dir, length).error), m)
  {
    GetFileMetasCorrect(m, dir);
    CountMatchesMetas(m, dir);
  }

  /** On success the sorted list is the scan, sorted by modification time. */
  lemma OrderedMetasValue(m: FsMap, dir: string, length: int)
    requires OrderedMetas(m, dir, length).Ok?
    ensures GetFileMetasSpec(m, dir).Ok? && NumDigits(|GetFileMetasSpec(m, dir).value|) <= length
    ensures OrderedMetas(m, dir, length).value == SortBy(GetFileMetasSpec(m, dir).value, ModTimeOf)
  {
  }

  /** The files are numbered in ascending modification time, and the numbered list is a
      rearrangement of the directory's files. */
  lemma OrderedByModTime(m: FsMap, dir: string, length: int)
    requires OrderedMetas(m, dir, length).Ok?
    ensures var sorted := OrderedMetas(m, dir, length).value;
      && multiset(sorted) == multiset(GetFileMetasSpec(m, dir).value)
      && forall i, j :: 0 <= i < j < |sorted| ==> sorted[i].modTime <= sorted[j].modTime
  {
    OrderedMetasValue(m, dir, length);
    SortByCorrect(GetFileMetasSpec(m, dir).value, ModTimeOf);
  }

  /** Path p is the final path of the file at position i: "<i+1 in exactly `width` digits><ext>"
      in dir. */
  ghost predicate NumberedAs(p: string, dir: string, width: nat, i: nat, ext: string)
  {
    var d := ZeroPad(i + 1, width);
    && |d| == width
    && (forall k :: 0 <= k < |d| ==> IsDigit(d[k]))
    && DecimalValue(d) == i + 1
    && p == Join(dir, d + ext)
    && Base(p) == d + ext
    && Ext(p) == ext
  }

  lemma SeqNameShape(i: nat, width: nat, ext: string)
    requires NumDigits(i + 1) <= width && Separator !in ext
    ensures |ZeroPad(i + 1, width)| == width
    ensures ValidName(ZeroPad(i + 1, width) + ext)
  {
    ZeroPadShape(i + 1, width);
    var z := ZeroPad(i + 1, width);
    assert Separator !in z by {
      forall k | 0 <= k < |z| ensures z[k] != Separator { assert IsDigit(z[k]); }
    }
  }

  /** The final path of one file. */
  lemma ItemNumbered(dir: string, width: nat, i: nat, meta: Meta)
    requires NumDigits(i + 1) <= width && meta.ext == Ext(meta.fullPath)
    ensures NumberedAs(ItemFor(dir, width, i, meta).finalPath, dir, width, i, meta.ext)
  {
    ExtShape(meta.fullPath);
    var name := ZeroPad(i + 1, width) + meta.ext;
    SeqNameShape(i, width, meta.ext);
    ZeroPadShape(i + 1, width);
    BaseOfJoin(dir, name);
    ExtOfJoin(dir, name);
    ExtNumbered(ZeroPad(i + 1, width), meta.fullPath);
  }

  /** Different positions never share a final path. */
  lemma NumberedDistinct(p: string, q: string, dir: string, width: nat, i: nat, j: nat, e1: string, e2: string)
    requires NumberedAs(p, dir, width, i, e1) && NumberedAs(q, dir, width, j, e2) && i != j
    requires Separator !in e1 && Separator !in e2 && NumDigits(i + 1) <= width && NumDigits(j + 1) <= width
    ensures p != q
  {
    var a := ZeroPad(i + 1, width) + e1;
    var b := ZeroPad(j + 1, width) + e2;
    SeqNameShape(i, width, e1);
    SeqNameShape(j, width, e2);
    assert a[..width] == ZeroPad(i + 1, width) && b[..width] == ZeroPad(j + 1, width);
    if p == q {
      JoinInjective(dir, a, b);
    }
  }

  /** A scanned file's record is what GetFileMeta gives for its path. */
  lemma ScannedMeta(m: FsMap, dir: string, metas: seq<Meta>, x: Meta)
    requires ScanResult(m, dir, metas) && x in metas
    ensures GetFileMeta(m, x.fullPath) == Ok(x) && x.ext == Ext(x.fullPath) && Separator !in x.ext
  {
    var k :| 0 <= k < |metas| && metas[k] == x;
    ExtShape(x.fullPath);
  }

  /** Facts about each sorted file that the numbering needs. */
  lemma SortedFacts(m: FsMap, dir: string, length: int, i: nat)
    requires OrderedMetas(m, dir, length).Ok? && i < |OrderedMetas(m, dir, length).value|
    ensures NumDigits(i + 1) <= length
    ensures var x := OrderedMetas(m, dir, length).value[i];
      Separator !in x.ext && x.ext == Ext(x.fullPath) && GetFileMeta(m, x.fullPath) == Ok(x)
  {
    OrderedMetasValue(m, dir, length);
    var metas := GetFileMetasSpec(m, dir).value;
    var sorted := OrderedMetas(m, dir, length).value;
    SortByCorrect(metas, ModTimeOf);
    NumDigitsMonotonic(i + 1, |metas|);
    assert sorted[i] in multiset(metas);
    GetFileMetasCorrect(m, dir);
    ScannedMeta(m, dir, metas, sorted[i]);
  }

  /** The file at position i gets the name "<i+1 in exactly `length` digits><its extension>" in
      the directory, and no two files get the same final path. */
  lemma FinalNames(m: FsMap, dir: string, length: int)
    requires OrderedMetas(m, dir, length).Ok?
    ensures var sorted := OrderedMetas(m, dir, length).value;
      var items := RenameItems(dir, length as nat, sorted);
      && (forall i :: 0 <= i < |items| ==> NumberedAs(items[i].finalPath, dir, length as nat, i, sorted[i].ext))
      && Distinct(FinalPaths(items))
  {
    var sorted := OrderedMetas(m, dir, length).value;
    var width := length as nat;
    var items := RenameItems(dir, width, sorted);
    forall i | 0 <= i < |items| ensures NumberedAs(items[i].finalPath, dir, width, i, sorted[i].ext) {
      SortedFacts(m, dir, length, i);
      ItemNumbered(dir, width, i, sorted[i]);
    }
    forall i, j | 0 <= i < j < |items| ensures FinalPaths(items)[i] != FinalPaths(items)[j] {
      SortedFacts(m, dir, length, i);
      SortedFacts(m, dir, length, j);
      NumberedDistinct(items[i].finalPath, items[j].finalPath, dir, width, i, j, sorted[i].ext, sorted[j].ext);
    }
  }

  /** A name made of digits and another name's extension has that extension. */
  lemma ExtNumbered(digits: string, fileName: string)
    requires forall k :: 0 <= k < |digits| ==> IsDigit(digits[k])
    ensures Ext(digits + Ext(fileName)) == Ext(fileName)
  {
    ExtShape(fileName);
    ExtSingleDot(fileName);
    var e := Ext(fileName);
    ExtAfterDigits(digits, e, |e|);
  }

  lemma {:induction false} ExtAfterDigits(digits: string, e: string, k: nat)
    requires forall i :: 0 <= i < |digits| ==> IsDigit(digits[i])
    requires k <= |e| && (e == [] || e[0] == '.') && Separator !in e
    requires forall i :: 1 <= i < |e| ==> e[i] != '.'
    ensures ExtBefore(digits + e, |digits| + k) == if k == 0 then [] else e
  {
    var p := digits + e;
    if k == 0 {
      ExtBeforeDigits(digits, e, |digits|);
    } else {
      assert p[|digits| + k - 1] == e[k - 1];
      if k == 1 {
        assert p[|digits|..] == e;
      } else {
        ExtAfterDigits(digits, e, k - 1);
      }
    }
  }

  lemma {:induction false} ExtBeforeDigits(digits: string, e: string, k: nat)
    requires forall i :: 0 <= i < |digits| ==> IsDigit(digits[i])
    requires k <= |digits|
    ensures ExtBefore(digits + e, k) == []
  {
    if k > 0 {
      assert (digits + e)[k - 1] == digits[k - 1];
      ExtBeforeDigits(digits, e, k - 1);
    }
  }

  // ---------------------------------------------------------------- the two phases

  /** No temporary path exists beforehand or is another file's final path, and every final path
      that exists beforehand is one of the files being renumbered. */
  predicate NoCollisions(m: FsMap, items: seq<RenameItem>)
  {
    forall i :: 0 <= i < |items| ==>
      && items[i].tempPath !in m
      && items[i].tempPath !in FinalPaths(items)
      && (items[i].finalPath in m ==> items[i].finalPath in OldPaths(items))
  }

  /** What a lossless renumbering leaves behind: the files being renumbered are gone from their
      old paths, each one's contents sit at its final path, and every other path is untouched. */
  ghost predicate Renumbered(m: FsMap, items: seq<RenameItem>, r: FsMap)
  {
    && (forall p :: p in r <==> (p in m && p !in OldPaths(items)) || p in FinalPaths(items))
    && (forall i :: 0 <= i < |items| ==>
          items[i].oldPath in m && items[i].finalPath in r && r[items[i].finalPath] == m[items[i].oldPath])
    && (forall p :: p in m && p !in OldPaths(items) ==> p in r && r[p] == m[p])
  }

  /** The shape the renumbering gives its items. */
  ghost predicate WellFormedPlan(m: FsMap, items: seq<RenameItem>)
  {
    && (forall i :: 0 <= i < |items| ==>
          IsFile(m, items[i].oldPath) && items[i].tempPath == items[i].oldPath + TempSuffix
          && items[i].finalPath != [])
    && Distinct(OldPaths(items))
    && Distinct(FinalPaths(items))
  }

  function TempPaths(items: seq<RenameItem>): (r: seq<string>)
    ensures |r| == |items| && forall i :: 0 <= i < |items| ==> r[i] == items[i].tempPath
  {
    seq(|items|, i requires 0 <= i < |items| => items[i].tempPath)
  }

  lemma MovePaths(items: seq<RenameItem>)
    ensures Srcs(TempMoves(items)) == OldPaths(items) && Dsts(TempMoves(items)) == TempPaths(items)
    ensures Srcs(FinalMoves(items)) == TempPaths(items) && Dsts(FinalMoves(items)) == FinalPaths(items)
  {
  }

  lemma TempPathsDistinct(m: FsMap, items: seq<RenameItem>)
    requires WellFormedPlan(m, items)
    ensures Distinct(TempPaths(items))
  {
    forall i, j | 0 <= i < j < |items| ensures TempPaths(items)[i] != TempPaths(items)[j] {
      assert OldPaths(items)[i] != OldPaths(items)[j];
      if items[i].tempPath == items[j].tempPath {
        AppendInjective(items[i].oldPath, items[j].oldPath, TempSuffix);
      }
    }
  }

  lemma TempMovesDisjoint(m: FsMap, items: seq<RenameItem>)
    requires WellFormedPlan(m, items) && NoCollisions(m, items)
    ensures RunMoves(m, TempMoves(items)).failed.None?
    ensures Moved(m, TempMoves(items), RunMoves(m, TempMoves(items)).fs)
  {
    var ops := TempMoves(items);
    TempPathsDistinct(m, items);
    forall i, j | 0 <= i < j < |ops| ensures ops[i].src != ops[j].src && ops[i].dst != ops[j].dst {
      assert OldPaths(items)[i] != OldPaths(items)[j];
      assert TempPaths(items)[i] != TempPaths(items)[j];
    }
    RunMovesDisjoint(m, ops);
  }

  /** After the first phase the i-th temporary path holds a file and the i-th final path is free. */
  lemma FinalMoveReady(m: FsMap, items: seq<RenameItem>, m1: FsMap, i: nat)
    requires WellFormedPlan(m, items) && NoCollisions(m, items) && i < |items|
    requires Moved(m, TempMoves(items), m1)
    ensures IsFile(m1, items[i].tempPath) && items[i].finalPath !in m1
  {
    MovePaths(items);
    assert TempMoves(items)[i] == Move(items[i].oldPath, items[i].tempPath);
    var f := items[i].finalPath;
    assert f in FinalPaths(items) by { assert FinalPaths(items)[i] == f; }
  }

  lemma FinalMovesDisjoint(m: FsMap, items: seq<RenameItem>, m1: FsMap)
    requires WellFormedPlan(m, items) && NoCollisions(m, items)
    requires Moved(m, TempMoves(items), m1)
    ensures RunMoves(m1, FinalMoves(items)).failed.None?
    ensures Moved(m1, FinalMoves(items), RunMoves(m1, FinalMoves(items)).fs)
  {
    var ops := FinalMoves(items);
    forall i | 0 <= i < |ops| ensures IsFile(m1, ops[i].src) && ops[i].dst != [] && ops[i].dst !in m1 {
      FinalMoveReady(m, items, m1, i);
    }
    TempPathsDistinct(m, items);
    forall i, j | 0 <= i < j < |ops| ensures ops[i].src != ops[j].src && ops[i].dst != ops[j].dst {
      assert TempPaths(items)[i] != TempPaths(items)[j];
      assert FinalPaths(items)[i] != FinalPaths(items)[j];
    }
    RunMovesDisjoint(m1, ops);
  }

  lemma MovedTwice(m: FsMap, items: seq<RenameItem>, m1: FsMap, r: FsMap)
    requires WellFormedPlan(m, items) && NoCollisions(m, items)
    requires Moved(m, TempMoves(items), m1) && Moved(m1, FinalMoves(items), r)
    ensures Renumbered(m, items, r)
  {
    MovePaths(items);
    forall i | 0 <= i < |items|
      ensures items[i].oldPath in m && items[i].finalPath in r && r[items[i].finalPath] == m[items[i].oldPath]
    {
      assert TempMoves(items)[i] == Move(items[i].oldPath, items[i].tempPath);
      assert FinalMoves(items)[i] == Move(items[i].tempPath, items[i].finalPath);
    }
  }

  /** Without collisions the two phases succeed and lose nothing. */
  lemma PlanCorrect(m: FsMap, items: seq<RenameItem>)
    requires WellFormedPlan(m, items) && NoCollisions(m, items)
    ensures RunPlan(m, items).0 == Pass && Renumbered(m, items, RunPlan(m, items).1)
  {
    TempMovesDisjoint(m, items);
    var m1 := RunMoves(m, TempMoves(items)).fs;
    FinalMovesDisjoint(m, items, m1);
    MovedTwice(m, items, m1, RunMoves(m1, FinalMoves(items)).fs);
  }

  // ---------------------------------------------------------------- the renumbering as a whole

  lemma StrictlySortedDistinct(s: seq<string>)
    requires StrictlySorted(s)
    ensures Distinct(s)
  {
    forall i, j | 0 <= i < j < |s| ensures s[i] != s[j] {
      if s[i] == s[j] { LessIrreflexive(s[i]); }
    }
  }

  /** The scanned files are pairwise different, hence so are the sorted ones. */
  lemma SortedDistinct(m: FsMap, dir: string, length: int)
    requires OrderedMetas(m, dir, length).Ok?
    ensures Distinct(OrderedMetas(m, dir, length).value)
  {
    OrderedMetasValue(m, dir, length);
    var metas := GetFileMetasSpec(m, dir).value;
    var sorted := OrderedMetas(m, dir, length).value;
    GetFileMetasCorrect(m, dir);
    SortByCorrect(metas, ModTimeOf);
    StrictlySortedDistinct(FileNames(metas));
    assert Distinct(metas) by {
      forall i, j | 0 <= i < j < |metas| ensures metas[i] != metas[j] {
        assert FileNames(metas)[i] != FileNames(metas)[j];
      }
    }
    DistinctPermutation(metas, sorted);
  }

  lemma SortedAreFiles(m: FsMap, dir: string, length: int)
    requires OrderedMetas(m, dir, length).Ok?
    ensures var sorted := OrderedMetas(m, dir, length).value;
      forall i :: 0 <= i < |sorted| ==> IsFile(m, sorted[i].fullPath)
  {
    var sorted := OrderedMetas(m, dir, length).value;
    forall i | 0 <= i < |sorted| ensures IsFile(m, sorted[i].fullPath) {
      SortedFacts(m, dir, length, i);
    }
  }

  lemma SortedPathsDistinct(m: FsMap, dir: string, length: int)
    requires OrderedMetas(m, dir, length).Ok?
    ensures var sorted := OrderedMetas(m, dir, length).value;
      forall i, j :: 0 <= i < j < |sorted| ==> sorted[i].fullPath != sorted[j].fullPath
  {
    var sorted := OrderedMetas(m, dir, length).value;
    SortedDistinct(m, dir, length);
    forall i, j | 0 <= i < j < |sorted| ensures sorted[i].fullPath != sorted[j].fullPath {
      SortedFacts(m, dir, length, i);
      SortedFacts(m, dir, length, j);
    }
  }

  /** The plan built from the sorted files has the expected shape. */
  lemma OrderedPlanWellFormed(m: FsMap, dir: string, length: int)
    requires OrderedMetas(m, dir, length).Ok?
    ensures WellFormedPlan(m, RenameItems(dir, length as nat, OrderedMetas(m, dir, length).value))
  {
    var sorted := OrderedMetas(m, dir, length).value;
    var items := RenameItems(dir, length as nat, sorted);
    FinalNames(m, dir, length);
    SortedAreFiles(m, dir, length);
    SortedPathsDistinct(m, dir, length);
    forall i | 0 <= i < |items| ensures items[i].finalPath != [] {
      assert NumberedAs(items[i].finalPath, dir, length as nat, i, sorted[i].ext);
    }
    assert Distinct(OldPaths(items)) by {
      forall i, j | 0 <= i < j < |items| ensures OldPaths(items)[i] != OldPaths(items)[j] {
        assert sorted[i].fullPath != sorted[j].fullPath;
      }
    }
  }

  /** When nothing collides, WithOrderly as written succeeds and every file's contents end up
      at its numbered path. */
  lemma WithOrderlyCorrectWithoutCollisions(m: FsMap, dir: string, length: int)
    requires OrderedMetas(m, dir, length).Ok?
    requires NoCollisions(m, RenameItems(dir, length as nat, OrderedMetas(m, dir, length).value))
    ensures var items := RenameItems(dir, length as nat, OrderedMetas(m, dir, length).value);
      WithOrderlySpec(m, dir, length).0 == Pass && Renumbered(m, items, WithOrderlySpec(m, dir, length).1)
  {
    OrderedPlanWellFormed(m, dir, length);
    PlanCorrect(m, RenameItems(dir, length as nat, OrderedMetas(m, dir, length).value));
  }

  // ---------------------------------------------------------------- the corrected renumbering

  /** The renumbering with a collision check before anything is renamed. */
  ghost function WithOrderlySafeSpec(m: FsMap, dir: string, length: int): (Outcome<Error>, FsMap)
  {
    match PlanSpec(m, dir, length)
    case Err(e) => (Fail(e), m)
    case Ok(items) => if NoCollisions(m, items) then RunPlan(m, items) else (Fail(NameCollision(dir)), m)
  }

  method WithOrderlySafe(fs: OS, dir: string, length: int) returns (r: Outcome<Error>)
    modifies fs
    ensures (r, fs.entries) == WithOrderlySafeSpec(old(fs.entries), dir, length)
  {
    var plan := PlanRenames(fs, dir, length);
    if plan.Err? {
      return Fail(plan.error);
    }
    if !NoCollisions(fs.entries, plan.value) {
      return Fail(NameCollision(dir));
    }
    r := ExecutePlan(fs, plan.value);
  }

  /** One item's temporary path is another's final path: a collision. */
  lemma TempIsFinal(m: FsMap, items: seq<RenameItem>, i: nat, j: nat)
    requires i < |items| && j < |items| && items[i].tempPath == items[j].finalPath
    ensures !NoCollisions(m, items)
  {
    assert FinalPaths(items)[j] == items[i].tempPath;
  }

  /** A plan with a collision is refused before anything is renamed. */
  lemma SafeRefuses(m: FsMap, dir: string, length: int)
    requires PlanSpec(m, dir, length).Ok? && !NoCollisions(m, PlanSpec(m, dir, length).value)
    ensures WithOrderlySafeSpec(m, dir, length) == (Fail(NameCollision(dir)), m)
  {
  }

  /** The corrected renumbering either changes nothing and reports why, or succeeds and loses
      nothing; it succeeds exactly when the checks pass and no name collides. */
  lemma WithOrderlySafeCorrect(m: FsMap, dir: string, length: int)
    ensures var (r, m') := WithOrderlySafeSpec(m, dir, length);
      && (r.Fail? ==> m' == m)
      && (r == Pass <==> PlanSpec(m, dir, length).Ok? && NoCollisions(m, PlanSpec(m, dir, length).value))
      && (r == Pass ==> Renumbered(m, PlanSpec(m, dir, length).value, m'))
  {
    if PlanSpec(m, dir, length).Ok? && NoCollisions(m, PlanSpec(m, dir, length).value) {
      OrderedPlanWellFormed(m, dir, length);
      PlanCorrect(m, PlanSpec(m, dir, length).value);
    }
  }

  // ---------------------------------------------------------------- a directory that loses a file

  lemma SortedPair(a: string, b: string)
    requires Less(a, b)
    ensures SortedSeq({a, b}) == [a, b]
  {
    SortedSeqProperties({a, b});
    LessIrreflexive(a);
    StrictlySortedUnique(SortedSeq({a, b}), [a, b]);
  }

  /** A directory with exactly two entries, both files, listed as a then b. */
  lemma ListingOfTwo(m: FsMap, dir: string, a: string, b: string)
    requires IsDir(m, dir) && Children(m, dir) == {a, b} && Less(a, b)
    requires IsFile(m, Join(dir, a)) && IsFile(m, Join(dir, b))
    ensures ReadDirSpec(m, dir) == Ok([DirEntry(a, false), DirEntry(b, false)])
  {
    SortedPair(a, b);
    EntriesOfTwo(m, dir, a, b);
  }

  lemma EntriesOfTwo(m: FsMap, dir: string, a: string, b: string)
    requires IsFile(m, Join(dir, a)) && IsFile(m, Join(dir, b))
    ensures EntriesOf(m, dir, [a, b]) == [DirEntry(a, false), DirEntry(b, false)]
  {
    var es := EntriesOf(m, dir, [a, b]);
    assert es[0] == DirEntry(a, false);
    assert es[1] == DirEntry(b, false);
  }

  /** Two listed files whose names are not ignored are both scanned, in listing order. */
  lemma MetasOfTwo(m: FsMap, dir: string, a: string, b: string)
    requires !FilterFile(a) && !FilterFile(b) && IsFile(m, Join(dir, a)) && IsFile(m, Join(dir, b))
    ensures MetasFrom(m, dir, [DirEntry(a, false), DirEntry(b, false)]) == Ok([
      Meta(Join(dir, a), a, Ext(a), m[Join(dir, a)].modTime),
      Meta(Join(dir, b), b, Ext(b), m[Join(dir, b)].modTime)])
  {
    var es := [DirEntry(a, false), DirEntry(b, false)];
    var ma := Meta(Join(dir, a), a, Ext(a), m[Join(dir, a)].modTime);
    var mb := Meta(Join(dir, b), b, Ext(b), m[Join(dir, b)].modTime);
    assert es[..0] == [] && es[..2] == es;
    assert MetasFrom(m, dir, es[..0]) == Ok([]);
    MetasFromStep(m, dir, es, 0);
    assert [] + [ma] == [ma];
    assert MetasFrom(m, dir, es[..1]) == Ok([ma]);
    MetasFromStep(m, dir, es, 1);
    assert [ma] + [mb] == [ma, mb];
  }

  lemma SortPair(x: Meta, y: Meta)
    requires y.modTime < x.modTime
    ensures SortBy([x, y], ModTimeOf) == [y, x]
  {
    assert [x, y][1..] == [y] && [y][1..] == [];
    assert Insert(y, [], ModTimeOf) == [y];
    assert SortBy([y], ModTimeOf) == [y];
    assert Insert(x, [y], ModTimeOf) == [y, x];
  }

  lemma ItemsPair(dir: string, width: nat, y: Meta, x: Meta)
    ensures RenameItems(dir, width, [y, x]) == [ItemFor(dir, width, 0, y), ItemFor(dir, width, 1, x)]
  {
    var items := RenameItems(dir, width, [y, x]);
    assert items[0] == ItemFor(dir, width, 0, y) && items[1] == ItemFor(dir, width, 1, x);
  }

  /** Two scanned files, the second one older: the older one is numbered 1. */
  lemma PlanOfTwo(m: FsMap, dir: string, length: int, x: Meta, y: Meta)
    requires dir != [] && length >= 1 && GetFileMetasSpec(m, dir) == Ok([x, y]) && y.modTime < x.modTime
    ensures PlanSpec(m, dir, length) == Ok([ItemFor(dir, length as nat, 0, y), ItemFor(dir, length as nat, 1, x)])
  {
    OrderedOfTwo(m, dir, length, x, y);
    ItemsPair(dir, length as nat, y, x);
  }

  lemma OrderedOfTwo(m: FsMap, dir: string, length: int, x: Meta, y: Meta)
    requires dir != [] && length >= 1 && GetFileMetasSpec(m, dir) == Ok([x, y]) && y.modTime < x.modTime
    ensures OrderedMetas(m, dir, length) == Ok([y, x])
  {
    assert NumDigits(2) == 1;
    SortPair(x, y);
  }

  /** Two files where the first one's final path is the second one's temporary path: both phases
      succeed, and the second file's contents are overwritten and lost. */
  lemma CollisionLosesFile(m: FsMap, i0: RenameItem, i1: RenameItem)
    requires IsFile(m, i0.oldPath) && IsFile(m, i1.oldPath) && i0.oldPath != i1.oldPath
    requires i0.tempPath != [] && i1.tempPath != [] && i0.tempPath !in m && i1.tempPath !in m
    requires i0.tempPath != i1.tempPath && i0.finalPath == i1.tempPath
    requires i1.finalPath != [] && i1.finalPath !in m && i1.finalPath != i0.tempPath && i1.finalPath != i1.tempPath
    ensures RunPlan(m, [i0, i1]) == (Pass, (m - {i0.oldPath, i1.oldPath})[i1.finalPath := m[i0.oldPath]])
  {
    var o0, o1, t0, t1, f1 := i0.oldPath, i1.oldPath, i0.tempPath, i1.tempPath, i1.finalPath;
    var m1 := (m - {o0})[t0 := m[o0]];
    var m2 := (m1 - {o1})[t1 := m[o1]];
    var m3 := (m2 - {t0})[t1 := m[o0]];
    var m4 := (m3 - {t1})[f1 := m[o0]];
    assert RenameMap(m, o0, t0) == Ok(m1);
    assert RenameMap(m1, o1, t1) == Ok(m2);
    RunTwo(m, Move(o0, t0), Move(o1, t1), m1, m2);
    assert TempMoves([i0, i1]) == [Move(o0, t0), Move(o1, t1)];
    assert RenameMap(m2, t0, t1) == Ok(m3);
    assert RenameMap(m3, t1, f1) == Ok(m4);
    RunTwo(m2, Move(t0, t1), Move(t1, f1), m3, m4);
    assert FinalMoves([i0, i1]) == [Move(t0, t1), Move(t1, f1)];
    assert m4 == (m - {o0, o1})[f1 := m[o0]];
  }

  /** Two renames that both succeed. */
  lemma RunTwo(m: FsMap, op0: Move, op1: Move, m1: FsMap, m2: FsMap)
    requires RenameMap(m, op0.src, op0.dst) == Ok(m1) && RenameMap(m1, op1.src, op1.dst) == Ok(m2)
    ensures RunMoves(m, [op0, op1]) == RunResult(m2, None)
  {
    var ops := [op0, op1];
    assert ops[1..] == [op1] && ops[1..][1..] == [];
    assert RunMoves(m2, []) == RunResult(m2, None);
    assert RunMoves(m1, [op1]) == RunResult(m2, None);
  }

  /** "/d" holds "x.tmp" (older) and "0001" (newer). */
  function LossyDir(): FsMap
  {
    map["/d" := Directory, "/d/x.tmp" := File(1, 10), "/d/0001" := File(2, 20)]
  }

  lemma LossyJoins()
    ensures Join("/d", "0001") == "/d/0001" && Join("/d", "x.tmp") == "/d/x.tmp"
    ensures Join("/d", "0001.tmp") == "/d/0001.tmp" && Join("/d", "0002") == "/d/0002"
  {
  }

  lemma LossyChildren()
    ensures Children(LossyDir(), "/d") == {"0001", "x.tmp"}
  {
    LossyJoins();
    assert ValidName("0001") && ValidName("x.tmp");
    assert LossyDir().Keys == {"/d", Join("/d", "0001"), Join("/d", "x.tmp")};
    ChildrenOfTwo(LossyDir(), "/d", "0001", "x.tmp");
  }

  /** A directory whose only entries below it are two names. */
  lemma ChildrenOfTwo(m: FsMap, dir: string, a: string, b: string)
    requires dir != [] && ValidName(a) && ValidName(b)
    requires m.Keys == {dir, Join(dir, a), Join(dir, b)}
    ensures Children(m, dir) == {a, b}
  {
    forall n ensures n in {a, b} <==> ValidName(n) && Exists(m, Join(dir, n)) {
      EntryOfTwo(m, dir, a, b, n);
    }
    ChildrenExactly(m, dir, {a, b});
  }

  lemma EntryOfTwo(m: FsMap, dir: string, a: string, b: string, n: string)
    requires dir != [] && ValidName(a) && ValidName(b)
    requires m.Keys == {dir, Join(dir, a), Join(dir, b)}
    ensures ValidName(n) && Exists(m, Join(dir, n)) <==> n == a || n == b
  {
    JoinLonger(dir, a);
    JoinLonger(dir, b);
    if ValidName(n) && Exists(m, Join(dir, n)) {
      var p := Join(dir, n);
      JoinLonger(dir, n);
      assert p in m.Keys && p != dir;
      if p == Join(dir, a) { JoinInjective(dir, n, a); } else { JoinInjective(dir, n, b); }
    }
  }

  lemma LossyNames()
    ensures Less("0001", "x.tmp") && !FilterFile("0001") && !FilterFile("x.tmp")
    ensures Ext("0001") == "" && Ext("x.tmp") == ".tmp"
  {
    assert ExtBefore("0001", 0) == "";
    assert ExtBefore("0001", 2) == "";
    assert ExtBefore("0001", 4) == "";
    assert ExtBefore("x.tmp", 2) == ".tmp";
    assert ExtBefore("x.tmp", 4) == ".tmp";
  }

  lemma LossyNumbers()
    ensures ZeroPad(1, 4) == "0001" && ZeroPad(2, 4) == "0002"
  {
  }

  lemma LossyPlan()
    ensures PlanSpec(LossyDir(), "/d", 4) == Ok([
      RenameItem("/d/x.tmp", "/d/x.tmp.tmp", "/d/0001.tmp"),
      RenameItem("/d/0001", "/d/0001.tmp", "/d/0002")])
  {
    var m := LossyDir();
    LossyJoins();
    LossyChildren();
    LossyNames();
    LossyNumbers();
    assert IsDir(m, "/d") && IsFile(m, "/d/0001") && IsFile(m, "/d/x.tmp");
    assert m["/d/0001"].modTime == 2 && m["/d/x.tmp"].modTime == 1;
    ListingOfTwo(m, "/d", "0001", "x.tmp");
    MetasOfTwo(m, "/d", "0001", "x.tmp");
    assert GetFileMetasSpec(m, "/d") == MetasFrom(m, "/d", [DirEntry("0001", false), DirEntry("x.tmp", false)]);
    assert GetFileMetasSpec(m, "/d") == Ok([Meta("/d/0001", "0001", "", 2), Meta("/d/x.tmp", "x.tmp", ".tmp", 1)]);
    var x, y := Meta("/d/0001", "0001", "", 2), Meta("/d/x.tmp", "x.tmp", ".tmp", 1);
    PlanOfTwo(m, "/d", 4, x, y);
    LossyItems();
  }

  lemma LossyItems()
    ensures ItemFor("/d", 4, 0, Meta("/d/x.tmp", "x.tmp", ".tmp", 1))
      == RenameItem("/d/x.tmp", "/d/x.tmp.tmp", "/d/0001.tmp")
    ensures ItemFor("/d", 4, 1, Meta("/d/0001", "0001", "", 2)) == RenameItem("/d/0001", "/d/0001.tmp", "/d/0002")
  {
    LossyNumbers();
    LossyJoins();
    assert "0001" + ".tmp" == "0001.tmp" && "0002" + "" == "0002";
    assert "/d/x.tmp" + TempSuffix == "/d/x.tmp.tmp" && "/d/0001" + TempSuffix == "/d/0001.tmp";
  }

  lemma LossyRun()
    ensures RunPlan(LossyDir(), [
      RenameItem("/d/x.tmp", "/d/x.tmp.tmp", "/d/0001.tmp"),
      RenameItem("/d/0001", "/d/0001.tmp", "/d/0002")]) == (Pass, map["/d" := Directory, "/d/0002" := File(1, 10)])
  {
    var m := LossyDir();
    CollisionLosesFile(m,
      RenameItem("/d/x.tmp", "/d/x.tmp.tmp", "/d/0001.tmp"),
      RenameItem("/d/0001", "/d/0001.tmp", "/d/0002"));
    assert (m - {"/d/x.tmp", "/d/0001"})["/d/0002" := m["/d/x.tmp"]] == map["/d" := Directory, "/d/0002" := File(1, 10)];
  }

  /** Renumbering the directory with width 4 reports success, yet the newer file's contents are
      gone: the older file's final name "0001.tmp" is the newer file's temporary name. */
  lemma WithOrderlyLosesFile()
    ensures WithOrderlySpec(LossyDir(), "/d", 4) == (Pass, map["/d" := Directory, "/d/0002" := File(1, 10)])
    ensures File(2, 20) in LossyDir().Values && File(2, 20) !in WithOrderlySpec(LossyDir(), "/d", 4).1.Values
  {
    LossyPlan();
    LossyRun();
    RunsPlan(LossyDir(), "/d", 4);
    NotAmongTwo("/d", "/d/0002", Directory, File(1, 10), File(2, 20));
    assert LossyDir()["/d/0001"] == File(2, 20);
  }

  /** Once the checks pass, WithOrderly runs the plan. */
  lemma RunsPlan(m: FsMap, dir: string, length: int)
    requires PlanSpec(m, dir, length).Ok?
    ensures WithOrderlySpec(m, dir, length) == RunPlan(m, PlanSpec(m, dir, length).value)
  {
  }

  lemma NotAmongTwo<K, V>(a: K, b: K, x: V, y: V, z: V)
    requires z != x && z != y
    ensures z !in map[a := x, b := y].Values
  {
  }

  /** The corrected renumbering refuses the same directory and leaves it as it was. */
  lemma WithOrderlySafeRefusesLossyDir()
    ensures WithOrderlySafeSpec(LossyDir(), "/d", 4) == (Fail(NameCollision("/d")), LossyDir())
  {
    LossyPlan();
    var items := [
      RenameItem("/d/x.tmp", "/d/x.tmp.tmp", "/d/0001.tmp"),
      RenameItem("/d/0001", "/d/0001.tmp", "/d/0002")];
    TempIsFinal(LossyDir(), items, 1, 0);
    SafeRefuses(LossyDir(), "/d", 4);
  }
}
