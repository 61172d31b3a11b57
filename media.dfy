/** The media handler: listing the images and videos below the selected directory, newest
    first, with the addresses the built-in file server gives them; and the older single-phase
    renumbering, which names every file of a directory after its rank by modification time as a
    five-digit number, the newest getting the highest number. */
module Media {
  import opened Wrappers
  import opened Strings
  import opened Paths
  import opened FileSystem
  import opened Errors
  import opened FileUtil
  import opened Sorting
  import opened Ordering

  /** The width of fmt's "%05d". */
  const NameWidth: nat := 5

  /** fmt's "%0*d": zero padding to the width, which counts the sign of a negative number. */
  function PadNumber(n: int, width: nat): string
  {
    if n >= 0 then ZeroPad(n, width) else "-" + ZeroPad(-n, if width > 0 then width - 1 else 0)
  }

  /** The sort key that puts the newest file first. */
  function NewestFirst(x: Meta): int
  {
    -x.modTime
  }

  /** The path the file `meta` is renamed to when it gets the number n. */
  function MediaTarget(dir: string, n: int, meta: Meta): string
  {
    Join(dir, PadNumber(n, NameWidth) + meta.ext)
  }

  // ---------------------------------------------------------------- renumbering

  /** The renaming loop of fixMediaFilename over files numbered from lastIndex down: a file
      already at its target is left alone, the others are renamed without a suffix, and the
      first rename that fails ends the loop with its error, earlier renames staying in effect. */
  function RenameDown(m: FsMap, dir: string, metas: seq<Meta>, lastIndex: int): (Option<Error>, FsMap)
    decreases |metas|
  {
    if metas == [] then (None, m)
    else
      var target := MediaTarget(dir, lastIndex, metas[0]);
      if metas[0].fullPath == target then RenameDown(m, dir, metas[1..], lastIndex - 1)
      else
        var (out, m') := RenameFileSpec(m, metas[0].fullPath, target, false, -1);
        match out
        case Fail(e) => (Some(e), m)
        case Pass => RenameDown(m', dir, metas[1..], lastIndex - 1)
  }

  /** fixMediaFilename: its error, if any, and the file system after it. */
  ghost function FixSpec(m: FsMap, dir: string): (Option<Error>, FsMap)
  {
    if !Exists(m, dir) then (Some(DirNotFound(dir)), m)
    else if !IsDir(m, dir) then (Some(NotAFolder(dir)), m)
    else match GetFileMetasSpec(m, dir)
      case Err(e) => (Some(e), m)
      case Ok(metas) =>
        var (count, countErr) := CountFilesSpec(m, dir);
        if countErr.Some? then (countErr, m)
        else RenameDown(m, dir, SortBy(metas, NewestFirst), count)
  }

  method FixMediaFilename(fs: OS, dir: string) returns (err: Option<Error>)
    modifies fs
    ensures (err, fs.entries) == FixSpec(old(fs.entries), dir)
  {
    var st := fs.Stat(dir);
    if st.None? {
      return Some(DirNotFound(dir));
    }
    if !st.value.Directory? {
      return Some(NotAFolder(dir));
    }
    var scanned := GetFileMetas(fs, dir);
    if scanned.Err? {
      return Some(scanned.error);
    }
    var metas := SortBy(scanned.value, NewestFirst);
    var lastIndex, countErr := CountFiles(fs, dir);
    if countErr.Some? {
      return countErr;
    }
    err := RenameAll(fs, dir, metas, lastIndex);
  }

  /** The loop of fixMediaFilename. */
  method RenameAll(fs: OS, dir: string, metas: seq<Meta>, lastIndex: int) returns (err: Option<Error>)
    modifies fs
    ensures (err, fs.entries) == RenameDown(old(fs.entries), dir, metas, lastIndex)
  {
    var i := 0;
    var index := lastIndex;
    while i < |metas|
      invariant 0 <= i <= |metas| && index == lastIndex - i
      invariant RenameDown(old(fs.entries), dir, metas, lastIndex) == RenameDown(fs.entries, dir, metas[i..], index)
    {
      var meta := metas[i];
      assert metas[i..][1..] == metas[i + 1..];
      var newFullPath := Join(dir, PadNumber(index, NameWidth) + meta.ext);
      if meta.fullPath != newFullPath {
        var r := RenameFile(fs, meta.fullPath, newFullPath, false, -1);
        if r.Fail? {
          return Some(r.error);
        }
      }
      index := index - 1;
      i := i + 1;
    }
    return None;
  }

  function FullPaths(metas: seq<Meta>): (r: seq<string>)
    ensures |r| == |metas| && forall k {:trigger r[k]} :: 0 <= k < |metas| ==> r[k] == metas[k].fullPath
    decreases |metas|
  {
    if metas == [] then [] else [metas[0].fullPath] + FullPaths(metas[1..])
  }

  function Targets(dir: string, metas: seq<Meta>, lastIndex: int): (r: seq<string>)
    ensures |r| == |metas| && forall k {:trigger r[k]} :: 0 <= k < |metas| ==> r[k] == MediaTarget(dir, lastIndex - k, metas[k])
    decreases |metas|
  {
    if metas == [] then [] else [MediaTarget(dir, lastIndex, metas[0])] + Targets(dir, metas[1..], lastIndex - 1)
  }

  /** What the renaming loop is given: different files, and different non-empty targets. */
  ghost predicate Renamable(m: FsMap, dir: string, metas: seq<Meta>, lastIndex: int)
  {
    && (forall k :: 0 <= k < |metas| ==> IsFile(m, metas[k].fullPath))
    && Distinct(FullPaths(metas))
    && Distinct(Targets(dir, metas, lastIndex))
    && (forall k :: 0 <= k < |metas| ==> Targets(dir, metas, lastIndex)[k] != [])
  }

  /** Every source's entry sits at its target; every other path is untouched; nothing else
      exists afterwards. */
  ghost predicate Numbered<K, V>(m: map<K, V>, sources: seq<K>, targets: seq<K>, r: map<K, V>)
    requires |sources| == |targets|
  {
    && (forall k :: 0 <= k < |sources| ==> sources[k] in m && targets[k] in r && r[targets[k]] == m[sources[k]])
    && (forall p :: p in m && p !in sources && p !in targets ==> p in r && r[p] == m[p])
    && (forall p :: p in r ==> (p in m && p !in sources) || p in targets)
  }

  /** Every file sits, unchanged, at its target; every other path is untouched. */
  ghost predicate NumberedAll(m: FsMap, dir: string, metas: seq<Meta>, lastIndex: int, r: FsMap)
  {
    Numbered(m, FullPaths(metas), Targets(dir, metas, lastIndex), r)
  }

  /** The state after the first step of the loop when that step succeeds. */
  function FirstStep(m: FsMap, dir: string, metas: seq<Meta>, lastIndex: int): FsMap
    requires metas != []
  {
    var target := MediaTarget(dir, lastIndex, metas[0]);
    if metas[0].fullPath == target then m else RenameFileSpec(m, metas[0].fullPath, target, false, -1).1
  }

  /** The first step either skips a file already in place, or moves it to its free target, or
      fails because the target exists, changing nothing. */
  lemma FirstStepEffect(m: FsMap, dir: string, metas: seq<Meta>, lastIndex: int)
    requires metas != [] && Renamable(m, dir, metas, lastIndex)
    ensures var p, t := metas[0].fullPath, Targets(dir, metas, lastIndex)[0];
      && (p == t ==>
            RenameDown(m, dir, metas, lastIndex) == RenameDown(m, dir, metas[1..], lastIndex - 1)
            && FirstStep(m, dir, metas, lastIndex) == m)
      && (p != t && Exists(m, t) ==> RenameDown(m, dir, metas, lastIndex) == (Some(TargetExists(t)), m))
      && (p != t && !Exists(m, t) ==>
            && FirstStep(m, dir, metas, lastIndex) == (m - {p})[t := m[p]]
            && RenameDown(m, dir, metas, lastIndex) == RenameDown(FirstStep(m, dir, metas, lastIndex), dir, metas[1..], lastIndex - 1))
  {
    var p, t := metas[0].fullPath, Targets(dir, metas, lastIndex)[0];
    RenameFileEffect(m, p, t, false, -1);
    FinalTargetExact(m, t, -1);
  }

  /** The rest of the loop is given what it needs once the first step succeeded. */
  lemma RenamableTail(m: FsMap, dir: string, metas: seq<Meta>, lastIndex: int)
    requires metas != [] && Renamable(m, dir, metas, lastIndex)
    requires metas[0].fullPath == Targets(dir, metas, lastIndex)[0] || !Exists(m, Targets(dir, metas, lastIndex)[0])
    ensures Renamable(FirstStep(m, dir, metas, lastIndex), dir, metas[1..], lastIndex - 1)
  {
    FirstStepEffect(m, dir, metas, lastIndex);
    var tail := metas[1..];
    var m1 := FirstStep(m, dir, metas, lastIndex);
    forall k | 0 <= k < |tail| ensures IsFile(m1, tail[k].fullPath) {
      assert FullPaths(metas)[0] != FullPaths(metas)[k + 1];
    }
    forall i, j | 0 <= i < j < |tail| ensures FullPaths(tail)[i] != FullPaths(tail)[j] {
      assert FullPaths(metas)[i + 1] != FullPaths(metas)[j + 1];
    }
    var tt, all := Targets(dir, tail, lastIndex - 1), Targets(dir, metas, lastIndex);
    forall i, j | 0 <= i < j < |tail| ensures tt[i] != tt[j] {
      assert all[i + 1] != all[j + 1];
    }
    forall k | 0 <= k < |tail| ensures tt[k] != [] {
      assert all[k + 1] != [];
    }
  }

  /** Splitting off the first file. */
  lemma SplitFirst(dir: string, metas: seq<Meta>, lastIndex: int)
    requires metas != []
    ensures FullPaths(metas) == [metas[0].fullPath] + FullPaths(metas[1..])
    ensures Targets(dir, metas, lastIndex) == [Targets(dir, metas, lastIndex)[0]] + Targets(dir, metas[1..], lastIndex - 1)
  {
  }

  /** One step of the numbering argument, on any map: when the rest of the sources already sit
      at the rest of the targets, starting from the state after the first step, all of them
      sit at their targets starting from the state before it. */
  lemma NumberedCons<K, V>(m: map<K, V>, m1: map<K, V>, p: K, t: K, sources: seq<K>, targets: seq<K>, r: map<K, V>)
    requires |sources| == |targets| && p !in sources && t !in targets
    requires forall s :: s in sources ==> s in m
    requires p in m
    requires (p == t && m1 == m) || (p != t && t !in m && m1 == (m - {p})[t := m[p]])
    requires Numbered(m1, sources, targets, r)
    ensures Numbered(m, [p] + sources, [t] + targets, r)
  {
    assert t !in sources;
    var S, T := [p] + sources, [t] + targets;
    forall k | 0 <= k < |S| ensures S[k] in m && T[k] in r && r[T[k]] == m[S[k]] {
      if k > 0 {
        assert S[k] == sources[k - 1] && T[k] == targets[k - 1];
      }
    }
  }

  /** When the whole loop succeeds, every file sits, unchanged, at the name its number gives
      it, and nothing else was touched: no file was overwritten. */
  lemma {:induction false} RenameDownSuccess(m: FsMap, dir: string, metas: seq<Meta>, lastIndex: int)
    requires Renamable(m, dir, metas, lastIndex)
    requires RenameDown(m, dir, metas, lastIndex).0.None?
    ensures NumberedAll(m, dir, metas, lastIndex, RenameDown(m, dir, metas, lastIndex).1)
    decreases |metas|
  {
    if metas != [] {
      FirstStepOk(m, dir, metas, lastIndex);
      var m1 := FirstStep(m, dir, metas, lastIndex);
      RenamableTail(m, dir, metas, lastIndex);
      RenameDownSuccess(m1, dir, metas[1..], lastIndex - 1);
      NumberedAfterFirst(m, m1, dir, metas, lastIndex, RenameDown(m, dir, metas, lastIndex).1);
    }
  }

  /** Numbering the rest after the first step numbers all the files. */
  lemma NumberedAfterFirst(m: FsMap, m1: FsMap, dir: string, metas: seq<Meta>, lastIndex: int, r: FsMap)
    requires metas != [] && Renamable(m, dir, metas, lastIndex)
    requires var p, t := metas[0].fullPath, Targets(dir, metas, lastIndex)[0];
      (p == t && m1 == m) || (p != t && t !in m && m1 == (m - {p})[t := m[p]])
    requires NumberedAll(m1, dir, metas[1..], lastIndex - 1, r)
    ensures NumberedAll(m, dir, metas, lastIndex, r)
  {
    var p, t := metas[0].fullPath, Targets(dir, metas, lastIndex)[0];
    var tail := metas[1..];
    SplitFirst(dir, metas, lastIndex);
    var S, T := FullPaths(tail), Targets(dir, tail, lastIndex - 1);
    assert p !in S && t !in T by {
      DistinctCons(p, S);
      DistinctCons(t, T);
    }
    assert forall s :: s in S ==> s in m by {
      forall s | s in S ensures s in m {
        var k :| 0 <= k < |S| && S[k] == s;
        assert IsFile(m, metas[k + 1].fullPath);
      }
    }
    NumberedCons(m, m1, p, t, S, T, r);
  }

  /** In a loop that succeeds, the first step leaves a file in place or moves it to its free
      target, and the loop goes on from there. */
  lemma FirstStepOk(m: FsMap, dir: string, metas: seq<Meta>, lastIndex: int)
    requires metas != [] && Renamable(m, dir, metas, lastIndex)
    requires RenameDown(m, dir, metas, lastIndex).0.None?
    ensures var p, t, m1 := metas[0].fullPath, Targets(dir, metas, lastIndex)[0], FirstStep(m, dir, metas, lastIndex);
      && (p == t || !Exists(m, t))
      && ((p == t && m1 == m) || (p != t && t !in m && m1 == (m - {p})[t := m[p]]))
      && RenameDown(m, dir, metas, lastIndex) == RenameDown(m1, dir, metas[1..], lastIndex - 1)
  {
    FirstStepEffect(m, dir, metas, lastIndex);
  }

  lemma DistinctCons<T>(x: T, s: seq<T>)
    requires Distinct([x] + s)
    ensures x !in s
  {
    forall k | 0 <= k < |s| ensures s[k] != x {
      assert ([x] + s)[0] == x && ([x] + s)[k + 1] == s[k];
    }
  }

  /** When the loop fails, it failed at some file k whose target already existed once the
      files before it were renumbered; those renames stay in effect and nothing after k was
      touched. */
  lemma {:induction false} RenameDownStops(m: FsMap, dir: string, metas: seq<Meta>, lastIndex: int) returns (k: nat)
    requires Renamable(m, dir, metas, lastIndex)
    requires RenameDown(m, dir, metas, lastIndex).0.Some?
    ensures k < |metas|
    ensures var before := RenameDown(m, dir, metas[..k], lastIndex);
      var t := Targets(dir, metas, lastIndex)[k];
      && before.0.None?
      && metas[k].fullPath != t && Exists(before.1, t)
      && RenameDown(m, dir, metas, lastIndex) == (Some(TargetExists(t)), before.1)
    decreases |metas|
  {
    var t := Targets(dir, metas, lastIndex)[0];
    if metas[0].fullPath != t && Exists(m, t) {
      StopsFirst(m, dir, metas, lastIndex);
      return 0;
    }
    FirstStepPasses(m, dir, metas, lastIndex);
    RenamableTail(m, dir, metas, lastIndex);
    var j := RenameDownStops(FirstStep(m, dir, metas, lastIndex), dir, metas[1..], lastIndex - 1);
    StopsLater(m, dir, metas, lastIndex, j);
    k := j + 1;
  }

  /** A first file whose target exists stops the loop before anything is renamed. */
  lemma StopsFirst(m: FsMap, dir: string, metas: seq<Meta>, lastIndex: int)
    requires metas != [] && Renamable(m, dir, metas, lastIndex)
    requires metas[0].fullPath != Targets(dir, metas, lastIndex)[0] && Exists(m, Targets(dir, metas, lastIndex)[0])
    ensures var before := RenameDown(m, dir, metas[..0], lastIndex);
      var t := Targets(dir, metas, lastIndex)[0];
      && before == (None, m)
      && RenameDown(m, dir, metas, lastIndex) == (Some(TargetExists(t)), m)
  {
    FirstStepEffect(m, dir, metas, lastIndex);
    assert metas[..0] == [];
  }

  /** When the first step succeeds, the loop goes on with the next file from the state after
      that step. */
  lemma FirstStepPasses(m: FsMap, dir: string, metas: seq<Meta>, lastIndex: int)
    requires metas != [] && Renamable(m, dir, metas, lastIndex)
    requires metas[0].fullPath == Targets(dir, metas, lastIndex)[0] || !Exists(m, Targets(dir, metas, lastIndex)[0])
    ensures RenameDown(m, dir, metas, lastIndex) == RenameDown(FirstStep(m, dir, metas, lastIndex), dir, metas[1..], lastIndex - 1)
  {
    FirstStepEffect(m, dir, metas, lastIndex);
  }

  /** A stop at the j-th of the files after the first is a stop at the (j+1)-th file. */
  lemma StopsLater(m: FsMap, dir: string, metas: seq<Meta>, lastIndex: int, j: nat)
    requires metas != [] && Renamable(m, dir, metas, lastIndex)
    requires metas[0].fullPath == Targets(dir, metas, lastIndex)[0] || !Exists(m, Targets(dir, metas, lastIndex)[0])
    requires j < |metas| - 1
    requires var m1, tail := FirstStep(m, dir, metas, lastIndex), metas[1..];
      var before := RenameDown(m1, dir, tail[..j], lastIndex - 1);
      var t := Targets(dir, tail, lastIndex - 1)[j];
      && before.0.None?
      && tail[j].fullPath != t && Exists(before.1, t)
      && RenameDown(m1, dir, tail, lastIndex - 1) == (Some(TargetExists(t)), before.1)
    ensures var before := RenameDown(m, dir, metas[..j + 1], lastIndex);
      var t := Targets(dir, metas, lastIndex)[j + 1];
      && before.0.None?
      && metas[j + 1].fullPath != t && Exists(before.1, t)
      && RenameDown(m, dir, metas, lastIndex) == (Some(TargetExists(t)), before.1)
  {
    FirstStepPasses(m, dir, metas, lastIndex);
    PrefixAfterFirst(m, dir, metas, lastIndex, j + 1);
    assert metas[j + 1] == metas[1..][j];
    TargetsShift(dir, metas, lastIndex, j);
  }

  /** The targets of the files after the first are the remaining targets. */
  lemma TargetsShift(dir: string, metas: seq<Meta>, lastIndex: int, j: nat)
    requires j + 1 < |metas|
    ensures Targets(dir, metas, lastIndex)[j + 1] == Targets(dir, metas[1..], lastIndex - 1)[j]
  {
    assert Targets(dir, metas, lastIndex) == [MediaTarget(dir, lastIndex, metas[0])] + Targets(dir, metas[1..], lastIndex - 1);
  }

  /** Once the first step succeeds, the loop over the first k files is the loop over the
      next k - 1 files from the state after that step. */
  lemma PrefixAfterFirst(m: FsMap, dir: string, metas: seq<Meta>, lastIndex: int, k: nat)
    requires 0 < k <= |metas| && Renamable(m, dir, metas, lastIndex)
    requires metas[0].fullPath == Targets(dir, metas, lastIndex)[0] || !Exists(m, Targets(dir, metas, lastIndex)[0])
    ensures RenameDown(m, dir, metas[..k], lastIndex)
         == RenameDown(FirstStep(m, dir, metas, lastIndex), dir, metas[1..][..k - 1], lastIndex - 1)
  {
    var prefix := metas[..k];
    PrefixRenamable(m, dir, metas, lastIndex, k);
    FirstStepEffect(m, dir, prefix, lastIndex);
    assert prefix[1..] == metas[1..][..k - 1];
    assert prefix[0] == metas[0];
    assert FirstStep(m, dir, prefix, lastIndex) == FirstStep(m, dir, metas, lastIndex);
  }

  // ---------------------------------------------------------------- the renumbering as a whole

  /** The number of decimal digits a string starts with. */
  function LeadingDigits(s: string): (n: nat)
    ensures n <= |s|
  {
    if s == [] || !IsDigit(s[0]) then 0 else 1 + LeadingDigits(s[1..])
  }

  lemma {:induction false} LeadingDigitsOf(d: string, e: string)
    requires forall i :: 0 <= i < |d| ==> IsDigit(d[i])
    requires e == [] || e[0] == '.'
    ensures LeadingDigits(d + e) == |d|
    decreases |d|
  {
    if d == [] {
      assert d + e == e;
    } else {
      assert (d + e)[1..] == d[1..] + e;
      LeadingDigitsOf(d[1..], e);
    }
  }

  /** A name made of digits and then an extension determines its digits. */
  lemma DigitsThenExt(d1: string, e1: string, d2: string, e2: string)
    requires forall i :: 0 <= i < |d1| ==> IsDigit(d1[i])
    requires forall i :: 0 <= i < |d2| ==> IsDigit(d2[i])
    requires (e1 == [] || e1[0] == '.') && (e2 == [] || e2[0] == '.')
    requires d1 + e1 == d2 + e2
    ensures d1 == d2
  {
    LeadingDigitsOf(d1, e1);
    LeadingDigitsOf(d2, e2);
    var s := d1 + e1;
    assert d1 == s[..|d1|] && d2 == s[..|d2|];
  }

  /** An extension as Ext gives it: empty or starting with a dot, and without a separator. */
  predicate NumberableExt(ext: string)
  {
    (ext == [] || ext[0] == '.') && Separator !in ext
  }

  /** Different positive numbers never give the same target. */
  lemma TargetsDiffer(dir: string, a: nat, b: nat, x: Meta, y: Meta)
    requires a != b
    requires NumberableExt(x.ext) && NumberableExt(y.ext)
    ensures MediaTarget(dir, a, x) != MediaTarget(dir, b, y)
    ensures MediaTarget(dir, a, x) != []
  {
    var da, db := ZeroPad(a, NameWidth), ZeroPad(b, NameWidth);
    ZeroPadShape(a, NameWidth);
    ZeroPadShape(b, NameWidth);
    assert ValidName(da + x.ext) by {
      forall i | 0 <= i < |da| ensures da[i] != Separator { assert IsDigit(da[i]); }
    }
    assert ValidName(db + y.ext) by {
      forall i | 0 <= i < |db| ensures db[i] != Separator { assert IsDigit(db[i]); }
    }
    if MediaTarget(dir, a, x) == MediaTarget(dir, b, y) {
      JoinInjective(dir, da + x.ext, db + y.ext);
      DigitsThenExt(da, x.ext, db, y.ext);
      ZeroPadInjective(a, b, NameWidth);
    }
  }

  /** What the scan records about a file, as the renaming needs it. */
  ghost predicate ScannedFile(m: FsMap, x: Meta)
  {
    IsFile(m, x.fullPath) && GetFileMeta(m, x.fullPath) == Ok(x) && NumberableExt(x.ext)
  }

  /** Every scanned file is a file with the record GetFileMeta gives, and no two records are
      the same. */
  lemma ScanFacts(m: FsMap, dir: string)
    requires IsDir(m, dir)
    ensures GetFileMetasSpec(m, dir).Ok?
    ensures forall x :: x in GetFileMetasSpec(m, dir).value ==> ScannedFile(m, x)
    ensures Distinct(GetFileMetasSpec(m, dir).value)
  {
    GetFileMetasCorrect(m, dir);
    var metas := GetFileMetasSpec(m, dir).value;
    forall x | x in metas ensures ScannedFile(m, x) {
      var j :| 0 <= j < |metas| && metas[j] == x;
      ExtShape(x.fullPath);
    }
    forall i, j | 0 <= i < j < |metas| ensures metas[i] != metas[j] {
      assert Less(FileNames(metas)[i], FileNames(metas)[j]);
      LessIrreflexive(FileNames(metas)[i]);
    }
  }

  /** Different scanned records have different paths. */
  lemma ScannedPathsDistinct(m: FsMap, metas: seq<Meta>)
    requires Distinct(metas) && forall x :: x in metas ==> ScannedFile(m, x)
    ensures Distinct(FullPaths(metas))
  {
    forall i, j | 0 <= i < j < |metas| ensures FullPaths(metas)[i] != FullPaths(metas)[j] {
      assert metas[i] in metas && metas[j] in metas;
    }
  }

  /** Numbering n files from n down gives them different non-empty targets. */
  lemma TargetsDistinct(dir: string, metas: seq<Meta>)
    requires forall k :: 0 <= k < |metas| ==> NumberableExt(metas[k].ext)
    ensures Distinct(Targets(dir, metas, |metas|))
    ensures forall k :: 0 <= k < |metas| ==> Targets(dir, metas, |metas|)[k] != []
  {
    var n := |metas|;
    var ts := Targets(dir, metas, n);
    forall i, j | 0 <= i < j < n ensures ts[i] != ts[j] {
      TargetsDiffer(dir, n - i, n - j, metas[i], metas[j]);
    }
    forall k | 0 <= k < n ensures ts[k] != [] {
      TargetsDiffer(dir, n - k, n - k + 1, metas[k], metas[k]);
    }
  }

  /** Sorting scanned records keeps them scanned and different. */
  lemma SortedScan(m: FsMap, metas: seq<Meta>)
    requires Distinct(metas) && forall x :: x in metas ==> ScannedFile(m, x)
    ensures var sorted := SortBy(metas, NewestFirst);
      && |sorted| == |metas|
      && multiset(sorted) == multiset(metas)
      && (forall i, j :: 0 <= i < j < |sorted| ==> sorted[i].modTime >= sorted[j].modTime)
      && Distinct(sorted)
      && forall x :: x in sorted ==> ScannedFile(m, x)
  {
    var sorted := SortBy(metas, NewestFirst);
    SortByCorrect(metas, NewestFirst);
    assert forall i, j :: 0 <= i < j < |sorted| ==> NewestFirst(sorted[i]) <= NewestFirst(sorted[j]);
    forall x | x in sorted ensures ScannedFile(m, x) {
      assert x in multiset(sorted);
      assert x in metas;
    }
    DistinctPermutation(metas, sorted);
  }

  /** Scanned, different records are fit for the renaming loop when numbered from their
      count down. */
  lemma ScannedRenamable(m: FsMap, dir: string, metas: seq<Meta>)
    requires Distinct(metas) && forall x :: x in metas ==> ScannedFile(m, x)
    ensures Renamable(m, dir, metas, |metas|)
  {
    ScannedPathsDistinct(m, metas);
    assert forall k :: 0 <= k < |metas| ==> NumberableExt(metas[k].ext) by {
      forall k | 0 <= k < |metas| ensures NumberableExt(metas[k].ext) {
        assert ScannedFile(m, metas[k]);
      }
    }
    TargetsDistinct(dir, metas);
    forall k | 0 <= k < |metas| ensures IsFile(m, metas[k].fullPath) {
      assert metas[k] in metas;
    }
  }

  /** The scan of a directory sorted newest first: a permutation of the scan, ordered by
      descending modification time, counted by CountFiles, and fit for the renaming loop. */
  lemma NewestFirstRenamable(m: FsMap, dir: string)
    requires IsDir(m, dir)
    ensures GetFileMetasSpec(m, dir).Ok?
    ensures var metas := GetFileMetasSpec(m, dir).value;
      var sorted := SortBy(metas, NewestFirst);
      && multiset(sorted) == multiset(metas)
      && (forall i, j :: 0 <= i < j < |sorted| ==> sorted[i].modTime >= sorted[j].modTime)
      && CountFilesSpec(m, dir) == (|sorted|, None)
      && Renamable(m, dir, sorted, |sorted|)
  {
    ScanFacts(m, dir);
    CountMatchesMetas(m, dir);
    var metas := GetFileMetasSpec(m, dir).value;
    SortedScan(m, metas);
    ScannedRenamable(m, dir, SortBy(metas, NewestFirst));
  }

  /** The loop stopped at file k: the files before it were renumbered, and its target existed. */
  ghost predicate FailedAt(m: FsMap, dir: string, metas: seq<Meta>, lastIndex: int, k: nat, result: (Option<Error>, FsMap))
    requires k < |metas|
  {
    var before := RenameDown(m, dir, metas[..k], lastIndex);
    var t := Targets(dir, metas, lastIndex)[k];
    && before.0.None? && NumberedAll(m, dir, metas[..k], lastIndex, before.1)
    && Exists(before.1, t)
    && result == (Some(TargetExists(t)), before.1)
  }

  /** fixMediaFilename: a missing path or a path that is not a directory is an error that
      changes nothing. For a directory, its files are taken newest first and the k-th of N gets
      the number N - k (the newest N, the oldest 1) as five digits before its extension. When
      it succeeds every file sits, unchanged, at that name and nothing else is touched; when it
      fails, the target of some file existed and the files before it stay renamed. */
  lemma FixMediaFilenameCorrect(m: FsMap, dir: string)
    ensures !Exists(m, dir) ==> FixSpec(m, dir) == (Some(DirNotFound(dir)), m)
    ensures Exists(m, dir) && !IsDir(m, dir) ==> FixSpec(m, dir) == (Some(NotAFolder(dir)), m)
    ensures IsDir(m, dir) ==>
      && GetFileMetasSpec(m, dir).Ok?
      && var sorted := SortBy(GetFileMetasSpec(m, dir).value, NewestFirst);
         var n := |sorted|;
         && multiset(sorted) == multiset(GetFileMetasSpec(m, dir).value)
         && (forall i, j :: 0 <= i < j < n ==> sorted[i].modTime >= sorted[j].modTime)
         && (forall k :: 0 <= k < n ==> Targets(dir, sorted, n)[k] == Join(dir, ZeroPad(n - k, NameWidth) + sorted[k].ext))
         && (FixSpec(m, dir).0.None? ==> NumberedAll(m, dir, sorted, n, FixSpec(m, dir).1))
         && (FixSpec(m, dir).0.Some? ==>
               exists k :: 0 <= k < n && FailedAt(m, dir, sorted, n, k, FixSpec(m, dir)))
  {
    if IsDir(m, dir) {
      NewestFirstRenamable(m, dir);
      var sorted := SortBy(GetFileMetasSpec(m, dir).value, NewestFirst);
      var n := |sorted|;
      assert FixSpec(m, dir) == RenameDown(m, dir, sorted, n);
      if FixSpec(m, dir).0.None? {
        RenameDownSuccess(m, dir, sorted, n);
      } else {
        var k := RenameDownStops(m, dir, sorted, n);
        PrefixRenamable(m, dir, sorted, n, k);
        RenameDownSuccess(m, dir, sorted[..k], n);
        assert FailedAt(m, dir, sorted, n, k, FixSpec(m, dir));
      }
    }
  }

  lemma PrefixRenamable(m: FsMap, dir: string, metas: seq<Meta>, lastIndex: int, k: nat)
    requires Renamable(m, dir, metas, lastIndex) && k <= |metas|
    ensures Renamable(m, dir, metas[..k], lastIndex)
  {
    var prefix := metas[..k];
    forall i, j | 0 <= i < j < k ensures FullPaths(prefix)[i] != FullPaths(prefix)[j] {
      assert FullPaths(metas)[i] != FullPaths(metas)[j];
    }
    forall i, j | 0 <= i < j < k ensures Targets(dir, prefix, lastIndex)[i] != Targets(dir, prefix, lastIndex)[j] {
      assert Targets(dir, metas, lastIndex)[i] != Targets(dir, metas, lastIndex)[j];
    }
    forall i | 0 <= i < k ensures Targets(dir, prefix, lastIndex)[i] != [] {
      assert Targets(dir, metas, lastIndex)[i] != [];
    }
  }

  // ---------------------------------------------------------------- listing

  datatype MediaInfo = MediaInfo(path: string, name: string, size: int, url: string, mediaType: MediaType, modTime: int)

  predicate IsMedia(t: MediaType)
  {
    t == Image || t == Video
  }

  /** The address the built-in file server gives a file at the relative path rel. */
  function MediaUrl(port: int, rel: string): (u: string)
    ensures HasPrefix(u, "http://localhost:")
  {
    "http://localhost:" + IntToString(port) + "/" + rel
  }

  /** A path the walk lists: a file below the directory whose type is image or video. */
  predicate Listed(m: FsMap, dir: string, p: string)
  {
    p in m && m[p].File? && Below(dir, p) && IsMedia(GetFileTypeByExt(Rel(dir, p)))
  }

  function InfoOf(m: FsMap, dir: string, port: int, p: string): MediaInfo
    requires Listed(m, dir, p)
  {
    var rel := Rel(dir, p);
    MediaInfo(p, Base(p), m[p].size, MediaUrl(port, ReplaceChar(rel, Separator, '/')), GetFileTypeByExt(rel), m[p].modTime)
  }

  /** The entry of a listed file: its path, name, size, modification time and type, and the
      address of its path relative to the directory. */
  lemma InfoOfFields(m: FsMap, dir: string, port: int, p: string)
    requires Listed(m, dir, p)
    ensures var x := InfoOf(m, dir, port, p);
      && x.path == p && x.name == Base(p) && x.size == m[p].size && x.modTime == m[p].modTime
      && x.mediaType == GetFileTypeByExt(p) && IsMedia(x.mediaType)
      && x.url == "http://localhost:" + IntToString(port) + "/" + Rel(dir, p)
  {
    var rel := Rel(dir, p);
    assert ReplaceChar(rel, Separator, '/') == rel;
    ExtOfSuffix(dir, p);
  }

  /** The extension of a path below a directory is that of its relative path. */
  lemma ExtOfSuffix(dir: string, p: string)
    requires Below(dir, p)
    ensures GetFileTypeByExt(Rel(dir, p)) == GetFileTypeByExt(p)
  {
    var x, r := Inside(dir), Rel(dir, p);
    assert x == [] || x[|x| - 1] == Separator;
    ExtSuffix(x, r, |r|);
    assert p == x + r;
  }

  lemma {:induction false} ExtSuffix(x: string, r: string, k: nat)
    requires x == [] || x[|x| - 1] == Separator
    requires k <= |r|
    ensures ExtBefore(x + r, |x| + k) == ExtBefore(r, k)
  {
    var p := x + r;
    if k > 0 {
      assert p[|x| + k - 1] == r[k - 1];
      if r[k - 1] == '.' {
        assert p[|x| + k - 1..] == r[k - 1..];
      } else if r[k - 1] != Separator {
        ExtSuffix(x, r, k - 1);
      }
    } else if x != [] {
      assert p[|x| - 1] == x[|x| - 1];
    }
  }

  /** The walk's entries in the order visited, kept when listed. */
  function Collect(m: FsMap, dir: string, port: int, walked: seq<string>): seq<MediaInfo>
    decreases |walked|
  {
    if walked == [] then []
    else
      var p := walked[|walked| - 1];
      var prev := Collect(m, dir, port, walked[..|walked| - 1]);
      if Listed(m, dir, p) then prev + [InfoOf(m, dir, port, p)] else prev
  }

  /** The newest entry first. */
  function NewestMediaFirst(x: MediaInfo): int
  {
    -x.modTime
  }

  /** Every path below the directory. */
  function BelowPaths(m: FsMap, dir: string): set<string>
  {
    set p | p in m && Below(dir, p)
  }

  /** GetMediaFiles: nothing for a path that is not a directory; otherwise the images and
      videos below it, newest first. */
  ghost function MediaFilesSpec(m: FsMap, dir: string, port: int): seq<MediaInfo>
  {
    if !IsDir(m, dir) then []
    else SortBy(Collect(m, dir, port, SortedSeq(BelowPaths(m, dir))), NewestMediaFirst)
  }

  method GetMediaFiles(fs: OS, dir: string, port: int) returns (medias: seq<MediaInfo>)
    ensures medias == MediaFilesSpec(fs.entries, dir, port)
  {
    medias := [];
    var st := fs.Stat(dir);
    if st.None? || !st.value.Directory? {
      return;
    }
    var walked := ListSorted(BelowPaths(fs.entries, dir));
    medias := CollectMedia(fs, dir, port, walked);
    medias := SortBy(medias, NewestMediaFirst);
  }

  /** The walk callback applied to every path visited. */
  method CollectMedia(fs: OS, dir: string, port: int, walked: seq<string>) returns (medias: seq<MediaInfo>)
    ensures medias == Collect(fs.entries, dir, port, walked)
  {
    medias := [];
    var i := 0;
    while i < |walked|
      invariant 0 <= i <= |walked|
      invariant medias == Collect(fs.entries, dir, port, walked[..i])
    {
      assert walked[..i + 1][..i] == walked[..i];
      var path := walked[i];
      var st := fs.Stat(path);
      if st.Some? && st.value.File? && Below(dir, path) {
        var relPath := Rel(dir, path);
        var mediaType := GetFileTypeByExt(relPath);
        if IsMedia(mediaType) {
          var urlPath := ReplaceChar(relPath, Separator, '/');
          medias := medias + [MediaInfo(path, Base(path), st.value.size, MediaUrl(port, urlPath), mediaType, st.value.modTime)];
        }
      }
      i := i + 1;
    }
    assert walked[..i] == walked;
  }

  function PathsOf(xs: seq<MediaInfo>): (r: seq<string>)
    ensures |r| == |xs| && forall k :: 0 <= k < |xs| ==> r[k] == xs[k].path
  {
    seq(|xs|, k requires 0 <= k < |xs| => xs[k].path)
  }

  /** The collected entries are those of the listed paths among the visited ones, once each
      when no path is visited twice. */
  lemma CollectMembers(m: FsMap, dir: string, port: int, walked: seq<string>)
    ensures forall x :: x in Collect(m, dir, port, walked) ==> x.path in walked && Listed(m, dir, x.path) && x == InfoOf(m, dir, port, x.path)
    ensures forall p :: p in walked && Listed(m, dir, p) ==> InfoOf(m, dir, port, p) in Collect(m, dir, port, walked)
    ensures Distinct(walked) ==> Distinct(PathsOf(Collect(m, dir, port, walked)))
  {
    CollectSound(m, dir, port, walked);
    CollectComplete(m, dir, port, walked);
    if Distinct(walked) {
      CollectDistinct(m, dir, port, walked);
    }
  }

  /** Every collected entry is the entry of a listed path among the visited ones. */
  lemma {:induction false} CollectSound(m: FsMap, dir: string, port: int, walked: seq<string>)
    ensures forall x :: x in Collect(m, dir, port, walked) ==> x.path in walked && Listed(m, dir, x.path) && x == InfoOf(m, dir, port, x.path)
    decreases |walked|
  {
    if walked != [] {
      var init, last := walked[..|walked| - 1], walked[|walked| - 1];
      CollectSound(m, dir, port, init);
      assert walked == init + [last];
      assert forall p :: p in init ==> p in walked;
    }
  }

  /** The entry of every listed path among the visited ones is collected. */
  lemma {:induction false} CollectComplete(m: FsMap, dir: string, port: int, walked: seq<string>)
    ensures forall p :: p in walked && Listed(m, dir, p) ==> InfoOf(m, dir, port, p) in Collect(m, dir, port, walked)
    decreases |walked|
  {
    if walked != [] {
      var init, last := walked[..|walked| - 1], walked[|walked| - 1];
      CollectComplete(m, dir, port, init);
      assert walked == init + [last];
      assert forall p :: p in walked ==> p in init || p == last;
    }
  }

  /** Visiting no path twice collects no path twice. */
  lemma {:induction false} CollectDistinct(m: FsMap, dir: string, port: int, walked: seq<string>)
    requires Distinct(walked)
    ensures Distinct(PathsOf(Collect(m, dir, port, walked)))
    decreases |walked|
  {
    if walked != [] {
      var init, last := walked[..|walked| - 1], walked[|walked| - 1];
      DistinctInit(walked);
      CollectDistinct(m, dir, port, init);
      var prev := Collect(m, dir, port, init);
      if Listed(m, dir, last) {
        CollectSound(m, dir, port, init);
        var x := InfoOf(m, dir, port, last);
        assert x.path == last;
        assert PathsOf(prev + [x]) == PathsOf(prev) + [last];
        assert last !in PathsOf(prev) by {
          forall k | 0 <= k < |prev| ensures PathsOf(prev)[k] != last {
            assert prev[k] in prev;
          }
        }
        DistinctSnoc(PathsOf(prev), last);
      }
    }
  }

  /** The walk of a directory collects the entry of each listed path below it, once each, and
      nothing else. */
  lemma WalkCollects(m: FsMap, dir: string, port: int)
    ensures var c := Collect(m, dir, port, SortedSeq(BelowPaths(m, dir)));
      && (forall x :: x in c ==> Listed(m, dir, x.path) && x == InfoOf(m, dir, port, x.path))
      && (forall p :: Listed(m, dir, p) ==> InfoOf(m, dir, port, p) in c)
      && Distinct(PathsOf(c))
  {
    var below := BelowPaths(m, dir);
    var walked := SortedSeq(below);
    SortedSeqProperties(below);
    CollectMembers(m, dir, port, walked);
    forall i, j | 0 <= i < j < |walked| ensures walked[i] != walked[j] {
      LessIrreflexive(walked[i]);
    }
  }

  /** Sorting entries newest first keeps the same entries, and keeps their paths different. */
  lemma SortMedia(xs: seq<MediaInfo>)
    requires Distinct(PathsOf(xs))
    ensures var r := SortBy(xs, NewestMediaFirst);
      && (forall x :: x in r <==> x in xs)
      && (forall i, j :: 0 <= i < j < |r| ==> r[i].modTime >= r[j].modTime)
      && Distinct(PathsOf(r))
  {
    var r := SortBy(xs, NewestMediaFirst);
    SortByCorrect(xs, NewestMediaFirst);
    assert forall x :: x in r <==> x in xs by {
      forall x ensures x in r <==> x in xs {
        assert x in r <==> x in multiset(r);
      }
    }
    assert forall i, j :: 0 <= i < j < |r| ==> NewestMediaFirst(r[i]) <= NewestMediaFirst(r[j]);
    assert Distinct(xs) by {
      forall i, j | 0 <= i < j < |xs| ensures xs[i] != xs[j] {
        assert PathsOf(xs)[i] != PathsOf(xs)[j];
      }
    }
    DistinctPermutation(xs, r);
    DistinctPathsOfMembers(xs, r);
  }

  /** Different entries taken from a list whose paths differ have different paths. */
  lemma DistinctPathsOfMembers(xs: seq<MediaInfo>, r: seq<MediaInfo>)
    requires Distinct(PathsOf(xs)) && Distinct(r)
    requires forall x :: x in r ==> x in xs
    ensures Distinct(PathsOf(r))
  {
    forall i, j | 0 <= i < j < |r| ensures PathsOf(r)[i] != PathsOf(r)[j] {
      assert r[i] != r[j] && r[i] in xs && r[j] in xs;
      var a :| 0 <= a < |xs| && xs[a] == r[i];
      var b :| 0 <= b < |xs| && xs[b] == r[j];
      assert PathsOf(xs)[a] == r[i].path && PathsOf(xs)[b] == r[j].path;
    }
  }

  /** GetMediaFiles lists nothing for a path that is not a directory; otherwise it lists each
      image and video file below the directory exactly once, with its entry, and nothing else,
      the newest first. */
  lemma GetMediaFilesCorrect(m: FsMap, dir: string, port: int)
    ensures !IsDir(m, dir) ==> MediaFilesSpec(m, dir, port) == []
    ensures var r := MediaFilesSpec(m, dir, port);
      && (forall x :: x in r ==> Listed(m, dir, x.path) && x == InfoOf(m, dir, port, x.path))
      && (IsDir(m, dir) ==> forall p :: Listed(m, dir, p) ==> p in PathsOf(r))
      && (forall i, j :: 0 <= i < j < |r| ==> r[i].modTime >= r[j].modTime)
      && Distinct(PathsOf(r))
  {
    if IsDir(m, dir) {
      var collected := Collect(m, dir, port, SortedSeq(BelowPaths(m, dir)));
      WalkCollects(m, dir, port);
      SortMedia(collected);
      var r := SortBy(collected, NewestMediaFirst);
      forall p | Listed(m, dir, p) ensures p in PathsOf(r) {
        var x := InfoOf(m, dir, port, p);
        assert x in r;
        var k :| 0 <= k < |r| && r[k] == x;
        assert PathsOf(r)[k] == p;
      }
    }
  }
}
