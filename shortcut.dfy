/** The classify workflow of the shortcut handler: a key picks a configured target directory,
    the file is moved there under a free name, and the move is recorded on a bounded undo
    stack (at most 50 records; the oldest is dropped on overflow, the newest is undone first). */
module Shortcut {
  import opened Wrappers
  import opened Strings
  import opened Paths
  import opened FileSystem
  import opened Errors
  import opened FileUtil

  datatype ShortcutConfig = ShortcutConfig(key: string, targetDir: string, caption: string)

  /** A move that can be undone; the timestamp is the caller's clock in nanoseconds. */
  datatype MoveRecord = MoveRecord(sourcePath: string, targetPath: string, timestamp: int)

  const MaxUndoSize: nat := 50

  /** The maxTry both the move and its undo pass to RenameFile. */
  const MoveMaxTry: int := 100

  /** resolveConflict tries the suffixes 1 .. ConflictTries - 1. */
  const ConflictTries: nat := 1000

  /** The configuration used when none is stored: three unset categories, a soft-delete
      folder and a favourites folder, both beside the file being classified. */
  function DefaultShortcuts(): (r: seq<ShortcutConfig>)
    ensures |r| == 5
    ensures forall i, j :: 0 <= i < j < |r| ==> r[i].key != r[j].key
    ensures forall i :: 0 <= i < |r| ==> !IsAbs(r[i].targetDir)
  {
    [ ShortcutConfig("1", "", "分类1"),
      ShortcutConfig("2", "", "分类2"),
      ShortcutConfig("3", "", "分类3"),
      ShortcutConfig("d", ".delete", "待删除"),
      ShortcutConfig("s", ".star", "收藏") ]
  }

  /** GetShortcuts: the stored configuration, or the default one when there is none or it
      cannot be read or parsed (stored is None). */
  function GetShortcuts(stored: Option<seq<ShortcutConfig>>): (r: seq<ShortcutConfig>)
    ensures stored.Some? ==> r == stored.value
    ensures stored.None? ==> r == DefaultShortcuts()
  {
    match stored
    case Some(s) => s
    case None => DefaultShortcuts()
  }

  // ---------------------------------------------------------------- looking up a key

  /** Position of the first shortcut whose key equals `key` up to ASCII case, or the length
      of the list when there is none. */
  function FirstKeyMatch(shortcuts: seq<ShortcutConfig>, key: string): (i: nat)
    ensures i <= |shortcuts|
    ensures i < |shortcuts| ==> EqualFold(shortcuts[i].key, key)
    ensures forall j :: 0 <= j < i ==> !EqualFold(shortcuts[j].key, key)
    decreases |shortcuts|
  {
    if shortcuts == [] then 0
    else if EqualFold(shortcuts[0].key, key) then 0
    else 1 + FirstKeyMatch(shortcuts[1..], key)
  }

  /** The configuration a key selects. */
  function Lookup(shortcuts: seq<ShortcutConfig>, key: string): Option<ShortcutConfig>
  {
    var i := FirstKeyMatch(shortcuts, key);
    if i < |shortcuts| then Some(shortcuts[i]) else None
  }

  /** The search loop of MoveByShortcut: the first configuration whose key matches. */
  method FindShortcut(shortcuts: seq<ShortcutConfig>, key: string) returns (r: Option<ShortcutConfig>)
    ensures r.None? <==> forall j :: 0 <= j < |shortcuts| ==> !EqualFold(shortcuts[j].key, key)
    ensures r.Some? ==> exists i :: 0 <= i < |shortcuts| && r.value == shortcuts[i]
                          && EqualFold(shortcuts[i].key, key) && forall j :: 0 <= j < i ==> !EqualFold(shortcuts[j].key, key)
    ensures r == Lookup(shortcuts, key)
  {
    var k := 0;
    while k < |shortcuts|
      invariant 0 <= k <= |shortcuts|
      invariant forall j :: 0 <= j < k ==> !EqualFold(shortcuts[j].key, key)
    {
      if EqualFold(shortcuts[k].key, key) {
        return Some(shortcuts[k]);
      }
      k := k + 1;
    }
    return None;
  }

  // ---------------------------------------------------------------- target directory

  /** An absolute target is used as it is; a relative one is taken from the directory of the
      file being moved. */
  function ResolveTargetDir(sourcePath: string, targetDir: string): string
  {
    if IsAbs(targetDir) then targetDir else Join(Dir(sourcePath), targetDir)
  }

  lemma DirNonEmpty(p: string)
    ensures Dir(p) != []
  {
  }

  /** An absolute target does not depend on the file; a non-empty relative target lies below
      the file's directory, at the relative path it names. */
  lemma ResolveTargetDirPlacement(sourcePath: string, targetDir: string)
    ensures IsAbs(targetDir) ==> forall s :: ResolveTargetDir(s, targetDir) == targetDir
    ensures !IsAbs(targetDir) && targetDir != [] ==>
      var r := ResolveTargetDir(sourcePath, targetDir);
      Below(Dir(sourcePath), r) && Rel(Dir(sourcePath), r) == targetDir
  {
    if !IsAbs(targetDir) && targetDir != [] {
      var d := Dir(sourcePath);
      DirNonEmpty(sourcePath);
      var r := ResolveTargetDir(sourcePath, targetDir);
      assert r == Inside(d) + targetDir;
      assert r[..|Inside(d)|] == Inside(d);
    }
  }

  /** The soft-delete shortcut of the default configuration moves a file into the ".delete"
      folder beside it. */
  lemma DefaultDeleteFolder(sourcePath: string)
    ensures Lookup(DefaultShortcuts(), "D").Some?
    ensures ResolveTargetDir(sourcePath, Lookup(DefaultShortcuts(), "D").value.targetDir) == Join(Dir(sourcePath), ".delete")
  {
    var d := DefaultShortcuts();
    assert !EqualFold(d[0].key, "D") && !EqualFold(d[1].key, "D") && !EqualFold(d[2].key, "D");
    assert EqualFold(d[3].key, "D");
  }

  // ---------------------------------------------------------------- conflict resolution

  /** The directory, stem and extension resolveConflict builds the suffixed names from. */
  function ConflictParts(targetPath: string): NameParts
  {
    var ext := Ext(targetPath);
    NameParts(Dir(targetPath), TrimSuffix(Base(targetPath), ext), ext)
  }

  /** The last resort: the clock reading in place of the counter. */
  function TimestampName(parts: NameParts, now: int): string
  {
    Join(parts.dir, parts.stem + "_" + IntToString(now) + parts.ext)
  }

  /** Probing the suffixes from i on. */
  function ConflictFrom(m: FsMap, targetPath: string, parts: NameParts, i: nat, now: int): string
    requires 1 <= i
    decreases ConflictTries - i
  {
    if i >= ConflictTries then TimestampName(parts, now)
    else if !Exists(m, Candidate(targetPath, parts, i)) then Candidate(targetPath, parts, i)
    else ConflictFrom(m, targetPath, parts, i + 1, now)
  }

  function ResolveConflictSpec(m: FsMap, targetPath: string, now: int): string
  {
    if !Exists(m, targetPath) then targetPath
    else ConflictFrom(m, targetPath, ConflictParts(targetPath), 1, now)
  }

  /** What probing from suffix i yields: the first free suffixed name at or after i, or the
      timestamp name once every suffix up to 999 is taken. */
  ghost predicate ConflictOutcome(m: FsMap, targetPath: string, parts: NameParts, i: nat, now: int, r: string)
  {
    || (exists k :: i <= k < ConflictTries && r == Candidate(targetPath, parts, k) && !Exists(m, r)
          && forall j :: i <= j < k ==> Exists(m, Candidate(targetPath, parts, j)))
    || (r == TimestampName(parts, now) && forall j :: i <= j < ConflictTries ==> Exists(m, Candidate(targetPath, parts, j)))
  }

  lemma {:induction false} ConflictFromOutcome(m: FsMap, targetPath: string, parts: NameParts, i: nat, now: int)
    requires 1 <= i
    ensures ConflictOutcome(m, targetPath, parts, i, now, ConflictFrom(m, targetPath, parts, i, now))
    decreases ConflictTries - i
  {
    if i < ConflictTries && Exists(m, Candidate(targetPath, parts, i)) {
      ConflictFromOutcome(m, targetPath, parts, i + 1, now);
      var r := ConflictFrom(m, targetPath, parts, i + 1, now);
      if r == TimestampName(parts, now) && forall j :: i + 1 <= j < ConflictTries ==> Exists(m, Candidate(targetPath, parts, j)) {
      } else {
        var k :| i + 1 <= k < ConflictTries && r == Candidate(targetPath, parts, k) && !Exists(m, r)
          && forall j :: i + 1 <= j < k ==> Exists(m, Candidate(targetPath, parts, j));
        assert i <= k < ConflictTries;
      }
    }
  }

  /** A free path is returned as it is. For a taken one, the names "<stem>_1<ext>" up to
      "<stem>_999<ext>" are tried in this order and the first free one is returned; when all
      are taken, the timestamp name is returned without looking at it. */
  lemma ResolveConflictCorrect(m: FsMap, targetPath: string, now: int)
    ensures !Exists(m, targetPath) ==> ResolveConflictSpec(m, targetPath, now) == targetPath
    ensures Exists(m, targetPath) ==>
      ConflictOutcome(m, targetPath, ConflictParts(targetPath), 1, now, ResolveConflictSpec(m, targetPath, now))
  {
    if Exists(m, targetPath) {
      ConflictFromOutcome(m, targetPath, ConflictParts(targetPath), 1, now);
    }
  }

  /** The result is free unless all 1000 names were taken. */
  lemma ResolveConflictFree(m: FsMap, targetPath: string, now: int)
    ensures !Exists(m, ResolveConflictSpec(m, targetPath, now)) ||
      (ResolveConflictSpec(m, targetPath, now) == TimestampName(ConflictParts(targetPath), now)
       && forall j :: 0 <= j < ConflictTries ==> Exists(m, Candidate(targetPath, ConflictParts(targetPath), j)))
  {
    ResolveConflictCorrect(m, targetPath, now);
  }

  // ---------------------------------------------------------------- the undo stack

  /** pushUndoRecord: the record goes on top; past the bound the bottom record is dropped. */
  function Pushed(stack: seq<MoveRecord>, record: MoveRecord, maxSize: nat): seq<MoveRecord>
  {
    var s := stack + [record];
    if |s| > maxSize then s[1..] else s
  }

  /** The record is on top and nothing but the oldest record is lost, and only when the stack
      was full; the bound is kept. */
  lemma PushedShape(stack: seq<MoveRecord>, record: MoveRecord, maxSize: nat)
    requires 1 <= maxSize && |stack| <= maxSize
    ensures var r := Pushed(stack, record, maxSize);
      && |r| <= maxSize
      && r != [] && r[|r| - 1] == record
      && r[..|r| - 1] == (if |stack| == maxSize then stack[1..] else stack)
  {
    var r := Pushed(stack, record, maxSize);
    if |stack| == maxSize {
      assert r == stack[1..] + [record];
    }
  }

  /** Pushing several records one after the other. */
  function PushAll(stack: seq<MoveRecord>, records: seq<MoveRecord>, maxSize: nat): seq<MoveRecord>
    decreases |records|
  {
    if records == [] then stack else PushAll(Pushed(stack, records[0], maxSize), records[1..], maxSize)
  }

  /** The last n elements of s (all of s when it is shorter). */
  function Newest(s: seq<MoveRecord>, n: nat): (r: seq<MoveRecord>)
    ensures |r| <= n && |r| <= |s|
  {
    if |s| <= n then s else s[|s| - n..]
  }

  /** After any sequence of pushes the stack holds the newest maxSize records of everything
      pushed, in push order: exactly the oldest ones are evicted. */
  lemma {:induction false} PushAllKeepsNewest(stack: seq<MoveRecord>, records: seq<MoveRecord>, maxSize: nat)
    requires 1 <= maxSize && |stack| <= maxSize
    ensures PushAll(stack, records, maxSize) == Newest(stack + records, maxSize)
    decreases |records|
  {
    if records != [] {
      var s1 := Pushed(stack, records[0], maxSize);
      PushedShape(stack, records[0], maxSize);
      PushAllKeepsNewest(s1, records[1..], maxSize);
      var all := stack + records;
      assert all == (stack + [records[0]]) + records[1..];
      if |stack| == maxSize {
        assert s1 + records[1..] == all[1..];
        assert Newest(all[1..], maxSize) == Newest(all, maxSize);
      } else {
        assert s1 + records[1..] == all;
      }
    } else {
      assert stack + records == stack;
    }
  }

  /** Pushing one more record than the bound onto an empty stack keeps all but the first. */
  lemma LedgerBound(records: seq<MoveRecord>)
    requires |records| == MaxUndoSize + 1
    ensures PushAll([], records, MaxUndoSize) == records[1..]
    ensures |PushAll([], records, MaxUndoSize)| == MaxUndoSize
  {
    PushAllKeepsNewest([], records, MaxUndoSize);
    assert [] + records == records;
  }

  /** Undo: its result, the file system and the stack after it. The top record is popped
      before anything is checked, so a failed undo consumes it too. */
  function UndoSpec(m: FsMap, stack: seq<MoveRecord>): (Outcome<Error>, FsMap, seq<MoveRecord>)
  {
    if stack == [] then (Fail(NothingToUndo), m, stack)
    else
      var record := stack[|stack| - 1];
      var rest := stack[..|stack| - 1];
      if !Exists(m, record.targetPath) then (Fail(UndoTargetGone(record.targetPath)), m, rest)
      else match MkdirAllSpec(m, Dir(record.sourcePath))
        case Err(e) => (Fail(MkdirFailed(e)), m, rest)
        case Ok(m1) =>
          var (out, m2) := RenameFileSpec(m1, record.targetPath, record.sourcePath, true, MoveMaxTry);
          match out
          case Fail(e) => (Fail(UndoFailed(e)), m2, rest)
          case Pass => (Pass, m2, rest)
  }

  /** An empty stack gives an error and changes nothing. Otherwise the top record is gone
      afterwards whatever happens, and a missing target changes no file. */
  lemma UndoConsumesRecord(m: FsMap, stack: seq<MoveRecord>)
    ensures var (out, m', s') := UndoSpec(m, stack);
      && (stack == [] ==> out == Fail(NothingToUndo) && m' == m && s' == stack)
      && (stack != [] ==> s' == stack[..|stack| - 1] && |s'| == |stack| - 1)
      && (stack != [] && !Exists(m, stack[|stack| - 1].targetPath) ==>
            out == Fail(UndoTargetGone(stack[|stack| - 1].targetPath)) && m' == m)
  {
  }

  /** A successful undo moves the file at the recorded target back to the recorded source, or,
      when the source path is taken again, to the first free "_1" ... "_99" name beside it; the
      only other changes are the directories created for it. */
  lemma UndoMovesBack(m: FsMap, stack: seq<MoveRecord>)
    requires stack != []
    ensures var (out, m', s') := UndoSpec(m, stack);
      var record := stack[|stack| - 1];
      out == Pass ==>
        && IsFile(m, record.targetPath)
        && MkdirAllSpec(m, Dir(record.sourcePath)).Ok?
        && var m1 := MkdirAllSpec(m, Dir(record.sourcePath)).value;
           var t := FinalTarget(m1, record.sourcePath, true, MoveMaxTry);
           && t.Ok? && !Exists(m1, t.value)
           && (!Exists(m1, record.sourcePath) ==> t.value == record.sourcePath)
           && m' == (m1 - {record.targetPath})[t.value := m[record.targetPath]]
  {
    var record := stack[|stack| - 1];
    if Exists(m, record.targetPath) && MkdirAllSpec(m, Dir(record.sourcePath)).Ok? {
      var m1 := MkdirAllSpec(m, Dir(record.sourcePath)).value;
      RenameFileEffect(m1, record.targetPath, record.sourcePath, true, MoveMaxTry);
    }
  }

  // ---------------------------------------------------------------- the move

  /** What a move does: its result, the file system after it, the file system once the target
      directory exists (the state the conflict is resolved in), the path resolveConflict chose
      and the path RenameFile actually used. The last three are empty past an early error. */
  datatype MoveEffect = MoveEffect(out: Outcome<Error>, fs: FsMap, staged: FsMap, resolved: string, final: string)

  function MoveFile(m: FsMap, shortcuts: seq<ShortcutConfig>, filePath: string, key: string, now: int): MoveEffect
  {
    match Lookup(shortcuts, key)
    case None => MoveEffect(Fail(UnknownShortcut(key)), m, m, "", "")
    case Some(sc) =>
      if sc.targetDir == [] then MoveEffect(Fail(NoTargetDir(key)), m, m, "", "")
      else if !Exists(m, filePath) then MoveEffect(Fail(FileNotFound(filePath)), m, m, "", "")
      else
        var targetDir := ResolveTargetDir(filePath, sc.targetDir);
        match MkdirAllSpec(m, targetDir)
        case Err(e) => MoveEffect(Fail(MkdirFailed(e)), m, m, "", "")
        case Ok(m1) =>
          var t := ResolveConflictSpec(m1, Join(targetDir, Base(filePath)), now);
          var (out, m2) := RenameFileSpec(m1, filePath, t, true, MoveMaxTry);
          var final := FinalTarget(m1, t, true, MoveMaxTry);
          match out
          case Fail(e) => MoveEffect(Fail(MoveFailed(e)), m2, m1, t, "")
          case Pass => MoveEffect(Pass, m2, m1, t, if final.Ok? then final.value else t)
  }

  /** MoveByShortcut as written: the record names the path resolveConflict chose. */
  function MoveSpec(m: FsMap, stack: seq<MoveRecord>, shortcuts: seq<ShortcutConfig>, filePath: string, key: string, now: int)
    : (Outcome<Error>, FsMap, seq<MoveRecord>)
  {
    var e := MoveFile(m, shortcuts, filePath, key, now);
    (e.out, e.fs, if e.out.Pass? then Pushed(stack, MoveRecord(filePath, e.resolved, now), MaxUndoSize) else stack)
  }

  /** The corrected move: the record names the path the file was actually moved to. */
  function MoveSpecFixed(m: FsMap, stack: seq<MoveRecord>, shortcuts: seq<ShortcutConfig>, filePath: string, key: string, now: int)
    : (Outcome<Error>, FsMap, seq<MoveRecord>)
  {
    var e := MoveFile(m, shortcuts, filePath, key, now);
    (e.out, e.fs, if e.out.Pass? then Pushed(stack, MoveRecord(filePath, e.final, now), MaxUndoSize) else stack)
  }

  /** An unknown key, a key without a target directory or a missing file is an error that
      moves nothing and records nothing. */
  lemma MoveRejects(m: FsMap, stack: seq<MoveRecord>, shortcuts: seq<ShortcutConfig>, filePath: string, key: string, now: int)
    ensures var (out, m', s') := MoveSpec(m, stack, shortcuts, filePath, key, now);
      && ((forall j :: 0 <= j < |shortcuts| ==> !EqualFold(shortcuts[j].key, key)) ==>
            out == Fail(UnknownShortcut(key)) && m' == m && s' == stack)
      && (Lookup(shortcuts, key).Some? && Lookup(shortcuts, key).value.targetDir == [] ==>
            out == Fail(NoTargetDir(key)) && m' == m && s' == stack)
      && (Lookup(shortcuts, key).Some? && Lookup(shortcuts, key).value.targetDir != [] && !Exists(m, filePath) ==>
            out == Fail(FileNotFound(filePath)) && m' == m && s' == stack)
  {
  }

  /** The facts about a successful move: the target directory was created without touching
      what existed, and the file left its path and sits, unchanged, at a path that was free. */
  ghost predicate MovedTo(m: FsMap, filePath: string, e: MoveEffect)
  {
    && IsFile(m, filePath)
    && m.Keys <= e.staged.Keys && (forall q :: q in m ==> e.staged[q] == m[q])
    && e.final != [] && !Exists(e.staged, e.final)
    && e.fs == (e.staged - {filePath})[e.final := m[filePath]]
  }

  lemma MoveEffectShape(m: FsMap, shortcuts: seq<ShortcutConfig>, filePath: string, key: string, now: int)
    requires MoveFile(m, shortcuts, filePath, key, now).out == Pass
    ensures var e := MoveFile(m, shortcuts, filePath, key, now);
      && MovedTo(m, filePath, e)
      && e.resolved == ResolveConflictSpec(e.staged, Join(ResolveTargetDir(filePath, Lookup(shortcuts, key).value.targetDir), Base(filePath)), now)
      && FinalTarget(e.staged, e.resolved, true, MoveMaxTry).Ok?
      && e.final == FinalTarget(e.staged, e.resolved, true, MoveMaxTry).value
  {
    var e := MoveFile(m, shortcuts, filePath, key, now);
    var targetDir := ResolveTargetDir(filePath, Lookup(shortcuts, key).value.targetDir);
    var m1 := MkdirAllSpec(m, targetDir).value;
    var t := ResolveConflictSpec(m1, Join(targetDir, Base(filePath)), now);
    assert e.staged == m1 && e.resolved == t;
    RenameFileEffect(m1, filePath, t, true, MoveMaxTry);
    FinalTargetFree(m1, t, true, MoveMaxTry);
  }

  /** The stack changes only when the move succeeds; the move then takes the file out of its
      place and puts it, unchanged, at a path that was free, and the new record is on top. */
  lemma MoveRecordsSuccess(m: FsMap, stack: seq<MoveRecord>, shortcuts: seq<ShortcutConfig>, filePath: string, key: string, now: int)
    ensures var (out, m', s') := MoveSpec(m, stack, shortcuts, filePath, key, now);
      var e := MoveFile(m, shortcuts, filePath, key, now);
      && (out.Fail? ==> s' == stack)
      && (out == Pass ==>
            && s' == Pushed(stack, MoveRecord(filePath, e.resolved, now), MaxUndoSize)
            && IsFile(m, filePath) && filePath !in m'
            && e.final in m' && m'[e.final] == m[filePath])
  {
    if MoveFile(m, shortcuts, filePath, key, now).out == Pass {
      MoveEffectShape(m, shortcuts, filePath, key, now);
    }
  }

  /** When the chosen name was free the file went exactly there. */
  lemma FreeNameIsUsed(m: FsMap, shortcuts: seq<ShortcutConfig>, filePath: string, key: string, now: int)
    requires MoveFile(m, shortcuts, filePath, key, now).out == Pass
    ensures var e := MoveFile(m, shortcuts, filePath, key, now);
      !Exists(e.staged, e.resolved) <==> e.final == e.resolved
  {
    var e := MoveFile(m, shortcuts, filePath, key, now);
    MoveEffectShape(m, shortcuts, filePath, key, now);
    var parts := PartsOf(e.resolved);
    assert FinalTarget(e.staged, e.resolved, true, MoveMaxTry) == Probe(e.staged, e.resolved, parts, 0, MoveMaxTry);
  }

  /** The stack a push leaves below the new record. */
  function Kept(stack: seq<MoveRecord>): seq<MoveRecord>
  {
    if |stack| == MaxUndoSize then stack[1..] else stack
  }

  lemma PushedOnto(stack: seq<MoveRecord>, record: MoveRecord)
    requires |stack| <= MaxUndoSize
    ensures Pushed(stack, record, MaxUndoSize) == Kept(stack) + [record]
  {
    PushedShape(stack, record, MaxUndoSize);
  }

  /** Undoing a record whose target is a file and whose source path is free, beside an
      existing directory: that file goes to the source path and nothing else changes. */
  lemma UndoRecord(m: FsMap, base: seq<MoveRecord>, record: MoveRecord)
    requires IsFile(m, record.targetPath) && IsDir(m, Dir(record.sourcePath))
    requires !Exists(m, record.sourcePath) && record.sourcePath != []
    ensures UndoSpec(m, base + [record]) ==
      (Pass, (m - {record.targetPath})[record.sourcePath := m[record.targetPath]], base)
  {
    var src := record.sourcePath;
    assert MkdirAllSpec(m, Dir(src)) == Ok(m);
    var parts := PartsOf(src);
    assert Probe(m, src, parts, 0, MoveMaxTry) == Ok(src);
    assert FinalTarget(m, src, true, MoveMaxTry) == Ok(src);
    var s := base + [record];
    assert s[..|s| - 1] == base;
  }

  /** The undo round trip of the move as written: when the path resolveConflict chose was
      free (always, short of all 1000 names being taken), moving a file out of an existing
      directory and undoing at once puts it back at its old path, and the stack loses only
      what the push evicted. */
  lemma MoveThenUndo(m: FsMap, stack: seq<MoveRecord>, shortcuts: seq<ShortcutConfig>, filePath: string, key: string, now: int)
    requires |stack| <= MaxUndoSize && IsDir(m, Dir(filePath))
    requires MoveFile(m, shortcuts, filePath, key, now).out == Pass
    requires !Exists(MoveFile(m, shortcuts, filePath, key, now).staged, MoveFile(m, shortcuts, filePath, key, now).resolved)
    ensures var (_, m2, s2) := MoveSpec(m, stack, shortcuts, filePath, key, now);
      var (out, m3, s3) := UndoSpec(m2, s2);
      out == Pass && IsFile(m3, filePath) && m3[filePath] == m[filePath] && s3 == Kept(stack)
  {
    var e := MoveFile(m, shortcuts, filePath, key, now);
    MoveEffectShape(m, shortcuts, filePath, key, now);
    FreeNameIsUsed(m, shortcuts, filePath, key, now);
    var record := MoveRecord(filePath, e.final, now);
    PushedOnto(stack, record);
    UndoRecord(e.fs, Kept(stack), record);
  }

  /** The corrected move always round-trips: moving a file out of an existing directory and
      undoing at once puts it back at its old path. */
  lemma MoveFixedThenUndo(m: FsMap, stack: seq<MoveRecord>, shortcuts: seq<ShortcutConfig>, filePath: string, key: string, now: int)
    requires |stack| <= MaxUndoSize && IsDir(m, Dir(filePath))
    requires MoveFile(m, shortcuts, filePath, key, now).out == Pass
    ensures var (_, m2, s2) := MoveSpecFixed(m, stack, shortcuts, filePath, key, now);
      var (out, m3, s3) := UndoSpec(m2, s2);
      out == Pass && IsFile(m3, filePath) && m3[filePath] == m[filePath] && s3 == Kept(stack)
  {
    var e := MoveFile(m, shortcuts, filePath, key, now);
    MoveEffectShape(m, shortcuts, filePath, key, now);
    var record := MoveRecord(filePath, e.final, now);
    PushedOnto(stack, record);
    UndoRecord(e.fs, Kept(stack), record);
  }

  /** The move as written records the wrong path when the name resolveConflict chose is taken
      (its timestamp fallback is not checked): the file goes to a suffixed name instead, the
      record names the file that was already there, and undoing moves that file to the old
      path of the moved one while the moved file stays where it went. */
  lemma MoveRecordsOccupiedPath(m: FsMap, stack: seq<MoveRecord>, shortcuts: seq<ShortcutConfig>, filePath: string, key: string, now: int)
    requires |stack| <= MaxUndoSize && IsDir(m, Dir(filePath))
    requires MoveFile(m, shortcuts, filePath, key, now).out == Pass
    requires var e := MoveFile(m, shortcuts, filePath, key, now);
      IsFile(e.staged, e.resolved) && e.resolved != filePath
    ensures var e := MoveFile(m, shortcuts, filePath, key, now);
      var (_, m2, s2) := MoveSpec(m, stack, shortcuts, filePath, key, now);
      var (out, m3, _) := UndoSpec(m2, s2);
      && e.final != e.resolved && s2 != [] && s2[|s2| - 1].targetPath == e.resolved
      && out == Pass && IsFile(m3, filePath) && m3[filePath] == e.staged[e.resolved]
      && e.final in m3 && m3[e.final] == m[filePath]
  {
    var e := MoveFile(m, shortcuts, filePath, key, now);
    MoveEffectShape(m, shortcuts, filePath, key, now);
    var record := MoveRecord(filePath, e.resolved, now);
    assert e.final != e.resolved;
    assert e.fs[e.resolved] == e.staged[e.resolved];
    PushedOnto(stack, record);
    UndoRecord(e.fs, Kept(stack), record);
  }

  // ---------------------------------------------------------------- the handler

  class ShortcutHandler {
    var undoStack: seq<MoveRecord>
    const maxUndoSize: nat

    ghost predicate Valid()
      reads this
    {
      maxUndoSize == MaxUndoSize && |undoStack| <= maxUndoSize
    }

    /** NewShortcutHandler: an empty stack bounded by 50. */
    constructor ()
      ensures Valid() && undoStack == []
    {
      maxUndoSize := MaxUndoSize;
      undoStack := [];
    }

    /** GetUndoCount */
    function GetUndoCount(): (n: nat)
      reads this
      requires Valid()
      ensures n == |undoStack| && n <= MaxUndoSize
    {
      |undoStack|
    }

    /** GetLastMoveRecord: the record an undo would pop, or none; the stack is not touched. */
    function GetLastMoveRecord(): (r: Option<MoveRecord>)
      reads this
      ensures r.None? <==> undoStack == []
      ensures r.Some? ==> r.value == undoStack[|undoStack| - 1]
    {
      if |undoStack| == 0 then None else Some(undoStack[|undoStack| - 1])
    }

    method ClearUndoStack()
      requires Valid()
      modifies this
      ensures Valid() && undoStack == []
    {
      undoStack := [];
    }

    method PushUndoRecord(record: MoveRecord)
      requires Valid()
      modifies this
      ensures Valid()
      ensures undoStack == Pushed(old(undoStack), record, maxUndoSize)
    {
      undoStack := undoStack + [record];
      if |undoStack| > maxUndoSize {
        undoStack := undoStack[1..];
      }
    }

    method Undo(fs: OS) returns (r: Outcome<Error>)
      requires Valid()
      modifies this, fs
      ensures Valid()
      ensures (r, fs.entries, undoStack) == UndoSpec(old(fs.entries), old(undoStack))
    {
      if |undoStack| == 0 {
        return Fail(NothingToUndo);
      }
      var record := undoStack[|undoStack| - 1];
      undoStack := undoStack[..|undoStack| - 1];
      var st := fs.Stat(record.targetPath);
      if st.None? {
        return Fail(UndoTargetGone(record.targetPath));
      }
      var sourceDir := Dir(record.sourcePath);
      var made := fs.MkdirAll(sourceDir);
      if made.Fail? {
        return Fail(MkdirFailed(made.error));
      }
      var moved := RenameFile(fs, record.targetPath, record.sourcePath, true, MoveMaxTry);
      if moved.Fail? {
        return Fail(UndoFailed(moved.error));
      }
      return Pass;
    }

    /** resolveConflict */
    method ResolveConflict(fs: OS, targetPath: string, now: int) returns (r: string)
      ensures r == ResolveConflictSpec(fs.entries, targetPath, now)
    {
      var st := fs.Stat(targetPath);
      if st.None? {
        return targetPath;
      }
      var dir := Dir(targetPath);
      var ext := Ext(targetPath);
      var name := TrimSuffix(Base(targetPath), ext);
      ghost var parts := NameParts(dir, name, ext);
      assert parts == ConflictParts(targetPath);
      var i := 1;
      while i < ConflictTries
        invariant 1 <= i <= ConflictTries
        invariant ConflictFrom(fs.entries, targetPath, parts, i, now) == ResolveConflictSpec(fs.entries, targetPath, now)
      {
        var newPath := Join(dir, name + "_" + NatToString(i) + ext);
        assert newPath == Candidate(targetPath, parts, i);
        var probe := fs.Stat(newPath);
        if probe.None? {
          return newPath;
        }
        i := i + 1;
      }
      return Join(dir, name + "_" + IntToString(now) + ext);
    }

    method MoveByShortcut(fs: OS, shortcuts: seq<ShortcutConfig>, filePath: string, shortcutKey: string, now: int)
      returns (r: Outcome<Error>)
      requires Valid()
      modifies this, fs
      ensures Valid()
      ensures (r, fs.entries, undoStack) == MoveSpec(old(fs.entries), old(undoStack), shortcuts, filePath, shortcutKey, now)
    {
      var targetPath, final;
      r, targetPath, final := MoveOnly(fs, shortcuts, filePath, shortcutKey, now);
      if r.Pass? {
        PushUndoRecord(MoveRecord(filePath, targetPath, now));
      }
    }

    /** The move with the record naming where the file went. */
    method MoveByShortcutFixed(fs: OS, shortcuts: seq<ShortcutConfig>, filePath: string, shortcutKey: string, now: int)
      returns (r: Outcome<Error>)
      requires Valid()
      modifies this, fs
      ensures Valid()
      ensures (r, fs.entries, undoStack) == MoveSpecFixed(old(fs.entries), old(undoStack), shortcuts, filePath, shortcutKey, now)
    {
      var targetPath, final;
      r, targetPath, final := MoveOnly(fs, shortcuts, filePath, shortcutKey, now);
      if r.Pass? {
        PushUndoRecord(MoveRecord(filePath, final, now));
      }
    }

    /** Everything MoveByShortcut does before it records the move. */
    method MoveOnly(fs: OS, shortcuts: seq<ShortcutConfig>, filePath: string, shortcutKey: string, now: int)
      returns (r: Outcome<Error>, targetPath: string, final: string)
      modifies fs
      ensures var e := MoveFile(old(fs.entries), shortcuts, filePath, shortcutKey, now);
        r == e.out && fs.entries == e.fs && (r.Pass? ==> targetPath == e.resolved && final == e.final)
    {
      targetPath, final := "", "";
      var targetConfig := FindShortcut(shortcuts, shortcutKey);
      if targetConfig.None? {
        return Fail(UnknownShortcut(shortcutKey)), targetPath, final;
      }
      if targetConfig.value.targetDir == "" {
        return Fail(NoTargetDir(shortcutKey)), targetPath, final;
      }
      var st := fs.Stat(filePath);
      if st.None? {
        return Fail(FileNotFound(filePath)), targetPath, final;
      }
      var targetDir := ResolveTargetDir(filePath, targetConfig.value.targetDir);
      var made := fs.MkdirAll(targetDir);
      if made.Fail? {
        return Fail(MkdirFailed(made.error)), targetPath, final;
      }
      var fileName := Base(filePath);
      targetPath := Join(targetDir, fileName);
      targetPath := ResolveConflict(fs, targetPath, now);
      var chosen := GetFinalTargetPath(fs, targetPath, true, MoveMaxTry);
      var moved := RenameFile(fs, filePath, targetPath, true, MoveMaxTry);
      if moved.Fail? {
        return Fail(MoveFailed(moved.error)), targetPath, final;
      }
      final := if chosen.Ok? then chosen.value else targetPath;
      return Pass, targetPath, final;
    }
  }
}
