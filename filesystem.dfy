/** The operating system's file system as the core sees it: a map from path to node.
    os.Stat is a lookup, os.ReadDir lists the children of a directory sorted by name,
    os.Rename moves one entry (overwriting a file at the destination, as POSIX rename does)
    and os.MkdirAll adds directory entries. */
module FileSystem {
  import opened Wrappers
  import opened Strings
  import opened Paths
  import opened Ordering

  datatype Node = File(modTime: int, size: int) | Directory

  type FsMap = map<string, Node>

  datatype FsError =
    | NotExist(path: string)
    | NotDirectory(path: string)
    | IsDirectory(path: string)
    | DirectoryRename(path: string)

  /** What os.ReadDir reports per entry. */
  datatype DirEntry = DirEntry(name: string, isDir: bool)

  /** os.Stat succeeds; the empty path never exists. */
  predicate Exists(m: FsMap, p: string)
  {
    p != [] && p in m
  }

  predicate IsDir(m: FsMap, p: string)
  {
    Exists(m, p) && m[p].Directory?
  }

  predicate IsFile(m: FsMap, p: string)
  {
    Exists(m, p) && m[p].File?
  }

  /** Names of the entries directly inside dir. */
  function Children(m: FsMap, dir: string): set<string>
  {
    set p | p in m && p != [] && ValidName(Base(p)) && Join(dir, Base(p)) == p :: Base(p)
  }

  lemma ChildrenAre(m: FsMap, dir: string, n: string)
    ensures n in Children(m, dir) <==> ValidName(n) && Exists(m, Join(dir, n))
  {
    if ValidName(n) && Exists(m, Join(dir, n)) {
      BaseOfJoin(dir, n);
      assert Base(Join(dir, n)) == n;
    }
  }

  /** The children are the names that exist below dir. */
  lemma ChildrenExactly(m: FsMap, dir: string, s: set<string>)
    requires forall n :: n in s <==> ValidName(n) && Exists(m, Join(dir, n))
    ensures Children(m, dir) == s
  {
    forall n ensures n in Children(m, dir) <==> n in s {
      ChildrenAre(m, dir, n);
    }
  }

  function EntriesOf(m: FsMap, dir: string, names: seq<string>): (r: seq<DirEntry>)
    ensures |r| == |names|
    ensures forall i :: 0 <= i < |names| ==> r[i] == DirEntry(names[i], IsDir(m, Join(dir, names[i])))
  {
    seq(|names|, i requires 0 <= i < |names| => DirEntry(names[i], IsDir(m, Join(dir, names[i]))))
  }

  /** os.ReadDir: the children of a directory in ascending name order. */
  ghost function ReadDirSpec(m: FsMap, dir: string): Result<seq<DirEntry>, FsError>
  {
    if !Exists(m, dir) then Err(NotExist(dir))
    else if !IsDir(m, dir) then Err(NotDirectory(dir))
    else Ok(EntriesOf(m, dir, SortedSeq(Children(m, dir))))
  }

  /** Listing fails exactly when the path is not a directory; a listing names every entry
      directly inside the directory once, in ascending order, and flags the directories. */
  lemma ReadDirCorrect(m: FsMap, dir: string)
    ensures ReadDirSpec(m, dir).Ok? <==> IsDir(m, dir)
    ensures ReadDirSpec(m, dir).Ok? ==> var es := ReadDirSpec(m, dir).value;
      && StrictlySorted(NamesOf(es))
      && (forall n :: n in NamesOf(es) <==> ValidName(n) && Exists(m, Join(dir, n)))
      && (forall i :: 0 <= i < |es| ==> es[i].isDir == IsDir(m, Join(dir, es[i].name)))
  {
    if IsDir(m, dir) {
      var names := SortedSeq(Children(m, dir));
      SortedSeqProperties(Children(m, dir));
      assert NamesOf(ReadDirSpec(m, dir).value) == names;
      forall n ensures n in names <==> ValidName(n) && Exists(m, Join(dir, n)) {
        ChildrenAre(m, dir, n);
      }
    }
  }

  /** os.Rename of a file. */
  function RenameMap(m: FsMap, src: string, dst: string): (r: Result<FsMap, FsError>)
    ensures r.Ok? ==> IsFile(m, src) && IsFile(r.value, dst)
    ensures r.Ok? && src != dst ==> r.value.Keys == m.Keys - {src} + {dst}
  {
    if !Exists(m, src) then Err(NotExist(src))
    else if m[src].Directory? then Err(DirectoryRename(src))
    else if dst == [] then Err(NotExist(dst))
    else if dst in m && m[dst].Directory? then Err(IsDirectory(dst))
    else if src == dst then Ok(m)
    else Ok((m - {src})[dst := m[src]])
  }

  /** A rename from src to dst. */
  datatype Move = Move(src: string, dst: string)

  /** The state after a sequence of renames that stops at the first one that fails,
      and that failing rename, if any. Earlier renames stay in effect. */
  datatype RunResult = RunResult(fs: FsMap, failed: Option<Move>)

  function RunMoves(m: FsMap, ops: seq<Move>): RunResult
    decreases |ops|
  {
    if ops == [] then RunResult(m, None)
    else match RenameMap(m, ops[0].src, ops[0].dst)
      case Err(_) => RunResult(m, Some(ops[0]))
      case Ok(m') => RunMoves(m', ops[1..])
  }

  /** Running a + b is running a and, when none of it failed, b from where a left off. */
  lemma {:induction false} RunMovesAppend(m: FsMap, a: seq<Move>, b: seq<Move>)
    ensures RunMoves(m, a + b) ==
      if RunMoves(m, a).failed.Some? then RunMoves(m, a) else RunMoves(RunMoves(m, a).fs, b)
    decreases |a|
  {
    if a != [] {
      assert (a + b)[0] == a[0] && (a + b)[1..] == a[1..] + b;
      match RenameMap(m, a[0].src, a[0].dst)
      case Err(_) =>
      case Ok(m') => RunMovesAppend(m', a[1..], b);
    } else {
      assert a + b == b;
    }
  }

  function Srcs(ops: seq<Move>): (r: seq<string>)
    ensures |r| == |ops| && forall i :: 0 <= i < |ops| ==> r[i] == ops[i].src
  {
    seq(|ops|, i requires 0 <= i < |ops| => ops[i].src)
  }

  function Dsts(ops: seq<Move>): (r: seq<string>)
    ensures |r| == |ops| && forall i :: 0 <= i < |ops| ==> r[i] == ops[i].dst
  {
    seq(|ops|, i requires 0 <= i < |ops| => ops[i].dst)
  }

  /** Renames that move distinct files to distinct names that are all free succeed one after
      the other, and the result holds each file under its new name and everything else as it was. */
  lemma {:induction false} RunMovesDisjoint(m: FsMap, ops: seq<Move>)
    requires forall i :: 0 <= i < |ops| ==> IsFile(m, ops[i].src) && ops[i].dst != [] && ops[i].dst !in m
    requires forall i, j :: 0 <= i < j < |ops| ==> ops[i].src != ops[j].src && ops[i].dst != ops[j].dst
    ensures RunMoves(m, ops).failed.None?
    ensures Moved(m, ops, RunMoves(m, ops).fs)
    decreases |ops|
  {
    if ops != [] {
      var s0, d0 := ops[0].src, ops[0].dst;
      var m' := (m - {s0})[d0 := m[s0]];
      assert RenameMap(m, s0, d0) == Ok(m');
      var rest := ops[1..];
      assert forall i :: 0 <= i < |rest| ==> rest[i] == ops[i + 1];
      assert forall i :: 0 <= i < |rest| ==> IsFile(m', rest[i].src) && rest[i].dst != [] && rest[i].dst !in m';
      RunMovesDisjoint(m', rest);
      MovedStep(m, ops, RunMoves(m', rest).fs);
    }
  }

  /** r is m with each source moved to its destination. */
  ghost predicate Moved(m: FsMap, ops: seq<Move>, r: FsMap)
  {
    && (forall p :: p in r <==> (p in m && p !in Srcs(ops)) || p in Dsts(ops))
    && (forall i :: 0 <= i < |ops| ==> ops[i].dst in r && ops[i].src in m && r[ops[i].dst] == m[ops[i].src])
    && (forall p :: p in m && p !in Srcs(ops) ==> p in r && r[p] == m[p])
  }

  /** The requirements of one step of RunMovesDisjoint: the first move is run on m, the rest
      from the file system it leaves. */
  ghost predicate FirstMoveFree(m: FsMap, ops: seq<Move>)
  {
    && ops != []
    && (forall i :: 0 <= i < |ops| ==> ops[i].src in m && ops[i].dst !in m)
    && (forall i :: 1 <= i < |ops| ==> ops[i].src != ops[0].src)
  }

  lemma MovedStep(m: FsMap, ops: seq<Move>, r: FsMap)
    requires FirstMoveFree(m, ops)
    requires Moved((m - {ops[0].src})[ops[0].dst := m[ops[0].src]], ops[1..], r)
    ensures Moved(m, ops, r)
  {
    MovedStepKeys(m, ops, r);
    MovedStepTargets(m, ops, r);
    MovedStepOthers(m, ops, r);
  }

  lemma MovedStepKeys(m: FsMap, ops: seq<Move>, r: FsMap)
    requires FirstMoveFree(m, ops)
    requires Moved((m - {ops[0].src})[ops[0].dst := m[ops[0].src]], ops[1..], r)
    ensures forall p :: p in r <==> (p in m && p !in Srcs(ops)) || p in Dsts(ops)
  {
    var s0, d0 := ops[0].src, ops[0].dst;
    var m', rest := (m - {s0})[d0 := m[s0]], ops[1..];
    assert s0 in m && d0 !in m;
    assert Srcs(ops) == [s0] + Srcs(rest);
    assert Dsts(ops) == [d0] + Dsts(rest);
    assert d0 !in Srcs(rest) by {
      forall i | 0 <= i < |rest| ensures Srcs(rest)[i] != d0 {
        assert rest[i] == ops[i + 1];
      }
    }
    forall p ensures p in r <==> (p in m && p !in Srcs(ops)) || p in Dsts(ops) {
      InCons(p, s0, Srcs(rest));
      InCons(p, d0, Dsts(rest));
      assert p in m' <==> (p in m && p != s0) || p == d0;
    }
  }

  lemma InCons<T>(x: T, a: T, s: seq<T>)
    ensures x in [a] + s <==> x == a || x in s
  {
  }

  lemma MovedStepTargets(m: FsMap, ops: seq<Move>, r: FsMap)
    requires FirstMoveFree(m, ops)
    requires Moved((m - {ops[0].src})[ops[0].dst := m[ops[0].src]], ops[1..], r)
    ensures forall i :: 0 <= i < |ops| ==> ops[i].dst in r && ops[i].src in m && r[ops[i].dst] == m[ops[i].src]
  {
    var s0, d0 := ops[0].src, ops[0].dst;
    var rest := ops[1..];
    assert s0 in m && d0 !in m;
    assert d0 !in Srcs(rest) by {
      forall i | 0 <= i < |rest| ensures Srcs(rest)[i] != d0 {
        assert rest[i] == ops[i + 1];
      }
    }
    forall i | 0 <= i < |ops| ensures ops[i].dst in r && ops[i].src in m && r[ops[i].dst] == m[ops[i].src] {
      if i > 0 {
        assert ops[i] == rest[i - 1];
        assert ops[i].src != s0;
      }
    }
  }

  lemma MovedStepOthers(m: FsMap, ops: seq<Move>, r: FsMap)
    requires FirstMoveFree(m, ops)
    requires Moved((m - {ops[0].src})[ops[0].dst := m[ops[0].src]], ops[1..], r)
    ensures forall p :: p in m && p !in Srcs(ops) ==> p in r && r[p] == m[p]
  {
    var s0, d0 := ops[0].src, ops[0].dst;
    var m', rest := (m - {s0})[d0 := m[s0]], ops[1..];
    assert s0 in m && d0 !in m;
    assert Srcs(ops) == [s0] + Srcs(rest);
    forall p | p in m && p !in Srcs(ops) ensures p in r && r[p] == m[p] {
      InCons(p, s0, Srcs(rest));
      assert p != s0 && p != d0 && p !in Srcs(rest);
      assert p in m' && m'[p] == m[p];
    }
  }

  /** os.MkdirAll: succeeds on an existing directory, fails on an existing file, and otherwise
      creates the missing parents and then the directory itself. */
  function MkdirAllSpec(m: FsMap, p: string): (r: Result<FsMap, FsError>)
    ensures r.Ok? ==> IsDir(r.value, p)
    ensures r.Ok? ==> m.Keys <= r.value.Keys && forall q :: q in m ==> r.value[q] == m[q]
    ensures r.Ok? ==> forall q :: q in r.value && q !in m ==> r.value[q] == Directory
    decreases |p|
  {
    if p == [] then Err(NotExist(p))
    else if p in m then (if m[p].Directory? then Ok(m) else Err(NotDirectory(p)))
    else
      var j := LastSep(TrimTrailingSeps(p)) + 1;
      if j > 1 then
        match MkdirAllSpec(m, p[..j - 1])
        case Err(e) => Err(e)
        case Ok(m') => if p in m' then Err(NotDirectory(p)) else Ok(m'[p := Directory])
      else Ok(m[p := Directory])
  }

  /** The process's view of the file system. */
  class OS {
    var entries: FsMap

    constructor (initial: FsMap)
      ensures entries == initial
    {
      entries := initial;
    }

    /** os.Stat */
    function Stat(p: string): (r: Option<Node>)
      reads this
      ensures r.Some? <==> Exists(entries, p)
      ensures r.Some? ==> r.value == entries[p]
    {
      if Exists(entries, p) then Some(entries[p]) else None
    }

    /** os.ReadDir */
    method ReadDir(dir: string) returns (r: Result<seq<DirEntry>, FsError>)
      ensures r == ReadDirSpec(entries, dir)
    {
      if !Exists(entries, dir) {
        return Err(NotExist(dir));
      }
      if !entries[dir].Directory? {
        return Err(NotDirectory(dir));
      }
      var names := ListSorted(Children(entries, dir));
      r := Ok(EntriesOf(entries, dir, names));
    }

    /** os.Rename */
    method Rename(src: string, dst: string) returns (r: Outcome<FsError>)
      modifies this
      ensures match RenameMap(old(entries), src, dst)
        case Ok(m') => r == Pass && entries == m'
        case Err(e) => r == Fail(e) && entries == old(entries)
    {
      match RenameMap(entries, src, dst)
      case Ok(m') => entries := m'; r := Pass;
      case Err(e) => r := Fail(e);
    }

    /** os.MkdirAll */
    method MkdirAll(p: string) returns (r: Outcome<FsError>)
      modifies this
      ensures match MkdirAllSpec(old(entries), p)
        case Ok(m') => r == Pass && entries == m'
        case Err(e) => r == Fail(e) && entries == old(entries)
    {
      match MkdirAllSpec(entries, p)
      case Ok(m') => entries := m'; r := Pass;
      case Err(e) => r := Fail(e);
    }
  }

  function NamesOf(es: seq<DirEntry>): (r: seq<string>)
    ensures |r| == |es| && forall i :: 0 <= i < |es| ==> r[i] == es[i].name
  {
    seq(|es|, i requires 0 <= i < |es| => es[i].name)
  }
}
