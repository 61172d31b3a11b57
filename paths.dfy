/** Go's path/filepath functions on a '/'-separated system, without the lexical
    cleaning (`..`, `.` and repeated separators are not collapsed). */
module Paths {
  import opened Strings

  const Separator: char := '/'

  /** A single path element as a directory entry name: non-empty and without separators. */
  predicate ValidName(n: string)
  {
    n != [] && Separator !in n
  }

  /** filepath.IsAbs */
  predicate IsAbs(p: string)
  {
    |p| > 0 && p[0] == Separator
  }

  /** filepath.Join of two elements: empty elements are ignored and exactly one separator
      is put between the two. */
  function Join(dir: string, name: string): string
  {
    if dir == [] then name
    else if name == [] then dir
    else if dir[|dir| - 1] == Separator then dir + name
    else dir + [Separator] + name
  }

  /** Index of the last separator in p[..i], or -1. */
  function LastSepBefore(p: string, i: nat): (k: int)
    requires i <= |p|
    ensures -1 <= k < i
    ensures k >= 0 ==> p[k] == Separator
    ensures forall j :: k < j < i ==> p[j] != Separator
  {
    if i == 0 then -1 else if p[i - 1] == Separator then i - 1 else LastSepBefore(p, i - 1)
  }

  function LastSep(p: string): int
  {
    LastSepBefore(p, |p|)
  }

  function TrimTrailingSeps(p: string): (r: string)
    ensures |r| <= |p| && r == p[..|r|]
    ensures r == [] || r[|r| - 1] != Separator
  {
    if p != [] && p[|p| - 1] == Separator then TrimTrailingSeps(p[..|p| - 1]) else p
  }

  /** filepath.Base: the last element, "." for the empty path and "/" for a path of separators. */
  function Base(p: string): string
  {
    if p == [] then "."
    else
      var q := TrimTrailingSeps(p);
      if q == [] then [Separator] else q[LastSep(q) + 1..]
  }

  /** filepath.Dir: everything before the last element, trailing separators removed. */
  function Dir(p: string): string
  {
    var i := LastSep(p);
    if i < 0 then "."
    else
      var t := TrimTrailingSeps(p[..i + 1]);
      if t == [] then [Separator] else t
  }

  /** The extension of p in p[..i]: the suffix from the last '.' that follows the last separator. */
  function ExtBefore(p: string, i: nat): (e: string)
    requires i <= |p|
  {
    if i == 0 then ""
    else if p[i - 1] == Separator then ""
    else if p[i - 1] == '.' then p[i - 1..]
    else ExtBefore(p, i - 1)
  }

  /** filepath.Ext: the suffix starting at the final '.' of the last element, or "". */
  function Ext(p: string): string
  {
    ExtBefore(p, |p|)
  }

  // ---------------------------------------------------------------- lemmas

  lemma {:induction false} ExtBeforeShape(p: string, i: nat)
    requires i <= |p|
    ensures var e := ExtBefore(p, i);
      && HasSuffix(p, e)
      && (e == [] || e[0] == '.')
      && (e != [] ==> |p| - |e| < i)
      && (forall j :: |p| - |e| <= j < i ==> p[j] != Separator)
  {
    if i > 0 && p[i - 1] != Separator && p[i - 1] != '.' {
      ExtBeforeShape(p, i - 1);
    }
  }

  /** The extension is a suffix of the path, empty or starting with '.', inside the last element. */
  lemma ExtShape(p: string)
    ensures HasSuffix(p, Ext(p))
    ensures Ext(p) == [] || Ext(p)[0] == '.'
    ensures Separator !in Ext(p)
  {
    ExtBeforeShape(p, |p|);
    var e := Ext(p);
    assert forall j :: 0 <= j < |e| ==> e[j] == p[|p| - |e| + j];
  }

  lemma {:induction false} ExtBeforeSingleDot(p: string, i: nat)
    requires i <= |p|
    requires forall j :: i <= j < |p| ==> p[j] != '.'
    ensures forall j :: 1 <= j < |ExtBefore(p, i)| ==> ExtBefore(p, i)[j] != '.'
  {
    if i > 0 && p[i - 1] != Separator {
      if p[i - 1] == '.' {
        var e := p[i - 1..];
        forall j | 1 <= j < |e| ensures e[j] != '.' { assert e[j] == p[i - 1 + j]; }
      } else {
        ExtBeforeSingleDot(p, i - 1);
      }
    }
  }

  /** The extension holds no '.' besides its first character. */
  lemma ExtSingleDot(p: string)
    ensures forall j :: 1 <= j < |Ext(p)| ==> Ext(p)[j] != '.'
  {
    ExtBeforeSingleDot(p, |p|);
  }

  /** The prefix that Join puts in front of a non-empty name. */
  function JoinPrefix(dir: string): (x: string)
    ensures x == [] || x[|x| - 1] == Separator
  {
    if dir == [] then [] else if dir[|dir| - 1] == Separator then dir else dir + [Separator]
  }

  lemma JoinIsPrefixed(dir: string, name: string)
    requires name != []
    ensures Join(dir, name) == JoinPrefix(dir) + name
  {
  }

  lemma {:induction false} LastSepInName(x: string, n: string, k: nat)
    requires x == [] || x[|x| - 1] == Separator
    requires Separator !in n && k <= |n|
    ensures LastSepBefore(x + n, |x| + k) == |x| - 1
  {
    if k > 0 {
      assert (x + n)[|x| + k - 1] == n[k - 1];
      LastSepInName(x, n, k - 1);
    } else if x != [] {
      assert (x + n)[|x| - 1] == x[|x| - 1];
    }
  }

  lemma {:induction false} ExtInName(x: string, n: string, k: nat)
    requires x == [] || x[|x| - 1] == Separator
    requires Separator !in n && k <= |n|
    ensures ExtBefore(x + n, |x| + k) == ExtBefore(n, k)
  {
    var p := x + n;
    if k > 0 {
      assert p[|x| + k - 1] == n[k - 1];
      if n[k - 1] == '.' {
        assert p[|x| + k - 1..] == n[k - 1..];
      } else {
        ExtInName(x, n, k - 1);
      }
    } else if x != [] {
      assert p[|x| - 1] == x[|x| - 1];
    }
  }

  /** Joining a name onto a directory keeps the name as the last element. */
  lemma BaseOfJoin(dir: string, name: string)
    requires ValidName(name)
    ensures Base(Join(dir, name)) == name
  {
    var x := JoinPrefix(dir);
    var p := x + name;
    assert p == Join(dir, name);
    assert p[|p| - 1] == name[|name| - 1];
    assert TrimTrailingSeps(p) == p;
    LastSepInName(x, name, |name|);
    assert p[|x|..] == name;
  }

  /** The extension of a joined path is the extension of the name. */
  lemma ExtOfJoin(dir: string, name: string)
    requires ValidName(name)
    ensures Ext(Join(dir, name)) == Ext(name)
  {
    var x := JoinPrefix(dir);
    ExtInName(x, name, |name|);
    assert Join(dir, name) == x + name;
  }

  /** Distinct names give distinct paths in the same directory. */
  lemma JoinInjective(dir: string, a: string, b: string)
    requires ValidName(a) && ValidName(b)
    requires Join(dir, a) == Join(dir, b)
    ensures a == b
  {
    BaseOfJoin(dir, a);
    BaseOfJoin(dir, b);
  }

  /** Joining a name onto a non-empty directory gives a longer path. */
  lemma JoinLonger(dir: string, name: string)
    requires dir != [] && ValidName(name)
    ensures |Join(dir, name)| > |dir|
  {
  }

  lemma {:induction false} LowerSlice(p: string, k: nat)
    requires k <= |p|
    ensures ToLower(p[k..]) == ToLower(p)[k..]
  {
    assert |ToLower(p[k..])| == |ToLower(p)[k..]|;
    forall j | 0 <= j < |p| - k ensures ToLower(p[k..])[j] == ToLower(p)[k..][j] {
      assert p[k..][j] == p[k + j];
    }
  }

  lemma {:induction false} ExtBeforeLower(p: string, i: nat)
    requires i <= |p|
    ensures ExtBefore(ToLower(p), i) == ToLower(ExtBefore(p, i))
  {
    var lp := ToLower(p);
    if i > 0 {
      assert lp[i - 1] == LowerChar(p[i - 1]);
      if p[i - 1] == Separator {
      } else if p[i - 1] == '.' {
        LowerSlice(p, i - 1);
      } else {
        ExtBeforeLower(p, i - 1);
      }
    }
  }

  /** Lower-casing a path lower-cases its extension and nothing else about it. */
  lemma ExtOfLower(p: string)
    ensures Ext(ToLower(p)) == ToLower(Ext(p))
  {
    ExtBeforeLower(p, |p|);
  }

  // ---------------------------------------------------------------- walking below a directory

  /** The prefix every path below dir starts with. */
  function Inside(dir: string): string
  {
    if dir != [] && dir[|dir| - 1] == Separator then dir else dir + [Separator]
  }

  /** p lies strictly below dir (at any depth). */
  predicate Below(dir: string, p: string)
  {
    HasPrefix(p, Inside(dir)) && |p| > |Inside(dir)|
  }

  /** filepath.Rel for a path below dir: the part after dir and its separator. */
  function Rel(dir: string, p: string): (r: string)
    requires Below(dir, p)
    ensures Inside(dir) + r == p
  {
    p[|Inside(dir)|..]
  }

  lemma JoinIsBelow(dir: string, name: string)
    requires dir != [] && ValidName(name)
    ensures Below(dir, Join(dir, name)) && Rel(dir, Join(dir, name)) == name
  {
    assert Inside(dir) == JoinPrefix(dir);
    var p := Join(dir, name);
    assert p == Inside(dir) + name;
    assert p[..|Inside(dir)|] == Inside(dir);
  }
}
