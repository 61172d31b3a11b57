/** The duplicate-image search of the similarity handler: every .jpg found below the selected
    directory gets a 64-bit average-hash fingerprint; images whose fingerprints are at Hamming
    distance 0 are joined in a union-find, and every class of at least two images that can
    still be read is reported as one numbered group. */
module Similar {
  import opened Wrappers
  import opened Strings
  import opened Paths
  import opened Sorting
  import opened FileSystem
  import opened FileUtil
  import opened UnionFinds

  // ---------------------------------------------------------------- fingerprints

  const HashBits: nat := 64

  function Pow2(n: nat): (r: nat)
    ensures r >= 1
  {
    if n == 0 then 1 else 2 * Pow2(n - 1)
  }

  /** A 64-bit image fingerprint, a number below 2^64; computing one from the pixels is not
      part of this model. */
  type Fingerprint = x: nat | x < Pow2(HashBits)

  /** The number of positions among the lowest `bits` bits where a and b differ. */
  function BitDistance(a: nat, b: nat, bits: nat): (d: nat)
    ensures d <= bits
  {
    if bits == 0 then 0
    else (if a % 2 == b % 2 then 0 else 1) + BitDistance(a / 2, b / 2, bits - 1)
  }

  /** The Hamming distance of two fingerprints. */
  function Distance(a: Fingerprint, b: Fingerprint): (d: nat)
    ensures d <= HashBits
  {
    BitDistance(a, b, HashBits)
  }

  lemma {:induction false} BitDistanceZero(a: nat, b: nat, bits: nat)
    requires a < Pow2(bits) && b < Pow2(bits)
    ensures BitDistance(a, b, bits) == 0 <==> a == b
  {
    if bits > 0 {
      assert a / 2 < Pow2(bits - 1) && b / 2 < Pow2(bits - 1);
      BitDistanceZero(a / 2, b / 2, bits - 1);
      assert a == 2 * (a / 2) + a % 2 && b == 2 * (b / 2) + b % 2;
    }
  }

  /** Distance 0 means the two fingerprints are the same value, and only then. */
  lemma DistanceZeroIff(a: Fingerprint, b: Fingerprint)
    ensures Distance(a, b) == 0 <==> a == b
  {
    BitDistanceZero(a, b, HashBits);
  }

  lemma {:induction false} BitDistanceSymmetric(a: nat, b: nat, bits: nat)
    ensures BitDistance(a, b, bits) == BitDistance(b, a, bits)
  {
    if bits > 0 {
      BitDistanceSymmetric(a / 2, b / 2, bits - 1);
    }
  }

  /** The distance does not depend on the order of its arguments. */
  lemma DistanceSymmetric(a: Fingerprint, b: Fingerprint)
    ensures Distance(a, b) == Distance(b, a)
  {
    BitDistanceSymmetric(a, b, HashBits);
  }

  // ---------------------------------------------------------------- splitSlice

  const DefaultGroupSize: nat := 200

  /** Consecutive pieces of s of n elements each, the last one possibly shorter. */
  function Chunks(s: seq<string>, n: nat): seq<seq<string>>
    requires n > 0
    decreases |s|
  {
    if s == [] then []
    else
      var k := if |s| < n then |s| else n;
      [s[..k]] + Chunks(s[k..], n)
  }

  function Flatten(ss: seq<seq<string>>): seq<string>
  {
    if ss == [] then [] else ss[0] + Flatten(ss[1..])
  }

  lemma {:induction false} FlattenAppend(a: seq<seq<string>>, b: seq<seq<string>>)
    ensures Flatten(a + b) == Flatten(a) + Flatten(b)
  {
    if a != [] {
      assert (a + b)[0] == a[0] && (a + b)[1..] == a[1..] + b;
      FlattenAppend(a[1..], b);
    } else {
      assert a + b == b;
    }
  }

  lemma ChunksStep(s: seq<string>, n: nat)
    requires n > 0 && s != []
    ensures var k := if |s| < n then |s| else n;
      Chunks(s, n)[0] == s[..k] && Chunks(s, n)[1..] == Chunks(s[k..], n) && |Chunks(s, n)| == 1 + |Chunks(s[k..], n)|
  {
  }

  /** The pieces put back together give s. */
  lemma {:induction false} ChunksFlatten(s: seq<string>, n: nat)
    requires n > 0
    ensures Flatten(Chunks(s, n)) == s
    decreases |s|
  {
    if s != [] {
      var k := if |s| < n then |s| else n;
      ChunksStep(s, n);
      ChunksFlatten(s[k..], n);
      assert s[..k] + s[k..] == s;
    }
  }

  /** Every piece is non-empty and at most n long, and every piece but the last is exactly n
      long. */
  lemma {:induction false} ChunksSizes(s: seq<string>, n: nat)
    requires n > 0
    ensures forall i :: 0 <= i < |Chunks(s, n)| ==> 0 < |Chunks(s, n)[i]| <= n
    ensures forall i :: 0 <= i < |Chunks(s, n)| - 1 ==> |Chunks(s, n)[i]| == n
    decreases |s|
  {
    if s != [] {
      var k := if |s| < n then |s| else n;
      var c, rest := Chunks(s, n), Chunks(s[k..], n);
      ChunksStep(s, n);
      ChunksSizes(s[k..], n);
      assert forall i :: 1 <= i < |c| ==> c[i] == rest[i - 1];
      if |s| <= n {
        assert s[k..] == [];
      }
    }
  }

  function Min(a: int, b: int): int
  {
    if a < b then a else b
  }

  /** The loop of splitSlice has produced `groups`, and the pieces from `start` on remain. */
  ghost predicate ChunkedUpTo(s: seq<string>, n: nat, groups: seq<seq<string>>, start: nat)
    requires n > 0
  {
    groups + Chunks(s[Min(start, |s|)..], n) == Chunks(s, n)
  }

  /** One step of the chunking loop: the piece from `start` to `end` is the next group. */
  lemma ChunksFrom(s: seq<string>, n: nat, groups: seq<seq<string>>, start: nat, end: nat, next: nat)
    requires n > 0 && start < |s| && end == (if start + n > |s| then |s| else start + n) && next == start + n
    requires ChunkedUpTo(s, n, groups, start)
    ensures ChunkedUpTo(s, n, groups + [s[start..end]], next)
  {
    var t := s[start..];
    var k := if |t| < n then |t| else n;
    assert t[..k] == s[start..end];
    assert t[k..] == s[end..];
    assert Chunks(t, n) == [s[start..end]] + Chunks(s[end..], n);
    assert Min(next, |s|) == end;
    assert groups + [s[start..end]] + Chunks(s[end..], n) == groups + ([s[start..end]] + Chunks(s[end..], n));
  }

  /** splitSlice: the paths cut into consecutive groups of groupSize, 200 when groupSize is not
      positive. */
  method SplitSlice(paths: seq<string>, groupSize: int) returns (groups: seq<seq<string>>)
    ensures groupSize > 0 ==> groups == Chunks(paths, groupSize)
    ensures groupSize <= 0 ==> groups == Chunks(paths, DefaultGroupSize)
    ensures Flatten(groups) == paths
    ensures forall i :: 0 <= i < |groups| ==> 0 < |groups[i]| <= (if groupSize > 0 then groupSize else DefaultGroupSize)
  {
    var size: nat := if groupSize > 0 then groupSize else DefaultGroupSize;
    groups := [];
    var start := 0;
    while start < |paths|
      invariant ChunkedUpTo(paths, size, groups, start)
      decreases |paths| - start
    {
      var end := start + size;
      if end > |paths| {
        end := |paths|;
      }
      ChunksFrom(paths, size, groups, start, end, start + size);
      groups := groups + [paths[start..end]];
      start := start + size;
    }
    assert paths[Min(start, |paths|)..] == [];
    assert groups == Chunks(paths, size);
    ChunksFlatten(paths, size);
    ChunksSizes(paths, size);
  }

  // ---------------------------------------------------------------- calcAverageHash

  /** One hashing outcome: the fingerprint, or none when the file was not opened or could not be
      decoded and hashed. */
  datatype HashResult = HashResult(path: string, hash: Option<Fingerprint>)

  /** The outcome for one path, given the paths that were opened and the fingerprint each file
      that decodes as a JPEG yields. */
  function HashOf(files: set<string>, decoded: map<string, Fingerprint>, path: string): Option<Fingerprint>
  {
    if path in files && path in decoded then Some(decoded[path]) else None
  }

  /** One outcome per path, in the order of the paths. */
  function HashResults(paths: seq<string>, files: set<string>, decoded: map<string, Fingerprint>): (r: seq<HashResult>)
    ensures |r| == |paths|
    ensures forall i :: 0 <= i < |paths| ==> r[i].path == paths[i] && r[i].hash == HashOf(files, decoded, paths[i])
  {
    seq(|paths|, i requires 0 <= i < |paths| => HashResult(paths[i], HashOf(files, decoded, paths[i])))
  }

  lemma HashResultsAppend(a: seq<string>, b: seq<string>, files: set<string>, decoded: map<string, Fingerprint>)
    ensures HashResults(a + b, files, decoded) == HashResults(a, files, decoded) + HashResults(b, files, decoded)
  {
    var l, r := HashResults(a + b, files, decoded), HashResults(a, files, decoded) + HashResults(b, files, decoded);
    assert |l| == |r|;
    forall i | 0 <= i < |l| ensures l[i] == r[i] {
      if i < |a| {
        assert (a + b)[i] == a[i];
      } else {
        assert (a + b)[i] == b[i - |a|];
      }
    }
  }

  /** The work of one hashing goroutine: the outcomes for one piece, in its order. */
  method HashGroup(group: seq<string>, files: set<string>, decoded: map<string, Fingerprint>) returns (rs: seq<HashResult>)
    ensures rs == HashResults(group, files, decoded)
  {
    rs := [];
    var j := 0;
    while j < |group|
      invariant 0 <= j <= |group|
      invariant rs == HashResults(group[..j], files, decoded)
    {
      var path := group[j];
      assert group[..j + 1] == group[..j] + [path];
      HashResultsAppend(group[..j], [path], files, decoded);
      rs := rs + [HashResult(path, HashOf(files, decoded, path))];
      j := j + 1;
    }
    assert group[..j] == group;
  }

  /** calcAverageHash: one outcome per path. The pieces of 200 paths are hashed one after the
      other; the outcomes come out in the order of the paths. */
  method CalcAverageHash(imgPath: seq<string>, files: set<string>, decoded: map<string, Fingerprint>) returns (results: seq<HashResult>)
    ensures results == HashResults(imgPath, files, decoded)
  {
    var groups := SplitSlice(imgPath, DefaultGroupSize);
    results := [];
    var i := 0;
    while i < |groups|
      invariant 0 <= i <= |groups|
      invariant results == HashResults(Flatten(groups[..i]), files, decoded)
    {
      var rs := HashGroup(groups[i], files, decoded);
      FlattenStep(groups, i);
      HashResultsAppend(Flatten(groups[..i]), groups[i], files, decoded);
      results := results + rs;
      i := i + 1;
    }
    assert groups[..i] == groups;
  }

  lemma FlattenStep(groups: seq<seq<string>>, i: nat)
    requires i < |groups|
    ensures Flatten(groups[..i + 1]) == Flatten(groups[..i]) + groups[i]
  {
    assert groups[..i + 1] == groups[..i] + [groups[i]];
    FlattenAppend(groups[..i], [groups[i]]);
    assert Flatten([groups[i]]) == groups[i] + Flatten([]);
  }
  // ---------------------------------------------------------------- hashMap and validPaths

  /** hashMap after the loop over the outcomes: every outcome with a fingerprint is entered
      under its path, a later one overriding an earlier one. */
  function HashMapOf(rs: seq<HashResult>): map<string, Fingerprint>
    decreases |rs|
  {
    if rs == [] then map[]
    else
      var m := HashMapOf(rs[..|rs| - 1]);
      var last := rs[|rs| - 1];
      if last.hash.Some? then m[last.path := last.hash.value] else m
  }

  method BuildHashMap(rs: seq<HashResult>) returns (hashMap: map<string, Fingerprint>)
    ensures hashMap == HashMapOf(rs)
  {
    hashMap := map[];
    var i := 0;
    while i < |rs|
      invariant 0 <= i <= |rs|
      invariant hashMap == HashMapOf(rs[..i])
    {
      assert rs[..i + 1][..i] == rs[..i];
      if rs[i].hash.Some? {
        hashMap := hashMap[rs[i].path := rs[i].hash.value];
      }
      i := i + 1;
    }
    assert rs[..i] == rs;
  }

  /** The fingerprints known for the paths: those opened files that decoded. */
  function Known(paths: seq<string>, files: set<string>, decoded: map<string, Fingerprint>): map<string, Fingerprint>
  {
    map p | p in paths && p in files && p in decoded :: decoded[p]
  }

  /** The hash map built from the outcomes for some paths holds exactly the fingerprints of the
      opened paths that decoded. */
  lemma {:induction false} HashMapOfResults(paths: seq<string>, files: set<string>, decoded: map<string, Fingerprint>)
    ensures HashMapOf(HashResults(paths, files, decoded)) == Known(paths, files, decoded)
    decreases |paths|
  {
    if paths != [] {
      var init := paths[..|paths| - 1];
      HashResultsInit(paths, files, decoded);
      HashMapOfResults(init, files, decoded);
      KnownStep(paths, files, decoded);
    }
  }

  lemma HashResultsInit(paths: seq<string>, files: set<string>, decoded: map<string, Fingerprint>)
    requires paths != []
    ensures HashResults(paths, files, decoded)[..|paths| - 1] == HashResults(paths[..|paths| - 1], files, decoded)
  {
  }

  /** The fingerprints known for the paths: those for all but the last, and the last one's. */
  lemma KnownStep(paths: seq<string>, files: set<string>, decoded: map<string, Fingerprint>)
    requires paths != []
    ensures var init, last := paths[..|paths| - 1], paths[|paths| - 1];
      Known(paths, files, decoded) ==
        if last in files && last in decoded then Known(init, files, decoded)[last := decoded[last]]
        else Known(init, files, decoded)
  {
    var init, last := paths[..|paths| - 1], paths[|paths| - 1];
    assert paths == init + [last];
    assert forall p :: p in paths <==> p in init || p == last;
  }

  /** validPaths: the paths that have a fingerprint, in their order. */
  function KeepHashed(paths: seq<string>, hashMap: map<string, Fingerprint>): (r: seq<string>)
    decreases |paths|
  {
    if paths == [] then []
    else KeepHashed(paths[..|paths| - 1], hashMap) + (if paths[|paths| - 1] in hashMap then [paths[|paths| - 1]] else [])
  }

  method ValidPaths(imgPaths: seq<string>, hashMap: map<string, Fingerprint>) returns (validPaths: seq<string>)
    ensures validPaths == KeepHashed(imgPaths, hashMap)
  {
    validPaths := [];
    var i := 0;
    while i < |imgPaths|
      invariant 0 <= i <= |imgPaths|
      invariant validPaths == KeepHashed(imgPaths[..i], hashMap)
    {
      assert imgPaths[..i + 1][..i] == imgPaths[..i];
      if imgPaths[i] in hashMap {
        validPaths := validPaths + [imgPaths[i]];
      }
      i := i + 1;
    }
    assert imgPaths[..i] == imgPaths;
  }

  /** A path is kept exactly when it is one of the paths and has a fingerprint. */
  lemma {:induction false} KeepHashedMembers(paths: seq<string>, hashMap: map<string, Fingerprint>)
    ensures forall p :: p in KeepHashed(paths, hashMap) <==> p in paths && p in hashMap
    decreases |paths|
  {
    if paths != [] {
      var init := paths[..|paths| - 1];
      KeepHashedMembers(init, hashMap);
      assert paths == init + [paths[|paths| - 1]];
    }
  }

  /** Filtering keeps the order: filtering a concatenation concatenates the filtered parts. */
  lemma {:induction false} KeepHashedAppend(a: seq<string>, b: seq<string>, hashMap: map<string, Fingerprint>)
    ensures KeepHashed(a + b, hashMap) == KeepHashed(a, hashMap) + KeepHashed(b, hashMap)
    decreases |b|
  {
    if b == [] {
      assert a + b == a;
    } else {
      var init := b[..|b| - 1];
      assert (a + b)[..|a + b| - 1] == a + init;
      KeepHashedAppend(a, init, hashMap);
    }
  }

  // ---------------------------------------------------------------- the pairwise pass

  ghost predicate Hashed<K(!new)>(vp: seq<K>, hm: map<K, Fingerprint>)
  {
    forall p :: p in vp ==> p in hm
  }

  /** Some path before position i has fingerprint h. */
  ghost predicate EarlyHash<K(!new)>(vp: seq<K>, hm: map<K, Fingerprint>, h: Fingerprint, i: nat)
    requires i <= |vp| && Hashed(vp, hm)
  {
    exists k :: 0 <= k < i && hm[vp[k]] == h
  }

  /** Path a has been joined with vp[i] during row i, before column j. */
  ghost predicate InRow<K(!new)>(vp: seq<K>, hm: map<K, Fingerprint>, i: nat, j: nat, a: K)
    requires i < j <= |vp| && a in hm && Hashed(vp, hm)
  {
    a in vp[i..j] && hm[a] == hm[vp[i]]
  }

  /** The classes once rows 0..i-1 are done: a fingerprint that occurs before position i has
      all its paths in one class; every other path is alone. */
  ghost predicate RowsDone<K(!new)>(root: map<K, K>, vp: seq<K>, hm: map<K, Fingerprint>, i: nat)
    requires i <= |vp| && Hashed(vp, hm)
  {
    && root.Keys == (set p | p in vp)
    && forall a, b {:trigger root[a], root[b]} :: a in root && b in root ==>
         (root[a] == root[b] <==> a == b || (hm[a] == hm[b] && EarlyHash(vp, hm, hm[a], i)))
  }

  /** The classes in row i before column j: as after rows 0..i-1, and in addition vp[i] is
      joined with the paths of its fingerprint among positions i+1..j-1. */
  ghost predicate InRowDone<K(!new)>(root: map<K, K>, vp: seq<K>, hm: map<K, Fingerprint>, i: nat, j: nat)
    requires i < j <= |vp| && Hashed(vp, hm)
  {
    && root.Keys == (set p | p in vp)
    && forall a, b {:trigger root[a], root[b]} :: a in root && b in root ==>
         (root[a] == root[b] <==>
            a == b || (hm[a] == hm[b] && (EarlyHash(vp, hm, hm[a], i) || (InRow(vp, hm, i, j, a) && InRow(vp, hm, i, j, b)))))
  }

  /** Before any union, every path is alone. */
  lemma RowsDoneInitially<K(!new)>(root: map<K, K>, vp: seq<K>, hm: map<K, Fingerprint>)
    requires Hashed(vp, hm) && root.Keys == (set p | p in vp) && forall p :: p in root ==> root[p] == p
    ensures RowsDone(root, vp, hm, 0)
  {
  }

  /** A row starts with vp[i] joined with nothing new. */
  lemma RowBegins<K(!new)>(root: map<K, K>, vp: seq<K>, hm: map<K, Fingerprint>, i: nat)
    requires i < |vp| && Hashed(vp, hm) && RowsDone(root, vp, hm, i)
    ensures InRowDone(root, vp, hm, i, i + 1)
  {
    assert vp[i..i + 1] == [vp[i]];
  }

  /** A path whose fingerprint is that of vp[i] is met in row i unless it occurs earlier. */
  lemma InRowOrEarly<K(!new)>(vp: seq<K>, hm: map<K, Fingerprint>, i: nat, a: K)
    requires i < |vp| && Hashed(vp, hm) && a in vp && hm[a] == hm[vp[i]]
    ensures EarlyHash(vp, hm, hm[a], i) || InRow(vp, hm, i, |vp|, a)
  {
    var k :| 0 <= k < |vp| && vp[k] == a;
    if k >= i {
      assert vp[i..][k - i] == a;
    }
  }

  /** A finished row i makes the fingerprint of vp[i] one that occurs before i + 1. */
  lemma RowEnds<K(!new)>(root: map<K, K>, vp: seq<K>, hm: map<K, Fingerprint>, i: nat)
    requires i < |vp| && Hashed(vp, hm) && InRowDone(root, vp, hm, i, |vp|)
    ensures RowsDone(root, vp, hm, i + 1)
  {
    forall a, b | a in root && b in root
      ensures root[a] == root[b] <==> a == b || (hm[a] == hm[b] && EarlyHash(vp, hm, hm[a], i + 1))
    {
      var h := hm[a];
      if EarlyHash(vp, hm, h, i) {
        var k :| 0 <= k < i && hm[vp[k]] == h;
        assert 0 <= k < i + 1 && hm[vp[k]] == h;
      }
      if InRow(vp, hm, i, |vp|, a) {
        assert 0 <= i < i + 1 && hm[vp[i]] == h;
      }
      if hm[a] == hm[b] && EarlyHash(vp, hm, h, i + 1) && !EarlyHash(vp, hm, h, i) {
        var k :| 0 <= k < i + 1 && hm[vp[k]] == h;
        assert k == i;
        InRowOrEarly(vp, hm, i, a);
        InRowOrEarly(vp, hm, i, b);
      }
    }
  }

  /** After every row, two paths are in one class exactly when their fingerprints are equal. */
  lemma AllRowsDone<K(!new)>(root: map<K, K>, vp: seq<K>, hm: map<K, Fingerprint>)
    requires Hashed(vp, hm) && RowsDone(root, vp, hm, |vp|)
    ensures forall a, b :: a in root && b in root ==> (root[a] == root[b] <==> hm[a] == hm[b])
  {
    forall a, b | a in root && b in root && hm[a] == hm[b] ensures root[a] == root[b] {
      var k :| 0 <= k < |vp| && vp[k] == a;
      assert EarlyHash(vp, hm, hm[a], |vp|);
    }
  }

  /** Column j of row i: joining vp[i] with vp[j] when their fingerprints are equal (and
      changing nothing otherwise) extends the row by one column. */
  lemma ColumnStep<K(!new)>(root0: map<K, K>, root1: map<K, K>, vp: seq<K>, hm: map<K, Fingerprint>, i: nat, j: nat, next: nat)
    requires i < j < |vp| && next == j + 1 && Hashed(vp, hm) && InRowDone(root0, vp, hm, i, j)
    requires hm[vp[i]] != hm[vp[j]] ==> root1 == root0
    requires hm[vp[i]] == hm[vp[j]] ==> vp[i] in root0 && vp[j] in root0 && MergedClasses(root0, root1, vp[i], vp[j])
    ensures InRowDone(root1, vp, hm, i, next)
  {
    ColumnMembers(vp, hm, i, j, next);
    if hm[vp[i]] != hm[vp[j]] {
    } else if EarlyHash(vp, hm, hm[vp[i]], i) {
      ColumnJoinEarly(root0, root1, vp, hm, i, j, next);
    } else {
      ColumnJoinNew(root0, root1, vp, hm, i, j, next);
    }
  }

  /** Column j adds vp[j] to the paths met in row i when it has the fingerprint of vp[i]. */
  lemma ColumnMembers<K(!new)>(vp: seq<K>, hm: map<K, Fingerprint>, i: nat, j: nat, next: nat)
    requires i < j < |vp| && next == j + 1 && Hashed(vp, hm)
    ensures vp[i] in vp[i..j]
    ensures forall a :: a in hm ==> (InRow(vp, hm, i, next, a) <==> InRow(vp, hm, i, j, a) || (a == vp[j] && hm[vp[j]] == hm[vp[i]]))
  {
    assert vp[i..next] == vp[i..j] + [vp[j]];
    assert vp[i..j][0] == vp[i];
  }

  /** Joining two paths whose fingerprint already occurs before row i changes no class. */
  lemma ColumnJoinEarly<K(!new)>(root0: map<K, K>, root1: map<K, K>, vp: seq<K>, hm: map<K, Fingerprint>, i: nat, j: nat, next: nat)
    requires i < j < |vp| && next == j + 1 && Hashed(vp, hm) && InRowDone(root0, vp, hm, i, j)
    requires hm[vp[i]] == hm[vp[j]] && EarlyHash(vp, hm, hm[vp[i]], i)
    requires vp[i] in root0 && vp[j] in root0 && MergedClasses(root0, root1, vp[i], vp[j])
    requires vp[i] in vp[i..j]
    requires forall a :: a in hm ==> (InRow(vp, hm, i, next, a) <==> InRow(vp, hm, i, j, a) || (a == vp[j] && hm[vp[j]] == hm[vp[i]]))
    ensures InRowDone(root1, vp, hm, i, next)
  {
    assert root0[vp[i]] == root0[vp[j]];
  }

  /** Joining vp[i] with vp[j] of the same fingerprint, new in row i, adds vp[j] to the class
      of vp[i]. */
  lemma ColumnJoinNew<K(!new)>(root0: map<K, K>, root1: map<K, K>, vp: seq<K>, hm: map<K, Fingerprint>, i: nat, j: nat, next: nat)
    requires i < j < |vp| && next == j + 1 && Hashed(vp, hm) && InRowDone(root0, vp, hm, i, j)
    requires hm[vp[i]] == hm[vp[j]] && !EarlyHash(vp, hm, hm[vp[i]], i)
    requires vp[i] in root0 && vp[j] in root0 && MergedClasses(root0, root1, vp[i], vp[j])
    requires vp[i] in vp[i..j]
    requires forall a :: a in hm ==> (InRow(vp, hm, i, next, a) <==> InRow(vp, hm, i, j, a) || (a == vp[j] && hm[vp[j]] == hm[vp[i]]))
    ensures InRowDone(root1, vp, hm, i, next)
  {
    var c := vp[i];
    forall a, b | a in root1 && b in root1
      ensures root1[a] == root1[b] <==>
        a == b || (hm[a] == hm[b] && (EarlyHash(vp, hm, hm[a], i) || (InRow(vp, hm, i, next, a) && InRow(vp, hm, i, next, b))))
    {
      assert root0[a] == root0[c] <==> InRow(vp, hm, i, j, a);
      assert root0[b] == root0[c] <==> InRow(vp, hm, i, j, b);
    }
  }

  /** The nested loop of CalcSimilarity over the valid paths: every pair at Hamming distance 0
      is joined. Afterwards two valid paths are in one class exactly when their fingerprints
      are equal: equality of fingerprints is already an equivalence, so the transitive closure
      the union-find computes adds nothing. */
  method PairwiseUnion<K(==,!new)>(uf: UnionFind<K>, vp: seq<K>, hm: map<K, Fingerprint>)
    requires uf.Valid() && Hashed(vp, hm) && uf.root.Keys == (set p | p in vp)
    requires forall p :: p in uf.root ==> uf.root[p] == p
    modifies uf
    ensures uf.Valid() && uf.root.Keys == (set p | p in vp)
    ensures forall a, b :: a in uf.root && b in uf.root ==> (uf.root[a] == uf.root[b] <==> hm[a] == hm[b])
  {
    RowsDoneInitially(uf.root, vp, hm);
    var i := 0;
    while i < |vp|
      invariant 0 <= i <= |vp|
      invariant uf.Valid() && RowsDone(uf.root, vp, hm, i)
    {
      RowBegins(uf.root, vp, hm, i);
      assert RowState(uf, vp, hm, i, i + 1);
      UnionRow(uf, vp, hm, i);
      RowEnds(uf.root, vp, hm, i);
      i := i + 1;
    }
    AllRowsDone(uf.root, vp, hm);
  }

  /** The state of the union-find inside row i, before column j. */
  ghost predicate RowState<K(!new)>(uf: UnionFind<K>, vp: seq<K>, hm: map<K, Fingerprint>, i: nat, j: nat)
    reads uf
  {
    i < j <= |vp| && Hashed(vp, hm) && uf.Valid() && InRowDone(uf.root, vp, hm, i, j)
  }

  /** Row i of the nested loop: vp[i] against every later path. */
  method UnionRow<K(==,!new)>(uf: UnionFind<K>, vp: seq<K>, hm: map<K, Fingerprint>, i: nat)
    requires i < |vp| && RowState(uf, vp, hm, i, i + 1)
    modifies uf
    ensures RowState(uf, vp, hm, i, |vp|)
  {
    var j := i + 1;
    while j < |vp|
      invariant i < j <= |vp| && RowState(uf, vp, hm, i, j)
      decreases |vp| - j
    {
      j := UnionPair(uf, vp, hm, i, j);
    }
    assert j == |vp|;
  }

  /** One pair of the nested loop: vp[i] and vp[j] are joined when their distance is 0; the
      result is the next column. */
  method UnionPair<K(==,!new)>(uf: UnionFind<K>, vp: seq<K>, hm: map<K, Fingerprint>, i: nat, j: nat) returns (next: nat)
    requires j < |vp| && RowState(uf, vp, hm, i, j)
    modifies uf
    ensures next == j + 1 && RowState(uf, vp, hm, i, next)
  {
    next := j + 1;
    var hash1, hash2 := hm[vp[i]], hm[vp[j]];
    var distance := Distance(hash1, hash2);
    DistanceZeroIff(hash1, hash2);
    ghost var r0 := uf.root;
    if distance == 0 {
      uf.Union(vp[i], vp[j]);
    }
    ColumnStep(r0, uf.root, vp, hm, i, j, next);
  }

  // ---------------------------------------------------------------- the groups

  /** The groups are the fingerprint classes of the valid paths: each is keyed by one of its
      members, lists every valid path of that fingerprint once, and no two share a
      fingerprint; every valid path is in one of them. */
  ghost predicate FingerprintGroups<K(!new)>(groups: map<K, seq<K>>, vp: seq<K>, hm: map<K, Fingerprint>)
    requires Hashed(vp, hm)
  {
    && (forall r :: r in groups ==> r in vp && Distinct(groups[r]) && forall p :: p in groups[r] <==> p in vp && hm[p] == hm[r])
    && (forall p :: p in vp ==> exists r :: r in groups && hm[r] == hm[p])
    && (forall r1, r2 :: r1 in groups && r2 in groups && hm[r1] == hm[r2] ==> r1 == r2)
  }

  /** getGroups after the pairwise pass yields the fingerprint classes. */
  lemma GroupsAreFingerprintClasses<K(!new)>(root: map<K, K>, groups: map<K, seq<K>>, vp: seq<K>, hm: map<K, Fingerprint>)
    requires Hashed(vp, hm) && root.Keys == (set p | p in vp)
    requires forall z :: z in root ==> root[z] in root && root[root[z]] == root[z]
    requires forall a, b :: a in root && b in root ==> (root[a] == root[b] <==> hm[a] == hm[b])
    requires groups.Keys == (set z | z in root :: root[z])
    requires forall r :: r in groups ==> IsClass(root, r, groups[r])
    ensures FingerprintGroups(groups, vp, hm)
  {
    GroupsHoldTheirFingerprint(root, groups, vp, hm);
    GroupsCover(root, groups, vp, hm);
    GroupsApart(root, groups, vp, hm);
  }

  lemma GroupsHoldTheirFingerprint<K(!new)>(root: map<K, K>, groups: map<K, seq<K>>, vp: seq<K>, hm: map<K, Fingerprint>)
    requires Hashed(vp, hm) && root.Keys == (set p | p in vp)
    requires forall z :: z in root ==> root[z] in root && root[root[z]] == root[z]
    requires forall a, b :: a in root && b in root ==> (root[a] == root[b] <==> hm[a] == hm[b])
    requires groups.Keys == (set z | z in root :: root[z])
    requires forall r :: r in groups ==> IsClass(root, r, groups[r])
    ensures forall r :: r in groups ==> r in vp && Distinct(groups[r]) && forall p :: p in groups[r] <==> p in vp && hm[p] == hm[r]
  {
    forall r | r in groups ensures r in vp && Distinct(groups[r]) && forall p :: p in groups[r] <==> p in vp && hm[p] == hm[r] {
      var z :| z in root && root[z] == r;
      assert root[r] == r;
      assert IsClass(root, r, groups[r]);
    }
  }

  lemma GroupsCover<K(!new)>(root: map<K, K>, groups: map<K, seq<K>>, vp: seq<K>, hm: map<K, Fingerprint>)
    requires Hashed(vp, hm) && root.Keys == (set p | p in vp)
    requires forall z :: z in root ==> root[z] in root && root[root[z]] == root[z]
    requires forall a, b :: a in root && b in root ==> (root[a] == root[b] <==> hm[a] == hm[b])
    requires groups.Keys == (set z | z in root :: root[z])
    ensures forall p :: p in vp ==> exists r :: r in groups && hm[r] == hm[p]
  {
    forall p | p in vp ensures exists r :: r in groups && hm[r] == hm[p] {
      assert p in root;
      assert root[p] in groups && root[root[p]] == root[p];
    }
  }

  lemma GroupsApart<K(!new)>(root: map<K, K>, groups: map<K, seq<K>>, vp: seq<K>, hm: map<K, Fingerprint>)
    requires Hashed(vp, hm) && root.Keys == (set p | p in vp)
    requires forall z :: z in root ==> root[z] in root && root[root[z]] == root[z]
    requires forall a, b :: a in root && b in root ==> (root[a] == root[b] <==> hm[a] == hm[b])
    requires groups.Keys == (set z | z in root :: root[z])
    ensures forall r1, r2 :: r1 in groups && r2 in groups && hm[r1] == hm[r2] ==> r1 == r2
  {
    forall r1, r2 | r1 in groups && r2 in groups && hm[r1] == hm[r2] ensures r1 == r2 {
      var z1 :| z1 in root && root[z1] == r1;
      var z2 :| z2 in root && root[z2] == r2;
      assert root[r1] == r1 && root[r2] == r2;
    }
  }

  // ---------------------------------------------------------------- the results

  datatype SimilarImage = SimilarImage(path: string, name: string, url: string, size: int, modTime: int)

  datatype SimilarityResult = SimilarityResult(groupId: int, images: seq<SimilarImage>)

  /** The address the built-in file server gives an image, with the modification time as a
      cache-busting query. */
  function ImageUrl(port: int, urlPath: string, modTime: int): (u: string)
    ensures HasPrefix(u, "http://localhost:")
  {
    "http://localhost:" + IntToString(port) + "/" + urlPath + "?t=" + IntToString(modTime)
  }

  /** getFileSize: the size os.Stat reports, 0 when it fails. */
  function FileSize(m: FsMap, p: string): int
  {
    if IsFile(m, p) then m[p].size else 0
  }

  /** A group member can be shown when it is still a file and lies below the directory. The
      paths come from walking the directory, so they all lie below it; the relative path is
      modelled only there, and a path outside it is not shown. */
  predicate Showable(m: FsMap, dir: string, p: string)
  {
    IsFile(m, p) && Below(dir, p)
  }

  /** The entry for one member of a group, none when its metadata cannot be had (or, for a
      path outside the directory, which the walk never yields, when it has no relative path
      in this model). */
  function ImageOf(m: FsMap, dir: string, port: int, path: string): (r: Option<SimilarImage>)
    ensures r.Some? <==> Showable(m, dir, path)
    ensures r.Some? ==> r.value.path == path && r.value.modTime == m[path].modTime && r.value.size == m[path].size
  {
    match GetFileMeta(m, path)
    case Err(_) => None
    case Ok(meta) =>
      if !Below(dir, path) then None
      else
        var urlPath := ReplaceChar(Rel(dir, path), Separator, '/');
        Some(SimilarImage(meta.fullPath, meta.fileName, ImageUrl(port, urlPath, meta.modTime), FileSize(m, meta.fullPath), meta.modTime))
  }

  /** The entries of a group's members that can be shown, in member order. */
  function ImagesOf(m: FsMap, dir: string, port: int, paths: seq<string>): seq<SimilarImage>
    decreases |paths|
  {
    if paths == [] then []
    else
      var last := ImageOf(m, dir, port, paths[|paths| - 1]);
      ImagesOf(m, dir, port, paths[..|paths| - 1]) + (if last.Some? then [last.value] else [])
  }

  method BuildImages(m: FsMap, dir: string, port: int, paths: seq<string>) returns (images: seq<SimilarImage>)
    ensures images == ImagesOf(m, dir, port, paths)
  {
    images := [];
    var i := 0;
    while i < |paths|
      invariant 0 <= i <= |paths|
      invariant images == ImagesOf(m, dir, port, paths[..i])
    {
      assert paths[..i + 1][..i] == paths[..i];
      var image := ImageOf(m, dir, port, paths[i]);
      if image.Some? {
        images := images + [image.value];
      }
      i := i + 1;
    }
    assert paths[..i] == paths;
  }

  function PathsOf(images: seq<SimilarImage>): (r: seq<string>)
    ensures |r| == |images| && forall k :: 0 <= k < |images| ==> r[k] == images[k].path
  {
    seq(|images|, k requires 0 <= k < |images| => images[k].path)
  }

  lemma PathsOfAppend(a: seq<SimilarImage>, b: seq<SimilarImage>)
    ensures PathsOf(a + b) == PathsOf(a) + PathsOf(b)
  {
    assert |PathsOf(a + b)| == |PathsOf(a) + PathsOf(b)|;
  }

  /** Every entry is that of a member, under the member's own path. */
  lemma {:induction false} ImagesOfSound(m: FsMap, dir: string, port: int, paths: seq<string>)
    ensures forall x :: x in ImagesOf(m, dir, port, paths) ==> x.path in paths && ImageOf(m, dir, port, x.path) == Some(x)
    decreases |paths|
  {
    if paths != [] {
      var init := paths[..|paths| - 1];
      ImagesOfSound(m, dir, port, init);
      assert forall p :: p in init ==> p in paths;
    }
  }

  /** Every showable member has its entry. */
  lemma {:induction false} ImagesOfComplete(m: FsMap, dir: string, port: int, paths: seq<string>)
    ensures forall p :: p in paths && Showable(m, dir, p) ==> ImageOf(m, dir, port, p).value in ImagesOf(m, dir, port, paths)
    decreases |paths|
  {
    if paths != [] {
      var init, last := paths[..|paths| - 1], paths[|paths| - 1];
      ImagesOfComplete(m, dir, port, init);
      assert forall p :: p in paths <==> p in init || p == last by {
        assert paths == init + [last];
      }
    }
  }

  /** Members without repetition give entries without repetition. */
  lemma {:induction false} ImagesOfDistinct(m: FsMap, dir: string, port: int, paths: seq<string>)
    requires Distinct(paths)
    ensures Distinct(PathsOf(ImagesOf(m, dir, port, paths)))
    decreases |paths|
  {
    if paths != [] {
      var init, last := paths[..|paths| - 1], paths[|paths| - 1];
      DistinctInit(paths);
      ImagesOfDistinct(m, dir, port, init);
      var prev := ImagesOf(m, dir, port, init);
      var img := ImageOf(m, dir, port, last);
      if img.Some? {
        ImagesOfSound(m, dir, port, init);
        var x := img.value;
        PathsOfAppend(prev, [x]);
        assert PathsOf([x]) == [last];
        assert last !in PathsOf(prev);
        DistinctSnoc(PathsOf(prev), last);
      }
    }
  }

  /** The entries are those of the showable members, each under its own path, and without
      repetition when the members have none. */
  lemma ImagesOfMembers(m: FsMap, dir: string, port: int, paths: seq<string>)
    ensures forall x :: x in ImagesOf(m, dir, port, paths) ==> x.path in paths && ImageOf(m, dir, port, x.path) == Some(x)
    ensures forall p :: p in paths && Showable(m, dir, p) ==> ImageOf(m, dir, port, p).value in ImagesOf(m, dir, port, paths)
    ensures Distinct(paths) ==> Distinct(PathsOf(ImagesOf(m, dir, port, paths)))
  {
    ImagesOfSound(m, dir, port, paths);
    ImagesOfComplete(m, dir, port, paths);
    if Distinct(paths) {
      ImagesOfDistinct(m, dir, port, paths);
    }
  }

  /** A group shows at least two images exactly when two different members are showable. */
  lemma ShowsTwo(m: FsMap, dir: string, port: int, paths: seq<string>)
    requires Distinct(paths)
    ensures |ImagesOf(m, dir, port, paths)| >= 2 <==>
      exists p, q :: p in paths && q in paths && p != q && Showable(m, dir, p) && Showable(m, dir, q)
  {
    var images := ImagesOf(m, dir, port, paths);
    ImagesOfMembers(m, dir, port, paths);
    if |images| >= 2 {
      assert PathsOf(images)[0] != PathsOf(images)[1];
      assert images[0] in images && images[1] in images;
      assert Showable(m, dir, images[0].path) && Showable(m, dir, images[1].path);
    }
    if exists p, q :: p in paths && q in paths && p != q && Showable(m, dir, p) && Showable(m, dir, q) {
      var p, q :| p in paths && q in paths && p != q && Showable(m, dir, p) && Showable(m, dir, q);
      var x, y := ImageOf(m, dir, port, p).value, ImageOf(m, dir, port, q).value;
      TwoMembers(images, x, y);
    }
  }

  /** A sequence holding two different values has at least two elements. */
  lemma TwoMembers<T>(s: seq<T>, x: T, y: T)
    requires x in s && y in s && x != y
    ensures |s| >= 2
  {
    var i :| 0 <= i < |s| && s[i] == x;
    var j :| 0 <= j < |s| && s[j] == y;
    assert i != j;
  }

  /** The results of the loop over the groups, visited in the given order: groups of fewer
      than two members, and groups with fewer than two images that can be shown, are skipped;
      the others are numbered from 1 up in the order they are met. */
  function ResultsOf(m: FsMap, dir: string, port: int, groups: map<string, seq<string>>, order: seq<string>): seq<SimilarityResult>
    requires forall r :: r in order ==> r in groups
    decreases |order|
  {
    if order == [] then []
    else
      var prev := ResultsOf(m, dir, port, groups, order[..|order| - 1]);
      var paths := groups[order[|order| - 1]];
      if |paths| < 2 then prev
      else
        var images := ImagesOf(m, dir, port, paths);
        if |images| >= 2 then prev + [SimilarityResult(|prev| + 1, images)] else prev
  }

  /** The group each result comes from, in the same order. */
  function SourcesOf(m: FsMap, dir: string, port: int, groups: map<string, seq<string>>, order: seq<string>): seq<string>
    requires forall r :: r in order ==> r in groups
    decreases |order|
  {
    if order == [] then []
    else
      var prev := SourcesOf(m, dir, port, groups, order[..|order| - 1]);
      var r := order[|order| - 1];
      if |groups[r]| >= 2 && |ImagesOf(m, dir, port, groups[r])| >= 2 then prev + [r] else prev
  }

  /** Result k has id k + 1 and at least two images, which are those of the k-th kept group. */
  lemma {:induction false} ResultsShape(m: FsMap, dir: string, port: int, groups: map<string, seq<string>>, order: seq<string>)
    requires forall r :: r in order ==> r in groups
    ensures var rs, src := ResultsOf(m, dir, port, groups, order), SourcesOf(m, dir, port, groups, order);
      && |src| == |rs|
      && (forall k :: 0 <= k < |rs| ==>
            && src[k] in order
            && rs[k].groupId == k + 1
            && |rs[k].images| >= 2
            && rs[k].images == ImagesOf(m, dir, port, groups[src[k]]))
    decreases |order|
  {
    if order != [] {
      var init := order[..|order| - 1];
      ResultsShape(m, dir, port, groups, init);
      assert forall r :: r in init ==> r in order;
    }
  }

  /** Groups visited once each are kept once each. */
  lemma {:induction false} SourcesDistinct(m: FsMap, dir: string, port: int, groups: map<string, seq<string>>, order: seq<string>)
    requires forall r :: r in order ==> r in groups
    requires Distinct(order)
    ensures Distinct(SourcesOf(m, dir, port, groups, order))
    ensures forall r :: r in SourcesOf(m, dir, port, groups, order) ==> r in order
    decreases |order|
  {
    if order != [] {
      var init, r := order[..|order| - 1], order[|order| - 1];
      DistinctInit(order);
      SourcesDistinct(m, dir, port, groups, init);
      var prev := SourcesOf(m, dir, port, groups, init);
      assert forall z :: z in init ==> z in order;
      if |groups[r]| >= 2 && |ImagesOf(m, dir, port, groups[r])| >= 2 {
        DistinctSnoc(prev, r);
      }
    }
  }

  /** Every visited group with at least two members and two showable images is kept. */
  lemma {:induction false} SourcesComplete(m: FsMap, dir: string, port: int, groups: map<string, seq<string>>, order: seq<string>)
    requires forall r :: r in order ==> r in groups
    ensures forall r :: r in order && |groups[r]| >= 2 && |ImagesOf(m, dir, port, groups[r])| >= 2 ==>
      r in SourcesOf(m, dir, port, groups, order)
    decreases |order|
  {
    if order != [] {
      var init, r := order[..|order| - 1], order[|order| - 1];
      SourcesComplete(m, dir, port, groups, init);
      assert forall z :: z in order <==> z in init || z == r by {
        assert order == init + [r];
      }
    }
  }

  /** Result k has id k + 1 and at least two images, which are those of the k-th kept group;
      the kept groups are distinct, and every group with at least two showable images is
      kept. */
  lemma ResultsProperties(m: FsMap, dir: string, port: int, groups: map<string, seq<string>>, order: seq<string>)
    requires forall r :: r in order ==> r in groups
    requires Distinct(order)
    ensures var rs, src := ResultsOf(m, dir, port, groups, order), SourcesOf(m, dir, port, groups, order);
      && |src| == |rs|
      && Distinct(src)
      && (forall k :: 0 <= k < |rs| ==>
            && src[k] in order
            && rs[k].groupId == k + 1
            && |rs[k].images| >= 2
            && rs[k].images == ImagesOf(m, dir, port, groups[src[k]]))
      && (forall r :: r in order && |groups[r]| >= 2 && |ImagesOf(m, dir, port, groups[r])| >= 2 ==> r in src)
  {
    ResultsShape(m, dir, port, groups, order);
    SourcesDistinct(m, dir, port, groups, order);
    SourcesComplete(m, dir, port, groups, order);
  }

  /** Visiting one more group adds its result, if it is kept, at the end. */
  lemma ResultsOfSnoc(m: FsMap, dir: string, port: int, groups: map<string, seq<string>>, order: seq<string>, r: string)
    requires forall z :: z in order ==> z in groups
    requires r in groups
    ensures forall z :: z in order + [r] ==> z in groups
    ensures var prev, paths := ResultsOf(m, dir, port, groups, order), groups[r];
      ResultsOf(m, dir, port, groups, order + [r]) ==
        if |paths| >= 2 && |ImagesOf(m, dir, port, paths)| >= 2
        then prev + [SimilarityResult(|prev| + 1, ImagesOf(m, dir, port, paths))]
        else prev
  {
    assert (order + [r])[..|order|] == order;
  }

  /** The loop of CalcSimilarity that builds the results. Go visits the groups in the map's
      unspecified order; the ghost `order` records the order this run chose. */
  method BuildResults(m: FsMap, dir: string, port: int, groups: map<string, seq<string>>)
    returns (results: seq<SimilarityResult>, ghost order: seq<string>)
    ensures Distinct(order) && forall r :: r in order <==> r in groups
    ensures results == ResultsOf(m, dir, port, groups, order)
  {
    results := [];
    order := [];
    var groupID := 1;
    var todo := groups.Keys;
    while todo != {}
      invariant todo <= groups.Keys
      invariant Distinct(order) && forall r :: r in order <==> r in groups && r !in todo
      invariant results == ResultsOf(m, dir, port, groups, order)
      invariant groupID == |results| + 1
      decreases |todo|
    {
      var r :| r in todo;
      assert r !in order;
      DistinctSnoc(order, r);
      ResultsOfSnoc(m, dir, port, groups, order, r);
      order := order + [r];
      todo := todo - {r};
      var paths := groups[r];
      if |paths| < 2 {
        continue;
      }
      var images := BuildImages(m, dir, port, paths);
      if |images| >= 2 {
        results := results + [SimilarityResult(groupID, images)];
        groupID := groupID + 1;
      }
    }
  }

  // ---------------------------------------------------------------- the whole search

  /** The grouping part of CalcSimilarity, given the image paths the walk found, the ones it
      could open and the fingerprint each decodable one yields. The hash map holds the known
      fingerprints; the valid paths are the image paths that have one, in order; with none the
      result is empty; otherwise the groups getGroups returns are exactly the fingerprint
      classes of the valid paths, and the results are those groups, numbered in the order the
      loop met them. */
  method CalcSimilarity(m: FsMap, dir: string, port: int, imgPaths: seq<string>, files: set<string>, decoded: map<string, Fingerprint>)
    returns (results: seq<SimilarityResult>, ghost validPaths: seq<string>, ghost groups: map<string, seq<string>>, ghost order: seq<string>)
    ensures validPaths == KeepHashed(imgPaths, Known(imgPaths, files, decoded))
    ensures forall p :: p in validPaths <==> p in imgPaths && p in files && p in decoded
    ensures validPaths == [] ==> results == []
    ensures Hashed(validPaths, Known(imgPaths, files, decoded))
    ensures FingerprintGroups(groups, validPaths, Known(imgPaths, files, decoded))
    ensures Distinct(order) && forall r :: r in order <==> r in groups
    ensures results == ResultsOf(m, dir, port, groups, order)
  {
    var hashResults := CalcAverageHash(imgPaths, files, decoded);
    var hashMap := BuildHashMap(hashResults);
    HashMapOfResults(imgPaths, files, decoded);
    var vp := ValidPaths(imgPaths, hashMap);
    validPaths := vp;
    KeepHashedMembers(imgPaths, hashMap);
    if |vp| == 0 {
      results, groups, order := [], map[], [];
      return;
    }
    var uf := new UnionFind(vp);
    PairwiseUnion(uf, vp, hashMap);
    var gs := uf.GetGroups();
    uf.RootsAreRoots();
    GroupsAreFingerprintClasses(uf.root, gs, vp, hashMap);
    groups := gs;
    results, order := BuildResults(m, dir, port, gs);
  }
}
