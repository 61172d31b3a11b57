/** The union-find of the duplicate-image grouping, whose keys are image paths: `parent` and
    `rank` maps, find with path compression and union by rank. The key type is a parameter,
    since the structure only compares keys for equality. The ghost map `root` is the partition the
    structure represents (every key's representative); `depth` bounds the distance of a key
    from its root and makes find terminate. */
module UnionFinds {
  import opened Sorting

  /** The facts one key contributes to a well-formed forest: its parent and its root are keys,
      its parent has the same root, its root is a root, and a key that is not a root lies
      deeper than its parent and its root. */
  ghost predicate GoodKey<K>(parent: map<K, K>, root: map<K, K>, depth: map<K, nat>, x: K)
  {
    && x in parent && x in root && x in depth
    && root.Keys == parent.Keys && depth.Keys == parent.Keys
    && parent[x] in parent && root[x] in parent
    && root[parent[x]] == root[x]
    && root[root[x]] == root[x]
    && parent[root[x]] == root[x]
    && (parent[x] == x ==> root[x] == x)
    && (parent[x] != x ==> depth[parent[x]] < depth[x] && depth[root[x]] < depth[x])
  }

  /** `parent` is a forest whose trees are the classes of `root`. The quantifier fires only on
      explicit mentions of GoodKey, which keeps the parent chains from unfolding by themselves. */
  ghost predicate Forest<K>(parent: map<K, K>, root: map<K, K>, depth: map<K, nat>)
  {
    && root.Keys == parent.Keys && depth.Keys == parent.Keys
    && forall x {:trigger GoodKey(parent, root, depth, x)} :: x in parent ==> GoodKey(parent, root, depth, x)
  }

  /** Pointing a key straight at its root keeps the forest and its classes. */
  lemma Compress<K>(parent: map<K, K>, root: map<K, K>, depth: map<K, nat>, x: K)
    requires Forest(parent, root, depth) && x in parent
    ensures Forest(parent[x := root[x]], root, depth)
  {
    var p' := parent[x := root[x]];
    forall z | z in p' ensures GoodKey(p', root, depth, z) {
      assert GoodKey(parent, root, depth, z);
      assert GoodKey(parent, root, depth, x);
    }
  }

  /** The partition after the class of root `child` joins that of `newRoot`. */
  ghost function Redirect<K>(root: map<K, K>, child: K, newRoot: K): (r: map<K, K>)
    ensures r.Keys == root.Keys
    ensures forall z :: z in root ==> r[z] == if root[z] == child then newRoot else root[z]
  {
    map z | z in root :: if root[z] == child then newRoot else root[z]
  }

  /** The depths after linking: the tree of `child` hangs one level below `newRoot`. */
  ghost function Deepen<K>(root: map<K, K>, depth: map<K, nat>, child: K, newRoot: K): (d: map<K, nat>)
    requires newRoot in depth
    ensures d.Keys == depth.Keys
  {
    map z | z in depth :: if z in root && root[z] == child then depth[z] + depth[newRoot] + 1 else depth[z]
  }

  /** Making one root the parent of another keeps a forest, whose classes are the old ones with
      the two classes joined. */
  lemma Link<K>(parent: map<K, K>, root: map<K, K>, depth: map<K, nat>, child: K, newRoot: K)
    requires Forest(parent, root, depth) && child in parent && newRoot in parent && child != newRoot
    requires parent[child] == child && parent[newRoot] == newRoot
    ensures Forest(parent[child := newRoot], Redirect(root, child, newRoot), Deepen(root, depth, child, newRoot))
  {
    var p', r', d' := parent[child := newRoot], Redirect(root, child, newRoot), Deepen(root, depth, child, newRoot);
    assert GoodKey(parent, root, depth, child);
    assert GoodKey(parent, root, depth, newRoot);
    forall z | z in p' ensures GoodKey(p', r', d', z) {
      assert GoodKey(parent, root, depth, z);
      assert GoodKey(parent, root, depth, parent[z]);
      assert GoodKey(parent, root, depth, root[z]);
    }
  }

  /** The partition after merging the classes of x and y: a and b are together when they were
      before, or when one was with x and the other with y. */
  ghost predicate MergedClasses<K>(old_root: map<K, K>, new_root: map<K, K>, x: K, y: K)
    requires x in old_root && y in old_root
  {
    && new_root.Keys == old_root.Keys
    && forall a, b {:trigger old_root[a], old_root[b]} :: a in old_root && b in old_root ==>
         (new_root[a] == new_root[b] <==>
            || old_root[a] == old_root[b]
            || (old_root[a] == old_root[x] && old_root[b] == old_root[y])
            || (old_root[a] == old_root[y] && old_root[b] == old_root[x]))
  }

  /** Redirecting the class of one of the two roots to the other merges exactly those classes. */
  lemma LinkMerges<K>(r0: map<K, K>, child: K, newRoot: K, x: K, y: K)
    requires x in r0 && y in r0 && r0[x] != r0[y]
    requires forall z :: z in r0 ==> r0[z] in r0 && r0[r0[z]] == r0[z]
    requires (child == r0[x] && newRoot == r0[y]) || (child == r0[y] && newRoot == r0[x])
    ensures MergedClasses(r0, Redirect(r0, child, newRoot), x, y)
  {
  }

  /** The ranks after joining the classes of roots a and b: only a tie between two distinct
      roots raises a rank, that of a, by one. */
  ghost predicate RankStep<K>(r0: map<K, int>, r1: map<K, int>, a: K, b: K)
  {
    && a in r0 && b in r0
    && if a != b && r0[a] == r0[b] then r1 == r0[a := r0[a] + 1] else r1 == r0
  }

  /** `groups` holds the classes of the keys in `done`: one entry per representative, listing
      each of its members in `done` once. */
  ghost predicate Grouped<K(!new)>(groups: map<K, seq<K>>, root: map<K, K>, done: set<K>)
  {
    && done <= root.Keys
    && groups.Keys == (set z | z in done :: root[z])
    && forall r :: r in groups ==> Distinct(groups[r]) && forall q :: q in groups[r] <==> q in done && root[q] == r
  }

  /** Appending one more key to the entry of its representative keeps the grouping. */
  lemma AddMember<K(!new)>(groups: map<K, seq<K>>, root: map<K, K>, done: set<K>, p: K, r: K)
    requires Grouped(groups, root, done) && p in root && p !in done && r == root[p]
    ensures Grouped(groups[r := if r in groups then groups[r] + [p] else [p]], root, done + {p})
  {
    var g' := groups[r := if r in groups then groups[r] + [p] else [p]];
    assert g'.Keys == (set z | z in done + {p} :: root[z]);
    if r in groups {
      assert p !in groups[r];
    }
  }

  /** Once every key is done, the grouping has one entry per class, holding that class. */
  lemma GroupedAll<K(!new)>(groups: map<K, seq<K>>, root: map<K, K>, done: set<K>)
    requires Grouped(groups, root, done) && done == root.Keys
    ensures groups.Keys == set z | z in root :: root[z]
    ensures forall r :: r in groups ==> IsClass(root, r, groups[r])
  {
  }

  lemma TakeOne<K>(keys: set<K>, todo: set<K>, p: K)
    requires p in todo && todo <= keys
    ensures keys - todo + {p} == keys - (todo - {p})
    ensures |todo - {p}| < |todo|
  {
  }

  /** Every key of `root` whose representative is r, each once. */
  ghost predicate IsClass<K(!new)>(root: map<K, K>, r: K, members: seq<K>)
  {
    && Distinct(members)
    && forall p :: p in members <==> p in root && root[p] == r
  }

  /** Every key is its own parent and root, with rank 0 and depth 0. */
  ghost predicate Singletons<K>(parent: map<K, K>, rank: map<K, int>, root: map<K, K>, depth: map<K, nat>)
  {
    && rank.Keys == parent.Keys && root.Keys == parent.Keys && depth.Keys == parent.Keys
    && forall p :: p in parent ==> parent[p] == p && rank[p] == 0 && root[p] == p && depth[p] == 0
  }

  lemma AddSingleton<K>(parent: map<K, K>, rank: map<K, int>, root: map<K, K>, depth: map<K, nat>, x: K)
    requires Singletons(parent, rank, root, depth)
    ensures Singletons(parent[x := x], rank[x := 0], root[x := x], depth[x := 0])
  {
  }

  class UnionFind<K(==,!new)> {
    var parent: map<K, K>
    var rank: map<K, int>
    ghost var root: map<K, K>
    ghost var depth: map<K, nat>

    ghost predicate Valid()
      reads this
    {
      && Forest(parent, root, depth)
      && rank.Keys == parent.Keys
      && forall x :: x in rank ==> rank[x] >= 0
    }

    /** Every root maps to itself, so the classes are closed under taking the root. */
    lemma RootsAreRoots()
      requires Valid()
      ensures forall z :: z in root ==> root[z] in root && root[root[z]] == root[z] && parent[root[z]] == root[z]
    {
      forall z | z in root ensures root[z] in root && root[root[z]] == root[z] && parent[root[z]] == root[z] {
        assert GoodKey(parent, root, depth, z);
      }
    }

    /** newUnionFind: every given path is its own parent with rank 0, and there are no other keys. */
    constructor (paths: seq<K>)
      ensures Valid()
      ensures parent.Keys == set p | p in paths
      ensures forall p :: p in parent ==> parent[p] == p && rank[p] == 0 && root[p] == p
    {
      parent := map[];
      rank := map[];
      root := map[];
      depth := map[];
      new;
      var i := 0;
      while i < |paths|
        invariant 0 <= i <= |paths|
        invariant forall p :: p in parent <==> p in paths[..i]
        invariant Singletons(parent, rank, root, depth)
      {
        assert paths[..i + 1] == paths[..i] + [paths[i]];
        AddSingleton(parent, rank, root, depth, paths[i]);
        parent := parent[paths[i] := paths[i]];
        rank := rank[paths[i] := 0];
        root := root[paths[i] := paths[i]];
        depth := depth[paths[i] := 0];
        i := i + 1;
      }
      assert paths[..i] == paths;
      forall x | x in parent ensures GoodKey(parent, root, depth, x) { }
    }

    /** find: the representative of x; afterwards x points straight at it. The partition, the
        ranks and the set of keys stay as they were; a key's parent changes only to its root. */
    method Find(x: K) returns (r: K)
      requires Valid() && x in parent
      modifies this
      ensures Valid()
      ensures root == old(root) && rank == old(rank) && depth == old(depth) && parent.Keys == old(parent.Keys)
      ensures r == root[x] && parent[x] == r && r in parent && parent[r] == r
      ensures forall z :: z in parent ==> parent[z] == old(parent)[z] || parent[z] == root[z]
      decreases depth[x]
    {
      assert GoodKey(parent, root, depth, x);
      if parent[x] != x {
        var p := parent[x];
        var rp := Find(p);
        Compress(parent, root, depth, x);
        parent := parent[x := rp];
      }
      r := parent[x];
      assert GoodKey(parent, root, depth, x);
    }

    /** Makes root `child` point at root `newRoot`; the class of `child` joins that of `newRoot`. */
    method LinkRoots(child: K, newRoot: K)
      requires Valid() && child in parent && newRoot in parent && child != newRoot
      requires parent[child] == child && parent[newRoot] == newRoot
      modifies this
      ensures Valid()
      ensures parent == old(parent)[child := newRoot] && rank == old(rank)
      ensures parent.Keys == old(parent.Keys)
      ensures root == Redirect(old(root), child, newRoot)
    {
      Link(parent, root, depth, child, newRoot);
      depth := Deepen(root, depth, child, newRoot);
      root := Redirect(root, child, newRoot);
      parent := parent[child := newRoot];
    }

    /** Raises the rank of one key by one and changes nothing else. */
    method BumpRank(r: K)
      requires Valid() && r in rank
      modifies this
      ensures Valid()
      ensures rank == old(rank)[r := old(rank)[r] + 1]
      ensures parent == old(parent) && root == old(root) && depth == old(depth)
    {
      rank := rank[r := rank[r] + 1];
    }

    /** union: afterwards x and y are in one class; exactly their two classes are merged (nothing
        changes when they were one already), and only a tie of ranks raises a rank, by one. */
    method Union(x: K, y: K)
      requires Valid() && x in parent && y in parent
      modifies this
      ensures Valid()
      ensures parent.Keys == old(parent.Keys)
      ensures root[x] == root[y]
      ensures MergedClasses(old(root), root, x, y)
      ensures old(root)[x] == old(root)[y] ==> root == old(root) && rank == old(rank)
      ensures RankStep(old(rank), rank, old(root)[x], old(root)[y])
    {
      var rx := Find(x);
      var ry := Find(y);
      assert GoodKey(parent, root, depth, x);
      if rx == ry {
        return;
      }
      ghost var r0, k0 := root, rank;
      RootsAreRoots();
      LinkByRank(rx, ry);
      if k0[rx] < k0[ry] {
        LinkMerges(r0, rx, ry, x, y);
      } else {
        LinkMerges(r0, ry, rx, x, y);
      }
    }

    /** The linking step of union for two distinct roots: the root of smaller rank goes below
        the other; on a tie ry goes below rx and the rank of rx grows by one. */
    method LinkByRank(rx: K, ry: K)
      requires Valid() && rx in parent && ry in parent && rx != ry
      requires parent[rx] == rx && parent[ry] == ry
      modifies this
      ensures Valid()
      ensures parent.Keys == old(parent.Keys)
      ensures root == if old(rank)[rx] < old(rank)[ry] then Redirect(old(root), rx, ry) else Redirect(old(root), ry, rx)
      ensures RankStep(old(rank), rank, rx, ry)
    {
      var rankX, rankY := rank[rx], rank[ry];
      if rankX < rankY {
        LinkRoots(rx, ry);
      } else {
        LinkRoots(ry, rx);
        if rankX == rankY {
          BumpRank(rx);
        }
      }
    }

    /** getGroups: one entry per class, keyed by its representative and holding its members. */
    method GetGroups() returns (groups: map<K, seq<K>>)
      requires Valid()
      modifies this
      ensures Valid()
      ensures root == old(root) && rank == old(rank) && parent.Keys == old(parent.Keys)
      ensures groups.Keys == set z | z in root :: root[z]
      ensures forall r :: r in groups ==> IsClass(root, r, groups[r])
    {
      groups := map[];
      var todo := parent.Keys;
      ghost var keys := parent.Keys;
      while todo != {}
        invariant Valid() && root == old(root) && rank == old(rank) && parent.Keys == keys
        invariant todo <= keys
        invariant Grouped(groups, root, keys - todo)
        decreases |todo|
      {
        var p :| p in todo;
        var r := Find(p);
        AddMember(groups, root, keys - todo, p, r);
        groups := groups[r := if r in groups then groups[r] + [p] else [p]];
        TakeOne(keys, todo, p);
        todo := todo - {p};
      }
      assert keys - todo == root.Keys;
      GroupedAll(groups, root, keys - todo);
    }
  }
}
