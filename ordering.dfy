/** Byte-wise (here: code-point-wise) string order, which is the order Go's os.ReadDir sorts
    directory entries by, and the unique strictly ascending listing of a finite set of names. */
module Ordering {

  /** Lexicographic strict order on strings. */
  predicate Less(a: string, b: string)
    decreases |a|
  {
    if a == [] then b != []
    else if b == [] then false
    else if a[0] != b[0] then a[0] < b[0]
    else Less(a[1..], b[1..])
  }

  lemma {:induction false} LessIrreflexive(a: string)
    ensures !Less(a, a)
    decreases |a|
  {
    if a != [] { LessIrreflexive(a[1..]); }
  }

  lemma {:induction false} LessTransitive(a: string, b: string, c: string)
    requires Less(a, b) && Less(b, c)
    ensures Less(a, c)
    decreases |a|
  {
    if a != [] && b != [] && c != [] && a[0] == b[0] && b[0] == c[0] {
      LessTransitive(a[1..], b[1..], c[1..]);
    }
  }

  lemma {:induction false} LessTotal(a: string, b: string)
    requires a != b
    ensures Less(a, b) || Less(b, a)
    decreases |a|
  {
    if a != [] && b != [] && a[0] == b[0] {
      assert a == [a[0]] + a[1..] && b == [b[0]] + b[1..];
      LessTotal(a[1..], b[1..]);
    }
  }

  lemma LessAsymmetric(a: string, b: string)
    requires Less(a, b)
    ensures !Less(b, a)
  {
    if Less(b, a) {
      LessTransitive(a, b, a);
      LessIrreflexive(a);
    }
  }

  predicate StrictlySorted(s: seq<string>)
  {
    forall i, j :: 0 <= i < j < |s| ==> Less(s[i], s[j])
  }

  predicate IsMinimum(m: string, s: set<string>)
  {
    m in s && forall x :: x in s ==> !Less(x, m)
  }

  lemma {:induction false} MinimumExists(s: set<string>)
    requires s != {}
    ensures exists m :: IsMinimum(m, s)
    decreases |s|
  {
    var y :| y in s;
    var rest := s - {y};
    if rest == {} {
      assert s == {y};
      LessIrreflexive(y);
      assert IsMinimum(y, s);
    } else {
      MinimumExists(rest);
      var m :| IsMinimum(m, rest);
      if Less(y, m) {
        forall x | x in s ensures !Less(x, y) {
          if x in rest && Less(x, y) { LessTransitive(x, y, m); }
          if x == y { LessIrreflexive(y); }
        }
        assert IsMinimum(y, s);
      } else {
        assert IsMinimum(m, s);
      }
    }
  }

  /** The elements of a finite set of names in ascending order. */
  ghost function SortedSeq(s: set<string>): (r: seq<string>)
    ensures |r| == |s|
    decreases |s|
  {
    if s == {} then []
    else
      MinimumExists(s);
      var m :| IsMinimum(m, s);
      [m] + SortedSeq(s - {m})
  }

  lemma {:induction false} SortedSeqProperties(s: set<string>)
    ensures StrictlySorted(SortedSeq(s))
    ensures forall x :: x in SortedSeq(s) <==> x in s
    decreases |s|
  {
    if s != {} {
      var r := SortedSeq(s);
      var m := r[0];
      assert IsMinimum(m, s) && r[1..] == SortedSeq(s - {m});
      SortedSeqProperties(s - {m});
      forall i, j | 0 <= i < j < |r| ensures Less(r[i], r[j]) {
        if i == 0 {
          assert r[j] in s - {m};
          LessTotal(m, r[j]);
        } else {
          assert r[i] == r[1..][i - 1] && r[j] == r[1..][j - 1];
        }
      }
    }
  }

  lemma {:induction false} StrictlySortedHead(a: seq<string>)
    requires StrictlySorted(a) && a != []
    ensures IsMinimum(a[0], set x | x in a)
  {
    forall x | x in a ensures !Less(x, a[0]) {
      var k :| 0 <= k < |a| && a[k] == x;
      if k == 0 { LessIrreflexive(x); } else { LessAsymmetric(a[0], a[k]); }
    }
  }

  lemma MinimumUnique(m1: string, m2: string, s: set<string>)
    requires IsMinimum(m1, s) && IsMinimum(m2, s)
    ensures m1 == m2
  {
    if m1 != m2 { LessTotal(m1, m2); }
  }

  /** With the same first element, what follows it in one ascending listing of a set follows
      it in any other. */
  lemma TailMember(a: seq<string>, b: seq<string>, x: string)
    requires StrictlySorted(a) && StrictlySorted(b) && a != [] && b != [] && a[0] == b[0]
    requires forall x :: x in a <==> x in b
    requires x in a[1..]
    ensures x in b[1..]
  {
    var k :| 1 <= k < |a| && a[k] == x;
    assert Less(a[0], a[k]);
    LessIrreflexive(a[0]);
    assert x in b;
    var l :| 0 <= l < |b| && b[l] == x;
    assert x == b[1..][l - 1];
  }

  /** Two ascending listings of the same set are the same listing. */
  lemma {:induction false} StrictlySortedUnique(a: seq<string>, b: seq<string>)
    requires StrictlySorted(a) && StrictlySorted(b)
    requires forall x :: x in a <==> x in b
    ensures a == b
    decreases |a|
  {
    assert a != [] ==> a[0] in b;
    assert b != [] ==> b[0] in a;
    if a != [] && b != [] {
      StrictlySortedHead(a);
      StrictlySortedHead(b);
      assert (set x | x in a) == (set x | x in b);
      MinimumUnique(a[0], b[0], set x | x in a);
      forall x ensures x in a[1..] <==> x in b[1..] {
        if x in a[1..] { TailMember(a, b, x); }
        if x in b[1..] { TailMember(b, a, x); }
      }
      StrictlySortedUnique(a[1..], b[1..]);
      assert a == [a[0]] + a[1..] && b == [b[0]] + b[1..];
    }
  }

  /** Lists the elements of s in ascending order, picking the least remaining one each time. */
  method ListSorted(s: set<string>) returns (r: seq<string>)
    ensures r == SortedSeq(s)
  {
    r := [];
    var rest := s;
    while rest != {}
      invariant StrictlySorted(r)
      invariant forall x :: x in r <==> x in s && x !in rest
      invariant rest <= s
      invariant forall i, x :: 0 <= i < |r| && x in rest ==> Less(r[i], x)
      decreases |rest|
    {
      MinimumExists(rest);
      var m :| IsMinimum(m, rest);
      forall i | 0 <= i < |r| ensures Less(r[i], m) { }
      forall x | x in rest - {m} ensures Less(m, x) { LessTotal(m, x); }
      r := r + [m];
      rest := rest - {m};
    }
    SortedSeqProperties(s);
    StrictlySortedUnique(r, SortedSeq(s));
  }
}
