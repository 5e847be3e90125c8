/** Lists of binomial trees ("forests") and the two operations that build
    them: BinomialHeap.union (sort by degree, one linking pass, sort again)
    and BinomialTree.extract_min (which unions the root's children back
    together one tree at a time). */
module Forests {
  import opened Keys
  import opened BinomialNodes
  import opened BinomialTrees

  function Roots(f: seq<Tree>): (r: seq<Node>)
    ensures |r| == |f| && forall i :: 0 <= i < |f| ==> r[i] == f[i].root
  {
    seq(|f|, i requires 0 <= i < |f| => f[i].root)
  }

  /** The multiset of keys held by all trees of a forest. */
  function TreesKeys(f: seq<Tree>): (r: multiset<Key>) {
    ForestKeys(Roots(f))
  }

  lemma {:induction false} TreesKeysConcat(a: seq<Tree>, b: seq<Tree>)
    ensures TreesKeys(a + b) == TreesKeys(a) + TreesKeys(b)
  {
    assert Roots(a + b) == Roots(a) + Roots(b);
    ForestKeysConcat(Roots(a), Roots(b));
  }

  lemma {:induction false} TreesKeysOne(t: Tree)
    ensures TreesKeys([t]) == KeysOf(t.root)
  {
    assert Roots([t]) == [t.root];
    assert [t.root][..0] == [];
    assert ForestKeys([t.root]) == ForestKeys([t.root][..0]) + KeysOf(t.root);
  }

  /** A key is in the forest exactly when it is in one of its trees. */
  lemma {:induction false} TreesKeysHas(f: seq<Tree>, k: Key)
    ensures k in TreesKeys(f) <==> exists j :: 0 <= j < |f| && k in KeysOf(f[j].root)
    decreases |f|
  {
    if f != [] {
      var p := f[..|f| - 1];
      assert f == p + [f[|f| - 1]];
      TreesKeysConcat(p, [f[|f| - 1]]);
      TreesKeysOne(f[|f| - 1]);
      TreesKeysHas(p, k);
      if k in TreesKeys(p) {
        var j :| 0 <= j < |p| && k in KeysOf(p[j].root);
        assert f[j] == p[j];
      }
      if exists j :: 0 <= j < |f| && k in KeysOf(f[j].root) {
        var j :| 0 <= j < |f| && k in KeysOf(f[j].root);
        if j < |p| {
          assert f[j] == p[j];
        }
      }
    }
  }

  /** Only the empty forest holds no keys (every tree has a root). */
  lemma {:induction false} EmptyForestKeys(f: seq<Tree>)
    ensures TreesKeys(f) == multiset{} <==> f == []
  {
    if f != [] {
      TreesKeysHas(f, f[0].root.key);
    }
  }

  /** Replacing one tree exchanges its keys for the new tree's. */
  lemma {:induction false} TreesKeysUpdate(f: seq<Tree>, i: nat, t: Tree)
    requires i < |f|
    ensures TreesKeys(f[i := t]) + KeysOf(f[i].root) == TreesKeys(f) + KeysOf(t.root)
  {
    assert Roots(f[i := t]) == Roots(f)[i := t.root];
    ForestKeysUpdate(Roots(f), i, t.root);
  }

  /** Removing one tree removes exactly its keys. */
  lemma {:induction false} TreesKeysRemove(f: seq<Tree>, i: nat)
    requires i < |f|
    ensures TreesKeys(f[..i] + f[i + 1..]) + KeysOf(f[i].root) == TreesKeys(f)
  {
    assert f == f[..i] + [f[i]] + f[i + 1..];
    TreesKeysConcat(f[..i] + [f[i]], f[i + 1..]);
    TreesKeysConcat(f[..i], [f[i]]);
    TreesKeysConcat(f[..i], f[i + 1..]);
    TreesKeysOne(f[i]);
  }

  ghost predicate AllWellFormed(f: seq<Tree>) {
    forall i :: 0 <= i < |f| ==> WellFormed(f[i])
  }

  predicate SortedByDegree(f: seq<Tree>) {
    forall i, j :: 0 <= i < j < |f| ==> f[i].degree <= f[j].degree
  }

  /** Distinct degrees, in ascending order: the shape of a proper binomial heap. */
  predicate StrictlyAscending(f: seq<Tree>) {
    forall i, j :: 0 <= i < j < |f| ==> f[i].degree < f[j].degree
  }

  // ---------------------------------------------------------------------------
  // list.sort(key=lambda tree: tree.degree): a stable sort by degree

  /** t placed after every tree of s whose degree is <= t's. */
  function InsertByDegree(s: seq<Tree>, t: Tree): (r: seq<Tree>)
    decreases s
  {
    if s == [] then [t]
    else if t.degree < s[0].degree then [t] + s
    else [s[0]] + InsertByDegree(s[1..], t)
  }

  /** Inserting adds exactly t to the trees. */
  lemma {:induction false} InsertPermutes(s: seq<Tree>, t: Tree)
    ensures multiset(InsertByDegree(s, t)) == multiset(s) + multiset{t}
    decreases s
  {
    if s != [] && t.degree >= s[0].degree {
      InsertPermutes(s[1..], t);
      assert s == [s[0]] + s[1..];
    }
  }

  /** Inserting keeps a lower bound that t and all of s already respect. */
  lemma {:induction false} InsertLowerBound(s: seq<Tree>, t: Tree, lo: nat)
    requires lo <= t.degree && forall j :: 0 <= j < |s| ==> lo <= s[j].degree
    ensures forall j :: 0 <= j < |InsertByDegree(s, t)| ==> lo <= InsertByDegree(s, t)[j].degree
    decreases s
  {
    if s != [] && t.degree >= s[0].degree {
      InsertLowerBound(s[1..], t, lo);
      assert InsertByDegree(s, t) == [s[0]] + InsertByDegree(s[1..], t);
    }
  }

  /** Inserting into a list sorted by degree keeps it sorted. */
  lemma {:induction false} InsertSorted(s: seq<Tree>, t: Tree)
    requires SortedByDegree(s)
    ensures SortedByDegree(InsertByDegree(s, t))
    decreases s
  {
    if s != [] && t.degree >= s[0].degree {
      var rest := InsertByDegree(s[1..], t);
      InsertSorted(s[1..], t);
      InsertLowerBound(s[1..], t, s[0].degree);
      assert InsertByDegree(s, t) == [s[0]] + rest;
    }
  }

  lemma SplitLast(s: seq<Tree>)
    requires s != []
    ensures s == s[..|s| - 1] + [s[|s| - 1]]
  {
  }

  /** Python's stable sort by degree, as an insertion sort. */
  function SortByDegree(s: seq<Tree>): (r: seq<Tree>)
    decreases |s|
  {
    if s == [] then []
    else InsertByDegree(SortByDegree(s[..|s| - 1]), s[|s| - 1])
  }

  /** Sorting rearranges the trees and no more. */
  lemma {:induction false} SortPermutes(s: seq<Tree>)
    ensures multiset(SortByDegree(s)) == multiset(s)
    decreases |s|
  {
    if s != [] {
      SplitLast(s);
      SortPermutes(s[..|s| - 1]);
      InsertPermutes(SortByDegree(s[..|s| - 1]), s[|s| - 1]);
    }
  }

  /** Sorting yields non-decreasing degrees. */
  lemma {:induction false} SortSorted(s: seq<Tree>)
    ensures SortedByDegree(SortByDegree(s))
    decreases |s|
  {
    if s != [] {
      SortSorted(s[..|s| - 1]);
      InsertSorted(SortByDegree(s[..|s| - 1]), s[|s| - 1]);
    }
  }

  lemma {:induction false} InsertKeys(s: seq<Tree>, t: Tree)
    ensures TreesKeys(InsertByDegree(s, t)) == TreesKeys(s) + KeysOf(t.root)
    decreases s
  {
    TreesKeysOne(t);
    if s == [] {
    } else if t.degree < s[0].degree {
      TreesKeysConcat([t], s);
    } else {
      InsertKeys(s[1..], t);
      TreesKeysConcat([s[0]], InsertByDegree(s[1..], t));
      TreesKeysConcat([s[0]], s[1..]);
      assert s == [s[0]] + s[1..];
    }
  }

  /** Sorting keeps the keys of the forest. */
  lemma {:induction false} SortKeys(s: seq<Tree>)
    ensures TreesKeys(SortByDegree(s)) == TreesKeys(s)
    decreases |s|
  {
    if s != [] {
      SplitLast(s);
      var p, x := s[..|s| - 1], s[|s| - 1];
      SortKeys(p);
      InsertKeys(SortByDegree(p), x);
      TreesKeysConcat(p, [x]);
      TreesKeysOne(x);
    }
  }

  /** Sorting keeps the trees (and so their well-formedness). */
  lemma {:induction false} SortWellFormed(s: seq<Tree>)
    ensures AllWellFormed(s) ==> AllWellFormed(SortByDegree(s))
  {
    var r := SortByDegree(s);
    SortPermutes(s);
    forall i | 0 <= i < |r| ensures r[i] in s {
      assert r[i] in multiset(r);
    }
  }

  /** A list already sorted by degree is left as it is. */
  lemma {:induction false} SortedIsFixed(s: seq<Tree>)
    requires SortedByDegree(s)
    ensures SortByDegree(s) == s
    decreases |s|
  {
    if s != [] {
      SplitLast(s);
      var p, x := s[..|s| - 1], s[|s| - 1];
      SortedIsFixed(p);
      AppendLargest(p, x);
    }
  }

  lemma {:induction false} AppendLargest(s: seq<Tree>, t: Tree)
    requires forall j :: 0 <= j < |s| ==> s[j].degree <= t.degree
    ensures InsertByDegree(s, t) == s + [t]
    decreases s
  {
    if s != [] {
      AppendLargest(s[1..], t);
      assert s == [s[0]] + s[1..];
    }
  }

  /** The trees of s that have degree d, in their order in s. */
  function WithDegree(s: seq<Tree>, d: nat): (r: seq<Tree>)
    decreases s
  {
    if s == [] then []
    else (if s[0].degree == d then [s[0]] else []) + WithDegree(s[1..], d)
  }

  lemma {:induction false} WithDegreeConcat(a: seq<Tree>, b: seq<Tree>, d: nat)
    ensures WithDegree(a + b, d) == WithDegree(a, d) + WithDegree(b, d)
    decreases a
  {
    if a != [] {
      assert (a + b)[1..] == a[1..] + b;
      WithDegreeConcat(a[1..], b, d);
    } else {
      assert a + b == b;
    }
  }

  lemma {:induction false} WithDegreeHead(s: seq<Tree>)
    requires s != []
    ensures WithDegree(s, s[0].degree) == [s[0]] + WithDegree(s[1..], s[0].degree)
  {
  }

  lemma {:induction false} WithDegreeOccurs(s: seq<Tree>, d: nat)
    requires WithDegree(s, d) != []
    ensures exists j :: 0 <= j < |s| && s[j].degree == d
    decreases s
  {
    if s[0].degree != d {
      WithDegreeOccurs(s[1..], d);
      var j :| 0 <= j < |s[1..]| && s[1..][j].degree == d;
      assert s[j + 1] == s[1..][j];
    }
  }

  lemma {:induction false} WithDegreeNone(s: seq<Tree>, d: nat)
    requires forall j :: 0 <= j < |s| ==> s[j].degree != d
    ensures WithDegree(s, d) == []
    decreases s
  {
    if s != [] {
      WithDegreeNone(s[1..], d);
    }
  }

  lemma {:induction false} InsertIsStable(s: seq<Tree>, t: Tree, d: nat)
    requires SortedByDegree(s)
    ensures WithDegree(InsertByDegree(s, t), d)
         == WithDegree(s, d) + (if t.degree == d then [t] else [])
    decreases s
  {
    if s == [] {
      assert WithDegree([t], d) == (if t.degree == d then [t] else []) + WithDegree([], d);
    } else if t.degree < s[0].degree {
      var r := [t] + s;
      assert r[1..] == s;
      if t.degree == d {
        WithDegreeNone(s, d);
      }
    } else {
      var rest := InsertByDegree(s[1..], t);
      InsertIsStable(s[1..], t, d);
      assert ([s[0]] + rest)[1..] == rest;
    }
  }

  /** The sort is stable: for every degree, the trees of that degree keep their relative order. */
  lemma {:induction false} SortIsStable(s: seq<Tree>, d: nat)
    ensures WithDegree(SortByDegree(s), d) == WithDegree(s, d)
    decreases |s|
  {
    if s != [] {
      SplitLast(s);
      var p, x := s[..|s| - 1], s[|s| - 1];
      SortIsStable(p, d);
      SortSorted(p);
      InsertIsStable(SortByDegree(p), x, d);
      WithDegreeConcat(p, [x], d);
      assert WithDegree([x], d) == (if x.degree == d then [x] else []) + WithDegree([], d);
    }
  }

  /** Dropping the first tree drops it from its own degree's list only. */
  lemma {:induction false} WithDegreeTail(s: seq<Tree>, d: nat)
    requires s != []
    ensures WithDegree(s[1..], d)
         == if s[0].degree == d then WithDegree(s, d)[1..] else WithDegree(s, d)
  {
    assert WithDegree(s, d) == (if s[0].degree == d then [s[0]] else []) + WithDegree(s[1..], d);
  }

  /** Two degree-sorted lists with the same trees in every degree start with the same tree. */
  lemma {:induction false} StableHeadsAgree(a: seq<Tree>, b: seq<Tree>)
    requires a != [] && b != []
    requires SortedByDegree(a) && SortedByDegree(b)
    requires forall d: nat :: WithDegree(a, d) == WithDegree(b, d)
    ensures a[0] == b[0]
  {
    var da, db := a[0].degree, b[0].degree;
    WithDegreeHead(a);
    WithDegreeHead(b);
    assert db <= da by {
      assert WithDegree(b, da) == WithDegree(a, da);
      WithDegreeOccurs(b, da);
    }
    assert da <= db by {
      assert WithDegree(a, db) == WithDegree(b, db);
      WithDegreeOccurs(a, db);
    }
    assert a[0] == WithDegree(a, da)[0] == WithDegree(b, db)[0] == b[0];
  }

  /** Any two lists sorted by degree that agree on the order within every
      degree are equal: every stable sort by degree, Python's included,
      gives the result of SortByDegree. */
  lemma {:induction false} StableSortIsUnique(a: seq<Tree>, b: seq<Tree>)
    requires SortedByDegree(a) && SortedByDegree(b)
    requires forall d: nat :: WithDegree(a, d) == WithDegree(b, d)
    ensures a == b
    decreases |a|
  {
    if a == [] && b == [] {
    } else if a == [] || b == [] {
      // the first tree of the non-empty list has no counterpart in the other
      if a != [] {
        WithDegreeHead(a);
      } else {
        WithDegreeHead(b);
      }
      assert false;
    } else {
      StableHeadsAgree(a, b);
      forall d: nat ensures WithDegree(a[1..], d) == WithDegree(b[1..], d) {
        WithDegreeTail(a, d);
        WithDegreeTail(b, d);
      }
      StableSortIsUnique(a[1..], b[1..]);
      assert a == [a[0]] + a[1..];
      assert b == [b[0]] + b[1..];
    }
  }

  // ---------------------------------------------------------------------------
  // The linking pass of union

  /** The forest f with f[i] and f[i + 1] replaced by their merge. */
  function LinkAt(f: seq<Tree>, i: nat): (r: seq<Tree>)
    requires i + 1 < |f|
    ensures |r| == |f| - 1
  {
    f[..i] + [Merge(f[i], f[i + 1])] + f[i + 2..]
  }

  /** The loop of union from position i on: link f[i] and f[i + 1] while they
      have the same degree (staying at i), otherwise move on. */
  function LinkPass(f: seq<Tree>, i: nat): (r: seq<Tree>)
    decreases |f|, |f| - i
  {
    if i + 1 >= |f| then f
    else if f[i].degree == f[i + 1].degree then LinkPass(LinkAt(f, i), i)
    else LinkPass(f, i + 1)
  }

  lemma {:induction false} LinkAtKeys(f: seq<Tree>, i: nat)
    requires i + 1 < |f|
    ensures TreesKeys(LinkAt(f, i)) == TreesKeys(f)
  {
    var m := Merge(f[i], f[i + 1]);
    assert f == f[..i] + [f[i], f[i + 1]] + f[i + 2..];
    TreesKeysConcat(f[..i] + [f[i], f[i + 1]], f[i + 2..]);
    TreesKeysConcat(f[..i], [f[i], f[i + 1]]);
    TreesKeysConcat([f[i]], [f[i + 1]]);
    assert [f[i]] + [f[i + 1]] == [f[i], f[i + 1]];
    TreesKeysConcat(f[..i] + [m], f[i + 2..]);
    TreesKeysConcat(f[..i], [m]);
    TreesKeysOne(f[i]);
    TreesKeysOne(f[i + 1]);
    TreesKeysOne(m);
  }

  lemma {:induction false} LinkAtWellFormed(f: seq<Tree>, i: nat)
    requires i + 1 < |f| && f[i].degree == f[i + 1].degree
    ensures AllWellFormed(f) ==> AllWellFormed(LinkAt(f, i))
  {
    var r := LinkAt(f, i);
    if AllWellFormed(f) {
      forall j | 0 <= j < |r| ensures WellFormed(r[j]) {
        if j > i {
          assert r[j] == f[j + 1];
        }
      }
    }
  }

  /** The pass keeps the keys of the forest. */
  lemma {:induction false} LinkPassKeys(f: seq<Tree>, i: nat)
    ensures TreesKeys(LinkPass(f, i)) == TreesKeys(f)
    decreases |f|, |f| - i
  {
    if i + 1 < |f| {
      if f[i].degree == f[i + 1].degree {
        LinkAtKeys(f, i);
        LinkPassKeys(LinkAt(f, i), i);
      } else {
        LinkPassKeys(f, i + 1);
      }
    }
  }

  /** The pass only links trees of equal degree, so every tree stays well-formed. */
  lemma {:induction false} LinkPassWellFormed(f: seq<Tree>, i: nat)
    ensures AllWellFormed(f) ==> AllWellFormed(LinkPass(f, i))
    decreases |f|, |f| - i
  {
    if i + 1 < |f| {
      if f[i].degree == f[i + 1].degree {
        LinkAtWellFormed(f, i);
        LinkPassWellFormed(LinkAt(f, i), i);
      } else {
        LinkPassWellFormed(f, i + 1);
      }
    }
  }

  /** On distinct ascending degrees the pass links nothing. */
  lemma {:induction false} LinkPassOnAscending(f: seq<Tree>, i: nat)
    requires StrictlyAscending(f)
    ensures LinkPass(f, i) == f
    decreases |f| - i
  {
    if i + 1 < |f| {
      LinkPassOnAscending(f, i + 1);
    }
  }

  /** Ascending degrees, distinct except that f[i] and f[i + 1] may share one. */
  ghost predicate AscendingExcept(f: seq<Tree>, i: nat) {
    && (i + 1 < |f| ==> f[i].degree <= f[i + 1].degree)
    && forall j, k :: 0 <= j < k < |f| && !(j == i && k == i + 1) ==> f[j].degree < f[k].degree
  }

  /** A single repeated degree at the pass position is carried through to the
      end: the pass then yields distinct ascending degrees. */
  lemma {:induction false} LinkPassCarries(f: seq<Tree>, i: nat)
    requires AscendingExcept(f, i)
    ensures StrictlyAscending(LinkPass(f, i))
    decreases |f|, |f| - i
  {
    if i + 1 < |f| {
      if f[i].degree == f[i + 1].degree {
        var g := LinkAt(f, i);
        assert g[i].degree == f[i].degree + 1;
        assert forall j :: 0 <= j < i ==> g[j] == f[j];
        assert forall j :: i < j < |g| ==> g[j] == f[j + 1];
        LinkPassCarries(g, i);
      } else {
        LinkPassCarries(f, i + 1);
      }
    }
  }

  /** The heap that union returns, as a function of the two forests. */
  function UnionSpec(a: seq<Tree>, b: seq<Tree>): (r: seq<Tree>) {
    SortByDegree(LinkPass(SortByDegree(a + b), 0))
  }

  /** union returns a forest sorted by degree holding the keys of both inputs,
      all of whose trees are well-formed when the inputs' trees are. */
  lemma {:induction false} UnionSpecFacts(a: seq<Tree>, b: seq<Tree>)
    ensures SortedByDegree(UnionSpec(a, b))
    ensures TreesKeys(UnionSpec(a, b)) == TreesKeys(a) + TreesKeys(b)
    ensures AllWellFormed(a) && AllWellFormed(b) ==> AllWellFormed(UnionSpec(a, b))
  {
    var s := SortByDegree(a + b);
    TreesKeysConcat(a, b);
    SortKeys(a + b);
    LinkPassKeys(s, 0);
    SortKeys(LinkPass(s, 0));
    SortSorted(LinkPass(s, 0));
    if AllWellFormed(a) && AllWellFormed(b) {
      assert AllWellFormed(a + b) by {
        forall j | 0 <= j < |a + b| ensures WellFormed((a + b)[j]) {
          if j >= |a| {
            assert (a + b)[j] == b[j - |a|];
          }
        }
      }
      SortWellFormed(a + b);
      LinkPassWellFormed(s, 0);
      SortWellFormed(LinkPass(s, 0));
    }
  }

  /** Forests whose concatenation already has distinct ascending degrees are
      just concatenated. */
  lemma {:induction false} UnionOfAscending(a: seq<Tree>, b: seq<Tree>)
    requires StrictlyAscending(a + b)
    ensures UnionSpec(a, b) == a + b
  {
    SortedIsFixed(a + b);
    LinkPassOnAscending(a + b, 0);
  }

  /** A degree-0 tree inserted by degree into distinct ascending degrees
      repeats at most the degree of the first tree, right at the front. */
  lemma {:induction false} InsertDegreeZero(f: seq<Tree>, t: Tree)
    requires StrictlyAscending(f) && t.degree == 0
    ensures AscendingExcept(InsertByDegree(f, t), 0)
  {
    var g := InsertByDegree(f, t);
    if f != [] && f[0].degree == 0 {
      var rest := f[1..];
      if rest != [] {
        assert rest[0].degree > 0;
      }
      assert InsertByDegree(rest, t) == [t] + rest;
      assert g == [f[0], t] + rest;
      assert forall j :: 2 <= j < |g| ==> g[j] == f[j - 1];
    }
  }

  /** insert: a degree-0 tree unioned into a forest with distinct ascending
      degrees leaves distinct ascending degrees. */
  lemma {:induction false} InsertKeepsDegreesDistinct(f: seq<Tree>, t: Tree)
    requires StrictlyAscending(f) && t.degree == 0
    ensures StrictlyAscending(UnionSpec(f, [t]))
  {
    var s := f + [t];
    SplitLast(s);
    assert s[..|s| - 1] == f;
    SortedIsFixed(f);
    var g := InsertByDegree(f, t);
    assert SortByDegree(s) == g;
    InsertDegreeZero(f, t);
    LinkPassCarries(g, 0);
    SortedIsFixed(LinkPass(g, 0));
  }

  lemma {:induction false} SortSnoc(s: seq<Tree>, x: Tree)
    ensures SortByDegree(s + [x]) == InsertByDegree(SortByDegree(s), x)
  {
    assert (s + [x])[..|s|] == s;
  }

  /** Appending a tree of the largest degree appends it to the sorted list. */
  lemma {:induction false} SortSnocLargest(s: seq<Tree>, x: Tree)
    requires forall j :: 0 <= j < |s| ==> s[j].degree <= x.degree
    ensures SortByDegree(s + [x]) == SortByDegree(s) + [x]
  {
    SortSnoc(s, x);
    var r := SortByDegree(s);
    SortPermutes(s);
    forall j | 0 <= j < |r| ensures r[j].degree <= x.degree {
      assert r[j] in multiset(s);
    }
    AppendLargest(r, x);
  }

  lemma {:induction false} SortOfTwo(x: Tree, y: Tree)
    ensures SortByDegree([x, y]) == if x.degree <= y.degree then [x, y] else [y, x]
  {
    assert [x, y] == [x] + [y];
    assert [x] == [] + [x];
    SortSnoc([], x);
    SortSnoc([x], y);
    assert [x][1..] == [];
  }

  lemma {:induction false} InsertSecond(x: Tree, y: Tree, z: Tree)
    requires x.degree <= z.degree < y.degree
    ensures InsertByDegree([x, y], z) == [x, z, y]
  {
    assert [x, y][1..] == [y];
  }

  lemma {:induction false} SortOfThree(a0: Tree, a1: Tree, b0: Tree)
    requires a0.degree == 0 && a1.degree == 1 && b0.degree == 0
    ensures SortByDegree([a0, a1] + [b0]) == [a0, b0, a1]
  {
    SortOfTwo(a0, a1);
    SortSnoc([a0, a1], b0);
    InsertSecond(a0, a1, b0);
  }

  lemma {:induction false} SortOfFive(a0: Tree, a1: Tree, b0: Tree, b1: Tree, b2: Tree)
    requires a0.degree == 0 && a1.degree == 1 && b0.degree == 0 && b1.degree == 1 && b2.degree == 2
    ensures SortByDegree((([a0, a1] + [b0]) + [b1]) + [b2]) == [a0, b0, a1] + [b1] + [b2]
  {
    SortOfThree(a0, a1, b0);
    SortSnocLargest([a0, a1] + [b0], b1);
    SortSnocLargest(([a0, a1] + [b0]) + [b1], b2);
  }

  lemma {:induction false} LinkAtFront(x: Tree, y: Tree, rest: seq<Tree>)
    ensures LinkAt([x, y] + rest, 0) == [Merge(x, y)] + rest
  {
    assert ([x, y] + rest)[2..] == rest;
  }

  /** The pass on degrees [0, 0, 1, 1, 2]: two links at position 0, then no more. */
  lemma {:induction false} LinkPassOfFive(x0: Tree, x1: Tree, x2: Tree, x3: Tree, x4: Tree)
    requires x0.degree == 0 && x1.degree == 0 && x2.degree == 1 && x3.degree == 1 && x4.degree == 2
    ensures LinkPass([x0, x1, x2] + [x3] + [x4], 0) == [Merge(Merge(x0, x1), x2), x3] + [x4]
  {
    var s := [x0, x1, x2] + [x3] + [x4];
    assert s == [x0, x1] + [x2, x3, x4];
    var m1 := Merge(x0, x1);
    LinkAtFront(x0, x1, [x2, x3, x4]);
    var l1 := [m1, x2] + [x3, x4];
    assert LinkAt(s, 0) == l1;
    assert LinkPass(s, 0) == LinkPass(l1, 0);
    LinkAtFront(m1, x2, [x3, x4]);
    var l := [Merge(m1, x2), x3, x4];
    assert LinkAt(l1, 0) == l;
    assert LinkPass(l1, 0) == LinkPass(l, 0);
    assert LinkPass(l, 0) == LinkPass(l, 1);
    assert LinkPass(l, 1) == LinkPass(l, 2);
    assert l == [Merge(m1, x2), x3] + [x4];
  }

  lemma {:induction false} SortOfThreeLinked(m: Tree, b1: Tree, b2: Tree)
    requires m.degree == 2 && b1.degree == 1 && b2.degree == 2
    ensures SortByDegree([m, b1] + [b2]) == [b1, m] + [b2]
  {
    SortOfTwo(m, b1);
    SortSnocLargest([m, b1], b2);
  }

  lemma {:induction false} UnionOfFive(a: seq<Tree>, b: seq<Tree>)
    requires |a| == 2 && a[0].degree == 0 && a[1].degree == 1
    requires |b| == 3 && b[0].degree == 0 && b[1].degree == 1 && b[2].degree == 2
    ensures UnionSpec(a, b) == [b[1], Merge(Merge(a[0], b[0]), a[1])] + [b[2]]
  {
    assert a + b == (([a[0], a[1]] + [b[0]]) + [b[1]]) + [b[2]];
    SortOfFive(a[0], a[1], b[0], b[1], b[2]);
    LinkPassOfFive(a[0], b[0], a[1], b[1], b[2]);
    SortOfThreeLinked(Merge(Merge(a[0], b[0]), a[1]), b[1], b[2]);
  }

  /** The single pass does not catch every carry: forests with degrees
      [0, 1] and [0, 1, 2], proper binomial heaps both, union to a forest with
      degrees [1, 2, 2]. */
  lemma {:induction false} UnionCanRepeatDegrees(a: seq<Tree>, b: seq<Tree>)
    requires |a| == 2 && a[0].degree == 0 && a[1].degree == 1
    requires |b| == 3 && b[0].degree == 0 && b[1].degree == 1 && b[2].degree == 2
    ensures StrictlyAscending(a) && StrictlyAscending(b)
    ensures !StrictlyAscending(UnionSpec(a, b))
    ensures |UnionSpec(a, b)| == 3
    ensures UnionSpec(a, b)[0].degree == 1 && UnionSpec(a, b)[1].degree == 2
    ensures UnionSpec(a, b)[2].degree == 2
  {
    assert StrictlyAscending(a) && StrictlyAscending(b);
    UnionOfFive(a, b);
    var r := UnionSpec(a, b);
    var m := Merge(Merge(a[0], b[0]), a[1]);
    assert r[0] == b[1] && r[1] == m && r[2] == b[2];
    assert m.degree == 2;
    assert !(r[1].degree < r[2].degree);
  }

  /** Writing the merge into slot i and deleting slot i + 1 is LinkAt. */
  lemma {:induction false} LinkInPlace(f: seq<Tree>, i: nat)
    requires i + 1 < |f|
    ensures f[i := Merge(f[i], f[i + 1])][..i + 1] + f[i := Merge(f[i], f[i + 1])][i + 2..]
         == LinkAt(f, i)
  {
    var g := f[i := Merge(f[i], f[i + 1])];
    assert g[..i + 1] == f[..i] + [Merge(f[i], f[i + 1])];
    assert g[i + 2..] == f[i + 2..];
  }

  /** BinomialHeap.union on the tree lists: extend, sort by degree, then one
      left-to-right pass that links adjacent trees of equal degree (staying
      at the same position after a link), then sort again. */
  method Union(a: seq<Tree>, b: seq<Tree>) returns (r: seq<Tree>)
    ensures r == UnionSpec(a, b)
    ensures SortedByDegree(r)
    ensures TreesKeys(r) == TreesKeys(a) + TreesKeys(b)
    ensures AllWellFormed(a) && AllWellFormed(b) ==> AllWellFormed(r)
  {
    var forest: seq<Tree> := [];
    forest := forest + a;
    assert forest == a;
    forest := forest + b;
    forest := SortByDegree(forest);
    var i: nat := 0;
    var heapLen := |forest|;
    while i < heapLen - 1
      invariant heapLen == |forest|
      invariant LinkPass(forest, i) == LinkPass(SortByDegree(a + b), 0)
      decreases heapLen, heapLen - i
    {
      if forest[i].degree == forest[i + 1].degree {
        ghost var before := forest;
        forest := forest[i := Merge(forest[i], forest[i + 1])];
        forest := forest[..i + 1] + forest[i + 2..];
        LinkInPlace(before, i);
        heapLen := heapLen - 1;
      } else {
        i := i + 1;
      }
    }
    forest := SortByDegree(forest);
    r := forest;
    UnionSpecFacts(a, b);
  }

  // ---------------------------------------------------------------------------
  // BinomialTree.extract_min

  /** The children of a root, the i-th as a tree of degree i. */
  function ChildTrees(n: Node): (r: seq<Tree>)
    ensures |r| == |n.children|
    ensures forall i :: 0 <= i < |r| ==> r[i] == Tree(i, n.children[i])
  {
    seq(|n.children|, i requires 0 <= i < |n.children| => Tree(i, n.children[i]))
  }

  /** The children of a root, the i-th as a tree of degree i, have ascending
      degrees; so the next child, as a tree of the next degree, is simply
      appended by union. */
  lemma {:induction false} NextChildTree(f: seq<Tree>, ch: seq<Node>, j: nat)
    requires j < |ch| && |f| == j
    requires forall i :: 0 <= i < j ==> f[i] == Tree(i, ch[i])
    ensures UnionSpec(f, [Tree(j, ch[j])]) == f + [Tree(j, ch[j])]
  {
    var g := f + [Tree(j, ch[j])];
    assert forall i :: 0 <= i < |g| ==> g[i].degree == i;
    UnionOfAscending(f, [Tree(j, ch[j])]);
  }

  /** The forest of a root's children holds the tree's keys but the root's;
      its degrees ascend; its trees are well-formed when the tree is. */
  lemma {:induction false} ChildTreesFacts(t: Tree, f: seq<Tree>)
    requires |f| == |t.root.children|
    requires forall i :: 0 <= i < |f| ==> f[i] == Tree(i, t.root.children[i])
    ensures TreesKeys(f) + multiset{t.root.key} == KeysOf(t.root)
    ensures StrictlyAscending(f)
    ensures WellFormed(t) ==> AllWellFormed(f)
  {
    assert Roots(f) == t.root.children;
  }

  /** BinomialTree.extract_min: hand back the root, and union the root's
      children, the i-th as a tree of degree i, into a new forest. */
  method ExtractMinTree(t: Tree) returns (minNode: Node, forest: seq<Tree>)
    ensures minNode == t.root
    ensures forest == ChildTrees(t.root)
    ensures TreesKeys(forest) + multiset{t.root.key} == KeysOf(t.root)
    ensures StrictlyAscending(forest)
    ensures WellFormed(t) ==> AllWellFormed(forest)
  {
    minNode := t.root;
    var degree := 0;
    forest := [];
    var children := t.root.children;
    for j := 0 to |children|
      invariant degree == j && |forest| == j
      invariant forall i :: 0 <= i < j ==> forest[i] == Tree(i, children[i])
    {
      var newTree := Tree(degree, children[j]);
      NextChildTree(forest, children, j);
      forest := Union(forest, [newTree]);
      degree := degree + 1;
    }
    ChildTreesFacts(t, forest);
  }
}
