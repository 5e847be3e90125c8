/** The binomial heap itself (the source's BinomialHeap): an object holding a
    list of binomial trees, whose operations replace that list. */
module BinomialHeaps {
  import opened Keys
  import opened BinomialNodes
  import opened BinomialTrees
  import opened Forests

  /** Where `find_node` found a node: the index of its tree in the heap and
      its path from that tree's root. */
  datatype Location = Location(tree: nat, path: Path)

  /** How `decrease_key` ends: the key is absent (it returns without doing
      anything), the key is decreased, or the `assert` on the new key fails. */
  datatype DecreaseOutcome = NotFound | Decreased | AssertionError

  /** The index that `min_tree` settles on: scanning the trees in order, a
      tree replaces the current choice only when its root key is strictly
      smaller. */
  function MinRootIndex(f: seq<Tree>): (r: Option<nat>)
    ensures r.None? <==> f == []
    ensures r.Some? ==> r.value < |f|
    ensures r.Some? ==> forall j :: 0 <= j < |f| ==> LessEq(f[r.value].root.key, f[j].root.key)
    ensures r.Some? ==> forall j :: 0 <= j < r.value ==> Less(f[r.value].root.key, f[j].root.key)
    decreases |f|
  {
    if f == [] then None
    else
      var p := f[..|f| - 1];
      match MinRootIndex(p)
      case None => Some(|f| - 1)
      case Some(m) =>
        assert p[m] == f[m];
        if Less(f[|f| - 1].root.key, f[m].root.key) then Some(|f| - 1) else Some(m)
  }

  /** Under heap order, the root picked by `min_tree` holds the smallest key
      of the whole heap. */
  lemma {:induction false} MinRootIsMinKey(f: seq<Tree>)
    requires AllWellFormed(f) && f != []
    ensures forall x :: x in TreesKeys(f) ==> LessEq(f[MinRootIndex(f).value].root.key, x)
  {
    var m := MinRootIndex(f).value;
    forall x | x in TreesKeys(f) ensures LessEq(f[m].root.key, x) {
      TreesKeysHas(f, x);
      var j :| 0 <= j < |f| && x in KeysOf(f[j].root);
      WellFormedTree(f[j]);
    }
  }

  /** The first index from i on where s holds a value, with that value. */
  function FirstSome(s: seq<Option<Path>>, i: nat): (r: Option<Location>)
    ensures r.None? <==> forall j :: i <= j < |s| ==> s[j].None?
    ensures r.Some? ==> i <= r.value.tree < |s| && s[r.value.tree] == Some(r.value.path)
    ensures r.Some? ==> forall j :: i <= j < r.value.tree ==> s[j].None?
    decreases |s| - i
  {
    if i >= |s| then None
    else
      match s[i]
      case Some(p) => Some(Location(i, p))
      case None => FirstSome(s, i + 1)
  }

  /** What each tree's breadth-first search for k returns, tree by tree. */
  function TreeSearches(f: seq<Tree>, k: Key): (r: seq<Option<Path>>)
    ensures |r| == |f| && forall j :: 0 <= j < |f| ==> r[j] == BfsFind(f[j].root, k)
  {
    seq(|f|, j requires 0 <= j < |f| => BfsFind(f[j].root, k))
  }

  /** What the heap's `find_node` returns: the first tree, in heap order,
      whose breadth-first search finds key k, and the path it finds. */
  function FindInHeap(f: seq<Tree>, k: Key): (r: Option<Location>) {
    FirstSome(TreeSearches(f, k), 0)
  }

  /** In key terms: nothing is found exactly when no tree holds k; what is
      found is a node holding k in the first tree that holds k. */
  lemma {:induction false} FindInHeapCorrect(f: seq<Tree>, k: Key)
    ensures FindInHeap(f, k).None? <==> k !in TreesKeys(f)
    ensures FindInHeap(f, k).Some? ==>
              var loc := FindInHeap(f, k).value;
              && loc.tree < |f|
              && BfsFind(f[loc.tree].root, k) == Some(loc.path)
              && ValidPath(f[loc.tree].root, loc.path)
              && KeyAt(f[loc.tree].root, loc.path) == k
              && forall j :: 0 <= j < loc.tree ==> k !in KeysOf(f[j].root)
  {
    var s := TreeSearches(f, k);
    TreesKeysHas(f, k);
    forall j | 0 <= j < |f| ensures s[j].None? <==> k !in KeysOf(f[j].root) {
      BfsFindCorrect(f[j].root, k);
    }
    if FindInHeap(f, k).Some? {
      BfsFindCorrect(f[FindInHeap(f, k).value.tree].root, k);
    }
  }

  class BinomialHeap {
    var heap: seq<Tree>

    constructor (heap: seq<Tree> := [])
      ensures this.heap == heap
    {
      this.heap := heap;
    }

    /** The keys of all nodes of the heap. */
    ghost function Keys(): (r: multiset<Key>)
      reads this
    {
      TreesKeys(heap)
    }

    /** Every tree is a heap-ordered binomial tree and the list is sorted by degree. */
    ghost predicate Valid()
      reads this
    {
      AllWellFormed(heap) && SortedByDegree(heap)
    }

    /** `is_empty`: no trees, which is the same as no keys. */
    function IsEmpty(): (b: bool)
      reads this
      ensures b <==> Keys() == multiset{}
    {
      EmptyForestKeys(heap);
      |heap| == 0
    }

    /** `union`: a new heap built from both heaps' trees. */
    method Union(other: BinomialHeap) returns (r: BinomialHeap)
      ensures fresh(r)
      ensures r.heap == UnionSpec(heap, other.heap)
      ensures SortedByDegree(r.heap)
      ensures r.Keys() == Keys() + other.Keys()
      ensures Valid() && other.Valid() ==> r.Valid()
    {
      var merged := Forests.Union(heap, other.heap);
      r := new BinomialHeap(merged);
    }

    /** `insert`: union with a one-tree heap holding a leaf with key k. */
    method Insert(k: Key)
      modifies this
      ensures heap == UnionSpec(old(heap), [Tree(0, Node(k, []))])
      ensures Keys() == old(Keys()) + multiset{k}
      ensures old(Valid()) ==> Valid()
      ensures StrictlyAscending(old(heap)) ==> StrictlyAscending(heap)
    {
      var leaf := Tree(0, Node(k, []));
      var newHeap := new BinomialHeap([leaf]);
      assert newHeap.Valid();
      TreesKeysOne(leaf);
      var u := Union(newHeap);
      heap := u.heap;
      if StrictlyAscending(old(heap)) {
        InsertKeepsDegreesDistinct(old(heap), leaf);
      }
    }

    /** `find_node`: the trees in order, each searched breadth-first; the
        first node whose key is k. */
    method FindNode(k: Key) returns (r: Option<Location>)
      ensures r == FindInHeap(heap, k)
      ensures r.None? <==> k !in Keys()
      ensures r.Some? ==> r.value.tree < |heap|
                          && ValidPath(heap[r.value.tree].root, r.value.path)
                          && KeyAt(heap[r.value.tree].root, r.value.path) == k
    {
      FindInHeapCorrect(heap, k);
      for i := 0 to |heap|
        invariant FirstSome(TreeSearches(heap, k), i) == FindInHeap(heap, k)
      {
        var found := BinomialTrees.FindNode(heap[i], k);
        if found.Some? {
          return Some(Location(i, found.value));
        }
      }
      return None;
    }

    /** `min_tree`: the index of the first tree whose root key is minimal. */
    method MinTree() returns (m: Option<nat>)
      ensures m == MinRootIndex(heap)
    {
      m := None;
      for j := 0 to |heap|
        invariant m == MinRootIndex(heap[..j])
      {
        assert heap[..j + 1][..j] == heap[..j];
        if m.None? || Less(heap[j].root.key, heap[m.value].root.key) {
          m := Some(j);
        }
      }
      assert heap[..|heap|] == heap;
    }

    /** `extract_min`: remove the tree with the minimal root, and union the
        trees of its root's children back into the heap. */
    method ExtractMin() returns (r: Option<Node>)
      modifies this
      ensures old(heap) == [] ==> r.None? && heap == old(heap)
      ensures old(heap) != [] ==>
                var m := MinRootIndex(old(heap)).value;
                && r == Some(old(heap)[m].root)
                && heap == UnionSpec(old(heap)[..m] + old(heap)[m + 1..], ChildTrees(old(heap)[m].root))
      ensures r.None? <==> old(Keys()) == multiset{}
      ensures r.Some? ==> Keys() + multiset{r.value.key} == old(Keys())
      ensures r.Some? && old(Valid()) ==> forall x :: x in old(Keys()) ==> LessEq(r.value.key, x)
      ensures old(Valid()) ==> Valid()
    {
      EmptyForestKeys(heap);
      var m := MinTree();
      if m.None? {
        return None;
      }
      var mTree := heap[m.value];
      ghost var before := heap;
      heap := heap[..m.value] + heap[m.value + 1..];
      var mNode, newForest := ExtractMinTree(mTree);
      var newHeap := new BinomialHeap(newForest);
      var u := Union(newHeap);
      heap := u.heap;
      r := Some(mNode);
      ExtractMinFacts(before, m.value, newForest);
    }

    /** `decrease_key`: find the node with key k, check that the new key is
        smaller, write it and bubble it up. */
    method DecreaseKey(k: Key, newKey: Key) returns (outcome: DecreaseOutcome)
      modifies this
      ensures outcome == NotFound <==> k !in old(Keys())
      ensures outcome == AssertionError <==> k in old(Keys()) && !Less(newKey, k)
      ensures outcome != Decreased ==> heap == old(heap)
      ensures outcome == Decreased ==> Keys() + multiset{k} == old(Keys()) + multiset{newKey}
      ensures |heap| == |old(heap)|
      ensures forall i :: 0 <= i < |heap| ==>
                heap[i].degree == old(heap)[i].degree && ShapeOf(heap[i].root) == ShapeOf(old(heap)[i].root)
      ensures outcome == Decreased ==>
                && FindInHeap(old(heap), k).Some?
                && forall i :: 0 <= i < |heap| && i != FindInHeap(old(heap), k).value.tree ==>
                     heap[i] == old(heap)[i]
      ensures outcome == Decreased ==>
                && FindInHeap(old(heap), k).Some?
                && var loc := FindInHeap(old(heap), k).value;
                && loc.tree < |old(heap)| == |heap|
                && forall q :: ValidPath(old(heap)[loc.tree].root, q) && !IsPrefix(q, loc.path) ==>
                     KeyAt(heap[loc.tree].root, q) == KeyAt(old(heap)[loc.tree].root, q)
      ensures old(Valid()) ==> Valid()
    {
      var loc := FindNode(k);
      if loc.None? {
        return NotFound;
      }
      var i, p := loc.value.tree, loc.value.path;
      if !Less(newKey, KeyAt(heap[i].root, p)) {
        return AssertionError;
      }
      DecreaseAt(i, p, newKey);
      return Decreased;
    }

    /** The found branch of `decrease_key`: write the new key into the node at
        path p of tree i and let it bubble up. Only tree i changes, its shape
        stays, one copy of the old key becomes newKey, and validity is kept. */
    method DecreaseAt(i: nat, p: Path, newKey: Key)
      modifies this
      requires i < |heap| && ValidPath(heap[i].root, p)
      requires Less(newKey, KeyAt(heap[i].root, p))
      ensures |heap| == |old(heap)|
      ensures forall j :: 0 <= j < |heap| && j != i ==> heap[j] == old(heap)[j]
      ensures heap[i].degree == old(heap)[i].degree
      ensures ShapeOf(heap[i].root) == ShapeOf(old(heap)[i].root)
      ensures Keys() + multiset{KeyAt(old(heap)[i].root, p)} == old(Keys()) + multiset{newKey}
      ensures forall q :: ValidPath(old(heap)[i].root, q) && !IsPrefix(q, p) ==>
                KeyAt(heap[i].root, q) == KeyAt(old(heap)[i].root, q)
      ensures old(Valid()) ==> Valid()
    {
      var t := heap[i];
      var n := SetKey(t.root, p, newKey);
      SetKeyShape(t.root, p, newKey);
      ShapeValidPath(n, t.root, p);
      n := BubbleUp(n, p);
      DecreaseInForest(heap, i, p, newKey, n);
      heap := heap[i := Tree(t.degree, n)];
    }

    /** `delete`: decrease the key k to `-inf`, then extract the minimum. */
    method Delete(k: Key) returns (outcome: DecreaseOutcome, r: Option<Node>)
      modifies this
      ensures outcome == NotFound <==> k !in old(Keys())
      ensures outcome == AssertionError <==> k == NegInf && NegInf in old(Keys())
      ensures outcome == AssertionError ==> r.None? && heap == old(heap)
      ensures outcome == NotFound ==> (r.None? <==> old(Keys()) == multiset{})
      ensures outcome == NotFound && r.Some? ==> Keys() + multiset{r.value.key} == old(Keys())
      ensures outcome == NotFound && r.Some? && old(Valid()) ==>
                forall x :: x in old(Keys()) ==> LessEq(r.value.key, x)
      ensures outcome == Decreased && old(Valid()) ==>
                && r.Some? && r.value.key == NegInf
                && Keys() + multiset{k} == old(Keys())
                && |Keys()| == |old(Keys())| - 1
      ensures old(Valid()) ==> Valid()
    {
      outcome := DecreaseKey(k, NegInf);
      if outcome == AssertionError {
        return outcome, None;
      }
      ghost var middle := Keys();
      r := ExtractMin();
      if outcome == Decreased && old(Valid()) {
        DeleteKeys(old(Keys()), middle, Keys(), k, r.value.key);
      }
    }
  }

  /** Removing one tree keeps the others well-formed and sorted, and removes
      exactly that tree's keys. */
  lemma {:induction false} RemoveTreeFacts(f: seq<Tree>, m: nat)
    requires m < |f|
    ensures TreesKeys(f[..m] + f[m + 1..]) + KeysOf(f[m].root) == TreesKeys(f)
    ensures AllWellFormed(f) ==> AllWellFormed(f[..m] + f[m + 1..])
    ensures SortedByDegree(f) ==> SortedByDegree(f[..m] + f[m + 1..])
  {
    TreesKeysRemove(f, m);
    var g := f[..m] + f[m + 1..];
    assert forall j :: 0 <= j < |g| ==> g[j] == f[if j < m then j else j + 1];
  }

  /** The bookkeeping of `extract_min`: removing the minimal tree and
      unioning its children back removes exactly the minimal root's key,
      which is the smallest key under heap order, and keeps the heap valid. */
  lemma {:induction false} ExtractMinFacts(f: seq<Tree>, m: nat, forest: seq<Tree>)
    requires f != [] && m == MinRootIndex(f).value
    requires TreesKeys(forest) + multiset{f[m].root.key} == KeysOf(f[m].root)
    requires WellFormed(f[m]) ==> AllWellFormed(forest)
    ensures TreesKeys(UnionSpec(f[..m] + f[m + 1..], forest)) + multiset{f[m].root.key} == TreesKeys(f)
    ensures AllWellFormed(f) ==> AllWellFormed(UnionSpec(f[..m] + f[m + 1..], forest))
    ensures SortedByDegree(UnionSpec(f[..m] + f[m + 1..], forest))
    ensures AllWellFormed(f) ==> forall x :: x in TreesKeys(f) ==> LessEq(f[m].root.key, x)
  {
    var rest := f[..m] + f[m + 1..];
    RemoveTreeFacts(f, m);
    UnionSpecFacts(rest, forest);
    if AllWellFormed(f) {
      MinRootIsMinKey(f);
    }
  }

  /** A decrease at p followed by a bubble-up keeps the tree's shape, trades
      the old key at p for the new one, and restores heap order. */
  lemma {:induction false} DecreasedTree(t: Tree, p: Path, newKey: Key, n: Node)
    requires ValidPath(t.root, p) && Less(newKey, KeyAt(t.root, p))
    requires ShapeOf(n) == ShapeOf(SetKey(t.root, p, newKey))
    requires KeysOf(n) == KeysOf(SetKey(t.root, p, newKey))
    requires OrderedExcept(SetKey(t.root, p, newKey), p) ==> HeapOrdered(n)
    requires forall q :: ValidPath(SetKey(t.root, p, newKey), q) && !IsPrefix(q, p) ==>
               KeyAt(n, q) == KeyAt(SetKey(t.root, p, newKey), q)
    ensures ShapeOf(n) == ShapeOf(t.root)
    ensures KeysOf(n) + multiset{KeyAt(t.root, p)} == KeysOf(t.root) + multiset{newKey}
    ensures WellFormed(t) ==> WellFormed(Tree(t.degree, n))
    ensures forall q :: ValidPath(t.root, q) && !IsPrefix(q, p) ==> KeyAt(n, q) == KeyAt(t.root, q)
  {
    forall q | ValidPath(t.root, q) && !IsPrefix(q, p) ensures KeyAt(n, q) == KeyAt(t.root, q) {
      SetKeyShape(t.root, p, newKey);
      ShapeValidPath(SetKey(t.root, p, newKey), t.root, q);
      assert IsPrefix(p, p);
      SetKeyAt(t.root, p, newKey, q);
    }
    SetKeyShape(t.root, p, newKey);
    KeysOfSetKey(t.root, p, newKey);
    ShapeBinomial(n, t.root, t.degree);
    if HeapOrdered(t.root) {
      DecreaseBreaksOnlyAt(t.root, p, newKey);
    }
  }

  /** `decrease_key` in the heap: the tree at i gets the decreased and
      bubbled-up root n; the key at p is traded for the new key, every tree
      keeps its degree and shape, the other trees stay, and validity is kept. */
  lemma {:induction false} DecreaseInForest(f: seq<Tree>, i: nat, p: Path, newKey: Key, n: Node)
    requires i < |f| && ValidPath(f[i].root, p) && Less(newKey, KeyAt(f[i].root, p))
    requires ShapeOf(n) == ShapeOf(SetKey(f[i].root, p, newKey))
    requires KeysOf(n) == KeysOf(SetKey(f[i].root, p, newKey))
    requires OrderedExcept(SetKey(f[i].root, p, newKey), p) ==> HeapOrdered(n)
    requires forall q :: ValidPath(SetKey(f[i].root, p, newKey), q) && !IsPrefix(q, p) ==>
               KeyAt(n, q) == KeyAt(SetKey(f[i].root, p, newKey), q)
    ensures forall q :: ValidPath(f[i].root, q) && !IsPrefix(q, p) ==> KeyAt(n, q) == KeyAt(f[i].root, q)
    ensures TreesKeys(f[i := Tree(f[i].degree, n)]) + multiset{KeyAt(f[i].root, p)}
         == TreesKeys(f) + multiset{newKey}
    ensures forall j :: 0 <= j < |f| ==>
              f[i := Tree(f[i].degree, n)][j].degree == f[j].degree
              && ShapeOf(f[i := Tree(f[i].degree, n)][j].root) == ShapeOf(f[j].root)
    ensures AllWellFormed(f) ==> AllWellFormed(f[i := Tree(f[i].degree, n)])
    ensures SortedByDegree(f) ==> SortedByDegree(f[i := Tree(f[i].degree, n)])
  {
    var t := f[i];
    var g := f[i := Tree(t.degree, n)];
    DecreasedTree(t, p, newKey, n);
    TreesKeysUpdate(f, i, Tree(t.degree, n));
    ExchangeOne(TreesKeys(g), TreesKeys(f), KeysOf(t.root), KeysOf(n), KeyAt(t.root, p), newKey);
  }

  /** The key bookkeeping of `delete` on a present key: `-inf` replaces k,
      then the minimum, necessarily `-inf`, is extracted. */
  lemma {:induction false} DeleteKeys(before: multiset<Key>, middle: multiset<Key>,
                                      after: multiset<Key>, k: Key, extracted: Key)
    requires k != NegInf
    requires middle + multiset{k} == before + multiset{NegInf}
    requires after + multiset{extracted} == middle
    requires forall x :: x in middle ==> LessEq(extracted, x)
    ensures extracted == NegInf
    ensures after + multiset{k} == before
    ensures |after| == |before| - 1
  {
    assert NegInf in middle + multiset{k};
    assert NegInf in middle;
    assert after + multiset{NegInf} + multiset{k} == before + multiset{NegInf};
    assert after + multiset{k} == before by {
      forall x ensures (after + multiset{k})[x] == before[x] {
        assert (after + multiset{NegInf} + multiset{k})[x] == (before + multiset{NegInf})[x];
      }
    }
  }
}
