/** A binomial tree (the source's BinomialTree): a root node plus the degree
    the heap files it under. The binomial link `merge` and the breadth-first
    `find_node` live here; `extract_min` needs the heap's union and lives in
    module Forests. */
module BinomialTrees {
  import opened Keys
  import opened BinomialNodes

  datatype Option<T> = None | Some(value: T)

  datatype Tree = Tree(degree: nat, root: Node)

  /** A tree that the heap may hold: binomial of its recorded degree and heap-ordered. */
  ghost predicate WellFormed(t: Tree) {
    IsBinomial(t.root, t.degree) && HeapOrdered(t.root)
  }

  /** A well-formed tree of degree d holds 2^d keys, and its root key is the smallest. */
  lemma {:induction false} WellFormedTree(t: Tree)
    requires WellFormed(t)
    ensures |KeysOf(t.root)| == Pow2(t.degree)
    ensures |t.root.children| == t.degree
    ensures forall x :: x in KeysOf(t.root) ==> LessEq(t.root.key, x)
  {
    BinomialSize(t.root, t.degree);
    HeapOrderedRootIsMin(t.root);
  }

  // ---------------------------------------------------------------------------
  // merge: the binomial link

  /** `merge`: the root with the smaller key (s's on ties) keeps its place and
      the other root becomes its last child; s's degree goes up by one. */
  function Merge(s: Tree, o: Tree): (r: Tree)
    ensures r.degree == s.degree + 1
    ensures LessEq(r.root.key, s.root.key) && LessEq(r.root.key, o.root.key)
    ensures LessEq(s.root.key, o.root.key) ==>
              r.root.key == s.root.key && r.root.children == s.root.children + [o.root]
    ensures Less(o.root.key, s.root.key) ==>
              r.root.key == o.root.key && r.root.children == o.root.children + [s.root]
    ensures KeysOf(r.root) == KeysOf(s.root) + KeysOf(o.root)
    ensures s.degree == o.degree && WellFormed(s) && WellFormed(o) ==> WellFormed(r)
  {
    if LessEq(s.root.key, o.root.key) then
      LinkWellFormed(s.root, o.root, s.degree);
      Tree(s.degree + 1, AddChild(s.root, o.root))
    else
      LinkWellFormed(o.root, s.root, s.degree);
      Tree(s.degree + 1, AddChild(o.root, s.root))
  }

  /** Linking two heap-ordered binomial trees of degree d under the smaller
      root gives a heap-ordered binomial tree of degree d + 1. */
  lemma {:induction false} LinkWellFormed(top: Node, below: Node, d: nat)
    ensures IsBinomial(top, d) && IsBinomial(below, d) && HeapOrdered(top) && HeapOrdered(below)
            && LessEq(top.key, below.key) ==>
              IsBinomial(AddChild(top, below), d + 1) && HeapOrdered(AddChild(top, below))
  {
    if IsBinomial(top, d) && IsBinomial(below, d) && HeapOrdered(top) && HeapOrdered(below)
       && LessEq(top.key, below.key) {
      var r := AddChild(top, below);
      var ch := r.children;
      assert ch == top.children + [below];
      forall i | 0 <= i < |ch|
        ensures IsBinomial(ch[i], i)
        ensures LessEq(r.key, ch[i].key) && HeapOrdered(ch[i])
      {
        if i < d {
          assert ch[i] == top.children[i];
        }
      }
    }
  }

  // ---------------------------------------------------------------------------
  // find_node: breadth-first search

  /** A queue entry: a node together with its path from the root searched. */
  datatype Entry = Entry(node: Node, path: Path)

  ghost predicate EntryAt(root: Node, e: Entry) {
    ValidPath(root, e.path) && Subtree(root, e.path) == e.node
  }

  /** The entries for the children of e, in order. */
  function ChildEntries(e: Entry): (r: seq<Entry>)
    ensures |r| == |e.node.children|
    ensures forall j :: 0 <= j < |r| ==> r[j] == Entry(e.node.children[j], e.path + [j])
  {
    seq(|e.node.children|, j requires 0 <= j < |e.node.children| =>
      Entry(e.node.children[j], e.path + [j]))
  }

  function NodesOf(q: seq<Entry>): (r: seq<Node>)
    ensures |r| == |q| && forall j :: 0 <= j < |q| ==> r[j] == q[j].node
  {
    seq(|q|, j requires 0 <= j < |q| => q[j].node)
  }

  /** The keys of all subtrees still waiting in a queue. */
  function EntriesKeys(q: seq<Entry>): (r: multiset<Key>) {
    ForestKeys(NodesOf(q))
  }

  /** One BFS step removes exactly the front node's own key from the waiting keys. */
  lemma {:induction false} BfsStepKeys(q: seq<Entry>)
    requires q != []
    ensures EntriesKeys(q[1..] + ChildEntries(q[0])) + multiset{q[0].node.key} == EntriesKeys(q)
  {
    var ns := NodesOf(q);
    assert NodesOf(q[1..] + ChildEntries(q[0])) == ns[1..] + q[0].node.children;
    ForestKeysConcat(ns[1..], q[0].node.children);
    ForestKeysFront(ns);
  }

  /** The order in which `find_node` visits entries: the front of the queue,
      then the rest of the queue with the front's children appended. */
  function BfsOrder(q: seq<Entry>): (r: seq<Entry>)
    decreases |EntriesKeys(q)|
  {
    if q == [] then []
    else
      BfsStepKeys(q);
      [q[0]] + BfsOrder(q[1..] + ChildEntries(q[0]))
  }

  /** The index of the first entry of s whose node key equals k (node
      equality in the source is key equality). */
  function FirstMatch(s: seq<Entry>, k: Key): (r: Option<nat>)
    ensures r.None? <==> forall j :: 0 <= j < |s| ==> s[j].node.key != k
    ensures r.Some? ==> r.value < |s| && s[r.value].node.key == k
    ensures r.Some? ==> forall j :: 0 <= j < r.value ==> s[j].node.key != k
  {
    if s == [] then None
    else if s[0].node.key == k then Some(0)
    else match FirstMatch(s[1..], k)
      case None => None
      case Some(j) => Some(j + 1)
  }

  function FindIn(s: seq<Entry>, k: Key): (r: Option<Path>) {
    match FirstMatch(s, k)
    case None => None
    case Some(j) => Some(s[j].path)
  }

  /** What `find_node` returns: the path of the first node, in breadth-first
      order from the root, whose key equals k. */
  function BfsFind(root: Node, k: Key): (r: Option<Path>) {
    FindIn(BfsOrder([Entry(root, [])]), k)
  }

  function OrderKeys(s: seq<Entry>): (r: multiset<Key>) {
    multiset(seq(|s|, j requires 0 <= j < |s| => s[j].node.key))
  }

  /** The keys visited in breadth-first order are exactly the keys of the
      waiting subtrees, as multisets. */
  lemma {:induction false} BfsOrderKeys(q: seq<Entry>)
    ensures OrderKeys(BfsOrder(q)) == EntriesKeys(q)
    decreases |EntriesKeys(q)|
  {
    if q != [] {
      var q' := q[1..] + ChildEntries(q[0]);
      BfsStepKeys(q);
      BfsOrderKeys(q');
      var s, s' := BfsOrder(q), BfsOrder(q');
      assert s == [q[0]] + s';
      var ks := seq(|s|, j requires 0 <= j < |s| => s[j].node.key);
      var ks' := seq(|s'|, j requires 0 <= j < |s'| => s'[j].node.key);
      assert ks == [q[0].node.key] + ks';
      assert multiset(ks) == multiset{q[0].node.key} + multiset(ks');
    }
  }

  /** Every visited entry carries the path of its node in the tree searched. */
  lemma {:induction false} BfsEntriesAt(root: Node, q: seq<Entry>)
    requires forall j :: 0 <= j < |q| ==> EntryAt(root, q[j])
    ensures forall j :: 0 <= j < |BfsOrder(q)| ==> EntryAt(root, BfsOrder(q)[j])
    decreases |EntriesKeys(q)|
  {
    if q != [] {
      var e := q[0];
      var q' := q[1..] + ChildEntries(e);
      forall j | 0 <= j < |ChildEntries(e)|
        ensures EntryAt(root, ChildEntries(e)[j])
      {
        SubtreeSnoc(root, e.path, j);
      }
      assert forall j :: 0 <= j < |q'| ==> EntryAt(root, q'[j]) by {
        forall j | 0 <= j < |q'| ensures EntryAt(root, q'[j]) {
          if j < |q| - 1 {
            assert q'[j] == q[j + 1];
          } else {
            assert q'[j] == ChildEntries(e)[j - (|q| - 1)];
          }
        }
      }
      BfsStepKeys(q);
      BfsEntriesAt(root, q');
      assert BfsOrder(q) == [e] + BfsOrder(q');
    }
  }

  /** The search of a visiting order finds nothing exactly when k is not among its keys. */
  lemma {:induction false} FirstMatchKeys(s: seq<Entry>, k: Key)
    ensures FirstMatch(s, k).None? <==> k !in OrderKeys(s)
  {
    var ks := seq(|s|, j requires 0 <= j < |s| => s[j].node.key);
    assert k in OrderKeys(s) <==> k in ks;
    if FirstMatch(s, k).Some? {
      assert ks[FirstMatch(s, k).value] == k;
    }
  }

  /** `find_node` finds nothing exactly when no node of the tree has key k;
      what it finds is a node of the tree holding key k. */
  lemma {:induction false} BfsFindCorrect(root: Node, k: Key)
    ensures BfsFind(root, k).None? <==> k !in KeysOf(root)
    ensures BfsFind(root, k).Some? ==>
              ValidPath(root, BfsFind(root, k).value) && KeyAt(root, BfsFind(root, k).value) == k
  {
    var q := [Entry(root, [])];
    var s := BfsOrder(q);
    BfsOrderKeys(q);
    assert NodesOf(q) == [root];
    assert ForestKeys([root]) == KeysOf(root) by { assert [root][..0] == []; }
    FirstMatchKeys(s, k);
    BfsEntriesAt(root, q);
  }

  /** One step of the search: if the front entry matches, it is the answer;
      otherwise the search continues on the rest of the queue followed by the
      front's children, which hold fewer keys. */
  lemma {:induction false} FindInStep(q: seq<Entry>, k: Key)
    requires q != []
    ensures q[0].node.key == k ==> FindIn(BfsOrder(q), k) == Some(q[0].path)
    ensures q[0].node.key != k ==>
              FindIn(BfsOrder(q), k) == FindIn(BfsOrder(q[1..] + ChildEntries(q[0])), k)
    ensures |EntriesKeys(q[1..] + ChildEntries(q[0]))| < |EntriesKeys(q)|
  {
    BfsStepKeys(q);
    var rest := BfsOrder(q[1..] + ChildEntries(q[0]));
    assert BfsOrder(q) == [q[0]] + rest;
    FindInCons(q[0], rest, k);
  }

  lemma {:induction false} FindInCons(e: Entry, rest: seq<Entry>, k: Key)
    ensures FindIn([e] + rest, k) == if e.node.key == k then Some(e.path) else FindIn(rest, k)
  {
    assert ([e] + rest)[1..] == rest;
  }

  /** The inner loop of `find_node`: append the children of e, in order. */
  method EnqueueChildren(queue: seq<Entry>, e: Entry) returns (q: seq<Entry>)
    ensures q == queue + ChildEntries(e)
  {
    q := queue;
    var children := e.node.children;
    for j := 0 to |children|
      invariant q == queue + ChildEntries(e)[..j]
    {
      q := q + [Entry(children[j], e.path + [j])];
      assert ChildEntries(e)[..j + 1] == ChildEntries(e)[..j] + [ChildEntries(e)[j]];
    }
    assert ChildEntries(e)[..|children|] == ChildEntries(e);
  }

  /** BinomialTree.find_node: the breadth-first search with a queue of nodes. */
  method FindNode(t: Tree, k: Key) returns (r: Option<Path>)
    ensures r == BfsFind(t.root, k)
    ensures r.None? <==> k !in KeysOf(t.root)
    ensures r.Some? ==> ValidPath(t.root, r.value) && KeyAt(t.root, r.value) == k
  {
    var found: Option<Path> := None;
    var queue := [Entry(t.root, [])];
    var queueLen := 1;
    while queueLen > 0
      invariant queueLen == |queue|
      invariant found.None?
      invariant FindIn(BfsOrder(queue), k) == BfsFind(t.root, k)
      decreases |EntriesKeys(queue)|
    {
      FindInStep(queue, k);
      var e := queue[0];
      if e.node.key == k {
        found := Some(e.path);
        break;
      }
      queue := EnqueueChildren(queue[1..], e);
      queueLen := |queue|;
    }
    r := found;
    BfsFindCorrect(t.root, k);
  }
}
