/** A node of a binomial tree (the source's BinomialNode): a key and the
    ordered list of children, as a value. The parent back-link of the source
    is replaced by a Path, the child indices that lead from a tree's root to
    the node; "the parent of the node at p" is the node at Parent(p). */
module BinomialNodes {
  import opened Keys

  datatype Node = Node(key: Key, children: seq<Node>)

  /** A position inside a tree: the child indices taken from the root down. */
  type Path = seq<nat>

  /** The shape of a tree, with the keys forgotten. */
  datatype Shape = Shape(children: seq<Shape>)

  // ---------------------------------------------------------------------------
  // The keys a subtree holds

  /** The multiset of keys stored in the subtree rooted at n. */
  function KeysOf(n: Node): (r: multiset<Key>)
    decreases n
  {
    multiset{n.key} + ForestKeys(n.children)
  }

  /** The multiset of keys stored in a list of subtrees. */
  function ForestKeys(s: seq<Node>): (r: multiset<Key>)
    decreases s
  {
    if s == [] then multiset{} else ForestKeys(s[..|s| - 1]) + KeysOf(s[|s| - 1])
  }

  lemma {:induction false} ForestKeysConcat(a: seq<Node>, b: seq<Node>)
    ensures ForestKeys(a + b) == ForestKeys(a) + ForestKeys(b)
    decreases |b|
  {
    if b == [] {
      assert a + b == a;
    } else {
      assert (a + b)[..|a + b| - 1] == a + b[..|b| - 1];
      ForestKeysConcat(a, b[..|b| - 1]);
    }
  }

  /** The keys of a list of subtrees, split around the j-th one. */
  lemma {:induction false} ForestKeysSplit(s: seq<Node>, j: nat)
    requires j < |s|
    ensures ForestKeys(s) == ForestKeys(s[..j]) + KeysOf(s[j]) + ForestKeys(s[j + 1..])
  {
    assert s == (s[..j] + [s[j]]) + s[j + 1..];
    ForestKeysConcat(s[..j] + [s[j]], s[j + 1..]);
    assert (s[..j] + [s[j]])[..j] == s[..j];
  }

  /** Replacing one subtree of a list changes its keys by exactly that subtree's keys. */
  lemma {:induction false} ForestKeysUpdate(s: seq<Node>, j: nat, x: Node)
    requires j < |s|
    ensures ForestKeys(s[j := x]) + KeysOf(s[j]) == ForestKeys(s) + KeysOf(x)
  {
    ForestKeysSplit(s, j);
    ForestKeysSplit(s[j := x], j);
    assert s[j := x][..j] == s[..j];
    assert s[j := x][j + 1..] == s[j + 1..];
  }

  /** The keys of a list of subtrees, one subtree at a time from the front. */
  lemma {:induction false} ForestKeysFront(s: seq<Node>)
    requires s != []
    ensures ForestKeys(s) == KeysOf(s[0]) + ForestKeys(s[1..])
  {
    assert s == [s[0]] + s[1..];
    ForestKeysConcat([s[0]], s[1..]);
    assert ForestKeys([s[0]]) == KeysOf(s[0]) by { assert [s[0]][..0] == []; }
  }

  /** `is_leaf`: a node without children, i.e. one whose subtree holds its own key only. */
  function IsLeaf(n: Node): (b: bool)
    ensures b <==> |KeysOf(n)| == 1
  {
    if |n.children| == 0 then
      true
    else
      var s := n.children;
      assert |ForestKeys(s)| >= |KeysOf(s[|s| - 1])| >= 1;
      false
  }

  /** `add_child`: child becomes the last child of parent (and parent becomes
      the child's parent: the child now sits at path [old child count]). */
  function AddChild(parent: Node, child: Node): (r: Node)
    ensures r.key == parent.key
    ensures |r.children| == |parent.children| + 1
    ensures r.children[..|parent.children|] == parent.children
    ensures Subtree(r, [|parent.children|]) == child
    ensures KeysOf(r) == KeysOf(parent) + KeysOf(child)
  {
    var r := Node(parent.key, parent.children + [child]);
    assert r.children[..|r.children| - 1] == parent.children;
    assert [|parent.children|][1..] == [];
    r
  }

  // ---------------------------------------------------------------------------
  // Binomial shape and heap order

  /** The binomial-tree property: the root has exactly d children and the
      i-th child is itself a binomial tree of degree i. */
  ghost predicate IsBinomial(n: Node, d: nat)
    decreases n
  {
    && |n.children| == d
    && forall i :: 0 <= i < d ==> IsBinomial(n.children[i], i)
  }

  /** Min-heap order: every node's key is <= the keys of its children. */
  ghost predicate HeapOrdered(n: Node)
    decreases n
  {
    forall i :: 0 <= i < |n.children| ==>
      LessEq(n.key, n.children[i].key) && HeapOrdered(n.children[i])
  }

  function Pow2(d: nat): (r: nat) {
    if d == 0 then 1 else 2 * Pow2(d - 1)
  }

  /** A binomial tree of degree d holds exactly 2^d keys. */
  lemma {:induction false} BinomialSize(n: Node, d: nat)
    requires IsBinomial(n, d)
    ensures |KeysOf(n)| == Pow2(d)
    decreases n, d + 1
  {
    BinomialChildrenSize(n, d, d);
    assert n.children[..d] == n.children;
  }

  lemma {:induction false} BinomialChildrenSize(n: Node, d: nat, k: nat)
    requires IsBinomial(n, d) && k <= d
    ensures |ForestKeys(n.children[..k])| == Pow2(k) - 1
    decreases n, k
  {
    if k > 0 {
      var s := n.children[..k];
      assert s[..|s| - 1] == n.children[..k - 1];
      BinomialChildrenSize(n, d, k - 1);
      BinomialSize(n.children[k - 1], k - 1);
    }
  }

  /** Under heap order, the root holds a smallest key of its subtree. */
  lemma {:induction false} HeapOrderedRootIsMin(n: Node)
    requires HeapOrdered(n)
    ensures forall x :: x in KeysOf(n) ==> LessEq(n.key, x)
    decreases n
  {
    ForestAbove(n.children, n.key);
  }

  lemma {:induction false} ForestAbove(s: seq<Node>, bound: Key)
    requires forall i :: 0 <= i < |s| ==> LessEq(bound, s[i].key) && HeapOrdered(s[i])
    ensures forall x :: x in ForestKeys(s) ==> LessEq(bound, x)
    decreases s
  {
    if s != [] {
      ForestAbove(s[..|s| - 1], bound);
      HeapOrderedRootIsMin(s[|s| - 1]);
    }
  }

  // ---------------------------------------------------------------------------
  // Paths, subtrees and keys at a path

  ghost predicate ValidPath(n: Node, p: Path)
    decreases p
  {
    p == [] || (p[0] < |n.children| && ValidPath(n.children[p[0]], p[1..]))
  }

  /** The subtree at path p (n itself where p leaves the tree). */
  function Subtree(n: Node, p: Path): (r: Node)
    decreases p
  {
    if p == [] || p[0] >= |n.children| then n else Subtree(n.children[p[0]], p[1..])
  }

  function KeyAt(n: Node, p: Path): (r: Key) {
    Subtree(n, p).key
  }

  /** The path of the parent of the node at p. */
  function Parent(p: Path): (r: Path)
    requires p != []
  {
    p[..|p| - 1]
  }

  ghost predicate IsPrefix(q: Path, p: Path) {
    |q| <= |p| && q == p[..|q|]
  }

  /** n with the key at path p overwritten by k (the source's `node.key = k`). */
  function SetKey(n: Node, p: Path, k: Key): (r: Node)
    decreases p
  {
    if p == [] then Node(k, n.children)
    else if p[0] >= |n.children| then n
    else Node(n.key, n.children[p[0] := SetKey(n.children[p[0]], p[1..], k)])
  }

  function ShapeOf(n: Node): (r: Shape)
    decreases n
  {
    Shape(seq(|n.children|, i requires 0 <= i < |n.children| => ShapeOf(n.children[i])))
  }

  /** Walking one step further down a path. */
  lemma {:induction false} SubtreeSnoc(n: Node, q: Path, i: nat)
    ensures ValidPath(n, q + [i]) <==> ValidPath(n, q) && i < |Subtree(n, q).children|
    ensures ValidPath(n, q + [i]) ==> Subtree(n, q + [i]) == Subtree(n, q).children[i]
    decreases q
  {
    if q == [] {
      assert [] + [i] == [i];
      assert [i][1..] == [];
    } else {
      assert (q + [i])[0] == q[0];
      assert (q + [i])[1..] == q[1..] + [i];
      if q[0] < |n.children| {
        SubtreeSnoc(n.children[q[0]], q[1..], i);
      }
    }
  }

  /** The parent of a node inside the tree is inside the tree, and the node is one of its children. */
  lemma {:induction false} ParentOfValid(n: Node, c: Path)
    requires ValidPath(n, c) && c != []
    ensures ValidPath(n, Parent(c))
    ensures c[|c| - 1] < |Subtree(n, Parent(c)).children|
    ensures Subtree(n, c) == Subtree(n, Parent(c)).children[c[|c| - 1]]
  {
    assert c == Parent(c) + [c[|c| - 1]];
    SubtreeSnoc(n, Parent(c), c[|c| - 1]);
  }

  /** Paths that start with child i are the paths of child i. */
  lemma {:induction false} PathCons(n: Node, i: nat, c: Path)
    ensures ValidPath(n, [i] + c) <==> i < |n.children| && ValidPath(n.children[i], c)
    ensures i < |n.children| ==> Subtree(n, [i] + c) == Subtree(n.children[i], c)
    ensures c != [] ==> Parent([i] + c) == [i] + Parent(c)
  {
    assert ([i] + c)[0] == i;
    assert ([i] + c)[1..] == c;
    if c != [] {
      assert ([i] + c)[..|[i] + c| - 1] == [i] + c[..|c| - 1];
    }
  }

  lemma {:induction false} KeyAtIsKey(n: Node, p: Path)
    requires ValidPath(n, p)
    ensures KeyAt(n, p) in KeysOf(n)
    decreases p
  {
    if p != [] {
      KeyAtIsKey(n.children[p[0]], p[1..]);
      ForestKeysSplit(n.children, p[0]);
    }
  }

  /** Overwriting a key does not change the shape. */
  lemma {:induction false} SetKeyShape(n: Node, p: Path, k: Key)
    ensures ShapeOf(SetKey(n, p, k)) == ShapeOf(n)
    decreases p
  {
    if p != [] && p[0] < |n.children| {
      SetKeyShape(n.children[p[0]], p[1..], k);
      var r := SetKey(n, p, k);
      assert ShapeOf(r).children == ShapeOf(n).children;
    }
  }

  /** Overwriting the key at p changes that key and no other. */
  lemma {:induction false} SetKeyAt(n: Node, p: Path, k: Key, q: Path)
    requires ValidPath(n, p) && ValidPath(n, q)
    ensures KeyAt(SetKey(n, p, k), q) == if q == p then k else KeyAt(n, q)
    decreases p
  {
    if p != [] && q != [] {
      if q[0] == p[0] {
        SetKeyAt(n.children[p[0]], p[1..], k, q[1..]);
        assert q == p <==> q[1..] == p[1..] by {
          assert q == [q[0]] + q[1..];
          assert p == [p[0]] + p[1..];
        }
      }
    }
  }

  /** Overwriting the key at p replaces that one key in the multiset. */
  lemma {:induction false} KeysOfSetKey(n: Node, p: Path, k: Key)
    requires ValidPath(n, p)
    ensures KeysOf(SetKey(n, p, k)) + multiset{KeyAt(n, p)} == KeysOf(n) + multiset{k}
    decreases p
  {
    if p != [] {
      var j, c := p[0], n.children[p[0]];
      var c' := SetKey(c, p[1..], k);
      KeysOfSetKey(c, p[1..], k);
      ForestKeysUpdate(n.children, j, c');
      assert SetKey(n, p, k) == Node(n.key, n.children[j := c']);
      assert KeyAt(n, p) == KeyAt(c, p[1..]);
      var fk', fk := ForestKeys(n.children[j := c']), ForestKeys(n.children);
      ExchangeOne(fk', fk, KeysOf(c), KeysOf(c'), KeyAt(c, p[1..]), k);
      assert KeysOf(SetKey(n, p, k)) == multiset{n.key} + fk';
      assert KeysOf(n) == multiset{n.key} + fk;
      assert (multiset{n.key} + fk') + multiset{KeyAt(c, p[1..])}
          == multiset{n.key} + (fk' + multiset{KeyAt(c, p[1..])});
      assert (multiset{n.key} + fk) + multiset{k} == multiset{n.key} + (fk + multiset{k});
    }
  }

  /** Multiset bookkeeping: if x replaces c by c' and c' is c with a replaced by k,
      then x is y with a replaced by k. */
  lemma {:induction false} ExchangeOne(x: multiset<Key>, y: multiset<Key>, c: multiset<Key>,
                                       c': multiset<Key>, a: Key, k: Key)
    requires x + c == y + c'
    requires c' + multiset{a} == c + multiset{k}
    ensures x + multiset{a} == y + multiset{k}
  {
    forall e ensures (x + multiset{a})[e] == (y + multiset{k})[e] {
      assert (x + c)[e] == (y + c')[e];
      assert (c' + multiset{a})[e] == (c + multiset{k})[e];
    }
  }

  /** Two nodes of the same shape have the same paths and the same binomial degrees. */
  lemma {:induction false} ShapeValidPath(a: Node, b: Node, p: Path)
    requires ShapeOf(a) == ShapeOf(b)
    ensures ValidPath(a, p) <==> ValidPath(b, p)
    decreases p
  {
    if p != [] {
      assert |a.children| == |ShapeOf(a).children| == |b.children|;
      if p[0] < |a.children| {
        assert ShapeOf(a.children[p[0]]) == ShapeOf(a).children[p[0]];
        ShapeValidPath(a.children[p[0]], b.children[p[0]], p[1..]);
      }
    }
  }

  lemma {:induction false} ShapeBinomial(a: Node, b: Node, d: nat)
    requires ShapeOf(a) == ShapeOf(b)
    ensures IsBinomial(a, d) <==> IsBinomial(b, d)
    decreases a
  {
    assert |a.children| == |ShapeOf(a).children| == |b.children|;
    forall i | 0 <= i < |a.children|
      ensures IsBinomial(a.children[i], i) <==> IsBinomial(b.children[i], i)
    {
      assert ShapeOf(a.children[i]) == ShapeOf(a).children[i];
      ShapeBinomial(a.children[i], b.children[i], i);
    }
  }

  // ---------------------------------------------------------------------------
  // Heap order stated edge by edge: every node is >= its parent

  ghost predicate EdgesOrdered(n: Node) {
    forall c :: ValidPath(n, c) && c != [] ==> LessEq(KeyAt(n, Parent(c)), KeyAt(n, c))
  }

  lemma {:induction false} HeapOrderedEdge(n: Node, c: Path)
    requires HeapOrdered(n) && ValidPath(n, c) && c != []
    ensures LessEq(KeyAt(n, Parent(c)), KeyAt(n, c))
    decreases c
  {
    var j, rest := c[0], c[1..];
    assert c == [j] + rest;
    PathCons(n, j, rest);
    if rest == [] {
      assert Parent(c) == [];
    } else {
      HeapOrderedEdge(n.children[j], rest);
      PathCons(n, j, Parent(rest));
    }
  }

  lemma {:induction false} EdgesOrderedChild(n: Node, i: nat)
    requires EdgesOrdered(n) && i < |n.children|
    ensures EdgesOrdered(n.children[i])
    ensures LessEq(n.key, n.children[i].key)
  {
    PathCons(n, i, []);
    assert [i] + [] == [i];
    assert Parent([i]) == [];
    assert ValidPath(n, [i]);
    forall c | ValidPath(n.children[i], c) && c != []
      ensures LessEq(KeyAt(n.children[i], Parent(c)), KeyAt(n.children[i], c))
    {
      PathCons(n, i, c);
      PathCons(n, i, Parent(c));
      assert ValidPath(n, [i] + c);
    }
  }

  /** Heap order, defined node by node, is the same as "every edge is ordered". */
  lemma {:induction false} HeapOrderedIffEdges(n: Node)
    ensures HeapOrdered(n) <==> EdgesOrdered(n)
    decreases n
  {
    if HeapOrdered(n) {
      forall c | ValidPath(n, c) && c != []
        ensures LessEq(KeyAt(n, Parent(c)), KeyAt(n, c))
      {
        HeapOrderedEdge(n, c);
      }
    }
    if EdgesOrdered(n) {
      forall i | 0 <= i < |n.children|
        ensures LessEq(n.key, n.children[i].key) && HeapOrdered(n.children[i])
      {
        EdgesOrderedChild(n, i);
        HeapOrderedIffEdges(n.children[i]);
      }
    }
  }

  // ---------------------------------------------------------------------------
  // bubble_up

  /** What holds right after the key at p was decreased in a heap-ordered
      tree: every edge is ordered except possibly the one from p to its
      parent, and p's parent is <= p's children. */
  ghost predicate OrderedExcept(n: Node, p: Path) {
    && (forall c :: ValidPath(n, c) && c != [] && c != p ==> LessEq(KeyAt(n, Parent(c)), KeyAt(n, c)))
    && (p != [] ==>
          forall c :: ValidPath(n, c) && c != [] && Parent(c) == p ==>
            LessEq(KeyAt(n, Parent(p)), KeyAt(n, c)))
  }

  /** Decreasing one key of a heap-ordered tree breaks order at that node only. */
  lemma {:induction false} DecreaseBreaksOnlyAt(n: Node, p: Path, k: Key)
    requires HeapOrdered(n) && ValidPath(n, p) && LessEq(k, KeyAt(n, p))
    ensures OrderedExcept(SetKey(n, p, k), p)
  {
    var r := SetKey(n, p, k);
    HeapOrderedIffEdges(n);
    SetKeyShape(n, p, k);
    forall c | ValidPath(r, c) && c != []
      ensures c != p ==> LessEq(KeyAt(r, Parent(c)), KeyAt(r, c))
      ensures p != [] && Parent(c) == p ==> LessEq(KeyAt(r, Parent(p)), KeyAt(r, c))
    {
      ShapeValidPath(r, n, c);
      ParentOfValid(n, c);
      SetKeyAt(n, p, k, c);
      SetKeyAt(n, p, k, Parent(c));
      if p != [] && Parent(c) == p {
        ParentOfValid(n, p);
        SetKeyAt(n, p, k, Parent(p));
        assert Parent(p) != p;
        HeapOrderedEdge(n, p);
      }
    }
  }

  /** The keys at p and at its parent exchanged (`self.key, self.parent.key = ...`). */
  function SwapWithParent(n: Node, p: Path): (r: Node)
    requires p != []
  {
    SetKey(SetKey(n, p, KeyAt(n, Parent(p))), Parent(p), KeyAt(n, p))
  }

  lemma {:induction false} SwapWithParentFacts(n: Node, p: Path)
    requires ValidPath(n, p) && p != []
    ensures ShapeOf(SwapWithParent(n, p)) == ShapeOf(n)
    ensures KeysOf(SwapWithParent(n, p)) == KeysOf(n)
    ensures forall q :: ValidPath(n, q) ==>
      KeyAt(SwapWithParent(n, p), q) ==
        if q == p then KeyAt(n, Parent(p))
        else if q == Parent(p) then KeyAt(n, p)
        else KeyAt(n, q)
  {
    var up := Parent(p);
    ParentOfValid(n, p);
    var n1 := SetKey(n, p, KeyAt(n, up));
    SetKeyShape(n, p, KeyAt(n, up));
    SetKeyShape(n1, up, KeyAt(n, p));
    ShapeValidPath(n1, n, up);
    assert up != p;
    SetKeyAt(n, p, KeyAt(n, up), up);
    KeysOfSetKey(n, p, KeyAt(n, up));
    KeysOfSetKey(n1, up, KeyAt(n, p));
    var k0, k2 := KeysOf(n), KeysOf(SwapWithParent(n, p));
    assert k2 + multiset{KeyAt(n, up)} == k0 + multiset{KeyAt(n, up)};
    forall x ensures k2[x] == k0[x] {
      assert (k2 + multiset{KeyAt(n, up)})[x] == (k0 + multiset{KeyAt(n, up)})[x];
    }
    forall q | ValidPath(n, q)
      ensures KeyAt(SwapWithParent(n, p), q) ==
        if q == p then KeyAt(n, up) else if q == up then KeyAt(n, p) else KeyAt(n, q)
    {
      ShapeValidPath(n1, n, q);
      SetKeyAt(n, p, KeyAt(n, up), q);
      SetKeyAt(n1, up, KeyAt(n, p), q);
    }
  }

  /** One bubble step moves the disorder from p up to p's parent. */
  lemma {:induction false} SwapMovesDisorderUp(n: Node, p: Path)
    requires ValidPath(n, p) && p != [] && OrderedExcept(n, p)
    requires Less(KeyAt(n, p), KeyAt(n, Parent(p)))
    ensures OrderedExcept(SwapWithParent(n, p), Parent(p))
  {
    var up := Parent(p);
    var r := SwapWithParent(n, p);
    SwapWithParentFacts(n, p);
    ParentOfValid(n, p);
    forall c | ValidPath(r, c) && c != []
      ensures c != up ==> LessEq(KeyAt(r, Parent(c)), KeyAt(r, c))
      ensures up != [] && Parent(c) == up ==> LessEq(KeyAt(r, Parent(up)), KeyAt(r, c))
    {
      ShapeValidPath(r, n, c);
      ParentOfValid(n, c);
      assert |Parent(c)| == |c| - 1;
      if up != [] {
        ParentOfValid(n, up);
        assert |Parent(up)| == |up| - 1;
        if Parent(c) == up && c != p {
          // a sibling of p: it is >= the old parent key, which is >= the grandparent key
          assert LessEq(KeyAt(n, up), KeyAt(n, c));
          assert up != p;
          assert LessEq(KeyAt(n, Parent(up)), KeyAt(n, up));
        }
        if c == p {
          assert LessEq(KeyAt(n, Parent(up)), KeyAt(n, up));
        }
      }
    }
  }

  /** `bubble_up` on the node at p: while it has a parent whose key is strictly
      greater, swap the two keys and continue from the parent. Only keys move,
      never nodes: the shape is unchanged. */
  method BubbleUp(n: Node, p: Path) returns (r: Node)
    requires ValidPath(n, p)
    ensures ShapeOf(r) == ShapeOf(n)
    ensures KeysOf(r) == KeysOf(n)
    ensures forall q :: ValidPath(n, q) && !IsPrefix(q, p) ==> KeyAt(r, q) == KeyAt(n, q)
    ensures OrderedExcept(n, p) ==> HeapOrdered(r)
  {
    r := n;
    var c := p;
    while c != [] && Less(KeyAt(r, c), KeyAt(r, Parent(c)))
      invariant IsPrefix(c, p)
      invariant ShapeOf(r) == ShapeOf(n)
      invariant ValidPath(r, c)
      invariant KeysOf(r) == KeysOf(n)
      invariant forall q :: ValidPath(n, q) && !IsPrefix(q, p) ==> KeyAt(r, q) == KeyAt(n, q)
      invariant OrderedExcept(n, p) ==> OrderedExcept(r, c)
      decreases |c|
    {
      SwapWithParentFacts(r, c);
      if OrderedExcept(n, p) {
        SwapMovesDisorderUp(r, c);
      }
      ParentOfValid(r, c);
      forall q | ValidPath(n, q) && !IsPrefix(q, p)
        ensures q != c && q != Parent(c)
      {
        assert IsPrefix(Parent(c), p);
      }
      forall q | ValidPath(n, q)
        ensures ValidPath(r, q)
      {
        ShapeValidPath(r, n, q);
      }
      ShapeValidPath(SwapWithParent(r, c), r, Parent(c));
      r := SwapWithParent(r, c);
      c := Parent(c);
    }
    if OrderedExcept(n, p) {
      assert EdgesOrdered(r);
      HeapOrderedIffEdges(r);
    }
  }
}
