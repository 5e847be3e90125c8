# Binomial heap, modelled and verified in Dafny

This project models a small Python binomial min-heap (`binomial_heap.py`).
It has three classes:

- `BinomialNode`: a key, a parent link and an ordered child list;
- `BinomialTree`: a root and a degree;
- `BinomialHeap`: a list of trees.

The heap supports union, insert, find, minimum-tree selection, extract-min,
decrease-key and delete.

How the model represents them:

- **Keys** (`keys.dfy`, module `Keys`). A key is an integer or `NegInf`. `NegInf` stands for the `-inf` float that `delete` writes into a node. `Less` and `LessEq` are Python's `<` and `<=` on such keys.
- **Nodes** (`binomial_node.dfy`, module `BinomialNodes`). A node is a value `Node(key, children)`.
  - The parent back-link is replaced by a *path*: the child indices leading from a tree's root to the node. "The parent of the node at `p`" is the node at `Parent(p)`.
  - `bubble_up` is a method on a tree and a path. It swaps keys along the root path while the parent's key is strictly larger.
- **Trees** (`binomial_tree.dfy`, module `BinomialTrees`). A tree is a value `Tree(degree, root)`.
  - `merge` is the function `Merge`.
  - `find_node` is a method with the source's queue loop. It is proved equal to a breadth-first search function, `BfsFind`.
- **Forests** (`forest.dfy`, module `Forests`). This module holds the list-of-trees algorithms:
  - the sort-and-link loop of `BinomialHeap.union` (method `Union`);
  - `BinomialTree.extract_min` (method `ExtractMinTree`). It needs union, and Dafny modules cannot depend on each other in a cycle the way the Python classes do.
  - Python's stable `list.sort(key=degree)` is modelled as an insertion sort, `SortByDegree`. `StableSortIsUnique` shows that every stable sort by degree gives the same list, so the choice of algorithm does not matter.
- **Heap** (`binomial_heap.dfy`, module `BinomialHeaps`). The heap is a class `BinomialHeap` with a field `heap: seq<Tree>` that its methods reassign.
  - `Keys()` is the multiset of all stored keys.
  - `Valid()` means every tree is a heap-ordered binomial tree of its degree and the list is sorted by degree.
  - Each method states its new state and the keys it adds or removes, and that it preserves `Valid()`.
  - The `assert` in `decrease_key` becomes the outcome `AssertionError`, with the heap left unchanged.

Node equality in the source is key equality (`__eq__`). Searches therefore look for a key, and operations take a key where the source takes a node.

### Union does not always leave one tree per degree

A binomial heap holds at most one tree per degree, and the comment at `binomial_heap.py:54-56` says that equal-degree trees must be merged during a union. The single pass does not guarantee it:

- `union` sorts the combined trees by degree, makes a single linking pass, and sorts again.
- A merge can create a carry that meets a tree already passed or still ahead. For example, two trees of degree 2 can appear, one of them newly made.
- `Forests.UnionCanRepeatDegrees` proves this: unioning forests of degrees `[0, 1]` and `[0, 1, 2]`, both with distinct degrees, gives degrees `[1, 2, 2]`.
- The same union happens inside `extract_min`: the heap's remaining trees are unioned with the children of the removed root.

What the model proves instead:

- sortedness by degree always holds;
- every tree stays a heap-ordered binomial tree;
- the keys are preserved exactly;
- distinct degrees are kept by `insert` (`Forests.InsertKeepsDegreesDistinct`) and, more generally, whenever only one carry can arise (`Forests.LinkPassCarries`).

The model follows the code. Nothing in the heap's behaviour depends on distinct degrees, so `Valid()` does not require them.

## Model

| member | source | states |
|---|---|---|
| BinomialNodes.IsLeaf | binomial_heap.py:231-233 | a node is a leaf exactly when its subtree holds only its own key |
| BinomialNodes.AddChild | binomial_heap.py:235-241 | the child becomes the last child (reachable at path `[old child count]`), the earlier children and the key stay, and the keys of both subtrees are summed |
| BinomialNodes.BinomialSize | binomial_heap.py:145-163 | a binomial tree of degree d, as built by repeated links, holds exactly 2^d keys |
| BinomialNodes.HeapOrderedRootIsMin | binomial_heap.py:82-93 | under heap order a root's key is <= every key of its subtree, which is why `min_tree` only inspects roots |
| BinomialNodes.KeysOfSetKey | binomial_heap.py:123 | overwriting the key at a path replaces exactly one copy of the old key by the new one |
| BinomialNodes.DecreaseBreaksOnlyAt | binomial_heap.py:122-123 | decreasing one key of a heap-ordered tree breaks the order only on the edge between that node and its parent |
| BinomialNodes.HeapOrderedIffEdges | binomial_heap.py:243-246 | heap order defined node by node is the same as every parent/child edge being ordered, the form `bubble_up` works on |
| BinomialNodes.SwapMovesDisorderUp | binomial_heap.py:244-246 | one swap with a strictly larger parent moves the single broken edge up to the parent |
| BinomialNodes.BubbleUp | binomial_heap.py:243-246 | keeps the shape and the key multiset, changes keys only on the path from the node to the root, and restores heap order when only the node's edge to its parent was broken |
| BinomialTrees.Merge | binomial_heap.py:157-163 | degree goes up by one; the smaller root (self's on ties) stays root, with the other root appended as its last child; keys are summed; two well-formed trees of equal degree give a well-formed tree |
| BinomialTrees.WellFormedTree | binomial_heap.py:141-143 | a tree the heap holds has 2^degree keys, degree-many children, and its root key is the smallest |
| BinomialTrees.FirstMatch | binomial_heap.py:196-198 | the first position in the visiting order whose node equals the searched one by key, or none exactly when no node matches |
| BinomialTrees.BfsOrderKeys | binomial_heap.py:191-203 | the keys visited in queue order are exactly the keys of the waiting subtrees, as multisets |
| BinomialTrees.BfsFindCorrect | binomial_heap.py:182-205 | the search finds nothing exactly when the key is absent from the tree; what it finds is a valid path to a node with that key |
| BinomialTrees.FindInStep | binomial_heap.py:193-203 | one loop iteration: a matching front entry is the answer; otherwise the answer is that of the rest of the queue with the front's children appended |
| BinomialTrees.EnqueueChildren | binomial_heap.py:200-201 | appends the children of the popped node, in order, each with its path |
| BinomialTrees.FindNode | binomial_heap.py:182-205 | the queue loop returns the breadth-first answer; none exactly when the key is absent; otherwise a valid path to a node with that key |
| Forests.InsertPermutes | binomial_heap.py:52 | one step of the sort adds exactly the inserted tree |
| Forests.SortPermutes | binomial_heap.py:52 | sorting by degree is a permutation of the trees |
| Forests.SortSorted | binomial_heap.py:52 | the sorted list has non-decreasing degrees |
| Forests.SortKeys | binomial_heap.py:52 | sorting keeps the forest's key multiset |
| Forests.SortIsStable | binomial_heap.py:52 | for every degree, the trees of that degree keep their relative order |
| Forests.StableSortIsUnique | binomial_heap.py:67 | two degree-sorted lists with the same trees in the same order within every degree are equal, so any stable sort gives SortByDegree |
| Forests.SortedIsFixed | binomial_heap.py:67 | re-sorting a list already sorted by degree leaves it as it is |
| Forests.LinkPassKeys | binomial_heap.py:57-65 | the linking loop keeps the forest's key multiset |
| Forests.LinkPassWellFormed | binomial_heap.py:57-65 | the loop links only equal-degree trees, so well-formed trees stay well-formed |
| Forests.LinkPassOnAscending | binomial_heap.py:57-65 | on distinct ascending degrees the loop links nothing |
| Forests.LinkPassCarries | binomial_heap.py:57-65 | when at most one pair of equal degrees sits at the loop position, the loop leaves distinct ascending degrees |
| Forests.LinkInPlace | binomial_heap.py:60-63 | merging into slot i and deleting slot i + 1 is one link step |
| Forests.UnionSpecFacts | binomial_heap.py:44-68 | the union is sorted by degree, holds the keys of both inputs, and is well-formed when both inputs are |
| Forests.UnionOfAscending | binomial_heap.py:44-68 | trees whose concatenation already has distinct ascending degrees are returned unchanged |
| Forests.UnionCanRepeatDegrees | binomial_heap.py:57-67 | forests of degrees [0, 1] and [0, 1, 2] union to degrees [1, 2, 2]: the single pass does not restore distinct degrees |
| Forests.InsertKeepsDegreesDistinct | binomial_heap.py:33-34 | a degree-0 tree unioned into distinct ascending degrees leaves distinct ascending degrees |
| Forests.Union | binomial_heap.py:49-68 | the extend, sort, link-loop, sort sequence computes UnionSpec, which is sorted, sums the keys and keeps trees well-formed |
| Forests.NextChildTree | binomial_heap.py:176-177 | unioning the next child tree into the trees built so far appends it |
| Forests.ChildTreesFacts | binomial_heap.py:172-180 | the child trees hold the tree's keys except the root's, have distinct ascending degrees 0..d-1, and are well-formed when the tree is |
| Forests.ExtractMinTree | binomial_heap.py:165-180 | returns the root and the forest whose i-th tree is the i-th child with degree i; keys are the tree's minus the root key; distinct ascending degrees; well-formed when the tree is |
| BinomialHeaps.MinRootIndex | binomial_heap.py:82-93 | none exactly on an empty forest; otherwise a root <= every root and strictly smaller than every earlier root (the first minimum) |
| BinomialHeaps.MinRootIsMinKey | binomial_heap.py:95-109 | under heap order the chosen root holds the smallest key of the whole heap |
| BinomialHeaps.FirstSome | binomial_heap.py:75-80 | the first tree whose search finds something, none exactly when no tree's search does |
| BinomialHeaps.FindInHeapCorrect | binomial_heap.py:70-80 | nothing found exactly when no tree holds the key; otherwise the first tree holding it, and a valid path to a node with that key |
| BinomialHeaps.RemoveTreeFacts | binomial_heap.py:105 | removing one tree removes exactly its keys and keeps the rest well-formed and sorted |
| BinomialHeaps.ExtractMinFacts | binomial_heap.py:105-108 | removing the minimal tree and unioning its children back removes exactly the minimal root key, which is the smallest key, and keeps the heap valid |
| BinomialHeaps.DecreasedTree | binomial_heap.py:122-124 | a decrease followed by bubbling up keeps the shape, trades the old key for the new one, and keeps the tree well-formed |
| BinomialHeaps.DecreaseInForest | binomial_heap.py:122-124 | in the heap, only the decreased tree changes, degrees and shapes stay, one key is traded, and well-formedness and sortedness are kept |
| BinomialHeaps.DeleteKeys | binomial_heap.py:36-42 | after `-inf` replaces a present key k and the minimum is extracted, the extracted key is `-inf` and exactly one copy of k is gone |
| BinomialHeaps.BinomialHeap.constructor | binomial_heap.py:3-8 | the new heap holds the given trees, none by default |
| BinomialHeaps.BinomialHeap.IsEmpty | binomial_heap.py:24-26 | empty exactly when the heap holds no keys |
| BinomialHeaps.BinomialHeap.Union | binomial_heap.py:44-68 | a fresh heap holding UnionSpec of both tree lists: sorted, keys summed, valid when both heaps are |
| BinomialHeaps.BinomialHeap.Insert | binomial_heap.py:28-34 | the new list is the union with a one-leaf heap; exactly the key k is added; validity and distinct degrees are kept |
| BinomialHeaps.BinomialHeap.FindNode | binomial_heap.py:70-80 | the tree loop returns the first tree's breadth-first answer; none exactly when the key is absent; otherwise a valid location holding the key |
| BinomialHeaps.BinomialHeap.MinTree | binomial_heap.py:82-93 | the loop returns MinRootIndex of the heap (the first minimal root, none when empty) |
| BinomialHeaps.BinomialHeap.ExtractMin | binomial_heap.py:95-109 | on an empty heap none and no change; otherwise it returns the first minimal root and the new list is the union of the other trees with its children; exactly that key is removed, it is the smallest, and validity is kept |
| BinomialHeaps.BinomialHeap.DecreaseKey | binomial_heap.py:111-124 | not found exactly when the key is absent; assertion failure exactly when the new key is not strictly smaller; otherwise one copy of k becomes newKey in the first tree holding k, keys of that tree change only on the path from the found node to the root, every tree keeps degree and shape, the others are unchanged, and validity is kept |
| BinomialHeaps.BinomialHeap.DecreaseAt | binomial_heap.py:123-124 | writing the new key at the found path and bubbling up changes only that tree, keeps its degree and shape, changes keys only on the path from the node to the root, trades one key, and keeps validity |
| BinomialHeaps.BinomialHeap.Delete | binomial_heap.py:36-42 | an absent key extracts the minimum instead; deleting the key `-inf` itself while `-inf` is in the heap fails the assertion and changes nothing; a present key loses one copy and the size drops by one; validity is kept |

## Left out

- `BinomialHeap.__str__`, `newick_strings`, `BinomialTree.newick_string` and `BinomialNode.newick_string` are not modelled. They only render text, through the external `ete3` package.
- The demo script under `if __name__ == "__main__"` is not modelled. It performs input and output only.
- Floating point: the `-inf` that `delete` passes is the `NegInf` key. No other float keys are modelled.
- The `self.root is None` branch of `merge`, and the `self.root is None` early return of `BinomialTree.find_node`, are not modelled. Every tree the heap builds has a root.
- Parent back-pointers are replaced by paths. `sub_tree.parent = None` in `extract_min` is captured only by each child becoming a separate tree value.
- Object identity and aliasing are not modelled. Python's `union` merges tree objects that the input heaps still hold, so an input heap's trees can change in place. In the demo script, `h3 = h1.union(h2)` links nothing, because the degrees [1, 2] and [3] are already distinct. But `h3.extract_min()` at line 280 does change other heaps. It removes h2's degree-3 tree. It clears the parent links of that tree's children, which h2 still holds (line 175). Then the sort gives `[c0, T1, c1, T2, c2]`, and line 61 links h1's degree-1 tree `T1` with `c1` and then with h1's degree-2 tree `T2`, so h1's trees change too. Here every heap holds its own values.
- BinomialHeaps.BinomialHeap.Union: assumes the two heaps share no tree, and leaves both inputs unchanged, while the source links their trees in place. When a tree is shared, as in `h.union(h)`, the source makes a root its own child (`add_child` at lines 157-158), after which a `find_node` for an absent key never ends; the model instead links the two copies as ordinary, separate trees.
- Node identity with duplicate keys: lookup is by key, as `__eq__` defines it. Which of two equal-key nodes is found follows the search order, and that is modelled.
- `heap.remove(m_tree)` removes the chosen tree by identity. Here it removes the tree at the index `min_tree` chose, which is the same tree.
- BinomialHeaps.BinomialHeap.Insert: takes a key and inserts a fresh leaf. Inserting a node that already has children, under degree 0, is not modelled.
- Python's `assert` in `decrease_key` disappears under `python -O`. The model always treats it as active, as the outcome `AssertionError`.
- BinomialNodes.BubbleUp: the contract does not say that the swap uses a strict `<`, i.e. that equal parent keys are left in place. The body does this, but only the resulting order, shape and keys are stated.
- BinomialHeaps.BinomialHeap.Valid: does not include "at most one tree per degree". The union loop does not maintain it (see `Forests.UnionCanRepeatDegrees`).
