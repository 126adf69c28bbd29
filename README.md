# Vertical-order traversal and celebrity finding, in Dafny

This project models two routines of a collection of interview-problem
solutions written in Python, and proves what they compute.

- `verticalOrder` (Vertical_Tree_Traversal.py) walks a binary tree
  breadth-first. It uses a FIFO queue of (subtree, horizontal distance) pairs.
  The root is at distance 0. A left child is at its parent's distance minus
  one, a right child at plus one. Each node's data is appended to the bucket
  of its distance in a `defaultdict(list)`. The buckets are then
  concatenated in ascending order of distance. An empty tree gives `None`.
  The module `VerticalTraversal` (vertical_order.dfy) holds the model:
  - `FillBuckets` is the breadth-first loop, over a `seq` queue and a `map`.
  - `VerticalOrder` is the whole routine. It calls `FillBuckets`, then
    flattens the buckets in a loop.
  - Two reference definitions are proved against the loop. `Tagged` gives
    every node with its distance, by structural recursion. `LevelOrder`
    lists the nodes level by level, left to right.
  - `Drain` is the queue processed to the end, as a function. It links the
    loop to `LevelOrder`.
  - `VerticalSpec` is the expected output with distances attached. It is
    the level order, split into columns by distance, the columns in
    ascending order.
- `findCelebrity` (Find_a_Celebrity.py) finds the person among `0 .. n-1`
  whom everyone else knows and who knows nobody else. It makes one
  elimination pass and one verification pass. It returns the index, or -1
  if there is none. The module `Celebrity` (celebrity.dfy) holds the model.
  `FindCelebrity` has both loops. `Candidate` is the specification of the
  first pass. The oracle `knows` is a parameter: a total function on person
  indices. When `n <= 0` both loops are empty and the method returns 0,
  exactly as the source does. No precondition excludes that case.

## Model

| member | source | states |
|---|---|---|
| `Celebrity.FindCelebrity` | Find_a_Celebrity.py:3-17 | "A celebrity exists" if and only if the result is a valid index, and that index is the celebrity. -1 means nobody is a celebrity. A celebrity, if one exists, is always the result. For `n == 1` the result is 0. For `n <= 0` the result is 0 and `knows` is never called. At most `3(n-1)` calls to `knows` are made, counting the short-circuit of `or`. |
| `Celebrity.Candidate` | Find_a_Celebrity.py:5-8 | After the elimination pass over `range(1, i)`, the candidate is 0 when `i <= 1`, and otherwise a person below `i`. |
| `Celebrity.Eliminated` | Find_a_Celebrity.py:5-8 | Every person below `i` whom the pass over `range(1, i)` discards has one of two reasons. Either it knows some later person `k < i`, for whom it stepped down. Or it is at least 1 and the candidate at its own turn did not know it. |
| `Celebrity.OnlyCandidateCanBeCelebrity` | Find_a_Celebrity.py:4-8 | Nobody the elimination pass discarded is a celebrity of the whole group. |
| `Celebrity.CelebrityUnique` | Find_a_Celebrity.py:10-17 | There is at most one celebrity. So once the candidate survives the verification pass, it is the only possible answer. |
| `VerticalTraversal.VerticalOrder` | Vertical_Tree_Traversal.py:7-38 | An empty tree gives `None`, and only an empty tree does. Otherwise the result is the data of `VerticalSpec(root)`: the columns in ascending distance, breadth-first order within a column. The result has one entry per node and is a permutation of the tree's data. |
| `VerticalTraversal.FillBuckets` | Vertical_Tree_Traversal.py:12-30 | The map left by the loop is the one that the appends of the whole breadth-first walk build from an empty map. The loop keeps one invariant: the map so far, extended by the appends of the walk still to come, equals that final map. The loop terminates on the queue's weight. |
| `VerticalTraversal.PopNode` | Vertical_Tree_Traversal.py:22-30 | Popping a present node does two things: it appends its data to its distance's bucket, and it pushes both children at distance -1 and +1. Together with the rest of the walk, this completes the same map, and the queue's weight goes down. |
| `VerticalTraversal.PopNil` | Vertical_Tree_Traversal.py:22-24 | Popping an absent child changes nothing the walk will do. It only lowers the queue's weight. |
| `VerticalTraversal.Drain` | Vertical_Tree_Traversal.py:20-30 | The visits the `while queue` loop makes from a queue `q`, as a function. It pops the front entry, visits a present node at its distance, and pushes both children at distance -1 and +1, until the queue is empty. It terminates on `Weight`. It carries no contract of its own; `DrainSplit` and `BreadthFirstIsLevelOrder` state what it computes. |
| `VerticalTraversal.DrainSplit` | Vertical_Tree_Traversal.py:20-30 | FIFO order. Draining `q + r` first visits the nodes in `q`, then drains `r` followed by the children `q` pushed. |
| `VerticalTraversal.BreadthFirstIsLevelOrder` | Vertical_Tree_Traversal.py:16-30 | Draining the queue that starts as `[(root, 0)]` visits exactly the level order, each node with its distance. |
| `VerticalTraversal.LevelOrderPermutation` | Vertical_Tree_Traversal.py:14-30 | The level order is a permutation of `Tagged(root, 0)`. Every node is visited exactly once, with its true horizontal distance. |
| `VerticalTraversal.TaggedSize` | Vertical_Tree_Traversal.py:14-30 | The structural tagging lists every node once. Its length is the tree's size, and its data is the tree's data as a multiset. |
| `VerticalTraversal.Bucket` | Vertical_Tree_Traversal.py:26 | The read `vertMap[horDist]` of the `defaultdict(list)` created at line 13: the stored bucket for a present key, an empty list for a missing one. It carries no contract of its own; `AppendToBucket` states what an append through it does. |
| `VerticalTraversal.AppendToBucket` | Vertical_Tree_Traversal.py:26 | Suppose the buckets hold the columns of the visits so far. Then `vertMap[horDist].append(data)`, read through the `defaultdict` default, leaves them holding the columns of the visits plus the new one. |
| `VerticalTraversal.AppendAll` | Vertical_Tree_Traversal.py:26 | The map left by one `vertMap[horDist].append(node.data)` per visit, in order. It carries no contract of its own; `AppendAllColumns` and `WalkBuckets` state what it builds. |
| `VerticalTraversal.AppendAllColumns` | Vertical_Tree_Traversal.py:24-26 | Appending a sequence of visits to buckets that equal the columns of `p` yields the columns of `p` followed by those visits. |
| `VerticalTraversal.WalkBuckets` | Vertical_Tree_Traversal.py:12-30 | After the whole walk, the map has exactly the distances that occur as keys. Each bucket is that column's data, in level order. |
| `VerticalTraversal.SortedKeys` | Vertical_Tree_Traversal.py:34 | `sorted(vertMap.keys())` is strictly increasing and holds exactly the keys. |
| `VerticalTraversal.ExtendByBucket` | Vertical_Tree_Traversal.py:34-36 | `res.extend(vertMap[key])` for the next sorted key appends exactly that column's data to the output. |
| `VerticalTraversal.FlattenedBuckets` | Vertical_Tree_Traversal.py:32-38 | Flattening the buckets of the finished walk in sorted key order gives the data of `VerticalSpec(root)`. This has length equal to the node count and is a permutation of the tree's data. |
| `VerticalTraversal.ColumnsSorted` | Vertical_Tree_Traversal.py:33-36 | Columns concatenated for increasing distances are sorted by distance. |
| `VerticalTraversal.ColumnsSelect` | Vertical_Tree_Traversal.py:33-36 | Selecting distance `k` from the concatenated columns gives back column `k` unchanged, or nothing if `k` is not among the keys. |
| `VerticalTraversal.ColumnsPermutation` | Vertical_Tree_Traversal.py:33-36 | Concatenating, once each, the columns of all distances that occur gives a permutation of the visits. |
| `VerticalTraversal.VerticalSorted` | Vertical_Tree_Traversal.py:32-36 | Along the output, horizontal distances never decrease. |
| `VerticalTraversal.VerticalPermutation` | Vertical_Tree_Traversal.py:13-36 | The output lists every node once, under its true horizontal distance: its multiset equals that of `Tagged(root, 0)`. Its length is the node count, and its data is a permutation of the tree's data. |
| `VerticalTraversal.VerticalColumnInLevelOrder` | Vertical_Tree_Traversal.py:20-26 | Within one horizontal distance, the output keeps the breadth-first order of the nodes. |

## Left out

- Clone_Graph.py and Substring.py are not part of this model. Neither contains the two routines modelled here.
- The import of `deque`: Vertical_Tree_Traversal.py imports only `defaultdict`. As written, line 18 raises `NameError` for any non-empty tree unless `deque` is already in scope. The model assumes that it is. The queue is a `seq`, with `popleft` as `queue[1..]` and `append` as `+ [..]`.
- The `Solution` class and its `self` parameter: the class has no state, so `verticalOrder` is a plain method.
- Cyclic node graphs: the `Tree` datatype holds only finite acyclic trees. On a node graph with a cycle the source's `while queue` never ends; the model does not capture that. Shared subtrees are covered, because a shared subtree read as a value gives the same walk.
- The tree's node class is not part of this model. Nodes are the values of the `Tree` datatype. A missing child (`None`, falsy in Python) is `Nil`. The tree's data is a type parameter `T`.
- `knows` is a global oracle in the source. Here it is a parameter. The model assumes it answers consistently and has no side effects; an oracle that changes its answers between calls is not modelled.
- `FindCelebrity`'s out-parameter `queries` is not in the source. It counts the calls to `knows`, to state the `3(n-1)` bound.
- `FillBuckets`: the breadth-first loop is a method of its own, called from `VerticalOrder`. It computes what lines 12-30 compute. This only splits the proof.
- `SortedKeys`: Python's `sorted` is a library call. It is modelled as a function that yields the keys in ascending order. The keys are distinct, so sort stability does not matter here.
- Python's `return` with no value, for an empty tree, is modelled as `None` of an `Option`. A non-empty tree gives `Some` of the list.
