/**
 * Vertical-order traversal of a binary tree (Vertical_Tree_Traversal.py).
 *
 * The root has horizontal distance 0, a left child its parent's distance
 * minus one and a right child plus one. The traversal walks the tree
 * breadth-first with a FIFO queue of (subtree, distance) pairs, appends
 * each node's data to the bucket of its distance, and finally concatenates
 * the buckets in ascending order of distance.
 *
 * Two reference definitions stand beside the imperative method:
 *   - Tagged: every node with its horizontal distance, by structural
 *     recursion (which bucket each node belongs in);
 *   - LevelOrder: the nodes level by level, left to right (the order in
 *     which a FIFO breadth-first walk visits them).
 */
module VerticalTraversal {

  datatype Option<T> = None | Some(value: T)

  /** A binary tree; `Nil` is an absent child. */
  datatype Tree<T> = Nil | Node(data: T, left: Tree<T>, right: Tree<T>)

  /** A queue entry: a (possibly absent) subtree and its horizontal distance. */
  type Entry<T> = (Tree<T>, int)

  /** A visited node: its data and its horizontal distance. */
  type Visit<T> = (T, int)

  function Max(a: int, b: int): int { if a < b then b else a }

  function Size<T>(t: Tree<T>): nat
  {
    match t
    case Nil => 0
    case Node(_, l, r) => 1 + Size(l) + Size(r)
  }

  function Height<T>(t: Tree<T>): nat
  {
    match t
    case Nil => 0
    case Node(_, l, r) => 1 + Max(Height(l), Height(r))
  }

  /** The data held in the tree, with multiplicity. */
  ghost function Elements<T>(t: Tree<T>): multiset<T>
  {
    match t
    case Nil => multiset{}
    case Node(x, l, r) => multiset{x} + Elements(l) + Elements(r)
  }

  /** Every node of `t` with its horizontal distance, in pre-order; `h` is the distance of `t` itself. */
  function Tagged<T>(t: Tree<T>, h: int): seq<Visit<T>>
  {
    match t
    case Nil => []
    case Node(x, l, r) => [(x, h)] + Tagged(l, h - 1) + Tagged(r, h + 1)
  }

  /** The data of a sequence of visits, in order. */
  function Data<T>(s: seq<Visit<T>>): seq<T>
  {
    seq(|s|, i requires 0 <= i < |s| => s[i].0)
  }

  lemma {:induction false} DataAppend<T>(a: seq<Visit<T>>, b: seq<Visit<T>>)
    ensures Data(a + b) == Data(a) + Data(b)
  {
  }

  lemma {:induction false} TaggedSize<T>(t: Tree<T>, h: int)
    ensures |Tagged(t, h)| == Size(t)
    ensures multiset(Data(Tagged(t, h))) == Elements(t)
  {
    match t
    case Nil =>
    case Node(x, l, r) =>
      var tl, tr := Tagged(l, h - 1), Tagged(r, h + 1);
      TaggedSize(l, h - 1);
      TaggedSize(r, h + 1);
      assert Tagged(t, h) == [(x, h)] + tl + tr;
      DataAppend([(x, h)] + tl, tr);
      DataAppend([(x, h)], tl);
      assert Data([(x, h)]) == [x];
      assert Data(Tagged(t, h)) == [x] + Data(tl) + Data(tr);
  }

  /** Visits that are permutations of each other have data that are permutations of each other. */
  lemma {:induction false} DataPermutation<T>(a: seq<Visit<T>>, b: seq<Visit<T>>)
    requires multiset(a) == multiset(b)
    ensures multiset(Data(a)) == multiset(Data(b))
    decreases |a|
  {
    if a != [] {
      var e := a[0];
      assert e in multiset(b);
      var i :| 0 <= i < |b| && b[i] == e;
      var rest := b[..i] + b[i + 1..];
      assert b == b[..i] + [e] + b[i + 1..];
      assert a == [e] + a[1..];
      assert multiset(a) == multiset{e} + multiset(a[1..]);
      assert multiset(b) == multiset(b[..i]) + multiset{e} + multiset(b[i + 1..]);
      assert multiset(rest) == multiset(b[..i]) + multiset(b[i + 1..]);
      forall z ensures multiset(a[1..])[z] == multiset(rest)[z] {
        assert multiset(a)[z] == multiset(b)[z];
      }
      DataPermutation(a[1..], rest);
      DataAppend([e], a[1..]);
      DataAppend(b[..i] + [e], b[i + 1..]);
      DataAppend(b[..i], [e]);
      DataAppend(b[..i], b[i + 1..]);
    }
  }

  // ---------------------------------------------------------------------
  // Level order: the reference for the breadth-first walk
  // ---------------------------------------------------------------------

  /** The nodes at depth `d` of `t`, left to right, with their horizontal distances. */
  function LevelNodes<T>(t: Tree<T>, d: nat, h: int): seq<Visit<T>>
  {
    match t
    case Nil => []
    case Node(x, l, r) =>
      if d == 0 then [(x, h)] else LevelNodes(l, d - 1, h - 1) + LevelNodes(r, d - 1, h + 1)
  }

  /** Levels `d` .. `n - 1` of `t`, one after the other. */
  function Levels<T>(t: Tree<T>, d: nat, n: nat, h: int): seq<Visit<T>>
    decreases n - d
  {
    if d >= n then [] else LevelNodes(t, d, h) + Levels(t, d + 1, n, h)
  }

  /** All nodes of `t`, level by level and left to right within a level. */
  function LevelOrder<T>(t: Tree<T>): seq<Visit<T>>
  {
    Levels(t, 0, Height(t), 0)
  }

  lemma {:induction false} LevelNodesBeyondHeight<T>(t: Tree<T>, d: nat, h: int)
    requires d >= Height(t)
    ensures LevelNodes(t, d, h) == []
  {
    match t
    case Nil =>
    case Node(x, l, r) =>
      LevelNodesBeyondHeight(l, d - 1, h - 1);
      LevelNodesBeyondHeight(r, d - 1, h + 1);
  }

  /** Levels 1 .. n of a node are levels 0 .. n-1 of its two subtrees, interleaved level by level. */
  lemma {:induction false} LevelsOfChildren<T>(x: T, l: Tree<T>, r: Tree<T>, d: nat, n: nat, h: int)
    ensures multiset(Levels(Node(x, l, r), d + 1, n + 1, h))
         == multiset(Levels(l, d, n, h - 1)) + multiset(Levels(r, d, n, h + 1))
    decreases n - d
  {
    if d < n {
      LevelsOfChildren(x, l, r, d + 1, n, h);
    }
  }

  lemma {:induction false} LevelsOfNode<T>(x: T, l: Tree<T>, r: Tree<T>, m: nat, h: int)
    ensures multiset(Levels(Node(x, l, r), 0, m + 1, h))
         == multiset{(x, h)} + multiset(Levels(l, 0, m, h - 1)) + multiset(Levels(r, 0, m, h + 1))
  {
    var t := Node(x, l, r);
    var below := Levels(t, 1, m + 1, h);
    LevelsOfChildren(x, l, r, 0, m, h);
    LevelsFirst(t, m + 1, h);
    MultisetCons(Levels(t, 0, m + 1, h), (x, h), below, multiset(Levels(l, 0, m, h - 1)), multiset(Levels(r, 0, m, h + 1)));
  }

  lemma {:induction false} LevelsFirst<T>(t: Tree<T>, n: nat, h: int)
    requires t.Node? && n >= 1
    ensures Levels(t, 0, n, h) == [(t.data, h)] + Levels(t, 1, n, h)
  {
  }

  lemma {:induction false} MultisetCons<A>(a: seq<A>, e: A, s: seq<A>, p: multiset<A>, q: multiset<A>)
    requires a == [e] + s && multiset(s) == p + q
    ensures multiset(a) == multiset{e} + p + q
  {
  }

  /** Taken together, the levels hold exactly the nodes of the tree with their distances. */
  lemma {:induction false} LevelsComplete<T>(t: Tree<T>, n: nat, h: int)
    requires n >= Height(t)
    ensures multiset(Levels(t, 0, n, h)) == multiset(Tagged(t, h))
  {
    match t
    case Nil =>
      LevelsShiftNil<T>(0, n, h);
    case Node(x, l, r) =>
      var m := n - 1;
      assert m >= Height(l) && m >= Height(r);
      LevelsOfNode(x, l, r, m, h);
      LevelsComplete(l, m, h - 1);
      LevelsComplete(r, m, h + 1);
      assert Tagged(t, h) == [(x, h)] + Tagged(l, h - 1) + Tagged(r, h + 1);
  }

  lemma {:induction false} LevelsShiftNil<T>(d: nat, n: nat, h: int)
    ensures Levels<T>(Nil, d, n, h) == []
    decreases n - d
  {
    if d < n {
      LevelsShiftNil<T>(d + 1, n, h);
    }
  }

  /** Level order lists every node once, with its true horizontal distance. */
  lemma {:induction false} LevelOrderPermutation<T>(t: Tree<T>)
    ensures multiset(LevelOrder(t)) == multiset(Tagged(t, 0))
  {
    LevelsComplete(t, Height(t), 0);
  }

  // ---------------------------------------------------------------------
  // The FIFO queue and what draining it produces
  // ---------------------------------------------------------------------

  /** The visit an entry produces when it is popped: none for an absent child. */
  function Popped<T>(e: Entry<T>): seq<Visit<T>>
  {
    match e.0
    case Nil => []
    case Node(x, _, _) => [(x, e.1)]
  }

  /** The entries a popped entry pushes: both children, at distance minus one and plus one. */
  function Expand<T>(e: Entry<T>): seq<Entry<T>>
  {
    match e.0
    case Nil => []
    case Node(_, l, r) => [(l, e.1 - 1), (r, e.1 + 1)]
  }

  function Visits<T>(q: seq<Entry<T>>): seq<Visit<T>>
  {
    if q == [] then [] else Popped(q[0]) + Visits(q[1..])
  }

  function Children<T>(q: seq<Entry<T>>): seq<Entry<T>>
  {
    if q == [] then [] else Expand(q[0]) + Children(q[1..])
  }

  /** A termination measure for the queue: popping any entry lowers it by one. */
  function Weight<T>(q: seq<Entry<T>>): nat
  {
    if q == [] then 0 else 2 * Size(q[0].0) + 1 + Weight(q[1..])
  }

  lemma {:induction false} WeightAppend<T>(a: seq<Entry<T>>, b: seq<Entry<T>>)
    ensures Weight(a + b) == Weight(a) + Weight(b)
  {
    if a != [] {
      assert (a + b)[1..] == a[1..] + b;
      WeightAppend(a[1..], b);
    } else {
      assert a + b == b;
    }
  }

  lemma {:induction false} WeightExpand<T>(e: Entry<T>)
    ensures Weight(Expand(e)) < 2 * Size(e.0) + 1
  {
    match e.0
    case Nil =>
    case Node(_, l, r) =>
      var q := Expand(e);
      assert q[0].0 == l && q[1..][0].0 == r && q[1..][1..] == [];
      assert Weight(q[1..]) == 2 * Size(r) + 1 + Weight(q[1..][1..]);
  }

  lemma {:induction false} VisitsAppend<T>(a: seq<Entry<T>>, b: seq<Entry<T>>)
    ensures Visits(a + b) == Visits(a) + Visits(b)
  {
    if a != [] {
      assert (a + b)[1..] == a[1..] + b;
      VisitsAppend(a[1..], b);
    } else {
      assert a + b == b;
    }
  }

  lemma {:induction false} ChildrenAppend<T>(a: seq<Entry<T>>, b: seq<Entry<T>>)
    ensures Children(a + b) == Children(a) + Children(b)
  {
    if a != [] {
      assert (a + b)[1..] == a[1..] + b;
      ChildrenAppend(a[1..], b);
    } else {
      assert a + b == b;
    }
  }

  /**
   * The visits made by popping the queue `q` until it is empty, where each
   * popped node appends its two children at the back.
   */
  function Drain<T>(q: seq<Entry<T>>): seq<Visit<T>>
    decreases Weight(q)
  {
    if q == [] then []
    else
      WeightAppend(q[1..], Expand(q[0]));
      WeightExpand(q[0]);
      Popped(q[0]) + Drain(q[1..] + Expand(q[0]))
  }

  /**
   * FIFO order: whatever stands in front of `r` is visited first, and the
   * children it pushes are visited after `r`.
   */
  lemma {:induction false} DrainSplit<T>(q: seq<Entry<T>>, r: seq<Entry<T>>)
    ensures Drain(q + r) == Visits(q) + Drain(r + Children(q))
    decreases |q|
  {
    if q == [] {
      assert q + r == r;
      assert r + Children(q) == r;
    } else {
      var e, q' := q[0], q[1..];
      var qr := q + r;
      assert qr != [] && qr[0] == e;
      assert Drain(qr) == Popped(e) + Drain(qr[1..] + Expand(e));
      assert qr[1..] + Expand(e) == q' + (r + Expand(e));
      DrainSplit(q', r + Expand(e));
      assert Visits(q) == Popped(e) + Visits(q');
      assert Children(q) == Expand(e) + Children(q');
      assert r + Expand(e) + Children(q') == r + Children(q);
    }
  }

  /** The entries at depth `d` below `t`, absent children included, left to right. */
  function Frontier<T>(t: Tree<T>, d: nat, h: int): seq<Entry<T>>
  {
    if d == 0 then [(t, h)]
    else
      match t
      case Nil => []
      case Node(_, l, r) => Frontier(l, d - 1, h - 1) + Frontier(r, d - 1, h + 1)
  }

  lemma {:induction false} FrontierChildren<T>(t: Tree<T>, d: nat, h: int)
    ensures Children(Frontier(t, d, h)) == Frontier(t, d + 1, h)
  {
    if d == 0 {
      assert Children(Frontier(t, d, h)) == Expand((t, h)) + Children([]);
    } else {
      match t
      case Nil =>
      case Node(_, l, r) =>
        ChildrenAppend(Frontier(l, d - 1, h - 1), Frontier(r, d - 1, h + 1));
        FrontierChildren(l, d - 1, h - 1);
        FrontierChildren(r, d - 1, h + 1);
    }
  }

  lemma {:induction false} FrontierVisits<T>(t: Tree<T>, d: nat, h: int)
    ensures Visits(Frontier(t, d, h)) == LevelNodes(t, d, h)
  {
    if d == 0 {
      assert Visits(Frontier(t, d, h)) == Popped((t, h)) + Visits([]);
    } else {
      match t
      case Nil =>
      case Node(_, l, r) =>
        VisitsAppend(Frontier(l, d - 1, h - 1), Frontier(r, d - 1, h + 1));
        FrontierVisits(l, d - 1, h - 1);
        FrontierVisits(r, d - 1, h + 1);
    }
  }

  lemma {:induction false} FrontierBeyondHeight<T>(t: Tree<T>, d: nat, h: int)
    requires d > Height(t)
    ensures Frontier(t, d, h) == []
  {
    match t
    case Nil =>
    case Node(_, l, r) =>
      FrontierBeyondHeight(l, d - 1, h - 1);
      FrontierBeyondHeight(r, d - 1, h + 1);
  }

  lemma {:induction false} DrainFrontier<T>(t: Tree<T>, d: nat)
    requires d <= Height(t)
    ensures Drain(Frontier(t, d, 0)) == Levels(t, d, Height(t), 0)
    decreases Height(t) - d
  {
    var f := Frontier(t, d, 0);
    DrainSplit(f, []);
    assert f + [] == f;
    assert [] + Children(f) == Children(f);
    FrontierChildren(t, d, 0);
    FrontierVisits(t, d, 0);
    if d == Height(t) {
      FrontierBeyondHeight(t, d + 1, 0);
      LevelNodesBeyondHeight(t, d, 0);
    } else {
      DrainFrontier(t, d + 1);
    }
  }

  /** Draining the queue that holds only the root at distance 0 visits the tree in level order. */
  lemma {:induction false} BreadthFirstIsLevelOrder<T>(t: Tree<T>)
    ensures Drain([(t, 0)]) == LevelOrder(t)
  {
    DrainFrontier(t, 0);
  }

  // ---------------------------------------------------------------------
  // Buckets by horizontal distance
  // ---------------------------------------------------------------------

  /** The visits of `s` at horizontal distance `k`, in the order of `s`. */
  function Column<T>(s: seq<Visit<T>>, k: int): seq<Visit<T>>
  {
    if s == [] then []
    else Column(s[..|s| - 1], k) + (if s[|s| - 1].1 == k then [s[|s| - 1]] else [])
  }

  /** The horizontal distances occurring in `s`. */
  function Distances<T>(s: seq<Visit<T>>): set<int>
  {
    if s == [] then {} else Distances(s[..|s| - 1]) + {s[|s| - 1].1}
  }

  /** Every visit in column `k` is at distance `k`. */
  lemma {:induction false} ColumnAt<T>(s: seq<Visit<T>>, k: int)
    ensures forall i :: 0 <= i < |Column(s, k)| ==> Column(s, k)[i].1 == k
    decreases |s|
  {
    if s != [] {
      ColumnAt(s[..|s| - 1], k);
    }
  }

  /** Every distance occurring in `s` is among its distances. */
  lemma {:induction false} DistancesContain<T>(s: seq<Visit<T>>)
    ensures forall i :: 0 <= i < |s| ==> s[i].1 in Distances(s)
    decreases |s|
  {
    if s != [] {
      var s' := s[..|s| - 1];
      DistancesContain(s');
      forall i | 0 <= i < |s| ensures s[i].1 in Distances(s) {
        if i < |s'| {
          assert s[i] == s'[i];
        }
      }
    }
  }

  /** The columns of `s` for the distances `ks`, concatenated in the order of `ks`. */
  function Columns<T>(s: seq<Visit<T>>, ks: seq<int>): seq<Visit<T>>
  {
    if ks == [] then [] else Columns(s, ks[..|ks| - 1]) + Column(s, ks[|ks| - 1])
  }

  ghost predicate Increasing(ks: seq<int>)
  {
    forall i, j :: 0 <= i < j < |ks| ==> ks[i] < ks[j]
  }

  ghost predicate Distinct(ks: seq<int>)
  {
    forall i, j :: 0 <= i < j < |ks| ==> ks[i] != ks[j]
  }

  lemma {:induction false} NonEmptyHasElement(s: set<int>)
    requires s != {}
    ensures exists x :: x in s
  {
    assert (forall x :: x !in s) ==> s == {};
  }

  /** The least element of a non-empty set of distances. */
  ghost function SetMin(s: set<int>): (m: int)
    requires s != {}
    ensures m in s && forall y :: y in s ==> m <= y
    decreases |s|
  {
    NonEmptyHasElement(s);
    var x :| x in s;
    var rest := s - {x};
    if rest == {} then
      assert forall y :: y in s ==> y == x || y in rest;
      x
    else
      var m := SetMin(rest);
      assert forall y :: y in s ==> y == x || y in rest;
      if x < m then x else m
  }

  lemma {:induction false} MinExists(s: set<int>)
    requires s != {}
    ensures exists m :: m in s && forall y :: y in s ==> m <= y
  {
    var m := SetMin(s);
  }

  /** Python's `sorted` of a set of map keys: the keys in strictly ascending order. */
  function SortedKeys(s: set<int>): (ks: seq<int>)
    ensures Increasing(ks)
    ensures forall k :: k in ks <==> k in s
    decreases s
  {
    if s == {} then []
    else
      MinExists(s);
      var m :| m in s && forall y :: y in s ==> m <= y;
      [m] + SortedKeys(s - {m})
  }

  lemma {:induction false} ColumnAppend<T>(a: seq<Visit<T>>, b: seq<Visit<T>>, k: int)
    ensures Column(a + b, k) == Column(a, k) + Column(b, k)
    decreases |b|
  {
    if b == [] {
      assert a + b == a;
    } else {
      var b' := b[..|b| - 1];
      assert (a + b)[..|a + b| - 1] == a + b';
      assert (a + b)[|a + b| - 1] == b[|b| - 1];
      ColumnAppend(a, b', k);
    }
  }

  lemma {:induction false} ColumnOfColumn<T>(s: seq<Visit<T>>, k: int, k': int)
    ensures Column(Column(s, k'), k) == if k == k' then Column(s, k) else []
    decreases |s|
  {
    if s != [] {
      var s' := s[..|s| - 1];
      var e := s[|s| - 1];
      ColumnOfColumn(s', k, k');
      ColumnAppend(Column(s', k'), if e.1 == k' then [e] else [], k);
      if e.1 == k' {
        assert Column([e], k) == Column([], k) + (if e.1 == k then [e] else []);
        assert [e][..0] == [];
      }
    }
  }

  lemma {:induction false} ColumnsDistances<T>(s: seq<Visit<T>>, ks: seq<int>)
    ensures forall i :: 0 <= i < |Columns(s, ks)| ==> Columns(s, ks)[i].1 in ks
    decreases |ks|
  {
    if ks != [] {
      var ks' := ks[..|ks| - 1];
      ColumnsDistances(s, ks');
      ColumnAt(s, ks[|ks| - 1]);
      assert forall k :: k in ks' ==> k in ks;
      var c := Columns(s, ks);
      assert c == Columns(s, ks') + Column(s, ks[|ks| - 1]);
      forall i | 0 <= i < |c| ensures c[i].1 in ks {
        if i >= |Columns(s, ks')| {
          assert c[i] == Column(s, ks[|ks| - 1])[i - |Columns(s, ks')|];
        }
      }
    }
  }

  /** Concatenating columns for ascending distances gives a listing sorted by distance. */
  lemma {:induction false} ColumnsSorted<T>(s: seq<Visit<T>>, ks: seq<int>)
    requires Increasing(ks)
    ensures forall i, j :: 0 <= i < j < |Columns(s, ks)| ==> Columns(s, ks)[i].1 <= Columns(s, ks)[j].1
    decreases |ks|
  {
    if ks != [] {
      var ks' := ks[..|ks| - 1];
      var last := ks[|ks| - 1];
      ColumnsSorted(s, ks');
      ColumnsDistances(s, ks');
      ColumnAt(s, last);
      var front := Columns(s, ks');
      var back := Column(s, last);
      var c := Columns(s, ks);
      assert c == front + back;
      forall i, j | 0 <= i < j < |c| ensures c[i].1 <= c[j].1 {
        if j >= |front| {
          assert c[j] == back[j - |front|];
          if i < |front| {
            assert c[i] == front[i];
            assert c[i].1 in ks';
          } else {
            assert c[i] == back[i - |front|];
          }
        } else {
          assert c[i] == front[i] && c[j] == front[j];
        }
      }
    }
  }

  /** Picking column `k` out of the concatenated columns recovers it unchanged. */
  lemma {:induction false} ColumnsSelect<T>(s: seq<Visit<T>>, ks: seq<int>, k: int)
    requires Distinct(ks)
    ensures Column(Columns(s, ks), k) == if k in ks then Column(s, k) else []
    decreases |ks|
  {
    if ks != [] {
      var ks' := ks[..|ks| - 1];
      var last := ks[|ks| - 1];
      assert Distinct(ks');
      ColumnsSelect(s, ks', k);
      ColumnAppend(Columns(s, ks'), Column(s, last), k);
      ColumnOfColumn(s, k, last);
      assert k in ks <==> k in ks' || k == last;
      if k == last {
        assert k !in ks';
      }
    }
  }

  lemma {:induction false} ColumnsSnoc<T>(s: seq<Visit<T>>, e: Visit<T>, ks: seq<int>)
    requires Distinct(ks)
    ensures multiset(Columns(s + [e], ks))
         == multiset(Columns(s, ks)) + if e.1 in ks then multiset{e} else multiset{}
    decreases |ks|
  {
    if ks != [] {
      var ks' := ks[..|ks| - 1];
      var last := ks[|ks| - 1];
      assert Distinct(ks');
      ColumnsSnoc(s, e, ks');
      assert (s + [e])[..|s + [e]| - 1] == s;
      assert e.1 in ks <==> e.1 in ks' || e.1 == last;
      if e.1 == last {
        assert e.1 !in ks';
      }
    }
  }

  /** Concatenating the columns of all distances of `s`, each once, permutes `s`. */
  lemma {:induction false} ColumnsPermutation<T>(s: seq<Visit<T>>, ks: seq<int>)
    requires Distinct(ks)
    requires forall i :: 0 <= i < |s| ==> s[i].1 in ks
    ensures multiset(Columns(s, ks)) == multiset(s)
    decreases |s|
  {
    if s == [] {
      ColumnsOfEmpty<T>(ks);
    } else {
      var s' := s[..|s| - 1];
      var e := s[|s| - 1];
      assert s == s' + [e];
      ColumnsPermutation(s', ks);
      ColumnsSnoc(s', e, ks);
    }
  }

  lemma {:induction false} ColumnsOfEmpty<T>(ks: seq<int>)
    ensures Columns<T>([], ks) == []
    decreases |ks|
  {
    if ks != [] {
      ColumnsOfEmpty<T>(ks[..|ks| - 1]);
    }
  }

  // ---------------------------------------------------------------------
  // What verticalOrder returns, and what is proved about it
  // ---------------------------------------------------------------------

  /**
   * The vertical order of `t`, tagged with distances: the level order
   * split into columns by distance, the columns in ascending order.
   */
  function VerticalSpec<T>(t: Tree<T>): seq<Visit<T>>
  {
    var bfs := LevelOrder(t);
    Columns(bfs, SortedKeys(Distances(bfs)))
  }

  /** Along the output, horizontal distances never decrease. */
  lemma {:induction false} VerticalSorted<T>(t: Tree<T>)
    ensures forall i, j :: 0 <= i < j < |VerticalSpec(t)| ==> VerticalSpec(t)[i].1 <= VerticalSpec(t)[j].1
  {
    var bfs := LevelOrder(t);
    ColumnsSorted(bfs, SortedKeys(Distances(bfs)));
  }

  /** Every node appears exactly once, under its true horizontal distance. */
  lemma {:induction false} VerticalPermutation<T>(t: Tree<T>)
    ensures multiset(VerticalSpec(t)) == multiset(Tagged(t, 0))
    ensures |VerticalSpec(t)| == Size(t)
    ensures multiset(Data(VerticalSpec(t))) == Elements(t)
  {
    var bfs := LevelOrder(t);
    DistancesContain(bfs);
    ColumnsPermutation(bfs, SortedKeys(Distances(bfs)));
    LevelOrderPermutation(t);
    TaggedSize(t, 0);
    DataPermutation(VerticalSpec(t), Tagged(t, 0));
    assert |VerticalSpec(t)| == |multiset(VerticalSpec(t))|;
    assert |Tagged(t, 0)| == |multiset(Tagged(t, 0))|;
  }

  /** Within one horizontal distance, nodes keep their level order. */
  lemma {:induction false} VerticalColumnInLevelOrder<T>(t: Tree<T>, k: int)
    ensures Column(VerticalSpec(t), k) == Column(LevelOrder(t), k)
  {
    var bfs := LevelOrder(t);
    var ks := SortedKeys(Distances(bfs));
    ColumnsSelect(bfs, ks, k);
    if k !in ks {
      ColumnAbsent(bfs, k);
    }
  }

  lemma {:induction false} ColumnAbsent<T>(s: seq<Visit<T>>, k: int)
    requires k !in Distances(s)
    ensures Column(s, k) == []
    decreases |s|
  {
    if s != [] {
      ColumnAbsent(s[..|s| - 1], k);
    }
  }

  // ---------------------------------------------------------------------
  // The distance-to-bucket map
  // ---------------------------------------------------------------------

  /** `vertMap[k]` with Python's `defaultdict(list)`: a missing key reads as an empty bucket. */
  function Bucket<T>(vertMap: map<int, seq<T>>, k: int): seq<T>
  {
    if k in vertMap then vertMap[k] else []
  }

  /** `vertMap` holds one bucket per distance met in `s`: that column's data, in the order of `s`. */
  ghost predicate BucketsOf<T>(vertMap: map<int, seq<T>>, s: seq<Visit<T>>)
  {
    && vertMap.Keys == Distances(s)
    && forall k :: k in vertMap ==> vertMap[k] == Data(Column(s, k))
  }

  /** Appending a node's data to the bucket of its distance keeps the map equal to the columns. */
  lemma {:induction false} AppendToBucket<T>(vertMap: map<int, seq<T>>, s: seq<Visit<T>>, x: T, h: int)
    requires BucketsOf(vertMap, s)
    ensures BucketsOf(vertMap[h := Bucket(vertMap, h) + [x]], s + [(x, h)])
  {
    var s' := s + [(x, h)];
    var m' := vertMap[h := Bucket(vertMap, h) + [x]];
    assert s'[..|s'| - 1] == s;
    assert m'.Keys == Distances(s');
    forall k | k in m' ensures m'[k] == Data(Column(s', k)) {
      DataAppend(Column(s, k), if h == k then [(x, h)] else []);
      if k != h {
        assert Data<T>([]) == [];
      } else if h !in Distances(s) {
        ColumnAbsent(s, k);
      }
    }
  }

  /** The map `m` after one `m[h].append(x)` per visit `(x, h)` of `s`, in order. */
  function AppendAll<T>(m: map<int, seq<T>>, s: seq<Visit<T>>): map<int, seq<T>>
    decreases |s|
  {
    if s == [] then m
    else AppendAll(m[s[0].1 := Bucket(m, s[0].1) + [s[0].0]], s[1..])
  }

  /** Appending the visits `s` to buckets that hold the columns of `p` leaves the columns of `p + s`. */
  lemma {:induction false} AppendAllColumns<T>(m: map<int, seq<T>>, p: seq<Visit<T>>, s: seq<Visit<T>>)
    requires BucketsOf(m, p)
    ensures BucketsOf(AppendAll(m, s), p + s)
    decreases |s|
  {
    if s == [] {
      assert p + s == p;
    } else {
      var e := s[0];
      var m' := m[e.1 := Bucket(m, e.1) + [e.0]];
      AppendToBucket(m, p, e.0, e.1);
      AppendAllColumns(m', p + [e], s[1..]);
      assert p + [e] + s[1..] == p + s;
      SameBuckets(AppendAll(m', s[1..]), AppendAll(m, s), p + [e] + s[1..], p + s);
    }
  }

  lemma {:induction false} SameBuckets<T>(m: map<int, seq<T>>, m': map<int, seq<T>>, s: seq<Visit<T>>, s': seq<Visit<T>>)
    requires BucketsOf(m, s) && m == m' && s == s'
    ensures BucketsOf(m', s')
  {
  }

  /**
   * Starting from an empty map, the appends made along the breadth-first
   * walk leave one bucket per distance, holding that column of the level order.
   */
  lemma {:induction false} WalkBuckets<T>(root: Tree<T>)
    ensures BucketsOf(AppendAll(map[], Drain([(root, 0)])), LevelOrder(root))
  {
    BreadthFirstIsLevelOrder(root);
    var none: seq<Visit<T>> := [];
    assert BucketsOf(map[], none);
    AppendAllColumns(map[], none, LevelOrder(root));
    assert none + LevelOrder(root) == LevelOrder(root);
  }

  /** Every sorted key is a key of the map it was taken from. */
  lemma {:induction false} SortedKeyInMap<T>(vertMap: map<int, seq<T>>, keys: seq<int>, i: nat)
    requires keys == SortedKeys(vertMap.Keys) && i < |keys|
    ensures keys[i] in vertMap
  {
    assert keys[i] in keys;
  }

  /** Extending the output by the bucket of the next sorted key adds that column of the level order. */
  lemma {:induction false} ExtendByBucket<T>(root: Tree<T>, vertMap: map<int, seq<T>>, keys: seq<int>, i: nat)
    requires vertMap == AppendAll(map[], Drain([(root, 0)]))
    requires i < |keys| && keys[i] in vertMap
    ensures Data(Columns(LevelOrder(root), keys[..i + 1])) == Data(Columns(LevelOrder(root), keys[..i])) + vertMap[keys[i]]
  {
    WalkBuckets(root);
    assert keys[..i + 1][..i] == keys[..i];
    DataAppend(Columns(LevelOrder(root), keys[..i]), Column(LevelOrder(root), keys[i]));
  }

  /** Popping the front entry of the queue: its visit comes first, its children go to the back. */
  lemma {:induction false} PopFront<T>(q: seq<Entry<T>>)
    requires q != []
    ensures Drain(q) == Popped(q[0]) + Drain(q[1..] + Expand(q[0]))
    ensures Weight(q[1..] + Expand(q[0])) < Weight(q)
  {
    WeightAppend(q[1..], Expand(q[0]));
    WeightExpand(q[0]);
  }

  /** Once the buckets are flattened in sorted key order, the result is the vertical order of the tree. */
  lemma {:induction false} FlattenedBuckets<T>(root: Tree<T>, vertMap: map<int, seq<T>>, keys: seq<int>, out: seq<T>)
    requires vertMap == AppendAll(map[], Drain([(root, 0)]))
    requires keys == SortedKeys(vertMap.Keys) && out == Data(Columns(LevelOrder(root), keys))
    ensures out == Data(VerticalSpec(root))
    ensures |out| == Size(root) && multiset(out) == Elements(root)
  {
    WalkBuckets(root);
    VerticalPermutation(root);
  }

  /** Popping an absent child visits nothing and pushes nothing, and lowers the weight. */
  lemma {:induction false} PopNil<T>(q: seq<Entry<T>>)
    requires q != [] && q[0].0 == Nil
    ensures Drain(q[1..]) == Drain(q) && Weight(q[1..]) < Weight(q)
  {
    PopFront(q);
    assert q[1..] + Expand(q[0]) == q[1..];
  }

  /**
   * Popping a node appends its data to the bucket of its distance and pushes
   * both children at the back: the appends of the rest of the walk then
   * complete the same map, and the weight goes down.
   */
  lemma {:induction false} PopNode<T>(q: seq<Entry<T>>, m: map<int, seq<T>>)
    requires q != [] && q[0].0 != Nil
    ensures var (t, h) := q[0];
      && AppendAll(m[h := Bucket(m, h) + [t.data]], Drain(q[1..] + [(t.left, h - 1), (t.right, h + 1)])) == AppendAll(m, Drain(q))
      && Weight(q[1..] + [(t.left, h - 1), (t.right, h + 1)]) < Weight(q)
  {
    PopFront(q);
    var (t, h) := q[0];
    var rest := Drain(q[1..] + [(t.left, h - 1), (t.right, h + 1)]);
    assert Drain(q) == [(t.data, h)] + rest;
    assert ([(t.data, h)] + rest)[1..] == rest;
  }

  /**
   * The breadth-first loop of verticalOrder: pops (node, distance) pairs
   * from the front of a FIFO queue, appends each node's data to the bucket
   * of its distance, and pushes both children (absent ones too) at the
   * back. The map it leaves is the one the appends of the whole
   * breadth-first walk build from an empty map.
   */
  method FillBuckets<T>(root: Tree<T>) returns (vertMap: map<int, seq<T>>)
    ensures vertMap == AppendAll(map[], Drain([(root, 0)]))
  {
    vertMap := map[];
    var queue: seq<Entry<T>> := [(root, 0)];
    ghost var final := AppendAll(vertMap, Drain(queue));

    while queue != []
      invariant AppendAll(vertMap, Drain(queue)) == final
      decreases Weight(queue)
    {
      var node, horDist := queue[0].0, queue[0].1;
      if node != Nil {
        PopNode(queue, vertMap);
        queue := queue[1..];
        vertMap := vertMap[horDist := Bucket(vertMap, horDist) + [node.data]];
        queue := queue + [(node.left, horDist - 1), (node.right, horDist + 1)];
      } else {
        PopNil(queue);
        queue := queue[1..];
      }
    }
  }

  /**
   * verticalOrder: None for an empty tree, otherwise the node data in
   * vertical order, buckets in ascending distance, breadth-first within a
   * bucket.
   */
  method VerticalOrder<T>(root: Tree<T>) returns (res: Option<seq<T>>)
    ensures root == Nil <==> res == None
    ensures res.Some? ==> res.value == Data(VerticalSpec(root))
    ensures res.Some? ==> |res.value| == Size(root) && multiset(res.value) == Elements(root)
  {
    if root == Nil {
      return None;
    }
    var vertMap := FillBuckets(root);

    // Flatten: the buckets' contents, one bucket per key, keys ascending
    var keys := SortedKeys(vertMap.Keys);
    var out: seq<T> := [];
    for i := 0 to |keys|
      invariant out == Data(Columns(LevelOrder(root), keys[..i]))
    {
      SortedKeyInMap(vertMap, keys, i);
      ExtendByBucket(root, vertMap, keys, i);
      out := out + vertMap[keys[i]];
    }
    assert keys[..|keys|] == keys;
    FlattenedBuckets(root, vertMap, keys, out);
    return Some(out);
  }
}
