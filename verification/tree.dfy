/** An unbalanced binary search tree of ints with an iterative insert and a
    level-by-level walk (tree.c).

    Nodes are heap objects whose links tree_add rewrites in place. The
    ghost datatype Shape describes the tree hanging from a pointer: which
    node sits where and the value it holds. Linked ties a pointer and a
    Shape to the heap, and every other property is stated on shapes. */
module Tree {
  import opened Optional

  class Node {
    var left: Node?
    var right: Node?
    var data: int

    /** The malloc'd node of tree_add: no children, holding val. */
    constructor (val: int)
      ensures left == null && right == null && data == val
    {
      left, right, data := null, null, val;
    }
  }

  /** The tree below a pointer: Nil for NULL, otherwise the node, its left
      subtree, its data and its right subtree. */
  datatype Shape = Nil | Cell(node: Node, left: Shape, data: int, right: Shape)

  function Nodes(s: Shape): set<Node> {
    match s
    case Nil => {}
    case Cell(n, l, _, r) => {n} + Nodes(l) + Nodes(r)
  }

  /** No node appears twice, so the shape is a tree and not a DAG. */
  predicate Distinct(s: Shape) {
    match s
    case Nil => true
    case Cell(n, l, _, r) =>
      Distinct(l) && Distinct(r) &&
      n !in Nodes(l) && n !in Nodes(r) && Nodes(l) !! Nodes(r)
  }

  function Values(s: Shape): multiset<int> {
    match s
    case Nil => multiset{}
    case Cell(_, l, d, r) => Values(l) + multiset{d} + Values(r)
  }

  function Size(s: Shape): nat {
    match s
    case Nil => 0
    case Cell(_, l, _, r) => Size(l) + 1 + Size(r)
  }

  function Height(s: Shape): nat {
    match s
    case Nil => 0
    case Cell(_, l, _, r) => 1 + (if Height(l) < Height(r) then Height(r) else Height(l))
  }

  /** The ordering tree_add keeps: left values are smaller than the node,
      right values are at least the node. */
  predicate IsBst(s: Shape) {
    match s
    case Nil => true
    case Cell(_, l, d, r) =>
      IsBst(l) && IsBst(r) &&
      (forall x | x in Values(l) :: x < d) &&
      (forall x | x in Values(r) :: d <= x)
  }

  function Root(s: Shape): Node? {
    if s.Nil? then null else s.node
  }

  /** The heap from p down has shape s. */
  ghost predicate Linked(p: Node?, s: Shape)
    reads Nodes(s)
  {
    match s
    case Nil => p == null
    case Cell(n, l, d, r) => p == n && n.data == d && Linked(n.left, l) && Linked(n.right, r)
  }

  /** What tree_add does to the shape: the new node x, a leaf holding v, goes
      where the search for v falls off the tree (right when the node's data
      is at most v, left otherwise). */
  function Added(s: Shape, v: int, x: Node): (t: Shape)
    ensures t.Cell?
  {
    match s
    case Nil => Cell(x, Nil, v, Nil)
    case Cell(n, l, d, r) =>
      if d <= v then Cell(n, l, d, Added(r, v, x)) else Cell(n, Added(l, v, x), d, r)
  }

  /** Replaces the leaf node x by NULL; the inverse of Added. */
  function DropLeaf(s: Shape, x: Node): Shape {
    match s
    case Nil => Nil
    case Cell(n, l, d, r) =>
      if n == x && l.Nil? && r.Nil? then Nil else Cell(n, DropLeaf(l, x), d, DropLeaf(r, x))
  }

  /** Inserting adds exactly one occurrence of v and keeps every other value. */
  lemma {:induction false} AddedValues(s: Shape, v: int, x: Node)
    ensures Values(Added(s, v, x)) == Values(s) + multiset{v}
  {
    match s
    case Nil =>
    case Cell(n, l, d, r) =>
      if d <= v {
        AddedValues(r, v, x);
        assert Values(Added(s, v, x)) == Values(l) + multiset{d} + (Values(r) + multiset{v});
      } else {
        AddedValues(l, v, x);
        assert Values(Added(s, v, x)) == (Values(l) + multiset{v}) + multiset{d} + Values(r);
      }
  }

  lemma {:induction false} AddedSize(s: Shape, v: int, x: Node)
    ensures Size(Added(s, v, x)) == Size(s) + 1
  {
    match s
    case Nil =>
    case Cell(n, l, d, r) =>
      if d <= v { AddedSize(r, v, x); } else { AddedSize(l, v, x); }
  }

  lemma {:induction false} AddedNodes(s: Shape, v: int, x: Node)
    ensures Nodes(Added(s, v, x)) == Nodes(s) + {x}
  {
    match s
    case Nil =>
    case Cell(n, l, d, r) =>
      if d <= v { AddedNodes(r, v, x); } else { AddedNodes(l, v, x); }
  }

  lemma {:induction false} AddedDistinct(s: Shape, v: int, x: Node)
    requires Distinct(s) && x !in Nodes(s)
    ensures Distinct(Added(s, v, x))
  {
    match s
    case Nil =>
    case Cell(n, l, d, r) =>
      if d <= v {
        AddedDistinct(r, v, x);
        AddedNodes(r, v, x);
      } else {
        AddedDistinct(l, v, x);
        AddedNodes(l, v, x);
      }
  }

  /** Inserting keeps the search-tree order, duplicates included. */
  lemma {:induction false} AddedBst(s: Shape, v: int, x: Node)
    requires IsBst(s)
    ensures IsBst(Added(s, v, x))
  {
    match s
    case Nil =>
    case Cell(n, l, d, r) =>
      if d <= v {
        AddedBst(r, v, x);
        AddedValues(r, v, x);
      } else {
        AddedBst(l, v, x);
        AddedValues(l, v, x);
      }
  }

  /** Exactly one NULL link was replaced by a leaf: removing that leaf gives
      back the old tree, links and data unchanged. */
  lemma {:induction false} DropAdded(s: Shape, v: int, x: Node)
    requires x !in Nodes(s)
    ensures DropLeaf(Added(s, v, x), x) == s
  {
    match s
    case Nil =>
    case Cell(n, l, d, r) =>
      if d <= v {
        DropAdded(r, v, x);
        DropAbsent(l, x);
      } else {
        DropAdded(l, v, x);
        DropAbsent(r, x);
      }
  }

  lemma {:induction false} DropAbsent(s: Shape, x: Node)
    requires x !in Nodes(s)
    ensures DropLeaf(s, x) == s
  {
    match s
    case Nil =>
    case Cell(n, l, d, r) =>
      DropAbsent(l, x);
      DropAbsent(r, x);
  }

  /** One step of the walk down: the node passed, the side taken, the
      subtree left behind on the other side, and the node's data. */
  datatype Frame = Frame(node: Node, wentRight: bool, sibling: Shape, data: int)

  function Attach(f: Frame, s: Shape): Shape {
    if f.wentRight then Cell(f.node, f.sibling, f.data, s) else Cell(f.node, s, f.data, f.sibling)
  }

  /** The whole tree, from the path walked so far and the subtree below it. */
  function Plug(path: seq<Frame>, s: Shape): Shape
    decreases |path|
  {
    if path == [] then s else Plug(path[..|path| - 1], Attach(path[|path| - 1], s))
  }

  function PathNodes(path: seq<Frame>): set<Node>
    decreases |path|
  {
    if path == [] then {}
    else PathNodes(path[..|path| - 1]) + {path[|path| - 1].node} + Nodes(path[|path| - 1].sibling)
  }

  /** The heap along the path from root: each node passed links, on the side
      taken, to the next one and finally to hole. */
  ghost predicate LinkedPath(path: seq<Frame>, root: Node?, hole: Node?)
    reads PathNodes(path)
    decreases |path|
  {
    if path == [] then root == hole
    else
      var f := path[|path| - 1];
      LinkedPath(path[..|path| - 1], root, f.node) &&
      f.node.data == f.data &&
      if f.wentRight then f.node.right == hole && Linked(f.node.left, f.sibling)
      else f.node.left == hole && Linked(f.node.right, f.sibling)
  }

  lemma {:induction false} PlugLinked(path: seq<Frame>, root: Node?, s: Shape)
    requires LinkedPath(path, root, Root(s)) && Linked(Root(s), s)
    ensures Linked(root, Plug(path, s))
    decreases |path|
  {
    if path != [] {
      var f := path[|path| - 1];
      PlugLinked(path[..|path| - 1], root, Attach(f, s));
    }
  }

  lemma NodesAllocated(s: Shape)
    ensures forall n :: n in Nodes(s) ==> allocated(n)
  {
  }

  /** tree_add: walks down from root, taking the right link when the node's
      data is at most val and the left one otherwise, and splices a new leaf
      holding val into the first NULL link it meets. Returns the new leaf
      for an empty tree and root otherwise. */
  method TreeAdd(root: Node?, val: int, ghost s: Shape) returns (newRoot: Node, ghost x: Node)
    requires Linked(root, s) && Distinct(s)
    modifies Nodes(s)
    ensures fresh(x) && x !in Nodes(s)
    ensures Linked(newRoot, Added(s, val, x)) && Distinct(Added(s, val, x))
    ensures root == null ==> newRoot == x
    ensures root != null ==> newRoot == root
  {
    NodesAllocated(s);
    var n := new Node(val);
    x := n;
    AddedDistinct(s, val, n);
    if root == null {
      newRoot := n;
      return;
    }
    newRoot := root;
    var t: Node := root;
    ghost var path: seq<Frame> := [];
    ghost var sub := s;
    while true
      invariant sub.Cell? && sub.node == t
      invariant Plug(path, sub) == s
      invariant Added(s, val, n) == Plug(path, Added(sub, val, n))
      invariant Nodes(sub) <= Nodes(s) && PathNodes(path) <= Nodes(s) && Distinct(sub) && PathNodes(path) !! Nodes(sub)
      invariant LinkedPath(path, root, t) && Linked(t, sub)
      decreases Size(sub)
    {
      var f := Frame(t, t.data <= val, if t.data <= val then sub.left else sub.right, sub.data);
      assert Attach(f, if f.wentRight then sub.right else sub.left) == sub;
      assert (path + [f])[..|path|] == path;
      if t.data <= val && t.right != null {
        path, sub := path + [f], sub.right;
        t := t.right;
      } else if t.data > val && t.left != null {
        path, sub := path + [f], sub.left;
        t := t.left;
      } else {
        Hang(root, t, n, path, sub, val);
        break;
      }
    }
  }

  /** The end of tree_add's walk: the NULL link on the side val belongs to
      is set to the new leaf n, which completes the tree. */
  method Hang(ghost root: Node?, t: Node, n: Node, ghost path: seq<Frame>, ghost sub: Shape, val: int)
    requires sub.Cell? && sub.node == t && Distinct(sub)
    requires LinkedPath(path, root, t) && Linked(t, sub) && PathNodes(path) !! Nodes(sub)
    requires if t.data <= val then t.right == null else t.left == null
    requires n !in PathNodes(path) + Nodes(sub) && n.left == null && n.right == null && n.data == val
    modifies t
    ensures Linked(root, Plug(path, Added(sub, val, n)))
  {
    NodesAllocated(sub);
    if t.data <= val {
      t.right := n;
      assert Linked(t.left, sub.left);
      assert Linked(n, Cell(n, Nil, val, Nil));
      assert Added(sub, val, n) == Cell(t, sub.left, sub.data, Cell(n, Nil, val, Nil));
      assert Linked(t, Added(sub, val, n));
    } else {
      t.left := n;
      assert Linked(t.right, sub.right);
      assert Linked(n, Cell(n, Nil, val, Nil));
      assert Added(sub, val, n) == Cell(t, Cell(n, Nil, val, Nil), sub.data, sub.right);
      assert Linked(t, Added(sub, val, n));
    }
    assert LinkedPath(path, root, t);
    PlugLinked(path, root, Added(sub, val, n));
  }

  /** The tree that adding vals one by one, in order, to an empty tree
      gives, the k-th value going into the new node xs[k]. */
  function AddAll(vals: seq<int>, xs: seq<Node>): Shape
    requires |xs| == |vals|
    decreases |vals|
  {
    if vals == [] then Nil
    else Added(AddAll(vals[..|vals| - 1], xs[..|xs| - 1]), vals[|vals| - 1], xs[|xs| - 1])
  }

  /** main's loop, with every input line already converted to an int: adds
      the values one by one, in input order, to an initially empty tree. */
  method BuildTree(vals: seq<int>) returns (root: Node?, ghost s: Shape, ghost xs: seq<Node>)
    ensures |xs| == |vals| && s == AddAll(vals, xs)
    ensures Linked(root, s) && Distinct(s) && IsBst(s)
    ensures Values(s) == multiset(vals)
    ensures root == null <==> vals == []
  {
    root, s, xs := null, Nil, [];
    for i := 0 to |vals|
      invariant Linked(root, s) && fresh(Nodes(s))
      invariant SearchTreeOf(s, vals[..i])
      invariant |xs| == i && s == AddAll(vals[..i], xs)
    {
      ghost var x;
      root, x := TreeAdd(root, vals[i], s);
      AddedFacts(s, vals, i, x);
      AddAllStep(vals, xs, i, x);
      s, xs := Added(s, vals[i], x), xs + [x];
    }
    assert vals[..|vals|] == vals;
  }

  /** Adding the next value extends the fold by one insertion. */
  lemma AddAllStep(vals: seq<int>, xs: seq<Node>, i: nat, x: Node)
    requires i < |vals| && |xs| == i
    ensures AddAll(vals[..i + 1], xs + [x]) == Added(AddAll(vals[..i], xs), vals[i], x)
  {
    assert vals[..i + 1][..i] == vals[..i] && (xs + [x])[..i] == xs;
  }

  lemma PrefixMultiset(vals: seq<int>, i: nat)
    requires i < |vals|
    ensures multiset(vals[..i + 1]) == multiset(vals[..i]) + multiset{vals[i]}
  {
    assert vals[..i + 1] == vals[..i] + [vals[i]];
  }

  ghost predicate SearchTreeOf(s: Shape, vals: seq<int>) {
    Distinct(s) && IsBst(s) && Values(s) == multiset(vals)
  }

  lemma AddedFacts(s: Shape, vals: seq<int>, i: nat, x: Node)
    requires i < |vals| && SearchTreeOf(s, vals[..i]) && Distinct(Added(s, vals[i], x))
    ensures SearchTreeOf(Added(s, vals[i], x), vals[..i + 1])
    ensures Nodes(Added(s, vals[i], x)) == Nodes(s) + {x}
  {
    AddedBst(s, vals[i], x);
    AddedValues(s, vals[i], x);
    AddedNodes(s, vals[i], x);
    PrefixMultiset(vals, i);
  }

  // ---------------------------------------------------------------------
  // Level-order walk (subtree_print / tree_print)

  predicate AllCells(q: seq<Shape>) {
    forall i :: 0 <= i < |q| ==> q[i].Cell?
  }

  /** The non-NULL children of one queued node, left before right. */
  function Kids(s: Shape): seq<Shape> {
    match s
    case Nil => []
    case Cell(_, l, _, r) => Present(l) + Present(r)
  }

  /** A child as a queue entry: nothing for a NULL link. */
  function Present(s: Shape): seq<Shape> {
    if s.Cell? then [s] else []
  }

  /** The next level's queue: the children of each queued node in turn. */
  function Children(q: seq<Shape>): seq<Shape>
    decreases |q|
  {
    if q == [] then [] else Children(q[..|q| - 1]) + Kids(q[|q| - 1])
  }

  /** The values one call prints: the data of each queued node in turn. */
  function Data(q: seq<Shape>): seq<int>
    requires AllCells(q)
    decreases |q|
  {
    if q == [] then [] else Data(q[..|q| - 1]) + [q[|q| - 1].data]
  }

  function ForestSize(q: seq<Shape>): nat
    decreases |q|
  {
    if q == [] then 0 else ForestSize(q[..|q| - 1]) + Size(q[|q| - 1])
  }

  function ForestValues(q: seq<Shape>): multiset<int>
    decreases |q|
  {
    if q == [] then multiset{} else ForestValues(q[..|q| - 1]) + Values(q[|q| - 1])
  }

  /** Each node contributes at most two children, which are cells and
      together hold every node below the queued ones. */
  lemma ChildrenSize(q: seq<Shape>)
    requires AllCells(q)
    ensures AllCells(Children(q))
    ensures |Children(q)| <= 2 * |q|
    ensures ForestSize(Children(q)) + |q| == ForestSize(q)
  {
    ChildrenCells(q);
    ChildrenCount(q);
    ChildrenForestSize(q);
  }

  lemma {:induction false} ChildrenCells(q: seq<Shape>)
    ensures AllCells(Children(q))
    decreases |q|
  {
    if q != [] {
      var init := q[..|q| - 1];
      ChildrenCells(init);
    }
  }

  lemma {:induction false} ChildrenCount(q: seq<Shape>)
    ensures |Children(q)| <= 2 * |q|
    decreases |q|
  {
    if q != [] {
      ChildrenCount(q[..|q| - 1]);
    }
  }

  lemma {:induction false} ChildrenForestSize(q: seq<Shape>)
    requires AllCells(q)
    ensures ForestSize(Children(q)) + |q| == ForestSize(q)
    decreases |q|
  {
    if q != [] {
      var init, last := q[..|q| - 1], q[|q| - 1];
      ChildrenForestSize(init);
      ForestSizeAppend(Children(init), Kids(last));
      KidsSize(last);
    }
  }


  lemma {:induction false} ForestSizeAppend(a: seq<Shape>, b: seq<Shape>)
    ensures ForestSize(a + b) == ForestSize(a) + ForestSize(b)
    decreases |b|
  {
    if b != [] {
      var ab, b' := a + b, b[..|b| - 1];
      assert ab[..|ab| - 1] == a + b' && ab[|ab| - 1] == b[|b| - 1];
      ForestSizeAppend(a, b');
    } else {
      assert a + b == a;
    }
  }

  lemma KidsSize(s: Shape)
    requires s.Cell?
    ensures ForestSize(Kids(s)) + 1 == Size(s)
  {
    ForestSizeAppend(Present(s.left), Present(s.right));
    PresentSize(s.left);
    PresentSize(s.right);
  }

  lemma PresentSize(s: Shape)
    ensures ForestSize(Present(s)) == Size(s)
  {
    if s.Cell? {
      assert [s][..0] == [];
    }
  }

  lemma PrefixStep(q: seq<Shape>, i: nat)
    requires i < |q| && AllCells(q)
    ensures Children(q[..i + 1]) == Children(q[..i]) + Kids(q[i])
    ensures Data(q[..i + 1]) == Data(q[..i]) + [q[i].data]
  {
    assert q[..i + 1][..i] == q[..i];
  }

  /** The pointers ptrs are linked, one by one, to the shapes qs, whose
      nodes all lie in pool. */
  ghost predicate QueueLinked(ptrs: seq<Node?>, qs: seq<Shape>, pool: set<Node>)
    reads pool
  {
    |ptrs| == |qs| &&
    forall k :: 0 <= k < |qs| ==> Nodes(qs[k]) <= pool && Linked(ptrs[k], qs[k])
  }

  /** The non-NULL child pointers of a node, left before right. */
  ghost function KidPointers(p: Node): seq<Node?>
    reads p
  {
    (if p.left != null then [p.left] else []) + (if p.right != null then [p.right] else [])
  }

  /** Queueing the children of a queued node keeps the queue linked. */
  lemma QueueGrows(ptrs: seq<Node?>, qs: seq<Shape>, pool: set<Node>, p: Node, s: Shape)
    requires QueueLinked(ptrs, qs, pool) && Linked(p, s) && s.Cell? && Nodes(s) <= pool
    ensures QueueLinked(ptrs + KidPointers(p), qs + Kids(s), pool)
  {
    var ps, ks := ptrs + KidPointers(p), qs + Kids(s);
    assert Linked(p.left, s.left) && Linked(p.right, s.right);
    forall k | |qs| <= k < |ks|
      ensures Nodes(ks[k]) <= pool && Linked(ps[k], ks[k])
    {
      if k == |qs| && s.left.Cell? {
        assert ps[k] == p.left && ks[k] == s.left;
      } else {
        assert ps[k] == p.right && ks[k] == s.right;
      }
    }
  }

  /** After i queued nodes: next holds their children and line their data,
      and the new queue ptrs is linked to next. */
  ghost predicate Scanned(q: seq<Shape>, i: nat, next: seq<Shape>, line: seq<int>, ptrs: seq<Node?>, pool: set<Node>)
    reads pool
  {
    i <= |q| && AllCells(q) && next == Children(q[..i]) && line == Data(q[..i]) &&
    QueueLinked(ptrs, next, pool)
  }

  /** Visiting the i-th queued node extends the scan by one. */
  lemma ScanStep(queue: seq<Node?>, q: seq<Shape>, pool: set<Node>, i: nat,
                 next: seq<Shape>, line: seq<int>, ptrs: seq<Node?>)
    requires QueueLinked(queue, q, pool) && i < |q| && Scanned(q, i, next, line, ptrs, pool)
    ensures queue[i] != null && Linked(queue[i], q[i])
    ensures Scanned(q, i + 1, next + Kids(q[i]), line + [queue[i].data],
                    ptrs + KidPointers(queue[i]), pool)
  {
    PrefixStep(q, i);
    QueueGrows(ptrs, next, pool, queue[i], q[i]);
  }

  /** The body of subtree_print's loop after the print: appends the node's
      non-NULL children, left first, at position len of the new queue. */
  method EnqueueKids(a: array<Node?>, len: nat, node: Node) returns (len': nat)
    requires len + 2 <= a.Length
    modifies a
    ensures len' <= len + 2
    ensures a[..len'] == old(a[..len]) + KidPointers(node)
  {
    len' := len;
    if node.left != null {
      a[len'] := node.left;
      len' := len' + 1;
    }
    assert a[..len'] == old(a[..len]) + (if node.left != null then [node.left] else []);
    if node.right != null {
      a[len'] := node.right;
      len' := len' + 1;
    }
  }

  /** What subtree_print prints, one level per line: the queued nodes' data,
      then (only while it is non-empty) the levels of the next queue. */
  function Levels(q: seq<Shape>): (ls: seq<seq<int>>)
    requires AllCells(q)
    ensures |ls| >= 1
    decreases ForestSize(q)
  {
    ChildrenSize(q);
    var next := Children(q);
    [Data(q)] + if next == [] then [] else Levels(next)
  }

  /** subtree_print: prints the data of the len queued nodes while queueing
      their non-NULL children (at most 2*len of them) in a fresh array, then
      recurses on that queue if it is non-empty. The printed lines are
      returned as levels. The ghost pool holds every node below the queue. */
  method SubtreePrint(queue: array<Node?>, len: nat, ghost q: seq<Shape>, ghost pool: set<Node>)
    returns (levels: seq<seq<int>>)
    requires len <= queue.Length && AllCells(q) && QueueLinked(queue[..len], q, pool)
    ensures levels == Levels(q)
    decreases ForestSize(q)
  {
    var newLen: nat := 0;
    var newQueue := new Node?[2 * len];
    var line: seq<int> := [];
    ghost var next: seq<Shape> := [];
    for i := 0 to len
      invariant newQueue.Length == 2 * len && newLen <= 2 * i
      invariant Scanned(q, i, next, line, newQueue[..newLen], pool)
    {
      var node := queue[i];
      ScanStep(queue[..len], q, pool, i, next, line, newQueue[..newLen]);
      line := line + [node.data];
      newLen := EnqueueKids(newQueue, newLen, node);
      next := next + Kids(q[i]);
    }
    assert q[..len] == q;
    ChildrenSize(q);
    if newLen > 0 {
      var rest := SubtreePrint(newQueue, newLen, next, pool);
      levels := [line] + rest;
    } else {
      levels := [line];
    }
  }

  /** tree_print: runs subtree_print on the one-element queue holding root
      (which it dereferences, so root must not be NULL). */
  method TreePrint(root: Node, ghost s: Shape) returns (levels: seq<seq<int>>)
    requires Linked(root, s)
    ensures levels == Levels([s])
  {
    var queue := new Node?[1];
    queue[0] := root;
    levels := SubtreePrint(queue, 1, [s], Nodes(s));
  }
  /** The reference for one printed line: the data of the nodes of s at depth
      k (the root is at depth 0), left to right. */
  function AtDepth(s: Shape, k: nat): seq<int> {
    match s
    case Nil => []
    case Cell(_, l, d, r) => if k == 0 then [d] else AtDepth(l, k - 1) + AtDepth(r, k - 1)
  }

  /** The nodes at depth k below each queued node in turn. */
  function ForestAtDepth(q: seq<Shape>, k: nat): seq<int>
    decreases |q|
  {
    if q == [] then [] else ForestAtDepth(q[..|q| - 1], k) + AtDepth(q[|q| - 1], k)
  }

  lemma {:induction false} ForestAtDepthAppend(a: seq<Shape>, b: seq<Shape>, k: nat)
    ensures ForestAtDepth(a + b, k) == ForestAtDepth(a, k) + ForestAtDepth(b, k)
    decreases |b|
  {
    if b != [] {
      var ab, b' := a + b, b[..|b| - 1];
      assert ab[..|ab| - 1] == a + b' && ab[|ab| - 1] == b[|b| - 1];
      ForestAtDepthAppend(a, b', k);
    } else {
      assert a + b == a;
    }
  }

  /** Depth 0 of a queue of cells is the queued nodes' own data. */
  lemma {:induction false} DepthZero(q: seq<Shape>)
    requires AllCells(q)
    ensures ForestAtDepth(q, 0) == Data(q)
    decreases |q|
  {
    if q != [] {
      DepthZero(q[..|q| - 1]);
    }
  }

  /** Depth k + 1 below a queue is depth k below its children. */
  lemma {:induction false} DepthNext(q: seq<Shape>, k: nat)
    ensures ForestAtDepth(q, k + 1) == ForestAtDepth(Children(q), k)
    decreases |q|
  {
    if q != [] {
      var init, last := q[..|q| - 1], q[|q| - 1];
      DepthNext(init, k);
      ForestAtDepthAppend(Children(init), Kids(last), k);
      KidsAtDepth(last, k);
    }
  }

  lemma KidsAtDepth(s: Shape, k: nat)
    ensures ForestAtDepth(Kids(s), k) == AtDepth(s, k + 1)
  {
    if s.Cell? {
      ForestAtDepthAppend(Present(s.left), Present(s.right), k);
      PresentAtDepth(s.left, k);
      PresentAtDepth(s.right, k);
    }
  }

  lemma PresentAtDepth(s: Shape, k: nat)
    ensures ForestAtDepth(Present(s), k) == AtDepth(s, k)
  {
    if s.Cell? {
      assert [s][..0] == [];
    }
  }

  /** Line k of the output is exactly the nodes at depth k, left to right. */
  lemma {:induction false} LevelsAtDepth(q: seq<Shape>, k: nat)
    requires AllCells(q) && k < |Levels(q)|
    ensures Levels(q)[k] == ForestAtDepth(q, k)
    decreases k
  {
    if k == 0 {
      DepthZero(q);
    } else {
      var next, k' := Children(q), k - 1;
      ChildrenSize(q);
      DepthNext(q, k');
      LevelsAtDepth(next, k');
    }
  }


  /** Below the last line there are no nodes: the walk prints every level. */
  lemma {:induction false} BeyondLevels(q: seq<Shape>, k: nat)
    requires AllCells(q) && |Levels(q)| <= k + 1
    ensures ForestAtDepth(q, k + 1) == []
    decreases |Levels(q)|
  {
    var next := Children(q);
    DepthNext(q, k);
    if next != [] {
      ChildrenSize(q);
      var k' := k - 1;
      BeyondLevels(next, k');
    }
  }

  /** A queue of cells prints only non-empty lines, or the one line of an
      empty queue. */
  lemma {:induction false} LevelsNonEmpty(q: seq<Shape>, k: nat)
    requires AllCells(q) && q != [] && k < |Levels(q)|
    ensures Levels(q)[k] != []
    decreases k
  {
    if k == 0 {
      DataLength(q);
    } else {
      var next, k' := Children(q), k - 1;
      ChildrenSize(q);
      LevelsNonEmpty(next, k');
    }
  }


  lemma {:induction false} DataLength(q: seq<Shape>)
    requires AllCells(q)
    ensures |Data(q)| == |q|
    decreases |q|
  {
    if q != [] {
      DataLength(q[..|q| - 1]);
    }
  }

  /** A tree has a node at depth k exactly when k is below its height. */
  lemma {:induction false} AtDepthHeight(s: Shape, k: nat)
    ensures AtDepth(s, k) != [] <==> k < Height(s)
  {
    match s
    case Nil =>
    case Cell(_, l, _, r) =>
      if k > 0 {
        AtDepthHeight(l, k - 1);
        AtDepthHeight(r, k - 1);
      }
  }

  /** tree_print prints one line per level: as many lines as the tree is
      high, line k holding the data at depth k from left to right. */
  lemma TreePrintLevels(s: Shape)
    requires s.Cell?
    ensures |Levels([s])| == Height(s)
    ensures forall k :: 0 <= k < Height(s) ==> Levels([s])[k] == AtDepth(s, k)
  {
    var ls := Levels([s]);
    var h := Height(s);
    assert |ls| <= h by {
      if |ls| > h {
        assert ls[h] == AtDepth(s, h) by { LevelsAtDepth([s], h); SingleAtDepth(s, h); }
        assert ls[h] != [] by { LevelsNonEmpty([s], h); }
        AtDepthHeight(s, h);
      }
    }
    assert |ls| >= h by {
      if |ls| < h {
        assert AtDepth(s, |ls|) == [] by { BeyondLevels([s], |ls| - 1); SingleAtDepth(s, |ls|); }
        AtDepthHeight(s, |ls|);
      }
    }
    forall k | 0 <= k < h ensures ls[k] == AtDepth(s, k) {
      LevelsAtDepth([s], k);
      SingleAtDepth(s, k);
    }
  }

  lemma SingleAtDepth(s: Shape, k: nat)
    ensures ForestAtDepth([s], k) == AtDepth(s, k)
  {
    assert [s][..0] == [];
  }


  /** Every value is printed once: the lines together hold the values of
      the queued trees. */
  function Flatten(ls: seq<seq<int>>): seq<int>
    decreases |ls|
  {
    if ls == [] then [] else ls[0] + Flatten(ls[1..])
  }

  lemma {:induction false} ForestValuesAppend(a: seq<Shape>, b: seq<Shape>)
    ensures ForestValues(a + b) == ForestValues(a) + ForestValues(b)
    decreases |b|
  {
    if b != [] {
      var ab, b' := a + b, b[..|b| - 1];
      assert ab[..|ab| - 1] == a + b' && ab[|ab| - 1] == b[|b| - 1];
      ForestValuesAppend(a, b');
    } else {
      assert a + b == a;
    }
  }

  /** One level's split of the values: the queued nodes' own data, and
      everything below them. */
  lemma {:induction false} DataChildrenValues(q: seq<Shape>)
    requires AllCells(q)
    ensures ForestValues(q) == multiset(Data(q)) + ForestValues(Children(q))
    decreases |q|
  {
    if q != [] {
      var init, last := q[..|q| - 1], q[|q| - 1];
      DataChildrenValues(init);
      ForestValuesAppend(Children(init), Kids(last));
      KidsValues(last);
      assert Data(q) == Data(init) + [last.data];
    }
  }

  lemma KidsValues(s: Shape)
    requires s.Cell?
    ensures Values(s) == multiset{s.data} + ForestValues(Kids(s))
  {
    ForestValuesAppend(Present(s.left), Present(s.right));
    PresentValues(s.left);
    PresentValues(s.right);
  }

  lemma PresentValues(s: Shape)
    ensures ForestValues(Present(s)) == Values(s)
  {
    if s.Cell? {
      assert [s][..0] == [];
    }
  }

  lemma {:induction false} LevelsValues(q: seq<Shape>)
    requires AllCells(q)
    ensures multiset(Flatten(Levels(q))) == ForestValues(q)
    decreases |Levels(q)|
  {
    ChildrenSize(q);
    DataChildrenValues(q);
    var next := Children(q);
    var ls := Levels(q);
    assert ls[1..] == if next == [] then [] else Levels(next);
    if next != [] {
      LevelsValues(next);
    }
  }

  /** tree_print prints every value of the tree, each as often as it occurs. */
  lemma TreePrintValues(s: Shape)
    requires s.Cell?
    ensures multiset(Flatten(Levels([s]))) == Values(s)
  {
    LevelsValues([s]);
    assert [s][..0] == [];
  }

  // ---------------------------------------------------------------------
  // main: build the tree from the input values, then print it.

  /** main as written: it calls tree_print whatever the input, and on empty
      input tree_print queues the NULL root and subtree_print dereferences
      it. None stands for that crash; otherwise the printed lines are the
      levels of the search tree that adding the input values in order
      builds, holding exactly those values. */
  method TreeMain(vals: seq<int>) returns (printed: Option<seq<seq<int>>>, ghost s: Shape, ghost xs: seq<Node>)
    ensures |xs| == |vals| && s == AddAll(vals, xs)
    ensures IsBst(s) && Values(s) == multiset(vals)
    ensures printed.None? <==> vals == []
    ensures printed.Some? ==> printed.value == Levels([s]) && multiset(Flatten(printed.value)) == multiset(vals)
  {
    var root;
    root, s, xs := BuildTree(vals);
    if root == null {
      return None, s, xs;
    }
    var levels := TreePrint(root, s);
    TreePrintValues(s);
    printed := Some(levels);
  }

  /** main as evidently intended: an empty tree prints no levels, and any
      other tree, the one adding the input values in order builds, is
      printed level by level, holding every input value. */
  method TreeMainGuarded(vals: seq<int>) returns (levels: seq<seq<int>>, ghost s: Shape, ghost xs: seq<Node>)
    ensures |xs| == |vals| && s == AddAll(vals, xs)
    ensures IsBst(s) && Values(s) == multiset(vals)
    ensures levels == [] <==> vals == []
    ensures vals != [] ==> levels == Levels([s])
    ensures multiset(Flatten(levels)) == multiset(vals)
  {
    var root;
    root, s, xs := BuildTree(vals);
    if root == null {
      return [], s, xs;
    }
    levels := TreePrint(root, s);
    TreePrintValues(s);
  }

  /** The order of the input decides what main prints: 2, 1, 3 gives a root
      with two children, 1, 2, 3 a chain of three levels. */
  lemma InputOrder(xs: seq<Node>)
    requires |xs| == 3
    ensures Levels([AddAll([2, 1, 3], xs)]) == [[2], [1, 3]]
    ensures Levels([AddAll([1, 2, 3], xs)]) == [[1], [2], [3]]
  {
    OrderedShapes(xs);
    WideLevels(xs[0], xs[1], xs[2]);
    ChainLevels(xs[0], xs[1], xs[2]);
  }

  lemma OrderedShapes(xs: seq<Node>)
    requires |xs| == 3
    ensures AddAll([2, 1, 3], xs) == Cell(xs[0], Cell(xs[1], Nil, 1, Nil), 2, Cell(xs[2], Nil, 3, Nil))
    ensures AddAll([1, 2, 3], xs) == Cell(xs[0], Nil, 1, Cell(xs[1], Nil, 2, Cell(xs[2], Nil, 3, Nil)))
  {
    var a, b, c := xs[0], xs[1], xs[2];
    var one, two, three := Cell(a, Nil, 1, Nil), Cell(b, Nil, 1, Nil), Cell(c, Nil, 3, Nil);
    assert xs[..|xs| - 1] == xs[..2] && xs[..2][..1] == xs[..1] && xs[..2][1] == b;
    assert xs[..1][..0] == [] && xs[..1][0] == a;
    assert [2, 1, 3][..2] == [2, 1] && [2, 1][..1] == [2] && [2][..0] == [];
    assert AddAll([2], xs[..1]) == Added(Nil, 2, a) == Cell(a, Nil, 2, Nil);
    assert AddAll([2, 1], xs[..2]) == Added(Cell(a, Nil, 2, Nil), 1, b) == Cell(a, two, 2, Nil);
    assert AddAll([2, 1, 3], xs) == Added(Cell(a, two, 2, Nil), 3, c) == Cell(a, two, 2, three);
    assert [1, 2, 3][..2] == [1, 2] && [1, 2][..1] == [1] && [1][..0] == [];
    assert AddAll([1], xs[..1]) == Added(Nil, 1, a) == one;
    assert AddAll([1, 2], xs[..2]) == Added(one, 2, b) == Cell(a, Nil, 1, Cell(b, Nil, 2, Nil));
    assert Added(Cell(b, Nil, 2, Nil), 3, c) == Cell(b, Nil, 2, three);
    assert AddAll([1, 2, 3], xs) == Added(Cell(a, Nil, 1, Cell(b, Nil, 2, Nil)), 3, c)
      == Cell(a, Nil, 1, Cell(b, Nil, 2, three));
  }

  lemma WideLevels(a: Node, b: Node, c: Node)
    ensures Levels([Cell(a, Cell(b, Nil, 1, Nil), 2, Cell(c, Nil, 3, Nil))]) == [[2], [1, 3]]
  {
    var two, three := Cell(b, Nil, 1, Nil), Cell(c, Nil, 3, Nil);
    var wide := Cell(a, two, 2, three);
    assert Height(two) == 1 && Height(three) == 1;
    TreePrintLevels(wide);
    assert AtDepth(wide, 0) == [2] && AtDepth(wide, 1) == [1, 3];
  }

  lemma ChainLevels(a: Node, b: Node, c: Node)
    ensures Levels([Cell(a, Nil, 1, Cell(b, Nil, 2, Cell(c, Nil, 3, Nil)))]) == [[1], [2], [3]]
  {
    var three := Cell(c, Nil, 3, Nil);
    var chain := Cell(a, Nil, 1, Cell(b, Nil, 2, three));
    assert Height(Nil) == 0 && Height(three) == 1 && Height(Cell(b, Nil, 2, three)) == 2;
    TreePrintLevels(chain);
    assert AtDepth(Nil, 0) == [] && AtDepth(Nil, 1) == [] && AtDepth(Cell(b, Nil, 2, three), 1) == [3];
    assert AtDepth(chain, 0) == [1] && AtDepth(chain, 1) == [2] && AtDepth(chain, 2) == [3];
  }
}
