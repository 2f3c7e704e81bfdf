/**
 * The binary-search-tree visualiser. The tree is a value: a node carries the id the
 * view keys it by, its number and its two subtrees (the parent links the view keeps
 * for drawing are not part of the model). The view holds the root and the next id to
 * hand out; trace builders walk the tree from the root and return animation frames.
 */
module TreeVisualization {
  import opened Prelude
  import opened DataStructureOperations

  datatype Tree = Nil | Node(id: int, value: int, left: Tree, right: Tree)

  /** What a traversal or a walk reports about a node. */
  datatype Item = Item(id: int, value: int)

  /** The status messages of the frames, kept as data. */
  datatype TreeMsg =
    | InsertedRoot(v: int)            // "Inserted v as root"
    | AlreadyExists(v: int)           // "Value v already exists"
    | Inserted(v: int)                // "Inserted v"
    | StartAtRoot                     // "Start at root"
    | Compare(x: int, v: int)         // "Compare x with v"
    | Found(x: int)                   // "Found x!"
    | GoLeft(x: int, v: int)          // "x < v → go left"
    | GoRight(x: int, v: int)         // "x > v → go right"
    | NotInTree(x: int)               // "Reached null — x not in tree"
    | AtNode(v: int)                  // "At v"
    | NotFound(x: int)                // "x not found"
    | FoundNode(x: int)               // "Found x"
    | LeafRemove                      // "Leaf node → remove directly"
    | OneChildPromote                 // "One child → promote child"
    | TwoChildren                     // "Two children → find successor"
    | FindingSuccessor(v: int)        // "Finding successor: at v"
    | SuccessorIs(v: int)             // "Successor is v → swap values"
    | DeleteSuccessor                 // "Delete successor node"
    | DeletionComplete                // "Deletion complete"
    | TreeEmpty                       // "Tree is empty"
    | GoLeftFrom(v: int)              // "Go left from v"
    | GoRightFrom(v: int)             // "Go right from v"
    | MinimumIs(v: int)               // "Minimum is v"
    | MaximumIs(v: int)               // "Maximum is v"
    | InitQueue                       // "Initialize queue with root"
    | Visit(v: int)                   // "Visit v"

  /** The node highlight and message `flash` shows after an insert. */
  datatype Flash = Flash(ids: seq<int>, msg: TreeMsg)

  datatype Traversal = InOrder | PreOrder | PostOrder | LevelOrder

  // ---------------------------------------------------------------- shape

  function Size(t: Tree): nat
  {
    match t
    case Nil => 0
    case Node(_, _, l, r) => 1 + Size(l) + Size(r)
  }

  function Values(t: Tree): set<int>
  {
    match t
    case Nil => {}
    case Node(_, v, l, r) => Values(l) + {v} + Values(r)
  }

  function Ids(t: Tree): set<int>
  {
    match t
    case Nil => {}
    case Node(id, _, l, r) => Ids(l) + {id} + Ids(r)
  }

  function Items(t: Tree): multiset<Item>
  {
    match t
    case Nil => multiset{}
    case Node(id, v, l, r) => Items(l) + multiset{Item(id, v)} + Items(r)
  }

  /** Every value in a left subtree is smaller than its node's, every value on the right larger. */
  ghost predicate BST(t: Tree)
  {
    match t
    case Nil => true
    case Node(_, v, l, r) =>
      BST(l) && BST(r) && (forall w <- Values(l) :: w < v) && (forall w <- Values(r) :: v < w)
  }

  /** No id occurs twice. */
  ghost predicate UniqueIds(t: Tree)
  {
    match t
    case Nil => true
    case Node(id, _, l, r) =>
      UniqueIds(l) && UniqueIds(r) && id !in Ids(l) && id !in Ids(r) && Ids(l) !! Ids(r)
  }

  function RootIds(t: Tree): seq<int>
  {
    if t.Node? then [t.id] else []
  }

  /** A search tree holds as many distinct values as it has nodes. */
  lemma {:induction false} SizeIsCardinality(t: Tree)
    requires BST(t)
    ensures |Values(t)| == Size(t)
  {
    match t
    case Nil =>
    case Node(_, v, l, r) =>
      SizeIsCardinality(l);
      SizeIsCardinality(r);
      forall w | w in Values(l)
        ensures w !in Values(r)
      {
        assert w < v;
      }
      assert |Values(l) + {v}| == |Values(l)| + 1;
  }

  // ---------------------------------------------------------------- search path

  /** The comparison walk from the root for `x` meets a node holding `x`. */
  predicate OnPath(t: Tree, x: int)
  {
    match t
    case Nil => false
    case Node(_, v, l, r) => x == v || (if x < v then OnPath(l, x) else OnPath(r, x))
  }

  /** The ids the walk for `x` passes, the node holding `x` included. */
  function PathIds(t: Tree, x: int): (p: seq<int>)
    ensures |p| <= Size(t)
    ensures forall i <- p :: i in Ids(t)
  {
    match t
    case Nil => []
    case Node(id, v, l, r) => [id] + (if x == v then [] else if x < v then PathIds(l, x) else PathIds(r, x))
  }

  /** In a search tree the walk finds exactly the values the tree holds. */
  lemma {:induction false} PathFindsMembers(t: Tree, x: int)
    requires BST(t)
    ensures OnPath(t, x) <==> x in Values(t)
  {
    match t
    case Nil =>
    case Node(_, v, l, r) =>
      PathFindsMembers(l, x);
      PathFindsMembers(r, x);
  }

  // ---------------------------------------------------------------- insert

  /**
   * `onInsert` on a non-empty tree: walk from the root, stop at a node holding `v`,
   * otherwise attach a new leaf `id` to the left of the last node when `v` is smaller
   * than its value and to the right otherwise.
   */
  function Insert(t: Tree, v: int, id: int): (r: Tree)
    ensures Values(r) == Values(t) + {v}
    ensures OnPath(t, v) ==> r == t
    ensures !OnPath(t, v) ==> Ids(r) == Ids(t) + {id}
    ensures !OnPath(t, v) ==> Size(r) == Size(t) + 1
  {
    match t
    case Nil => Node(id, v, Nil, Nil)
    case Node(i, w, l, rt) =>
      if v == w then t
      else if v < w then Node(i, w, Insert(l, v, id), rt)
      else Node(i, w, l, Insert(rt, v, id))
  }

  lemma {:induction false} InsertKeepsSearchTree(t: Tree, v: int, id: int)
    requires BST(t)
    ensures BST(Insert(t, v, id))
  {
    match t
    case Nil =>
    case Node(_, w, l, r) =>
      if v < w {
        InsertKeepsSearchTree(l, v, id);
      } else if v > w {
        InsertKeepsSearchTree(r, v, id);
      }
  }

  lemma {:induction false} InsertKeepsIdsUnique(t: Tree, v: int, id: int)
    requires UniqueIds(t) && id !in Ids(t)
    ensures UniqueIds(Insert(t, v, id))
  {
    match t
    case Nil =>
    case Node(_, w, l, r) =>
      if v < w {
        InsertKeepsIdsUnique(l, v, id);
      } else if v > w {
        InsertKeepsIdsUnique(r, v, id);
      }
  }

  /** The value the view assigns a new node sits at the end of the path it was found by. */
  lemma {:induction false} InsertedLeafEndsPath(t: Tree, v: int, id: int)
    requires !OnPath(t, v)
    ensures PathIds(Insert(t, v, id), v) == PathIds(t, v) + [id]
  {
    match t
    case Nil =>
    case Node(_, w, l, r) =>
      if v < w {
        InsertedLeafEndsPath(l, v, id);
      } else {
        InsertedLeafEndsPath(r, v, id);
      }
  }

  // ---------------------------------------------------------------- extremes

  function Next(t: Tree, leftMost: bool): Tree
    requires t.Node?
  {
    if leftMost then t.left else t.right
  }

  /** The node reached by always going left (`leftMost`) or always going right. */
  function Extreme(t: Tree, leftMost: bool): (n: Tree)
    requires t.Node?
    ensures n.Node? && n.value in Values(t) && n.id in Ids(t)
    ensures Next(n, leftMost).Nil?
  {
    if Next(t, leftMost).Nil? then t else Extreme(Next(t, leftMost), leftMost)
  }

  /** In a search tree the leftmost value is the minimum and the rightmost the maximum. */
  lemma {:induction false} ExtremeBounds(t: Tree, leftMost: bool)
    requires BST(t) && t.Node?
    ensures forall w <- Values(t) :: if leftMost then Extreme(t, leftMost).value <= w else w <= Extreme(t, leftMost).value
  {
    if Next(t, leftMost).Node? {
      ExtremeBounds(Next(t, leftMost), leftMost);
    }
  }

  // ---------------------------------------------------------------- delete

  /**
   * `del` of `applyDelete`: a leaf is removed, a node with one child is replaced by
   * it, and a node with two children takes the value of the leftmost node of its
   * right subtree, which is then deleted from that subtree. The node keeps its id.
   */
  function Delete(t: Tree, x: int): (r: Tree)
    ensures Values(r) <= Values(t) && Ids(r) <= Ids(t)
    ensures x !in Values(t) ==> r == t
  {
    match t
    case Nil => Nil
    case Node(id, v, l, rt) =>
      if x < v then Node(id, v, Delete(l, x), rt)
      else if x > v then Node(id, v, l, Delete(rt, x))
      else if l.Nil? && rt.Nil? then Nil
      else if l.Nil? then rt
      else if rt.Nil? then l
      else Node(id, Extreme(rt, true).value, l, Delete(rt, Extreme(rt, true).value))
  }

  /** Deleting removes exactly `x` and keeps the search order. */
  lemma {:induction false} DeleteKeepsSearchTree(t: Tree, x: int)
    requires BST(t)
    ensures BST(Delete(t, x))
    ensures Values(Delete(t, x)) == Values(t) - {x}
  {
    match t
    case Nil =>
    case Node(id, v, l, r) =>
      if x < v {
        DeleteKeepsSearchTree(l, x);
        assert x !in Values(r);
      } else if x > v {
        DeleteKeepsSearchTree(r, x);
        assert x !in Values(l);
      } else if l.Nil? || r.Nil? {
        assert x !in Values(l) && x !in Values(r);
      } else {
        var s := Extreme(r, true).value;
        ExtremeBounds(r, true);
        DeleteKeepsSearchTree(r, s);
        assert forall w <- Values(l) :: w < s;
        assert x !in Values(l) && x !in Values(r);
        assert Values(Delete(t, x)) == Values(l) + {s} + (Values(r) - {s});
      }
  }

  /** The node count drops by one exactly when `x` was in the tree. */
  lemma DeleteRemovesOneNode(t: Tree, x: int)
    requires BST(t)
    ensures Size(Delete(t, x)) == if x in Values(t) then Size(t) - 1 else Size(t)
  {
    DeleteKeepsSearchTree(t, x);
    SizeIsCardinality(t);
    SizeIsCardinality(Delete(t, x));
    if x in Values(t) {
      assert |Values(t) - {x}| == |Values(t)| - 1;
    }
  }

  lemma {:induction false} DeleteKeepsIdsUnique(t: Tree, x: int)
    requires UniqueIds(t)
    ensures UniqueIds(Delete(t, x))
  {
    match t
    case Nil =>
    case Node(id, v, l, r) =>
      if x < v {
        DeleteKeepsIdsUnique(l, x);
      } else if x > v {
        DeleteKeepsIdsUnique(r, x);
      } else if l.Node? && r.Node? {
        DeleteKeepsIdsUnique(r, Extreme(r, true).value);
      }
  }

  /**
   * `del` as the view runs it: recursive, with a loop walking to the leftmost node of
   * the right subtree for the two-children case.
   */
  method Del(node: Tree, x: int) returns (r: Tree)
    ensures r == Delete(node, x)
    decreases node
  {
    if node.Nil? {
      return Nil;
    }
    if x < node.value {
      var l := Del(node.left, x);
      return node.(left := l);
    }
    if x > node.value {
      var rt := Del(node.right, x);
      return node.(right := rt);
    }
    if node.left.Nil? && node.right.Nil? {
      return Nil;
    }
    if node.left.Nil? {
      return node.right;
    }
    if node.right.Nil? {
      return node.left;
    }
    var s := node.right;
    while s.left.Node?
      invariant s.Node? && Extreme(s, true) == Extreme(node.right, true)
      decreases s
    {
      s := s.left;
    }
    var rest := Del(node.right, s.value);
    return node.(value := s.value, right := rest);
  }

  // ---------------------------------------------------------------- traces

  /** `buildSearchTrace` after its first frame. */
  function SearchWalk(t: Tree, x: int): (s: seq<Frame<TreeMsg>>)
    ensures |s| >= 1
    ensures s[|s| - 1].msg == Found(x) <==> OnPath(t, x)
    ensures s[|s| - 1].msg == NotInTree(x) <==> !OnPath(t, x)
  {
    match t
    case Nil => [Frame(NotInTree(x), [], [6])]
    case Node(id, v, l, r) =>
      [Frame(Compare(x, v), [id], [2])]
      + (if x == v then [Frame(Found(x), [id], [3])]
         else if x < v then [Frame(GoLeft(x, v), [id], [4])] + SearchWalk(l, x)
         else [Frame(GoRight(x, v), [id], [5])] + SearchWalk(r, x))
  }

  function SearchTrace(t: Tree, x: int): seq<Frame<TreeMsg>>
  {
    [Frame(StartAtRoot, RootIds(t), [1])] + SearchWalk(t, x)
  }

  /** The search trace of a search tree ends in "Found" exactly when `x` is in it, and in "not in tree" otherwise. */
  lemma SearchTraceFindsMembers(t: Tree, x: int)
    requires BST(t)
    ensures var s := SearchTrace(t, x);
      (s[|s| - 1].msg == Found(x) <==> x in Values(t)) && (s[|s| - 1].msg == NotInTree(x) <==> x !in Values(t))
  {
    PathFindsMembers(t, x);
  }

  /** The successor walk of `buildDeleteTrace`: down the left links to the leftmost node. */
  function SuccessorWalk(s: Tree, curId: int): (w: seq<Frame<TreeMsg>>)
    requires s.Node?
    ensures |w| >= 1
    ensures w[|w| - 1] == Frame(SuccessorIs(Extreme(s, true).value), [Extreme(s, true).id, curId], [11])
  {
    if s.left.Node? then [Frame(FindingSuccessor(s.value), [s.id], [10])] + SuccessorWalk(s.left, curId)
    else [Frame(SuccessorIs(s.value), [s.id, curId], [11])]
  }

  /** The frames for the node being deleted, by how many children it has. */
  function DeleteCase(t: Tree): seq<Frame<TreeMsg>>
    requires t.Node?
  {
    if t.left.Nil? && t.right.Nil? then [Frame(LeafRemove, [t.id], [7])]
    else if t.left.Nil? || t.right.Nil? then [Frame(OneChildPromote, [t.id], [8])]
    else [Frame(TwoChildren, [t.id], [9])] + SuccessorWalk(t.right, t.id) + [Frame(DeleteSuccessor, [], [12])]
  }

  /** `buildDeleteTrace` after its first frame. */
  function DeleteWalk(t: Tree, x: int): (s: seq<Frame<TreeMsg>>)
    ensures |s| >= 1
    ensures s[|s| - 1].msg == NotFound(x) <==> !OnPath(t, x)
    ensures OnPath(t, x) ==> s[|s| - 1] == Frame(DeletionComplete, [], [])
  {
    match t
    case Nil => [Frame(NotFound(x), [], [5])]
    case Node(id, v, l, r) =>
      if v != x then
        [Frame(AtNode(v), [id], [2])]
        + (if x < v then [Frame(GoLeft(x, v), [id], [3])] + DeleteWalk(l, x)
           else [Frame(GoRight(x, v), [id], [4])] + DeleteWalk(r, x))
      else [Frame(FoundNode(x), [id], [6])] + DeleteCase(t) + [Frame(DeletionComplete, [], [])]
  }

  function DeleteTrace(t: Tree, x: int): seq<Frame<TreeMsg>>
  {
    [Frame(StartAtRoot, RootIds(t), [1])] + DeleteWalk(t, x)
  }

  /**
   * The delete trace of a search tree ends in "not found" exactly when `x` is absent,
   * and then the deletion leaves the tree as it was; otherwise it ends in "Deletion complete".
   */
  lemma DeleteTraceAgrees(t: Tree, x: int)
    requires BST(t)
    ensures var s := DeleteTrace(t, x);
      (s[|s| - 1].msg == NotFound(x) <==> x !in Values(t))
      && (x !in Values(t) ==> Delete(t, x) == t)
      && (x in Values(t) ==> s[|s| - 1].msg == DeletionComplete)
  {
    PathFindsMembers(t, x);
  }

  /** `buildMinMaxTrace` from a node on: the go-frames, then the extreme value. */
  function ExtremeWalk(t: Tree, leftMost: bool): (s: seq<Frame<TreeMsg>>)
    requires t.Node?
    ensures |s| >= 1
    ensures s[|s| - 1] == Frame(ExtremeMsg(leftMost, Extreme(t, leftMost).value), [Extreme(t, leftMost).id], [4])
  {
    if Next(t, leftMost).Node? then
      [Frame(if leftMost then GoLeftFrom(t.value) else GoRightFrom(t.value), [t.id], [2, 3])]
      + ExtremeWalk(Next(t, leftMost), leftMost)
    else [Frame(ExtremeMsg(leftMost, t.value), [t.id], [4])]
  }

  function ExtremeMsg(leftMost: bool, v: int): TreeMsg
  {
    if leftMost then MinimumIs(v) else MaximumIs(v)
  }

  function MinMaxTrace(t: Tree, leftMost: bool): seq<Frame<TreeMsg>>
  {
    if t.Nil? then [Frame(TreeEmpty, [], [1])]
    else [Frame(StartAtRoot, [t.id], [1])] + ExtremeWalk(t, leftMost)
  }

  /**
   * An empty tree gives the single "Tree is empty" frame; otherwise the last frame
   * names a value of the tree no larger (min) or no smaller (max) than any other.
   */
  lemma {:induction false} MinMaxReportsExtreme(t: Tree, leftMost: bool)
    requires BST(t)
    ensures t.Nil? ==> MinMaxTrace(t, leftMost) == [Frame(TreeEmpty, [], [1])]
    ensures t.Node? ==>
      exists m :: m in Values(t)
        && MinMaxTrace(t, leftMost)[|MinMaxTrace(t, leftMost)| - 1].msg == ExtremeMsg(leftMost, m)
        && forall w <- Values(t) :: if leftMost then m <= w else w <= m
  {
    if t.Node? {
      ExtremeBounds(t, leftMost);
      MinMaxLast(t, leftMost);
    }
  }

  /** On a non-empty tree the trace ends in the frame that names the extreme node. */
  lemma {:induction false} MinMaxLast(t: Tree, leftMost: bool)
    requires t.Node?
    ensures var s := MinMaxTrace(t, leftMost);
      s[|s| - 1].msg == ExtremeMsg(leftMost, Extreme(t, leftMost).value)
  {
    var w := ExtremeWalk(t, leftMost);
    var s := [Frame(StartAtRoot, [t.id], [1])] + w;
    assert MinMaxTrace(t, leftMost) == s;
    assert s[|s| - 1] == w[|w| - 1];
  }

  // ---------------------------------------------------------------- traversals

  function Inorder(t: Tree): (s: seq<Item>)
    ensures |s| == Size(t)
  {
    match t
    case Nil => []
    case Node(id, v, l, r) => Inorder(l) + [Item(id, v)] + Inorder(r)
  }

  function Preorder(t: Tree): (s: seq<Item>)
    ensures |s| == Size(t)
  {
    match t
    case Nil => []
    case Node(id, v, l, r) => [Item(id, v)] + Preorder(l) + Preorder(r)
  }

  function Postorder(t: Tree): (s: seq<Item>)
    ensures |s| == Size(t)
  {
    match t
    case Nil => []
    case Node(id, v, l, r) => Postorder(l) + Postorder(r) + [Item(id, v)]
  }

  lemma {:induction false} InorderValues(t: Tree)
    ensures forall k :: 0 <= k < |Inorder(t)| ==> Inorder(t)[k].value in Values(t)
  {
    match t
    case Nil =>
    case Node(id, v, l, r) =>
      InorderValues(l);
      InorderValues(r);
      var a, b := Inorder(l), Inorder(r);
      assert Inorder(t) == a + [Item(id, v)] + b;
      forall k | 0 <= k < |Inorder(t)|
        ensures Inorder(t)[k].value in Values(t)
      {
        if k < |a| {
          assert Inorder(t)[k] == a[k];
        } else if k > |a| {
          assert Inorder(t)[k] == b[k - |a| - 1];
        }
      }
  }

  /** The inorder traversal of a search tree lists its values in strictly increasing order. */
  lemma {:induction false} InorderIncreasing(t: Tree)
    requires BST(t)
    ensures forall i, j :: 0 <= i < j < |Inorder(t)| ==> Inorder(t)[i].value < Inorder(t)[j].value
  {
    match t
    case Nil =>
    case Node(id, v, l, r) =>
      InorderIncreasing(l);
      InorderIncreasing(r);
      InorderValues(l);
      InorderValues(r);
      var a, b := Inorder(l), Inorder(r);
      var s := Inorder(t);
      assert s == a + [Item(id, v)] + b;
      forall i, j | 0 <= i < j < |s|
        ensures s[i].value < s[j].value
      {
        if j < |a| {
          assert s[i] == a[i] && s[j] == a[j];
        } else if i > |a| {
          assert s[i] == b[i - |a| - 1] && s[j] == b[j - |a| - 1];
        } else {
          if i < |a| {
            assert s[i] == a[i];
          }
          if j > |a| {
            assert s[j] == b[j - |a| - 1];
          }
        }
      }
  }

  function SizeSum(q: seq<Tree>): nat
  {
    if q == [] then 0 else Size(q[0]) + SizeSum(q[1..])
  }

  function ItemsOf(q: seq<Tree>): multiset<Item>
  {
    if q == [] then multiset{} else Items(q[0]) + ItemsOf(q[1..])
  }

  lemma {:induction false} QueueConcat(a: seq<Tree>, b: seq<Tree>)
    ensures SizeSum(a + b) == SizeSum(a) + SizeSum(b)
    ensures ItemsOf(a + b) == ItemsOf(a) + ItemsOf(b)
  {
    if a != [] {
      assert (a + b)[1..] == a[1..] + b;
      QueueConcat(a[1..], b);
    } else {
      assert a + b == b;
    }
  }

  /** The subtrees `levelorder` enqueues after visiting `n`: left first, empty ones skipped. */
  function Children(n: Tree): (c: seq<Tree>)
    requires n.Node?
    ensures forall k :: 0 <= k < |c| ==> c[k].Node?
    ensures SizeSum(c) == Size(n.left) + Size(n.right)
    ensures ItemsOf(c) == Items(n.left) + Items(n.right)
  {
    var a := if n.left.Node? then [n.left] else [];
    var b := if n.right.Node? then [n.right] else [];
    QueueConcat(a, b);
    QueueOfOne(n.left);
    QueueOfOne(n.right);
    a + b
  }

  /** The queue holding a subtree when it is not empty holds its nodes. */
  lemma {:induction false} QueueOfOne(t: Tree)
    ensures var q := if t.Node? then [t] else [];
      ItemsOf(q) == Items(t) && SizeSum(q) == Size(t)
  {
    if t.Node? {
      assert [t][1..] == [];
    }
  }

  /** Pushing the left child if any, then the right child if any, appends `Children`. */
  lemma {:induction false} ChildrenInOrder(n: Tree, rest: seq<Tree>, q: seq<Tree>)
    requires n.Node?
    requires q == rest + (if n.left.Node? then [n.left] else []) + (if n.right.Node? then [n.right] else [])
    ensures q == rest + Children(n)
  {
  }

  /** Breadth-first order from a queue of non-empty subtrees. */
  function LevelFrom(q: seq<Tree>): (s: seq<Item>)
    requires forall k :: 0 <= k < |q| ==> q[k].Node?
    ensures |s| == SizeSum(q)
    decreases SizeSum(q)
  {
    if q == [] then []
    else
      QueueConcat(q[1..], Children(q[0]));
      [Item(q[0].id, q[0].value)] + LevelFrom(q[1..] + Children(q[0]))
  }

  /** Breadth-first order lists every node of the queued subtrees exactly once. */
  lemma {:induction false} LevelFromItems(q: seq<Tree>)
    requires forall k :: 0 <= k < |q| ==> q[k].Node?
    ensures multiset(LevelFrom(q)) == ItemsOf(q)
    decreases SizeSum(q)
  {
    if q != [] {
      var n, rest, c := q[0], q[1..], Children(q[0]);
      QueueConcat(rest, c);
      LevelFromItems(rest + c);
      var it := Item(n.id, n.value);
      assert multiset(LevelFrom(q)) == multiset{it} + ItemsOf(rest + c) by {
        assert LevelFrom(q) == [it] + LevelFrom(rest + c);
      }
      assert ItemsOf(q) == Items(n) + ItemsOf(rest);
      Regroup(multiset{it}, ItemsOf(rest), Items(n.left), Items(n.right));
    }
  }

  lemma Regroup(a: multiset<Item>, b: multiset<Item>, c: multiset<Item>, d: multiset<Item>)
    ensures a + (b + (c + d)) == c + a + d + b
  {
  }

  function Walk(kind: Traversal, t: Tree): seq<Item>
  {
    match kind
    case InOrder => Inorder(t)
    case PreOrder => Preorder(t)
    case PostOrder => Postorder(t)
    case LevelOrder => if t.Nil? then [] else LevelFrom([t])
  }

  /** The three recursive traversals each list every node once. */
  lemma {:induction false} InorderItems(t: Tree)
    ensures multiset(Inorder(t)) == Items(t)
  {
    match t
    case Nil =>
    case Node(id, v, l, r) =>
      InorderItems(l);
      InorderItems(r);
      assert Inorder(t) == Inorder(l) + [Item(id, v)] + Inorder(r);
  }

  lemma {:induction false} PreorderItems(t: Tree)
    ensures multiset(Preorder(t)) == Items(t)
  {
    match t
    case Nil =>
    case Node(id, v, l, r) =>
      PreorderItems(l);
      PreorderItems(r);
      assert Preorder(t) == [Item(id, v)] + Preorder(l) + Preorder(r);
      Regroup(multiset{Item(id, v)}, multiset{}, Items(l), Items(r));
  }

  lemma {:induction false} PostorderItems(t: Tree)
    ensures multiset(Postorder(t)) == Items(t)
  {
    match t
    case Nil =>
    case Node(id, v, l, r) =>
      PostorderItems(l);
      PostorderItems(r);
      assert Postorder(t) == Postorder(l) + Postorder(r) + [Item(id, v)];
      Regroup(multiset{Item(id, v)}, multiset{}, Items(l), Items(r));
  }

  /** Every traversal visits every node of the tree exactly once. */
  lemma TraversalVisitsEachNodeOnce(kind: Traversal, t: Tree)
    ensures multiset(Walk(kind, t)) == Items(t) && |Walk(kind, t)| == Size(t)
  {
    match kind
    case InOrder => InorderItems(t);
    case PreOrder => PreorderItems(t);
    case PostOrder => PostorderItems(t);
    case LevelOrder =>
      if t.Node? {
        LevelFromItems([t]);
        assert [t][1..] == [];
        assert ItemsOf([t]) == Items(t) + ItemsOf([]);
        assert SizeSum([t]) == Size(t) + SizeSum([]);
      }
  }

  /** The highlighted lines of `visit`, per traversal. */
  function VisitPc(kind: Traversal): seq<int>
  {
    match kind
    case InOrder => [3, 4]
    case PreOrder => [3]
    case PostOrder => [5]
    case LevelOrder => [3, 4]
  }

  function VisitFrames(items: seq<Item>, pc: seq<int>): (f: seq<Frame<TreeMsg>>)
    ensures |f| == |items|
    ensures forall k :: 0 <= k < |f| ==> f[k] == Frame(Visit(items[k].value), [items[k].id], pc)
  {
    if items == [] then []
    else VisitFrames(items[..|items| - 1], pc) + [Frame(Visit(items[|items| - 1].value), [items[|items| - 1].id], pc)]
  }

  function Order(items: seq<Item>): (o: seq<int>)
    ensures |o| == |items| && forall k :: 0 <= k < |o| ==> o[k] == items[k].value
  {
    if items == [] then [] else Order(items[..|items| - 1]) + [items[|items| - 1].value]
  }

  lemma VisitSnoc(items: seq<Item>, it: Item)
    ensures VisitFrames(items + [it], [3, 4]) == VisitFrames(items, [3, 4]) + [Frame(Visit(it.value), [it.id], [3, 4])]
    ensures Order(items + [it]) == Order(items) + [it.value]
  {
    assert (items + [it])[..|items|] == items;
  }

  // ---------------------------------------------------------------- seed

  /** The `ins` of `onSeed`: no duplicate test, equal values go right, new nodes get id -1. */
  function SeedInsert(t: Tree, v: int): (r: Tree)
    ensures t.Nil? ==> r == Node(-1, v, Nil, Nil)
    ensures t.Node? ==> r.Node? && r.id == t.id && r.value == t.value
  {
    match t
    case Nil => Node(-1, v, Nil, Nil)
    case Node(i, w, l, r) =>
      if v < w then Node(i, w, SeedInsert(l, v), r) else Node(i, w, l, SeedInsert(r, v))
  }

  /** Inserting adds exactly one item, the new node's, and keeps every other. */
  lemma {:induction false} SeedInsertItems(t: Tree, v: int)
    ensures Items(SeedInsert(t, v)) == Items(t) + multiset{Item(-1, v)}
  {
    match t
    case Nil =>
    case Node(i, w, l, r) =>
      var m, n := multiset{Item(-1, v)}, multiset{Item(i, w)};
      if v < w {
        SeedInsertItems(l, v);
        assert Items(SeedInsert(t, v)) == (Items(l) + m) + n + Items(r);
      } else {
        SeedInsertItems(r, v);
        assert Items(SeedInsert(t, v)) == Items(l) + n + (Items(r) + m);
      }
  }

  /** The values gain the inserted one and the size grows by one. */
  lemma {:induction false} SeedInsertValues(t: Tree, v: int)
    ensures Values(SeedInsert(t, v)) == Values(t) + {v} && Size(SeedInsert(t, v)) == Size(t) + 1
  {
    match t
    case Nil =>
    case Node(i, w, l, r) =>
      if v < w {
        SeedInsertValues(l, v);
        assert SeedInsert(t, v) == Node(i, w, SeedInsert(l, v), r);
      } else {
        SeedInsertValues(r, v);
        assert SeedInsert(t, v) == Node(i, w, l, SeedInsert(r, v));
      }
  }

  /** Inserting a value the search tree does not hold keeps it a search tree. */
  lemma {:induction false} SeedInsertKeepsOrder(t: Tree, v: int)
    requires BST(t) && v !in Values(t)
    ensures BST(SeedInsert(t, v))
  {
    match t
    case Nil =>
    case Node(i, w, l, r) =>
      if v < w {
        var l' := SeedInsert(l, v);
        SeedInsertKeepsOrder(l, v);
        SeedInsertValues(l, v);
        assert SeedInsert(t, v) == Node(i, w, l', r);
        assert forall x <- Values(l') :: x < w;
      } else {
        var r' := SeedInsert(r, v);
        SeedInsertKeepsOrder(r, v);
        SeedInsertValues(r, v);
        assert SeedInsert(t, v) == Node(i, w, l, r');
        assert w < v;
        assert forall x <- Values(r') :: w < x;
      }
  }

  /** The `for (const v of arr) r = ins(r, v)` loop of `onSeed`, from the tree `t` on. */
  function BuildSeed(t: Tree, vs: seq<int>): Tree
    decreases |vs|
  {
    if vs == [] then t else BuildSeed(SeedInsert(t, vs[0]), vs[1..])
  }

  const SeedValues: seq<int> := [50, 30, 70, 20, 40, 60, 80]

  /** `rebuild`: fresh ids in preorder from `next`, values and shape kept. */
  function Renumber(t: Tree, next: int): (r: Tree)
    ensures Size(r) == Size(t) && Values(r) == Values(t)
    ensures forall i :: i in Ids(r) <==> next <= i < next + Size(t)
    ensures UniqueIds(r)
    ensures BST(t) ==> BST(r)
  {
    match t
    case Nil => Nil
    case Node(_, v, l, rt) => Node(next, v, Renumber(l, next + 1), Renumber(rt, next + 1 + Size(l)))
  }

  function Leaf(id: int, v: int): Tree
  {
    Node(id, v, Nil, Nil)
  }

  /** The example tree `onSeed` shows, numbered from `n` in preorder. */
  function SeededTree(n: int): Tree
  {
    Node(n, 50, Node(n + 1, 30, Leaf(n + 2, 20), Leaf(n + 3, 40)),
                Node(n + 4, 70, Leaf(n + 5, 60), Leaf(n + 6, 80)))
  }

  /** One turn of the seeding loop: the first value goes in, the rest follow. */
  lemma SeedStep(t: Tree, vs: seq<int>)
    requires vs != []
    ensures BuildSeed(t, vs) == BuildSeed(SeedInsert(t, vs[0]), vs[1..])
  {
  }

  /** Inserting the seed values one after another into an empty tree gives the balanced example shape. */
  lemma SeedInsertsBalance()
    ensures BuildSeed(Nil, SeedValues) == SeedShape()
  {
    var t1 := Leaf(-1, 50);
    var t2 := Node(-1, 50, Leaf(-1, 30), Nil);
    var t3 := Node(-1, 50, Leaf(-1, 30), Leaf(-1, 70));
    var t4 := Node(-1, 50, Node(-1, 30, Leaf(-1, 20), Nil), Leaf(-1, 70));
    var t5 := Node(-1, 50, Node(-1, 30, Leaf(-1, 20), Leaf(-1, 40)), Leaf(-1, 70));
    var t6 := Node(-1, 50, Node(-1, 30, Leaf(-1, 20), Leaf(-1, 40)), Node(-1, 70, Leaf(-1, 60), Nil));
    assert SeedInsert(Nil, 50) == t1;
    assert SeedInsert(t1, 30) == t2;
    assert SeedInsert(t2, 70) == t3;
    assert SeedInsert(t3, 20) == t4;
    assert SeedInsert(t4, 40) == t5;
    assert SeedInsert(t5, 60) == t6;
    assert SeedInsert(t6, 80) == SeedShape();
    assert BuildSeed(SeedShape(), []) == SeedShape();
    assert BuildSeed(t6, [80]) == SeedShape();
    assert BuildSeed(t5, [60, 80]) == SeedShape();
    assert BuildSeed(t4, [40, 60, 80]) == SeedShape();
    assert BuildSeed(t3, [20, 40, 60, 80]) == SeedShape();
    assert BuildSeed(t2, [70, 20, 40, 60, 80]) == SeedShape();
    assert BuildSeed(t1, [30, 70, 20, 40, 60, 80]) == SeedShape();
  }

  function SeedShape(): Tree
  {
    Node(-1, 50, Node(-1, 30, Leaf(-1, 20), Leaf(-1, 40)), Node(-1, 70, Leaf(-1, 60), Leaf(-1, 80)))
  }

  /** Rebuilding the example shape numbers its nodes from `n` in preorder. */
  lemma RenumberSeedShape(n: int)
    ensures Renumber(SeedShape(), n) == SeededTree(n)
  {
    RenumberTriple(20, 30, 40, n + 1);
    RenumberTriple(60, 70, 80, n + 4);
  }

  /** A three-node tree is numbered root first, then its left and its right leaf. */
  lemma RenumberTriple(a: int, b: int, c: int, k: int)
    ensures Size(Node(-1, b, Leaf(-1, a), Leaf(-1, c))) == 3
    ensures Renumber(Node(-1, b, Leaf(-1, a), Leaf(-1, c)), k) == Node(k, b, Leaf(k + 1, a), Leaf(k + 2, c))
  {
    RenumberLeaf(a, k + 1);
    RenumberLeaf(c, k + 2);
  }

  lemma RenumberLeaf(v: int, k: int)
    ensures Size(Leaf(-1, v)) == 1 && Renumber(Leaf(-1, v), k) == Leaf(k, v)
  {
    assert Renumber(Nil, k + 1) == Nil;
  }

  /**
   * The seed values inserted into an empty tree and rebuilt from `n` give the example
   * tree: a search tree with distinct ids, all below `n + 7`.
   */
  lemma SeededRebuild(r: Tree, n: int)
    requires r == BuildSeed(Nil, SeedValues)
    ensures Renumber(r, n) == SeededTree(n)
    ensures BST(SeededTree(n)) && UniqueIds(SeededTree(n)) && forall i <- Ids(SeededTree(n)) :: i < n + 7
  {
    SeedInsertsBalance();
    RenumberSeedShape(n);
    SeededTreeIsSearchTree(n);
    assert Size(SeedShape()) == 7;
  }

  /** The example tree is a search tree with distinct ids. */
  lemma SeededTreeIsSearchTree(n: int)
    ensures BST(SeededTree(n)) && UniqueIds(SeededTree(n))
  {
    var l, r := Node(n + 1, 30, Leaf(n + 2, 20), Leaf(n + 3, 40)), Node(n + 4, 70, Leaf(n + 5, 60), Leaf(n + 6, 80));
    LeafFacts(n + 2, 20);
    LeafFacts(n + 3, 40);
    LeafFacts(n + 5, 60);
    LeafFacts(n + 6, 80);
    assert Values(l) == {20} + {30} + {40} && Values(r) == {60} + {70} + {80};
    assert Ids(l) == {n + 2} + {n + 1} + {n + 3} && Ids(r) == {n + 5} + {n + 4} + {n + 6};
  }

  lemma LeafFacts(id: int, v: int)
    ensures Values(Leaf(id, v)) == {v} && Ids(Leaf(id, v)) == {id}
    ensures BST(Leaf(id, v)) && UniqueIds(Leaf(id, v))
  {
    assert Values(Nil) == {} && Ids(Nil) == {};
  }

  /** Its inorder listing is 20, 30, …, 80, and its ids run in preorder. */
  lemma SeededTreeOrders(n: int)
    ensures Inorder(SeededTree(n)) == [Item(n + 2, 20), Item(n + 1, 30), Item(n + 3, 40), Item(n, 50),
                                       Item(n + 5, 60), Item(n + 4, 70), Item(n + 6, 80)]
    ensures Preorder(SeededTree(n)) == [Item(n, 50), Item(n + 1, 30), Item(n + 2, 20), Item(n + 3, 40),
                                        Item(n + 4, 70), Item(n + 5, 60), Item(n + 6, 80)]
  {
    var l, r := Node(n + 1, 30, Leaf(n + 2, 20), Leaf(n + 3, 40)), Node(n + 4, 70, Leaf(n + 5, 60), Leaf(n + 6, 80));
    assert forall id, v :: Inorder(Leaf(id, v)) == Preorder(Leaf(id, v)) == [Item(id, v)];
    assert Inorder(l) == [Item(n + 2, 20), Item(n + 1, 30), Item(n + 3, 40)];
    assert Inorder(r) == [Item(n + 5, 60), Item(n + 4, 70), Item(n + 6, 80)];
    assert Preorder(l) == [Item(n + 1, 30), Item(n + 2, 20), Item(n + 3, 40)];
    assert Preorder(r) == [Item(n + 4, 70), Item(n + 5, 60), Item(n + 6, 80)];
  }

  // ---------------------------------------------------------------- walks

  /** The node-case part of `buildDeleteTrace`, with its successor loop. */
  method CaseFrames(cur: Tree) returns (out: seq<Frame<TreeMsg>>)
    requires cur.Node?
    ensures out == DeleteCase(cur)
  {
    if cur.left.Nil? && cur.right.Nil? {
      return [Frame(LeafRemove, [cur.id], [7])];
    }
    if cur.left.Nil? || cur.right.Nil? {
      return [Frame(OneChildPromote, [cur.id], [8])];
    }
    out := [Frame(TwoChildren, [cur.id], [9])];
    var s := cur.right;
    while s.left.Node?
      invariant s.Node?
      invariant out + SuccessorWalk(s, cur.id) == [Frame(TwoChildren, [cur.id], [9])] + SuccessorWalk(cur.right, cur.id)
      decreases s
    {
      out := out + [Frame(FindingSuccessor(s.value), [s.id], [10])];
      s := s.left;
    }
    out := out + [Frame(SuccessorIs(s.value), [s.id, cur.id], [11])] + [Frame(DeleteSuccessor, [], [12])];
  }

  /** The level-order loop's invariant; `whole` is the breadth-first order it produces. */
  ghost predicate LevelInv(root: Tree, whole: seq<Item>, q: seq<Tree>, visited: seq<Item>, trace: seq<Frame<TreeMsg>>, order: seq<int>)
    requires root.Node?
  {
    (forall k :: 0 <= k < |q| ==> q[k].Node?)
    && visited + LevelFrom(q) == whole
    && trace == [Frame(InitQueue, [root.id], [1])] + VisitFrames(visited, [3, 4])
    && order == Order(visited)
  }

  /** One turn of the level-order loop: dequeue, visit, enqueue the children. */
  lemma {:induction false} LevelStep(root: Tree, whole: seq<Item>, q: seq<Tree>, visited: seq<Item>, trace: seq<Frame<TreeMsg>>, order: seq<int>)
    requires root.Node? && q != [] && LevelInv(root, whole, q, visited, trace, order)
    ensures var n := q[0];
      LevelInv(root, whole, q[1..] + Children(n), visited + [Item(n.id, n.value)],
               trace + [Frame(Visit(n.value), [n.id], [3, 4])], order + [n.value])
      && SizeSum(q[1..] + Children(n)) < SizeSum(q)
  {
    var n := q[0];
    var it := Item(n.id, n.value);
    var next := q[1..] + Children(n);
    QueueStep(q);
    assert visited + [it] + LevelFrom(next) == visited + ([it] + LevelFrom(next));
    VisitSnoc(visited, it);
  }

  /** Dequeuing the first subtree and enqueuing its children keeps only non-empty subtrees queued and shrinks the queue. */
  lemma {:induction false} QueueStep(q: seq<Tree>)
    requires q != [] && forall k :: 0 <= k < |q| ==> q[k].Node?
    ensures var next := q[1..] + Children(q[0]);
      (forall k :: 0 <= k < |next| ==> next[k].Node?)
      && SizeSum(next) < SizeSum(q)
      && LevelFrom(q) == [Item(q[0].id, q[0].value)] + LevelFrom(next)
  {
    QueueConcat(q[1..], Children(q[0]));
  }

  /** One turn of the `levelorder` loop: dequeue a node, visit it, enqueue its children. */
  method LevelTurn(ghost root: Tree, ghost whole: seq<Item>, q: seq<Tree>, trace: seq<Frame<TreeMsg>>,
                   order: seq<int>, ghost visited: seq<Item>)
    returns (q': seq<Tree>, trace': seq<Frame<TreeMsg>>, order': seq<int>, ghost visited': seq<Item>)
    requires root.Node? && q != [] && LevelInv(root, whole, q, visited, trace, order)
    ensures LevelInv(root, whole, q', visited', trace', order') && SizeSum(q') < SizeSum(q)
  {
    var node := q[0];
    q' := q[1..];
    trace' := trace + [Frame(Visit(node.value), [node.id], [3, 4])];
    order' := order + [node.value];
    visited' := visited + [Item(node.id, node.value)];
    ghost var rest := q';
    if node.left.Node? {
      q' := q' + [node.left];
    }
    if node.right.Node? {
      q' := q' + [node.right];
    }
    ChildrenInOrder(node, rest, q');
    LevelStep(root, whole, q, visited, trace, order);
  }

  /** The `levelorder` of `buildTraversalTrace`: a queue of subtrees, left child before right. */
  method LevelOrderTrace(root: Tree) returns (trace: seq<Frame<TreeMsg>>, order: seq<int>)
    requires root.Node?
    ensures trace == [Frame(InitQueue, [root.id], [1])] + VisitFrames(LevelFrom([root]), [3, 4])
    ensures order == Order(LevelFrom([root]))
  {
    var q := [root];
    trace := [Frame(InitQueue, [root.id], [1])];
    order := [];
    ghost var whole := LevelFrom([root]);
    ghost var visited: seq<Item> := [];
    while q != []
      invariant LevelInv(root, whole, q, visited, trace, order)
      decreases SizeSum(q)
    {
      q, trace, order, visited := LevelTurn(root, whole, q, trace, order, visited);
    }
    assert visited + [] == visited;
  }

  /**
   * The walk of `onInsert`: from the root, go left of a larger value and right of a
   * smaller one, collecting the ids passed, until a node holds `v` or the walk falls off.
   */
  method WalkPath(t: Tree, v: int) returns (found: bool, path: seq<int>)
    ensures found == OnPath(t, v)
    ensures path == PathIds(t, v)
  {
    var cur := t;
    path := [];
    while cur.Node?
      invariant path + PathIds(cur, v) == PathIds(t, v)
      invariant OnPath(cur, v) == OnPath(t, v)
      decreases cur
    {
      path := path + [cur.id];
      if v == cur.value {
        assert PathIds(cur, v) == [cur.id];
        return true, path;
      }
      cur := if v < cur.value then cur.left else cur.right;
    }
    assert path + [] == path;
    found := false;
  }

  /** Two frames pushed one after the other, then the rest of a walk. */
  lemma Glue<T>(pre: seq<T>, a: T, b: T, w: seq<T>)
    ensures pre + [a] + [b] + w == pre + ([a] + ([b] + w))
  {
  }

  // ---------------------------------------------------------------- the view

  class TreeView {
    var root: Tree
    /** `idRef.current`: the id the next created node gets. */
    var nextId: int
    /** The value whose deletion waits for the delete animation to end, if any. */
    var pendingDelete: Option<int>

    /** The tree is a search tree whose ids are distinct and all below `nextId`. */
    ghost predicate Valid()
      reads this
    {
      BST(root) && UniqueIds(root) && forall i <- Ids(root) :: i < nextId
    }

    constructor()
      ensures root == Nil && nextId == 1 && pendingDelete == None && Valid()
    {
      root := Nil;
      nextId := 1;
      pendingDelete := None;
    }

    /**
     * `resetAnimation`, which every handler below runs once its input is accepted and
     * the reset button runs alone: a pending deletion is dropped, the tree is kept.
     */
    method ResetAnimation()
      modifies this
      ensures root == old(root) && nextId == old(nextId) && pendingDelete == None
    {
      pendingDelete := None;
    }

    /**
     * The effect that runs when the animation has played its last step: a pending
     * deletion is applied, then cleared; without one the tree is kept.
     */
    method OnAnimationEnd()
      requires Valid()
      modifies this
      ensures Valid() && nextId == old(nextId) && pendingDelete == None
      ensures old(pendingDelete).Some? ==>
        root == Delete(old(root), old(pendingDelete).value)
        && Values(root) == Values(old(root)) - {old(pendingDelete).value}
      ensures old(pendingDelete).None? ==> root == old(root)
    {
      if pendingDelete.Some? {
        ApplyDelete(pendingDelete.value);
        pendingDelete := None;
      }
    }

    /**
     * `onInsert`. `input` is `None` for an empty field or a value that is not a
     * number; nothing happens then. An empty tree gets the value as its root; a
     * value already present leaves the tree alone; otherwise a leaf is attached where
     * the walk from the root fell off. The flash names the nodes walked.
     */
    method OnInsert(input: Option<int>) returns (flash: Option<Flash>)
      requires Valid()
      modifies this
      ensures Valid()
      ensures input.None? ==> flash.None? && root == old(root) && nextId == old(nextId)
      ensures pendingDelete == if input.None? then old(pendingDelete) else None
      ensures input.Some? ==> Values(root) == Values(old(root)) + {input.value}
      ensures input.Some? && old(root).Nil? ==>
          root == Leaf(old(nextId), input.value) && nextId == old(nextId) + 1
          && flash == Some(Flash([old(nextId)], InsertedRoot(input.value)))
      ensures input.Some? && old(root).Node? && input.value in Values(old(root)) ==>
          root == old(root) && nextId == old(nextId)
          && flash == Some(Flash(PathIds(old(root), input.value), AlreadyExists(input.value)))
      ensures input.Some? && old(root).Node? && input.value !in Values(old(root)) ==>
          root == Insert(old(root), input.value, old(nextId)) && nextId == old(nextId) + 1
          && Size(root) == Size(old(root)) + 1
          && flash == Some(Flash(PathIds(old(root), input.value) + [old(nextId)], Inserted(input.value)))
    {
      if input.None? {
        return None;
      }
      pendingDelete := None;
      var v := input.value;
      if root.Nil? {
        root := Leaf(nextId, v);
        flash := Some(Flash([nextId], InsertedRoot(v)));
        nextId := nextId + 1;
        return;
      }
      PathFindsMembers(root, v);
      var found, path := WalkPath(root, v);
      if found {
        return Some(Flash(path, AlreadyExists(v)));
      }
      InsertKeepsSearchTree(root, v, nextId);
      InsertKeepsIdsUnique(root, v, nextId);
      root := Insert(root, v, nextId);
      flash := Some(Flash(path + [nextId], Inserted(v)));
      nextId := nextId + 1;
    }

    /** `buildSearchTrace`. */
    method BuildSearchTrace(x: int) returns (out: seq<Frame<TreeMsg>>)
      ensures out == SearchTrace(root, x)
    {
      out := [Frame(StartAtRoot, RootIds(root), [1])];
      var cur := root;
      while cur.Node?
        invariant out + SearchWalk(cur, x) == SearchTrace(root, x)
        decreases cur
      {
        ghost var pre := out;
        var cmp := Frame(Compare(x, cur.value), [cur.id], [2]);
        out := out + [cmp];
        if x == cur.value {
          var hit := Frame(Found(x), [cur.id], [3]);
          Glue(pre, cmp, hit, []);
          return out + [hit];
        }
        var go := if x < cur.value then Frame(GoLeft(x, cur.value), [cur.id], [4])
                  else Frame(GoRight(x, cur.value), [cur.id], [5]);
        var next := if x < cur.value then cur.left else cur.right;
        assert SearchWalk(cur, x) == [cmp] + ([go] + SearchWalk(next, x));
        Glue(pre, cmp, go, SearchWalk(next, x));
        out := out + [go];
        cur := next;
      }
      out := out + [Frame(NotInTree(x), [], [6])];
    }

    /** `onSearch`: nothing for an empty or non-numeric input, else the search trace. */
    method OnSearch(input: Option<int>) returns (trace: Option<seq<Frame<TreeMsg>>>)
      modifies this
      ensures root == old(root) && nextId == old(nextId)
      ensures pendingDelete == if input.None? then old(pendingDelete) else None
      ensures input.None? <==> trace.None?
      ensures input.Some? ==> trace == Some(SearchTrace(root, input.value))
    {
      if input.None? {
        return None;
      }
      ResetAnimation();
      var t := BuildSearchTrace(input.value);
      return Some(t);
    }

    /** `buildDeleteTrace`: the walk to `x`, then the frames for its case. */
    method BuildDeleteTrace(x: int) returns (out: seq<Frame<TreeMsg>>)
      ensures out == DeleteTrace(root, x)
    {
      out := [Frame(StartAtRoot, RootIds(root), [1])];
      var cur := root;
      while cur.Node? && cur.value != x
        invariant out + DeleteWalk(cur, x) == DeleteTrace(root, x)
        decreases cur
      {
        var at := Frame(AtNode(cur.value), [cur.id], [2]);
        var go := if x < cur.value then Frame(GoLeft(x, cur.value), [cur.id], [3])
                  else Frame(GoRight(x, cur.value), [cur.id], [4]);
        var next := if x < cur.value then cur.left else cur.right;
        assert DeleteWalk(cur, x) == [at] + ([go] + DeleteWalk(next, x));
        Glue(out, at, go, DeleteWalk(next, x));
        out := out + [at];
        out := out + [go];
        cur := next;
      }
      if cur.Nil? {
        return out + [Frame(NotFound(x), [], [5])];
      }
      var frames := CaseFrames(cur);
      out := out + [Frame(FoundNode(x), [cur.id], [6])] + frames + [Frame(DeletionComplete, [], [])];
    }

    /** `applyDelete`: the deletion itself. */
    method ApplyDelete(x: int)
      requires Valid()
      modifies this
      ensures Valid() && nextId == old(nextId)
      ensures root == Delete(old(root), x)
      ensures Values(root) == Values(old(root)) - {x}
    {
      DeleteKeepsSearchTree(root, x);
      DeleteKeepsIdsUnique(root, x);
      root := Del(root, x);
    }

    /**
     * `onDelete`: nothing for an empty or non-numeric input; else the delete trace of
     * the current tree is shown and the deletion waits for the animation to end
     * (`OnAnimationEnd`), unless another handler resets the animation first.
     */
    method OnDelete(input: Option<int>) returns (trace: Option<seq<Frame<TreeMsg>>>)
      modifies this
      ensures root == old(root) && nextId == old(nextId)
      ensures input.None? ==> trace.None? && pendingDelete == old(pendingDelete)
      ensures input.Some? ==> trace == Some(DeleteTrace(root, input.value)) && pendingDelete == input
    {
      if input.None? {
        return None;
      }
      ResetAnimation();
      pendingDelete := input;
      var t := BuildDeleteTrace(input.value);
      return Some(t);
    }

    /** `buildMinMaxTrace`: `leftMost` for the minimum, otherwise the maximum. */
    method BuildMinMaxTrace(leftMost: bool) returns (out: seq<Frame<TreeMsg>>)
      ensures out == MinMaxTrace(root, leftMost)
    {
      var cur := root;
      if cur.Nil? {
        return [Frame(TreeEmpty, [], [1])];
      }
      out := [Frame(StartAtRoot, [cur.id], [1])];
      while Next(cur, leftMost).Node?
        invariant cur.Node?
        invariant out + ExtremeWalk(cur, leftMost) == MinMaxTrace(root, leftMost)
        decreases cur
      {
        out := out + [Frame(if leftMost then GoLeftFrom(cur.value) else GoRightFrom(cur.value), [cur.id], [2, 3])];
        cur := Next(cur, leftMost);
      }
      out := out + [Frame(ExtremeMsg(leftMost, cur.value), [cur.id], [4])];
    }

    /**
     * `buildTraversalTrace`: one visit frame per node in the traversal's order, the
     * level order starting with the queue frame; `order` lists the visited values.
     */
    method BuildTraversalTrace(kind: Traversal) returns (trace: seq<Frame<TreeMsg>>, order: seq<int>)
      ensures order == Order(Walk(kind, root))
      ensures trace == (if kind == LevelOrder && root.Node? then [Frame(InitQueue, [root.id], [1])] else [])
                       + VisitFrames(Walk(kind, root), VisitPc(kind))
    {
      if kind != LevelOrder {
        var items := Walk(kind, root);
        return VisitFrames(items, VisitPc(kind)), Order(items);
      }
      if root.Nil? {
        return [], [];
      }
      trace, order := LevelOrderTrace(root);
    }

    /**
     * `onSeed`: the example values inserted one after another into an empty tree,
     * then rebuilt with fresh ids from `nextId`.
     */
    method OnSeed()
      requires Valid()
      modifies this
      ensures Valid()
      ensures root == SeededTree(old(nextId)) && nextId == old(nextId) + 7 && pendingDelete == None
    {
      pendingDelete := None;
      var r := InsertAll(SeedValues);
      SeededRebuild(r, nextId);
      root := Renumber(r, nextId);
      nextId := nextId + 7;
    }

    /** The `for (const v of arr) r = ins(r, v)` loop of `onSeed`, from the empty tree. */
    static method InsertAll(vs: seq<int>) returns (r: Tree)
      ensures r == BuildSeed(Nil, vs)
    {
      r := Nil;
      for i := 0 to |vs|
        invariant BuildSeed(r, vs[i..]) == BuildSeed(Nil, vs)
      {
        SeedStep(r, vs[i..]);
        assert vs[i..][1..] == vs[i + 1..];
        r := SeedInsert(r, vs[i]);
      }
      assert vs[|vs|..] == [];
    }

    /** `onClear`. */
    method OnClear()
      requires Valid()
      modifies this
      ensures Valid() && root == Nil && nextId == old(nextId) && pendingDelete == None
    {
      pendingDelete := None;
      root := Nil;
    }
  }

  /** A delete whose animation plays to the end removes exactly the value. */
  method DeleteThenAnimationEnd(v: TreeView, x: int) returns (trace: seq<Frame<TreeMsg>>)
    requires v.Valid()
    modifies v
    ensures v.Valid() && v.root == Delete(old(v.root), x) && v.pendingDelete == None
    ensures Values(v.root) == Values(old(v.root)) - {x}
    ensures trace == DeleteTrace(old(v.root), x)
  {
    var t := v.OnDelete(Some(x));
    v.OnAnimationEnd();
    trace := t.value;
  }

  /** A search started before the delete animation ends cancels the deletion. */
  method DeleteCancelledBySearch(v: TreeView, x: int, y: int)
    requires v.Valid()
    modifies v
    ensures v.Valid() && v.root == old(v.root) && v.pendingDelete == None
  {
    var t := v.OnDelete(Some(x));
    var s := v.OnSearch(Some(y));
    v.OnAnimationEnd();
  }
}
