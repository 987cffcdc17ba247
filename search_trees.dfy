/**
 * The binary search trees of both tree collections, as values. A `Node` of the source is a
 * `Node` here with its two subtrees; a null child is `Leaf`. Keys are compared as integers,
 * standing for `compareTo` on the element type. Both `add` methods walk from the root to a null
 * child and hang the new node there, keys that compare below a node going left and all others
 * (equal keys included) going right; both `height` methods drain a level-order queue with null
 * markers. Those two walks are written here once, as methods over the tree value, and each tree
 * class calls them.
 */
module SearchTrees {

  datatype Tree = Leaf | Node(left: Tree, key: int, right: Tree)

  /** The keys stored in a tree, with their multiplicities. */
  function Keys(t: Tree): multiset<int> {
    match t
    case Leaf => multiset{}
    case Node(l, k, r) => Keys(l) + multiset{k} + Keys(r)
  }

  /** Search-tree order: left keys compare below the node, right keys not below it. */
  predicate IsBst(t: Tree) {
    match t
    case Leaf => true
    case Node(l, k, r) =>
      IsBst(l) && IsBst(r) &&
      (forall x | x in Keys(l) :: x < k) &&
      (forall x | x in Keys(r) :: k <= x)
  }

  /** The tree `add` produces: a new node hung at the null child the search for `e` ends on. */
  function Insert(t: Tree, e: int): (r: Tree)
    ensures Keys(r) == Keys(t) + multiset{e}
    ensures r.Node?
  {
    match t
    case Leaf => Node(Leaf, e, Leaf)
    case Node(l, k, r) =>
      if e < k then Node(Insert(l, e), k, r) else Node(l, k, Insert(r, e))
  }

  /** Adding a key keeps the search-tree order. */
  lemma {:induction false} InsertKeepsOrder(t: Tree, e: int)
    requires IsBst(t)
    ensures IsBst(Insert(t, e))
  {
    match t
    case Leaf =>
    case Node(l, k, r) =>
      if e < k {
        InsertKeepsOrder(l, e);
        forall x | x in Keys(Insert(l, e)) ensures x < k {
          assert x in Keys(l) || x == e;
        }
        assert Insert(t, e) == Node(Insert(l, e), k, r);
      } else {
        InsertKeepsOrder(r, e);
        forall x | x in Keys(Insert(r, e)) ensures k <= x {
          assert x in Keys(r) || x == e;
        }
        assert Insert(t, e) == Node(l, k, Insert(r, e));
      }
  }

  /** containsRecursively: descend left below the key, right above it, succeed on equality. */
  function Contains(t: Tree, e: int): (b: bool)
    ensures IsBst(t) ==> (b <==> e in Keys(t))
  {
    match t
    case Leaf => false
    case Node(l, k, r) =>
      if e < k then Contains(l, e) else if e > k then Contains(r, e) else true
  }

  /** After `add(e)` the tree contains `e`, and every key it contained before. */
  lemma InsertThenContains(t: Tree, e: int, x: int)
    requires IsBst(t)
    ensures Contains(Insert(t, e), e)
    ensures Contains(t, x) ==> Contains(Insert(t, e), x)
  {
    InsertKeepsOrder(t, e);
  }

  /** One step of a walk down from the root: the key passed and the subtree not taken. */
  datatype Step = WentLeft(key: int, right: Tree) | WentRight(left: Tree, key: int)

  /** The tree with `t` put back in the child slot that the step left from. */
  function Attach(s: Step, t: Tree): Tree {
    match s
    case WentLeft(k, r) => Node(t, k, r)
    case WentRight(l, k) => Node(l, k, t)
  }

  /** The whole tree, given the steps from the root (first) down to a slot and what fills the slot. */
  function Plug(path: seq<Step>, t: Tree): Tree
    decreases |path|
  {
    if |path| == 0 then t else Plug(path[..|path| - 1], Attach(path[|path| - 1], t))
  }

  lemma PlugSnoc(path: seq<Step>, s: Step, t: Tree)
    ensures Plug(path + [s], t) == Plug(path, Attach(s, t))
  {
    assert (path + [s])[..|path|] == path;
  }

  /** The keys of the steps of a walk: those outside the slot the walk ends in. */
  function PathKeys(path: seq<Step>): multiset<int>
    decreases |path|
  {
    if |path| == 0 then multiset{}
    else
      var s := path[|path| - 1];
      PathKeys(path[..|path| - 1]) + multiset{s.key} +
      (match s case WentLeft(_, r) => Keys(r) case WentRight(l, _) => Keys(l))
  }

  /** Refilling one slot exchanges the keys of the old subtree for those of the new one. */
  lemma {:induction false} PlugKeys(path: seq<Step>, t: Tree)
    ensures Keys(Plug(path, t)) == PathKeys(path) + Keys(t)
    decreases |path|
  {
    if |path| > 0 {
      PlugKeys(path[..|path| - 1], Attach(path[|path| - 1], t));
    }
  }

  /**
   * The walk of both `add` methods: from the root, left when `e` compares below the key and right
   * otherwise, until a null child. The steps returned lead to that null child, and hanging a new
   * node with key `e` there is exactly Insert.
   */
  method InsertionPath(root: Tree, e: int) returns (path: seq<Step>)
    ensures Plug(path, Leaf) == root
    ensures Plug(path, Node(Leaf, e, Leaf)) == Insert(root, e)
  {
    path := [];
    var current := root;
    while current != Leaf
      invariant Plug(path, current) == root
      invariant Plug(path, Insert(current, e)) == Insert(root, e)
      decreases current
    {
      if e < current.key {
        PlugSnoc(path, WentLeft(current.key, current.right), current.left);
        PlugSnoc(path, WentLeft(current.key, current.right), Insert(current.left, e));
        path := path + [WentLeft(current.key, current.right)];
        current := current.left;
      } else {
        PlugSnoc(path, WentRight(current.left, current.key), current.right);
        PlugSnoc(path, WentRight(current.left, current.key), Insert(current.right, e));
        path := path + [WentRight(current.left, current.key)];
        current := current.right;
      }
    }
  }

  /** The number of levels: the nodes on a longest path from the root down to a null child. */
  function Depth(t: Tree): nat {
    match t
    case Leaf => 0
    case Node(l, k, r) => 1 + Max(Depth(l), Depth(r))
  }

  function Max(a: nat, b: nat): nat {
    if a < b then b else a
  }

  /** The non-null children of a node, left before right, as `height` enqueues them. */
  function Children(t: Tree): (c: seq<Tree>)
    ensures forall i | 0 <= i < |c| :: c[i].Node?
  {
    match t
    case Leaf => []
    case Node(l, _, r) => (if l.Node? then [l] else []) + (if r.Node? then [r] else [])
  }

  /** The next level of a level: the non-null children of its nodes, in order. */
  function NextLevel(level: seq<Tree>): (next: seq<Tree>)
    ensures forall i | 0 <= i < |next| :: next[i].Node?
    decreases |level|
  {
    if |level| == 0 then [] else NextLevel(level[..|level| - 1]) + Children(level[|level| - 1])
  }

  /** The largest depth among the trees of a level. */
  function MaxDepth(level: seq<Tree>): nat
    decreases |level|
  {
    if |level| == 0 then 0 else Max(MaxDepth(level[..|level| - 1]), Depth(level[|level| - 1]))
  }

  lemma {:induction false} MaxDepthAppend(a: seq<Tree>, b: seq<Tree>)
    ensures MaxDepth(a + b) == Max(MaxDepth(a), MaxDepth(b))
    decreases |b|
  {
    if |b| > 0 {
      assert (a + b)[..|a + b| - 1] == a + b[..|b| - 1];
      MaxDepthAppend(a, b[..|b| - 1]);
    } else {
      assert a + b == a;
    }
  }

  lemma NextLevelSnoc(level: seq<Tree>, t: Tree)
    ensures NextLevel(level + [t]) == NextLevel(level) + Children(t)
  {
    assert (level + [t])[..|level|] == level;
  }

  /** A level of nodes that is not empty is exactly one deeper than the level below it. */
  lemma {:induction false} NextLevelDepth(level: seq<Tree>)
    requires forall i | 0 <= i < |level| :: level[i].Node?
    ensures |level| > 0 ==> MaxDepth(level) == MaxDepth(NextLevel(level)) + 1
    ensures |level| == 0 ==> MaxDepth(NextLevel(level)) == 0
    decreases |level|
  {
    if |level| > 0 {
      var init, t := level[..|level| - 1], level[|level| - 1];
      NextLevelDepth(init);
      MaxDepthAppend(NextLevel(init), Children(t));
      var c := Children(t);
      assert MaxDepth(c) == Depth(t) - 1 by {
        if t.left.Node? && t.right.Node? {
          MaxDepthAppend([t.left], [t.right]);
        } else if t.left.Node? {
          assert c == [t.left];
        } else if t.right.Node? {
          assert c == [t.right];
        }
      }
    }
  }

  /** The queue's head: Java's `poll` gives null (here `Leaf`) on an empty queue. */
  function Poll(q: seq<Tree>): (Tree, seq<Tree>) {
    if |q| == 0 then (Leaf, q) else (q[0], q[1..])
  }

  /** The queue of `height` in the middle of a level: the unvisited rest, the marker, then the
    * children of the visited part. */
  ghost function LevelQueue(level: seq<Tree>, visited: nat): seq<Tree>
    requires visited <= |level|
  {
    level[visited..] + [Leaf] + NextLevel(level[..visited])
  }

  /**
   * height: 0 for an empty tree; otherwise the markers passed while draining the level-order
   * queue, one per level after the first, which is the number of edges on a longest path.
   */
  method LevelOrderHeight(root: Tree) returns (height: int)
    ensures root == Leaf ==> height == 0
    ensures root != Leaf ==> height == Depth(root) - 1
  {
    height := 0;
    if root == Leaf {
      return 0;
    }
    var q: seq<Tree> := [root, Leaf];
    ghost var level, visited := [root], 0;
    LevelStart(level);
    var current;
    current, q := Poll(q).0, Poll(q).1;
    while |q| != 0
      invariant forall i | 0 <= i < |level| :: level[i].Node?
      invariant |level| > 0 && visited <= |level|
      invariant |LevelQueue(level, visited)| > 0
      invariant current == LevelQueue(level, visited)[0] && q == LevelQueue(level, visited)[1..]
      invariant height + MaxDepth(level) == Depth(root)
      decreases MaxDepth(level), |level| - visited
    {
      ghost var before := q;
      if visited < |level| {
        LevelVisit(level, visited);
      } else {
        LevelEnd(level);
      }
      if current == Leaf {
        NextLevelDepth(level);
        height := height + 1;
        if |q| != 0 {
          q := q + [Leaf];
        }
        level, visited := NextLevel(level), 0;
        LevelStart(level);
      } else {
        if current.left != Leaf {
          q := q + [current.left];
        }
        ghost var middle := q;
        if current.right != Leaf {
          q := q + [current.right];
        }
        EnqueueChildren(before, middle, q, current);
        visited := visited + 1;
      }
      assert q == LevelQueue(level, visited);
      current, q := Poll(q).0, Poll(q).1;
    }
    assert visited == |level| by {
      assert |LevelQueue(level, visited)| == 1;
    }
    LevelEnd(level);
    NextLevelDepth(level);
  }

  /** Enqueueing the non-null left and then the non-null right child appends the children. */
  lemma EnqueueChildren(before: seq<Tree>, middle: seq<Tree>, after: seq<Tree>, t: Tree)
    requires t.Node?
    requires middle == if t.left != Leaf then before + [t.left] else before
    requires after == if t.right != Leaf then middle + [t.right] else middle
    ensures after == before + Children(t)
  {
    if t.left != Leaf && t.right != Leaf {
      assert after == before + [t.left, t.right];
    }
  }

  /** A level starts with all of its nodes and then the marker. */
  lemma LevelStart(level: seq<Tree>)
    ensures LevelQueue(level, 0) == level + [Leaf]
  {
    assert level[..0] == [] && level[0..] == level;
  }

  /** Mid-level, the queue holds the next unvisited node first; enqueueing its children visits it. */
  lemma LevelVisit(level: seq<Tree>, visited: nat)
    requires visited < |level|
    ensures LevelQueue(level, visited)[0] == level[visited]
    ensures LevelQueue(level, visited)[1..] + Children(level[visited]) == LevelQueue(level, visited + 1)
  {
    var t := level[visited];
    var rest := level[visited + 1..];
    var done := NextLevel(level[..visited]);
    var tail := rest + [Leaf] + done;
    assert level[visited..] == [t] + rest;
    assert LevelQueue(level, visited) == [t] + tail;
    assert level[..visited] + [t] == level[..visited + 1];
    NextLevelSnoc(level[..visited], t);
    assert LevelQueue(level, visited + 1) == rest + [Leaf] + (done + Children(t));
  }

  /** Once a level is visited, the marker is at the front and the next level follows it. */
  lemma LevelEnd(level: seq<Tree>)
    ensures LevelQueue(level, |level|)[0] == Leaf
    ensures LevelQueue(level, |level|)[1..] == NextLevel(level)
  {
    assert level[..|level|] == level;
    assert level[|level|..] == [];
    assert LevelQueue(level, |level|) == [Leaf] + NextLevel(level);
  }

  /** The key of the node reached by following left children from the top of `t`. */
  function Leftmost(t: Tree): int
    requires t.Node?
  {
    if t.left == Leaf then t.key else Leftmost(t.left)
  }

  /** In a search tree the leftmost key is stored in it and is the least key. */
  lemma {:induction false} LeftmostIsLeast(t: Tree)
    requires t.Node?
    ensures Leftmost(t) in Keys(t)
    ensures IsBst(t) ==> forall x | x in Keys(t) :: Leftmost(t) <= x
  {
    if t.left != Leaf {
      LeftmostIsLeast(t.left);
    }
  }

  /** treeMinimum: follow left children from a node down to one without a left child. */
  method TreeMinimum(node: Tree) returns (m: Tree)
    requires node.Node?
    ensures m.Node? && m.left == Leaf
    ensures m.key in Keys(node)
    ensures IsBst(node) ==> forall x | x in Keys(node) :: m.key <= x
  {
    m := node;
    while m.left != Leaf
      invariant m.Node? && Leftmost(m) == Leftmost(node)
      decreases m
    {
      m := m.left;
    }
    LeftmostIsLeast(node);
  }

  /** The keys of a tree in pre-order: node, then left subtree, then right subtree. */
  function PreOrder(t: Tree): (s: seq<int>)
    ensures t.Node? ==> |s| > 0
  {
    match t
    case Leaf => []
    case Node(l, k, r) => [k] + PreOrder(l) + PreOrder(r)
  }

  /** The pre-order sequence lists every key of the tree exactly as often as it is stored. */
  lemma {:induction false} PreOrderKeys(t: Tree)
    ensures multiset(PreOrder(t)) == Keys(t)
  {
    match t
    case Leaf =>
    case Node(l, k, r) =>
      PreOrderKeys(l);
      PreOrderKeys(r);
  }
}
