/**
 * The collections of the `concrete` package: a binary search tree with a pre-order iterator, a
 * singly linked list, and a stack built on that list. The tree keeps its nodes as a tree value
 * (see SearchTrees); the list keeps real nodes linked by `next` references, described by a ghost
 * sequence of those nodes and of their data.
 */
module Concrete {
  import opened Wrappers
  import opened SearchTrees

  /** BinaryTree: the root and the element count inherited from the abstract collection. */
  class BinaryTree {
    var root: Tree
    var size: int

    /** Search-tree order, and a size that counts the stored keys. */
    predicate Valid()
      reads this
    {
      IsBst(root) && size == |Keys(root)|
    }

    constructor ()
      ensures Valid() && root == Leaf && size == 0
    {
      root := Leaf;
      size := 0;
    }

    /**
     * add(e): walk to the null child the search for `e` ends on and hang a new node there; the
     * size goes up by one and the answer is always true.
     */
    method Add(e: int) returns (b: bool)
      requires Valid()
      modifies this
      ensures Valid()
      ensures b && root == Insert(old(root), e) && size == old(size) + 1
    {
      var path := InsertionPath(root, e);
      InsertKeepsOrder(root, e);
      root := Plug(path, Node(Leaf, e, Leaf));
      size := size + 1;
      b := true;
    }

    method Clear()
      modifies this
      ensures Valid() && root == Leaf && size == 0
    {
      root := Leaf;
      size := 0;
    }

    /** height(): 0 for an empty or one-node tree, otherwise the edges on a longest path. */
    method Height() returns (h: int)
      ensures root == Leaf ==> h == 0
      ensures root != Leaf ==> h == Depth(root) - 1
    {
      h := LevelOrderHeight(root);
    }

    /**
     * transplant(u, v): the subtree `u`, reached by `path` from the root, is replaced by `v` in
     * its parent's child slot, or as the root when it has no parent.
     */
    method Transplant(ghost u: Tree, path: seq<Step>, v: Tree)
      requires root == Plug(path, u)
      modifies this
      ensures root == Plug(path, v) && size == old(size)
      ensures Keys(root) == Keys(old(root)) - Keys(u) + Keys(v)
    {
      PlugExchangesKeys(path, u, v);
      if |path| == 0 {
        root := v;
      } else {
        var above := path[..|path| - 1];
        match path[|path| - 1]
        case WentLeft(k, r) =>
          root := Plug(above, Node(v, k, r));
        case WentRight(l, k) =>
          root := Plug(above, Node(l, k, v));
      }
    }

    /** iteratorPreOrder(): an iterator over the current tree. */
    method IteratorPreOrder() returns (it: PreOrderIterator)
      ensures fresh(it) && it.Valid() && it.Remaining() == PreOrder(root)
    {
      it := new PreOrderIterator(root);
    }
  }

  /** Refilling the slot at the end of `path` trades the keys of `u` for those of `v`. */
  lemma PlugExchangesKeys(path: seq<Step>, u: Tree, v: Tree)
    ensures Keys(Plug(path, v)) == Keys(Plug(path, u)) - Keys(u) + Keys(v)
  {
    PlugKeys(path, u);
    PlugKeys(path, v);
    var pk := PathKeys(path);
    assert pk + Keys(u) - Keys(u) == pk;
  }

  /** The keys still to come from a stack of subtrees: the top subtree first, in pre-order. */
  function Pending(stack: seq<Tree>): seq<int>
    decreases |stack|
  {
    if |stack| == 0 then [] else PreOrder(stack[|stack| - 1]) + Pending(stack[..|stack| - 1])
  }

  /** A stack of non-null subtrees has keys pending exactly when it is not empty. */
  lemma {:induction false} PendingEmpty(stack: seq<Tree>)
    requires forall i | 0 <= i < |stack| :: stack[i].Node?
    ensures Pending(stack) == [] <==> stack == []
  {
  }

  lemma PendingSnoc(stack: seq<Tree>, t: Tree)
    ensures Pending(stack + [t]) == PreOrder(t) + Pending(stack)
  {
    assert (stack + [t])[..|stack|] == stack;
  }

  /** The stack with `t` pushed when it is a node; pushing nothing adds nothing pending either. */
  function PushNode(stack: seq<Tree>, t: Tree): seq<Tree> {
    if t != Leaf then stack + [t] else stack
  }

  lemma PushNodePending(stack: seq<Tree>, t: Tree)
    ensures Pending(PushNode(stack, t)) == PreOrder(t) + Pending(stack)
  {
    if t != Leaf {
      PendingSnoc(stack, t);
    }
  }

  /** The stack after `next` pops the top node and pushes its right and then its left child. */
  function Popped(stack: seq<Tree>): seq<Tree>
    requires |stack| > 0 && stack[|stack| - 1].Node?
  {
    var node := stack[|stack| - 1];
    PushNode(PushNode(stack[..|stack| - 1], node.right), node.left)
  }

  /** Popping a node and pushing its children hands out the node's key and keeps the rest in order. */
  lemma PoppedPending(stack: seq<Tree>)
    requires |stack| > 0 && stack[|stack| - 1].Node?
    ensures Pending(stack) == [stack[|stack| - 1].key] + Pending(Popped(stack))
  {
    var node, below := stack[|stack| - 1], stack[..|stack| - 1];
    PushNodePending(below, node.right);
    PushNodePending(PushNode(below, node.right), node.left);
    var left, right, rest := PreOrder(node.left), PreOrder(node.right), Pending(below);
    calc {
      Pending(stack);
      PreOrder(node) + rest;
      [node.key] + left + right + rest;
      { Regroup([node.key], left, right, rest); }
      [node.key] + (left + (right + rest));
      [node.key] + Pending(Popped(stack));
    }
  }

  lemma Regroup<T>(a: seq<T>, b: seq<T>, c: seq<T>, d: seq<T>)
    ensures a + b + c + d == a + (b + (c + d))
  {
  }

  /** PreOrderIterator: a stack of nodes whose top is the next node to visit. */
  class PreOrderIterator {
    var stack: seq<Tree>

    predicate Valid()
      reads this
    {
      forall i | 0 <= i < |stack| :: stack[i].Node?
    }

    /** The keys the iterator has still to hand out, in order. */
    function Remaining(): seq<int>
      reads this
    {
      Pending(stack)
    }

    /** The stack holds the root when there is one. */
    constructor (root: Tree)
      ensures Valid() && Remaining() == PreOrder(root)
    {
      if root != Leaf {
        stack := [root];
        PendingSnoc([], root);
        assert [] + [root] == [root];
      } else {
        stack := [];
      }
    }

    method HasNext() returns (b: bool)
      requires Valid()
      ensures b <==> Remaining() != []
    {
      PendingEmpty(stack);
      b := stack != [];
    }

    /**
     * next(): NoSuchElementException when nothing is left; otherwise pop a node, push its right
     * child and then its left child, and hand out the node's key.
     */
    method Next() returns (r: Result<int>)
      requires Valid()
      modifies this
      ensures Valid()
      ensures old(Remaining()) == [] ==> r == Err(NoSuchElement) && stack == old(stack)
      ensures old(Remaining()) != [] ==>
        r == Ok(old(Remaining())[0]) && Remaining() == old(Remaining())[1..]
    {
      PendingEmpty(stack);
      if stack == [] {
        return Err(NoSuchElement);
      }
      PoppedPending(stack);
      ghost var popped := Popped(stack);
      var node := stack[|stack| - 1];
      stack := stack[..|stack| - 1];
      if node.right != Leaf {
        stack := stack + [node.right];
      }
      if node.left != Leaf {
        stack := stack + [node.left];
      }
      r := Ok(node.key);
    }
  }

  /** The position of the first occurrence of `x`, the element `remove` unlinks. */
  function FirstIndex<T(==)>(s: seq<T>, x: T): (k: nat)
    requires x in s
    ensures k < |s| && s[k] == x && x !in s[..k]
  {
    if s[0] == x then 0
    else
      var k := FirstIndex(s[1..], x);
      assert s[..k + 1] == [s[0]] + s[1..][..k];
      k + 1
  }

  lemma {:induction false} FirstIndexAt<T>(s: seq<T>, x: T, k: nat)
    requires k < |s| && s[k] == x && x !in s[..k]
    ensures FirstIndex(s, x) == k
  {
    if k > 0 {
      assert s[0] in s[..k];
      assert s[..k] == [s[0]] + s[1..][..k - 1];
      FirstIndexAt(s[1..], x, k - 1);
    }
  }

  /** `s` without the element at position `k`. */
  function Without<T>(s: seq<T>, k: nat): (r: seq<T>)
    requires k < |s|
    ensures |r| == |s| - 1
    ensures forall i | 0 <= i < |r| :: r[i] == if i < k then s[i] else s[i + 1]
  {
    s[..k] + s[k + 1..]
  }

  /**
   * `nodes` are the distinct nodes reached from `head` by following `next` until null, in order,
   * and `contents` their data.
   */
  ghost predicate Chain<T>(head: ListNode?<T>, nodes: seq<ListNode<T>>, contents: seq<T>)
    reads nodes
  {
    |contents| == |nodes| &&
    (if |nodes| == 0 then head == null else head == nodes[0]) &&
    (forall i | 0 <= i < |nodes| :: nodes[i].data == contents[i]) &&
    (forall i | 0 <= i < |nodes| - 1 :: nodes[i].next == nodes[i + 1]) &&
    (|nodes| > 0 ==> nodes[|nodes| - 1].next == null) &&
    (forall i, j | 0 <= i < j < |nodes| :: nodes[i] != nodes[j])
  }

  /** A node of SinglyLinkedList. */
  class ListNode<T> {
    var data: T
    var next: ListNode?<T>

    constructor (data: T)
      ensures this.data == data && next == null
    {
      this.data := data;
      next := null;
    }
  }

  /**
   * SinglyLinkedList: nodes linked from `head` by `next`, and an element count kept beside them.
   * `nodes` lists the nodes reachable from `head` in order and `contents` their data. The count
   * is never below the number of reachable nodes, and exceeds it once `remove` has dropped the
   * nodes behind a matching head.
   */
  class SinglyLinkedList<T(==)> {
    var head: ListNode?<T>
    var size: int
    ghost var nodes: seq<ListNode<T>>
    ghost var contents: seq<T>
    ghost var Repr: set<object>

    ghost predicate Valid()
      reads this, Repr
    {
      this in Repr &&
      (forall i | 0 <= i < |nodes| :: nodes[i] in Repr) &&
      Chain(head, nodes, contents) &&
      |nodes| <= size
    }

    /** The node after the `k`-th reachable one, or null after the last. */
    lemma NextLink(k: int)
      requires Valid() && 0 <= k < |nodes|
      ensures nodes[k].next == if k + 1 < |nodes| then nodes[k + 1] else null
    {
      if k + 1 < |nodes| {
        assert nodes[k].next == nodes[k + 1];
      }
    }

    constructor ()
      ensures Valid() && fresh(Repr) && contents == [] && size == 0
    {
      head := null;
      size := 0;
      nodes, contents := [], [];
      Repr := {this};
    }

    /** add(e): a new node after the last reachable one, or as the head when there is none. */
    method Add(e: T) returns (b: bool)
      requires Valid()
      modifies Repr
      ensures Valid() && fresh(Repr - old(Repr))
      ensures b && contents == old(contents) + [e] && size == old(size) + 1
    {
      var current := head;
      if head == null {
        var newNode := new ListNode(e);
        head := newNode;
        nodes := [newNode];
      } else {
        current := LastNode();
        var newNode := new ListNode(e);
        LinkLast(current, newNode);
        nodes := nodes + [newNode];
      }
      contents := contents + [e];
      Repr := Repr + {nodes[|nodes| - 1]};
      size := size + 1;
      b := true;
    }

    /** The last step of `add`: the last reachable node now leads to a node from outside the list. */
    method LinkLast(last: ListNode<T>, newNode: ListNode<T>)
      requires Valid() && |nodes| > 0 && last == nodes[|nodes| - 1]
      requires newNode !in Repr && newNode.next == null
      modifies last
      ensures Chain(head, nodes + [newNode], contents + [newNode.data])
    {
      last.next := newNode;
      forall k | 0 <= k < |nodes| - 1
        ensures nodes[k].next == nodes[k + 1]
      {
        assert nodes[k] != last;
      }
    }

    /** The walk of `add` to the node whose `next` is null. */
    method LastNode() returns (last: ListNode<T>)
      requires Valid() && head != null
      ensures last == nodes[|nodes| - 1] && last.next == null
    {
      last := head;
      ghost var i := 0;
      while last.next != null
        invariant 0 <= i < |nodes| && last == nodes[i]
        decreases |nodes| - i
      {
        NextLink(i);
        last := last.next;
        i := i + 1;
      }
      NextLink(i);
    }

    /**
     * remove(o): false, changing nothing, when no reachable element equals `o`. Otherwise the
     * count drops by one and the first match is unlinked from its predecessor; when the match is
     * the head, the head becomes null and every reachable node is dropped.
     */
    method Remove(o: T) returns (b: bool)
      requires Valid()
      modifies Repr
      ensures Valid() && Repr <= old(Repr)
      ensures b <==> o in old(contents)
      ensures !b ==> contents == old(contents) && size == old(size)
      ensures b ==> size == old(size) - 1
      ensures b && old(contents)[0] == o ==> contents == []
      ensures b && old(contents)[0] != o ==>
        contents == Without(old(contents), FirstIndex(old(contents), o))
    {
      var found, prev, i := FindFirst(o);
      if !found {
        return false;
      }
      FirstIndexAt(contents, o, i);
      if prev == null {
        head := null;
        nodes, contents := [], [];
      } else {
        NextLink(i - 1);
        Unlink(prev, prev.next, i);
      }
      size := size - 1;
      b := true;
    }

    /**
     * The search loop of `remove`: walks from the head, keeping the previous node, until the data
     * equals `o` or the nodes run out.
     */
    method FindFirst(o: T) returns (found: bool, prev: ListNode?<T>, ghost i: nat)
      requires Valid()
      ensures found <==> o in contents
      ensures found ==> i < |nodes| && contents[i] == o && o !in contents[..i]
      ensures found ==> prev == if i == 0 then null else nodes[i - 1]
    {
      var current: ListNode?<T> := head;
      prev := null;
      i := 0;
      while current != null
        invariant 0 <= i <= |nodes|
        invariant current == if i < |nodes| then nodes[i] else null
        invariant prev == if i == 0 then null else nodes[i - 1]
        invariant o !in contents[..i]
        decreases |nodes| - i
      {
        if current.data == o {
          return true, prev, i;
        }
        assert contents[..i + 1] == contents[..i] + [contents[i]];
        NextLink(i);
        prev := current;
        current := current.next;
        i := i + 1;
      }
      assert contents[..i] == contents;
      found := false;
    }

    /** The unlinking step of `remove`: the predecessor of the `k`-th node now leads past it. */
    method Unlink(prev: ListNode<T>, current: ListNode<T>, ghost k: int)
      requires Valid() && 0 < k < |nodes| && prev == nodes[k - 1] && current == nodes[k]
      modifies this, prev
      ensures Valid() && head == old(head) && size == old(size) && Repr == old(Repr)
      ensures nodes == Without(old(nodes), k) && contents == Without(old(contents), k)
    {
      Bypass(prev, current, k);
      nodes, contents := Without(nodes, k), Without(contents, k);
    }

    /** The link change of `Unlink`: the chain without the `k`-th node is what `next` now follows. */
    method Bypass(prev: ListNode<T>, current: ListNode<T>, ghost k: int)
      requires Valid() && 0 < k < |nodes| && prev == nodes[k - 1] && current == nodes[k]
      modifies prev
      ensures Chain(head, Without(nodes, k), Without(contents, k))
    {
      NextLink(k);
      prev.next := current.next;
      ghost var rest := Without(nodes, k);
      forall j | 0 <= j < |rest| - 1
        ensures rest[j].next == rest[j + 1]
      {
        if j != k - 1 {
          var m := if j < k then j else j + 1;
          assert nodes[m] != prev;
          assert old(nodes[m].next) == nodes[m + 1];
        }
      }
      if k < |rest| {
        assert nodes[|nodes| - 1] != prev;
      }
    }

    /**
     * get(index): IndexOutOfBoundsException when `index` is not below the count; otherwise the
     * data `index` steps from the head, or a NullPointerException when the walk runs off the
     * reachable nodes (a negative index, or a count above the number of nodes).
     */
    method Get(index: int) returns (r: Result<T>)
      requires Valid()
      ensures index >= size ==> r == Err(IndexOutOfBounds)
      ensures index < size && 0 <= index < |contents| ==> r == Ok(contents[index])
      ensures index < size && !(0 <= index < |contents|) ==> r == Err(NullPointer)
    {
      if index >= size {
        return Err(IndexOutOfBounds);
      }
      var i := 0;
      var current := head;
      while i != index
        invariant 0 <= i <= |nodes|
        invariant current == if i < |nodes| then nodes[i] else null
        invariant i <= index || index < 0
        decreases |nodes| - i
      {
        if current == null {
          return Err(NullPointer);
        }
        current := current.next;
        i := i + 1;
      }
      if current == null {
        return Err(NullPointer);
      }
      r := Ok(current.data);
    }

    method Clear()
      requires Valid()
      modifies this
      ensures Valid() && contents == [] && size == 0
    {
      head := null;
      size := 0;
      nodes, contents := [], [];
    }
  }

  /**
   * MStack: the operations of a stack on top of SinglyLinkedList. `push` appends at the tail,
   * `peek` and `pop` read `get(0)`, the earliest element pushed, and `pop` then removes it.
   */
  class MStack<T(==)> {
    const list: SinglyLinkedList<T>
    ghost var Repr: set<object>

    ghost predicate Valid()
      reads this, Repr
    {
      this in Repr && list in Repr && list.Repr <= Repr && this !in list.Repr && list.Valid()
    }

    constructor ()
      ensures Valid() && fresh(Repr) && list.contents == [] && list.size == 0
    {
      list := new SinglyLinkedList();
      new;
      Repr := {this} + list.Repr;
    }

    /** push(e): add(e) of the list. */
    method Push(e: T)
      requires Valid()
      modifies Repr
      ensures Valid() && fresh(Repr - old(Repr))
      ensures list.contents == old(list.contents) + [e] && list.size == old(list.size) + 1
    {
      var _ := list.Add(e);
      Repr := Repr + list.Repr;
    }

    /**
     * peek(): NoSuchElementException on a count of zero, otherwise get(0), which fails with a
     * NullPointerException once `remove` has dropped the reachable nodes.
     */
    method Peek() returns (r: Result<T>)
      requires Valid()
      ensures list.size == 0 ==> r == Err(NoSuchElement)
      ensures list.size != 0 && list.contents != [] ==> r == Ok(list.contents[0])
      ensures list.size != 0 && list.contents == [] ==> r == Err(NullPointer)
    {
      if list.size == 0 {
        return Err(NoSuchElement);
      }
      r := list.Get(0);
    }

    /**
     * pop(): as `peek`, and on success `remove` of the element read. That element is the head's,
     * so the head becomes null and the count drops by one.
     */
    method Pop() returns (r: Result<T>)
      requires Valid()
      modifies Repr
      ensures Valid() && Repr <= old(Repr)
      ensures old(list.size) == 0 ==> r == Err(NoSuchElement)
      ensures old(list.size) != 0 && old(list.contents) == [] ==> r == Err(NullPointer)
      ensures r.Err? ==> list.contents == old(list.contents) && list.size == old(list.size)
      ensures old(list.size) != 0 && old(list.contents) != [] ==>
        r == Ok(old(list.contents)[0]) && list.contents == [] && list.size == old(list.size) - 1
    {
      if list.size == 0 {
        return Err(NoSuchElement);
      }
      r := list.Get(0);
      if r.Err? {
        return;
      }
      var _ := list.Remove(r.value);
    }
  }
}
