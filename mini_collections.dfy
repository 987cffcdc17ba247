/**
 * The collections of the top-level package: the older binary search tree, with its iterative and
 * recursive lookups, and MLinkedList, a doubly linked list that adds at the head and is read as a
 * queue from the head. The tree keeps its nodes as a tree value (see SearchTrees); the list keeps
 * real nodes linked by `next` and `previous`, described by a ghost sequence of those nodes and of
 * their data.
 */
module MiniCollections {
  import opened Wrappers
  import opened SearchTrees

  /** The older BinaryTree: the root and its own element count. */
  class BinaryTree {
    var root: Tree
    var size: int

    /** Search-tree order, and a size that counts the stored keys. */
    predicate Valid()
      reads this
    {
      IsBst(root) && size == |Keys(root)|
    }

    constructor ()
      ensures Valid() && root == Leaf && size == 0
    {
      root := Leaf;
      size := 0;
    }

    /**
     * add(e): walk to the null child the search for `e` ends on, keys not below a node going
     * right, and hang a new node there; the size goes up by one and the answer is always true.
     */
    method Add(e: int) returns (b: bool)
      requires Valid()
      modifies this
      ensures Valid() && e in Keys(root)
      ensures b && root == Insert(old(root), e) && size == old(size) + 1
    {
      var path := InsertionPath(root, e);
      InsertKeepsOrder(root, e);
      root := Plug(path, Node(Leaf, e, Leaf));
      size := size + 1;
      b := true;
    }

    /** isEmpty(): whether the root is null, which for a valid tree is a count of zero. */
    method IsEmpty() returns (b: bool)
      ensures b <==> root == Leaf
      ensures Valid() ==> (b <==> size == 0)
    {
      b := root == Leaf;
    }

    method Clear()
      modifies this
      ensures Valid() && root == Leaf && size == 0
    {
      root := Leaf;
      size := 0;
    }

    /** contains(o): the iterative lookup, which in a search tree finds exactly the stored keys. */
    method Contains(e: int) returns (b: bool)
      requires Valid()
      ensures b <==> e in Keys(root)
    {
      b := ContainsIteratively(e);
    }

    /** height(): the same level-by-level count as the tree of the `concrete` package. */
    method Height() returns (h: int)
      ensures root == Leaf ==> h == 0
      ensures root != Leaf ==> h == Depth(root) - 1
    {
      h := LevelOrderHeight(root);
    }

    /**
     * containsIteratively(e): descend left below a larger key and right above a smaller one,
     * stopping at an equal key or a null child. It gives the same answer as the recursive lookup.
     */
    method ContainsIteratively(e: int) returns (b: bool)
      ensures b == SearchTrees.Contains(root, e)
    {
      var current := root;
      while current.Node?
        invariant SearchTrees.Contains(current, e) == SearchTrees.Contains(root, e)
        decreases current
      {
        if e < current.key {
          current := current.left;
        } else if e > current.key {
          current := current.right;
        } else {
          return true;
        }
      }
      b := false;
    }
  }

  /**
   * `nodes` are the distinct nodes reached from `head` by following `next` until null, in order,
   * `contents` their data, `tail` the last of them, and every node but the first has its
   * predecessor as `previous`.
   */
  ghost predicate DoubleChain<T>(head: MNode?<T>, tail: MNode?<T>, nodes: seq<MNode<T>>, contents: seq<T>)
    reads nodes
  {
    |contents| == |nodes| &&
    (if |nodes| == 0 then head == null && tail == null
     else head == nodes[0] && tail == nodes[|nodes| - 1] && tail.next == null) &&
    (forall i | 0 <= i < |nodes| :: nodes[i].data == contents[i]) &&
    (forall i | 0 <= i < |nodes| - 1 :: nodes[i].next == nodes[i + 1]) &&
    (forall i | 0 < i < |nodes| :: nodes[i].previous == nodes[i - 1]) &&
    (forall i, j | 0 <= i < j < |nodes| :: nodes[i] != nodes[j])
  }

  /** A node of MLinkedList. */
  class MNode<T> {
    var data: T
    var next: MNode?<T>
    var previous: MNode?<T>

    constructor (data: T)
      ensures this.data == data && next == null && previous == null
    {
      this.data := data;
      next := null;
      previous := null;
    }
  }

  /**
   * MLinkedList: `add` puts a new node in front of the head, and `remove()` and `element()` take
   * from the head, so the most recently added element comes out first. The count is the number
   * of reachable nodes.
   */
  class MLinkedList<T(==)> {
    var size: int
    var head: MNode?<T>
    var tail: MNode?<T>
    ghost var nodes: seq<MNode<T>>
    ghost var contents: seq<T>
    ghost var Repr: set<object>

    ghost predicate Valid()
      reads this, Repr
    {
      this in Repr &&
      (forall i | 0 <= i < |nodes| :: nodes[i] in Repr) &&
      DoubleChain(head, tail, nodes, contents) &&
      size == |nodes|
    }

    constructor ()
      ensures Valid() && fresh(Repr) && contents == []
    {
      size := 0;
      head, tail := null, null;
      nodes, contents := [], [];
      Repr := {this};
    }

    /** add(e): the new node becomes the head, and also the tail when the list was empty. */
    method Add(e: T) returns (b: bool)
      requires Valid()
      modifies Repr
      ensures Valid() && fresh(Repr - old(Repr))
      ensures b && contents == [e] + old(contents) && size == old(size) + 1
    {
      var newNode := new MNode(e);
      if head == null {
        head, tail := newNode, newNode;
      } else {
        newNode.next := head;
        head.previous := newNode;
        head := newNode;
      }
      nodes, contents := [newNode] + nodes, [e] + contents;
      Repr := Repr + {newNode};
      size := size + 1;
      b := true;
    }

    /**
     * remove(): NoSuchElementException on an empty list; otherwise the head's data, with the head
     * moved to the next node, or head and tail both cleared when one element remains.
     */
    method Remove() returns (r: Result<T>)
      requires Valid()
      modifies this
      ensures Valid() && Repr == old(Repr)
      ensures old(contents) == [] ==> r == Err(NoSuchElement) && contents == [] && size == old(size)
      ensures old(contents) != [] ==>
        r == Ok(old(contents)[0]) && contents == old(contents)[1..] && size == old(size) - 1
    {
      if head == null {
        return Err(NoSuchElement);
      }
      var data := head.data;
      if size >= 2 {
        head := head.next;
      } else {
        head, tail := null, null;
      }
      nodes, contents := nodes[1..], contents[1..];
      size := size - 1;
      r := Ok(data);
    }

    /**
     * remove(o): whether some reachable node holds `o`. The matching node is found but not
     * unlinked, so nothing changes.
     */
    method RemoveObject(o: T) returns (b: bool)
      requires Valid()
      ensures b <==> o in contents
    {
      var current := head;
      ghost var i := 0;
      while current != null
        invariant 0 <= i <= |nodes|
        invariant current == if i < |nodes| then nodes[i] else null
        invariant o !in contents[..i]
        decreases |nodes| - i
      {
        if current.data == o {
          return true;
        }
        assert contents[..i + 1] == contents[..i] + [contents[i]];
        current := current.next;
        i := i + 1;
      }
      assert contents[..i] == contents;
      b := false;
    }

    /** isEmpty(): a count of zero, which is an empty list. */
    method IsEmpty() returns (b: bool)
      requires Valid()
      ensures b <==> contents == []
    {
      b := size == 0;
    }

    method Clear()
      requires Valid()
      modifies this
      ensures Valid() && contents == [] && size == 0
    {
      size := 0;
      head, tail := null, null;
      nodes, contents := [], [];
    }

    /** element(): the head's data, or a NullPointerException on an empty list. */
    method Element() returns (r: Result<T>)
      requires Valid()
      ensures contents == [] ==> r == Err(NullPointer)
      ensures contents != [] ==> r == Ok(contents[0])
    {
      if head == null {
        return Err(NullPointer);
      }
      r := Ok(head.data);
    }
  }
}
