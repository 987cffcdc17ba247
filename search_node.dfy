/**
 * The search-tree node: an immutable record of a state, the action that produced it,
 * the cumulative path cost and a link to the parent node.
 */
module SearchNode {
  import opened Wrappers

  /** A node; `parent` and `action` are `None` exactly for a node built as a root. */
  datatype Node<S, A> = Node(state: S, parent: Option<Node<S, A>>, action: Option<A>, cost: int)

  /** The one-argument constructor: a root holding `s`, with no parent, no action and cost 0. */
  function Root<S, A>(s: S): (n: Node<S, A>)
    ensures n.state == s && n.parent == None && n.action == None && n.cost == 0
    ensures Depth(n) == 0
  {
    Node(s, None, None, 0)
  }

  /** The number of parent links between `n` and the parentless node at the top of its chain. */
  function Depth<S, A>(n: Node<S, A>): nat
    decreases n
  {
    match n.parent
    case None => 0
    case Some(p) => Depth(p) + 1
  }

  /** The node reached from `n` by following `k` parent links. */
  function Ancestor<S, A>(n: Node<S, A>, k: nat): Node<S, A>
    requires k <= Depth(n)
    decreases n
  {
    if k == 0 then n else Ancestor(n.parent.value, k - 1)
  }

  /**
   * depth(): walks the parent chain with a counter, as the source's while loop does.
   * The result is the length of the chain above `n`.
   */
  method ComputeDepth<S, A>(n: Node<S, A>) returns (depth: nat)
    ensures depth == Depth(n)
    ensures Ancestor(n, depth).parent == None
    ensures forall k :: 0 <= k < depth ==> Ancestor(n, k).parent.Some?
  {
    depth := 0;
    var current := n;
    while current.parent.Some?
      invariant depth <= Depth(n) && current == Ancestor(n, depth)
      invariant Depth(current) + depth == Depth(n)
      invariant forall k :: 0 <= k < depth ==> Ancestor(n, k).parent.Some?
      decreases current
    {
      AncestorStep(n, depth);
      current := current.parent.value;
      depth := depth + 1;
    }
  }

  /** One more parent link from the `k`-th ancestor is the `k+1`-st ancestor. */
  lemma {:induction false} AncestorStep<S, A>(n: Node<S, A>, k: nat)
    requires k < Depth(n)
    ensures Ancestor(n, k).parent.Some?
    ensures Ancestor(n, k + 1) == Ancestor(n, k).parent.value
    ensures Depth(Ancestor(n, k)) == Depth(n) - k
    decreases k
  {
    if k > 0 {
      AncestorStep(n.parent.value, k - 1);
    }
  }

  /** Following exactly `Depth(n)` parent links from `n` reaches a parentless node, and no fewer do. */
  lemma {:induction false} DepthCountsLinks<S, A>(n: Node<S, A>)
    ensures Ancestor(n, Depth(n)).parent == None
    ensures forall k :: 0 <= k < Depth(n) ==> Ancestor(n, k).parent.Some?
    decreases n
  {
    match n.parent
    case None =>
    case Some(p) =>
      DepthCountsLinks(p);
      forall k | 0 <= k < Depth(n)
        ensures Ancestor(n, k).parent.Some?
      {
        if k > 0 { assert Ancestor(n, k) == Ancestor(p, k - 1); }
      }
  }

  /** A node built with parent `p` lies one level below `p`. */
  lemma ChildDepth<S, A>(s: S, p: Node<S, A>, a: A, c: int)
    ensures Depth(Node(s, Some(p), Some(a), c)) == Depth(p) + 1
    ensures Ancestor(Node(s, Some(p), Some(a), c), 1) == p
  {
  }
}
