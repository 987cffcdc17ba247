/**
 * The problem abstraction consumed by every search strategy, and what it means for a
 * node to record a legal path of that problem.
 */
module SearchProblem {
  import opened Wrappers
  import opened SearchNode

  /**
   * A search problem over states `S` and actions `A`. The functions are total and pure, as the
   * strategies require. `measure` bounds the remaining length of any play from a state; only
   * adversarial search uses it, to know that its recursion ends.
   */
  datatype Problem<!S, !A> = Problem(
    initial: S,
    isState: S -> bool,
    isGoal: S -> bool,
    isTerminal: S -> bool,
    actions: S -> seq<A>,
    result: (S, A) -> S,
    cost: (S, A) -> int,
    measure: S -> nat)

  /** The child node that applying `a` to the state of `n` produces, with cumulative cost. */
  function Child<S, A>(p: Problem<S, A>, n: Node<S, A>, a: A): (c: Node<S, A>)
    ensures c.parent == Some(n) && c.action == Some(a)
    ensures c.state == p.result(n.state, a)
    ensures c.cost == n.cost + p.cost(n.state, a)
    ensures Depth(c) == Depth(n) + 1
  {
    Node(p.result(n.state, a), Some(n), Some(a), n.cost + p.cost(n.state, a))
  }

  /**
   * `n` records a legal path of `p` from `start`: its root holds `start` with cost 0, and every
   * other node was produced from its parent by one of the parent's actions, with the state that
   * `result` gives and the parent's cost plus the step cost.
   */
  ghost predicate IsPathFrom<S, A>(p: Problem<S, A>, start: S, n: Node<S, A>)
    decreases n
  {
    match n.parent
    case None => n.state == start && n.action == None && n.cost == 0
    case Some(q) =>
      && n.action.Some?
      && n.action.value in p.actions(q.state)
      && n.state == p.result(q.state, n.action.value)
      && n.cost == q.cost + p.cost(q.state, n.action.value)
      && IsPathFrom(p, start, q)
  }

  /**
   * `n` is one of the `bases`, or was produced from a node that descends from them by one of
   * that node's actions. A search whose frontier starts with leftover nodes returns nodes of
   * this kind, with the leftovers and the new root as bases.
   */
  ghost predicate DescendsFrom<S, A>(p: Problem<S, A>, bases: seq<Node<S, A>>, n: Node<S, A>)
    decreases n
  {
    || n in bases
    || match n.parent
       case None => false
       case Some(q) =>
         && n.action.Some?
         && n.action.value in p.actions(q.state)
         && n == Child(p, q, n.action.value)
         && DescendsFrom(p, bases, q)
  }

  /** Descending from the lone root of `start` is the same as recording a legal path from `start`. */
  lemma {:induction false} DescendsFromRootIsPath<S, A>(p: Problem<S, A>, start: S, n: Node<S, A>)
    ensures DescendsFrom(p, [Root(start)], n) <==> IsPathFrom(p, start, n)
    decreases n
  {
    match n.parent
    case None =>
    case Some(q) =>
      DescendsFromRootIsPath(p, start, q);
  }

  /** The result of one search: a goal node, an emptied frontier, or a spent step budget. */
  datatype Outcome<S, A> = Found(node: Node<S, A>) | NotFound | OutOfFuel

  /** The actions recorded along the path from the root down to `n`, oldest first. */
  function PathActions<S, A>(n: Node<S, A>): seq<A>
    decreases n
  {
    match n.parent
    case None => []
    case Some(q) => PathActions(q) + (if n.action.Some? then [n.action.value] else [])
  }

  /** Applies `acts` one after another to `s` through `result`. */
  function Replay<S, A>(p: Problem<S, A>, s: S, acts: seq<A>): S
    decreases |acts|
  {
    if acts == [] then s else p.result(Replay(p, s, acts[..|acts| - 1]), acts[|acts| - 1])
  }

  /**
   * Round trip for every node a strategy returns: the path holds exactly `Depth(n)` actions, and
   * replaying them from `start` reproduces the node's state.
   */
  lemma {:induction false} ReplayReproducesState<S, A>(p: Problem<S, A>, start: S, n: Node<S, A>)
    requires IsPathFrom(p, start, n)
    ensures |PathActions(n)| == Depth(n)
    ensures Replay(p, start, PathActions(n)) == n.state
    decreases n
  {
    match n.parent
    case None =>
    case Some(q) =>
      ReplayReproducesState(p, start, q);
      var acts := PathActions(n);
      assert acts[..|acts| - 1] == PathActions(q);
  }

  /** Every child of a node on a legal path, by one of its actions, is on a legal path too. */
  lemma ChildIsPath<S, A>(p: Problem<S, A>, start: S, n: Node<S, A>, a: A)
    requires IsPathFrom(p, start, n) && a in p.actions(n.state)
    ensures IsPathFrom(p, start, Child(p, n, a))
  {
  }

  /**
   * Along a legal path whose step costs are never negative, costs never decrease: every
   * ancestor costs at most as much as `n`, and the root costs 0.
   */
  lemma {:induction false} PathCostMonotone<S, A>(p: Problem<S, A>, start: S, n: Node<S, A>, k: nat)
    requires IsPathFrom(p, start, n) && k <= Depth(n)
    requires forall s, a :: a in p.actions(s) ==> p.cost(s, a) >= 0
    ensures Ancestor(n, k).cost <= n.cost
    ensures n.cost >= 0
    decreases n
  {
    match n.parent
    case None =>
    case Some(q) =>
      PathCostMonotone(p, start, q, 0);
      if k > 0 {
        PathCostMonotone(p, start, q, k - 1);
      }
  }

  /**
   * Adversarial search ends on `p`: away from terminal and goal states, every action leads to a
   * state of strictly smaller measure.
   */
  ghost predicate Progressing<S(!new), A(!new)>(p: Problem<S, A>)
  {
    forall s, a :: !p.isTerminal(s) && !p.isGoal(s) && a in p.actions(s) ==>
      p.measure(p.result(s, a)) < p.measure(s)
  }
}
