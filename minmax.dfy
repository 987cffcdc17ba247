/**
 * Minimax over a problem whose plays end: the maximising and minimising levels alternate, every
 * level scans the actions in order and keeps the first child reaching a strictly better score.
 */
module MinMax {
  import opened Wrappers
  import opened SearchNode
  import opened SearchProblem

  /** Integer.MIN_VALUE and Integer.MAX_VALUE, the starting scores of the two levels. */
  const MinInt: int := -0x8000_0000
  const MaxInt: int := 0x7fff_ffff

  /** A score and the node that achieves it (`None` when no child improved on the start score). */
  datatype Pair<S, A> = Pair(key: int, value: Option<Node<S, A>>)

  /** The node minimax builds for action `a` from `n`: its cost is always 1, not a path cost. */
  function Reply<S, A>(p: Problem<S, A>, n: Node<S, A>, a: A): (c: Node<S, A>)
    ensures c.parent == Some(n) && c.action == Some(a) && c.cost == 1
    ensures c.state == p.result(n.state, a) && Depth(c) == Depth(n) + 1
  {
    Node(p.result(n.state, a), Some(n), Some(a), 1)
  }

  /** Where the recursion stops: the state is terminal or a goal. */
  predicate Leaf<S, A>(p: Problem<S, A>, n: Node<S, A>)
  {
    p.isTerminal(n.state) || p.isGoal(n.state)
  }

  /** The value of maxValue: the evaluator's score at a leaf, else the best reply over all actions. */
  function MaxOutcome<S(!new), A(!new)>(p: Problem<S, A>, eval: S -> int, n: Node<S, A>): Pair<S, A>
    requires Progressing(p)
    decreases p.measure(n.state), 1, 0
  {
    if Leaf(p, n) then Pair(eval(n.state), Some(n))
    else MaxOverPrefix(p, eval, n, |p.actions(n.state)|)
  }

  /** The value of minValue, the mirror image of `MaxOutcome`. */
  function MinOutcome<S(!new), A(!new)>(p: Problem<S, A>, eval: S -> int, n: Node<S, A>): Pair<S, A>
    requires Progressing(p)
    decreases p.measure(n.state), 1, 0
  {
    if Leaf(p, n) then Pair(eval(n.state), Some(n))
    else MinOverPrefix(p, eval, n, |p.actions(n.state)|)
  }

  /**
   * The maximising scan after its first `k` actions. The score is the largest reply score seen,
   * or Integer.MIN_VALUE if none beats it, and the node is the first reply reaching that score.
   */
  function MaxOverPrefix<S(!new), A(!new)>(p: Problem<S, A>, eval: S -> int, n: Node<S, A>, k: nat): (r: Pair<S, A>)
    requires Progressing(p) && !Leaf(p, n) && k <= |p.actions(n.state)|
    ensures forall j :: 0 <= j < k ==> MinOutcome(p, eval, Reply(p, n, p.actions(n.state)[j])).key <= r.key
    ensures r.value == None ==> r.key == MinInt
    ensures r.value.Some? ==> exists j :: 0 <= j < k && FirstBest(p, eval, n, j, r, true)
    decreases p.measure(n.state), 0, k
  {
    if k == 0 then Pair(MinInt, None)
    else
      var prev := MaxOverPrefix(p, eval, n, k - 1);
      var a := p.actions(n.state)[k - 1];
      var child := Reply(p, n, a);
      var v := MinOutcome(p, eval, child);
      if v.key > prev.key then
        assert FirstBest(p, eval, n, k - 1, Pair(v.key, Some(child)), true);
        Pair(v.key, Some(child))
      else prev
  }

  /** The minimising scan after its first `k` actions, the mirror image of `MaxOverPrefix`. */
  function MinOverPrefix<S(!new), A(!new)>(p: Problem<S, A>, eval: S -> int, n: Node<S, A>, k: nat): (r: Pair<S, A>)
    requires Progressing(p) && !Leaf(p, n) && k <= |p.actions(n.state)|
    ensures forall j :: 0 <= j < k ==> r.key <= MaxOutcome(p, eval, Reply(p, n, p.actions(n.state)[j])).key
    ensures r.value == None ==> r.key == MaxInt
    ensures r.value.Some? ==> exists j :: 0 <= j < k && FirstBest(p, eval, n, j, r, false)
    decreases p.measure(n.state), 0, k
  {
    if k == 0 then Pair(MaxInt, None)
    else
      var prev := MinOverPrefix(p, eval, n, k - 1);
      var a := p.actions(n.state)[k - 1];
      var child := Reply(p, n, a);
      var v := MaxOutcome(p, eval, child);
      if v.key < prev.key then
        assert FirstBest(p, eval, n, k - 1, Pair(v.key, Some(child)), false);
        Pair(v.key, Some(child))
      else prev
  }

  /** One more action of the maximising scan: a strictly larger reply score replaces the best. */
  lemma MaxOverPrefixStep<S(!new), A(!new)>(p: Problem<S, A>, eval: S -> int, n: Node<S, A>, k: nat)
    requires Progressing(p) && !Leaf(p, n) && k < |p.actions(n.state)|
    ensures var prev := MaxOverPrefix(p, eval, n, k);
      var child := Reply(p, n, p.actions(n.state)[k]);
      var v := MinOutcome(p, eval, child).key;
      MaxOverPrefix(p, eval, n, k + 1) == if v > prev.key then Pair(v, Some(child)) else prev
  {
  }

  /** One more action of the minimising scan: a strictly smaller reply score replaces the best. */
  lemma MinOverPrefixStep<S(!new), A(!new)>(p: Problem<S, A>, eval: S -> int, n: Node<S, A>, k: nat)
    requires Progressing(p) && !Leaf(p, n) && k < |p.actions(n.state)|
    ensures var prev := MinOverPrefix(p, eval, n, k);
      var child := Reply(p, n, p.actions(n.state)[k]);
      var v := MaxOutcome(p, eval, child).key;
      MinOverPrefix(p, eval, n, k + 1) == if v < prev.key then Pair(v, Some(child)) else prev
  {
  }

  /**
   * `r` holds the reply to action `j` and its score, that score beats the level's start value,
   * and no earlier action reaches it: the strict comparison keeps the first best action.
   */
  ghost predicate FirstBest<S(!new), A(!new)>(p: Problem<S, A>, eval: S -> int, n: Node<S, A>, j: nat, r: Pair<S, A>, maximizing: bool)
    requires Progressing(p) && !Leaf(p, n) && j < |p.actions(n.state)|
    decreases p.measure(n.state), 0, j
  {
    var acts := p.actions(n.state);
    && r.value == Some(Reply(p, n, acts[j]))
    && (if maximizing then
          && r.key == MinOutcome(p, eval, Reply(p, n, acts[j])).key > MinInt
          && forall i :: 0 <= i < j ==> MinOutcome(p, eval, Reply(p, n, acts[i])).key < r.key
        else
          && r.key == MaxOutcome(p, eval, Reply(p, n, acts[j])).key < MaxInt
          && forall i :: 0 <= i < j ==> MaxOutcome(p, eval, Reply(p, n, acts[i])).key > r.key)
  }

  /** The search strategy; the evaluator scores the states where the recursion stops. */
  class MinMaxSearch<S(!new), A(!new)> {
    const evaluator: S -> int

    constructor (evaluator: S -> int)
      ensures this.evaluator == evaluator
    {
      this.evaluator := evaluator;
    }

    /** maxValue: the loop over the actions, keeping the first strictly larger reply score. */
    method MaxValue(p: Problem<S, A>, n: Node<S, A>) returns (r: Pair<S, A>)
      requires Progressing(p)
      ensures r == MaxOutcome(p, evaluator, n)
      decreases p.measure(n.state), 1
    {
      if p.isTerminal(n.state) || p.isGoal(n.state) {
        return Pair(evaluator(n.state), Some(n));
      }
      var acts := p.actions(n.state);
      var bestValue := MinInt;
      var bestNode: Option<Node<S, A>> := None;
      for i := 0 to |acts|
        invariant Pair(bestValue, bestNode) == MaxOverPrefix(p, evaluator, n, i)
      {
        var next := p.result(n.state, acts[i]);
        var child := Node(next, Some(n), Some(acts[i]), 1);
        assert child == Reply(p, n, acts[i]);
        var pair := MinValue(p, child);
        MaxOverPrefixStep(p, evaluator, n, i);
        if pair.key > bestValue {
          bestValue := pair.key;
          bestNode := Some(child);
        }
      }
      r := Pair(bestValue, bestNode);
    }

    /** minValue: the loop over the actions, keeping the first strictly smaller reply score. */
    method MinValue(p: Problem<S, A>, n: Node<S, A>) returns (r: Pair<S, A>)
      requires Progressing(p)
      ensures r == MinOutcome(p, evaluator, n)
      decreases p.measure(n.state), 1
    {
      if p.isTerminal(n.state) || p.isGoal(n.state) {
        return Pair(evaluator(n.state), Some(n));
      }
      var acts := p.actions(n.state);
      var bestValue := MaxInt;
      var bestNode: Option<Node<S, A>> := None;
      for i := 0 to |acts|
        invariant Pair(bestValue, bestNode) == MinOverPrefix(p, evaluator, n, i)
      {
        var next := p.result(n.state, acts[i]);
        var child := Node(next, Some(n), Some(acts[i]), 1);
        assert child == Reply(p, n, acts[i]);
        var pair := MaxValue(p, child);
        MinOverPrefixStep(p, evaluator, n, i);
        if pair.key < bestValue {
          bestValue := pair.key;
          bestNode := Some(child);
        }
      }
      r := Pair(bestValue, bestNode);
    }

    /**
     * search(problem, state): the node that maxValue picks for a root holding `start`. That is
     * the root itself when `start` is already terminal or a goal, and otherwise the move node of
     * the first action whose reply score is the largest, or `None` when no reply beats
     * Integer.MIN_VALUE (in particular when there is no action).
     */
    method SearchFrom(p: Problem<S, A>, start: S) returns (r: Option<Node<S, A>>)
      requires Progressing(p)
      ensures p.isTerminal(start) || p.isGoal(start) ==> r == Some(Root(start))
      ensures !(p.isTerminal(start) || p.isGoal(start)) ==>
        && (r.Some? ==> exists j :: 0 <= j < |p.actions(start)| && FirstBest(p, evaluator, Root(start), j, Pair(MaxOutcome(p, evaluator, Root(start)).key, r), true))
        && (r.None? ==> forall j :: 0 <= j < |p.actions(start)| ==> MinOutcome(p, evaluator, Reply(p, Root(start), p.actions(start)[j])).key <= MinInt)
      ensures r.Some? ==> r.value == Root(start) || (r.value.parent == Some(Root(start)) && r.value.cost == 1)
    {
      var root := Node(start, None, None, 0);
      var result := MaxValue(p, root);
      r := result.value;
      assert root == Root(start);
      if !Leaf(p, root) {
        assert result == MaxOverPrefix(p, evaluator, root, |p.actions(start)|);
      }
    }

    /** search(problem): the same search from the problem's initial state. */
    method Search(p: Problem<S, A>) returns (r: Option<Node<S, A>>)
      requires Progressing(p)
      ensures p.isTerminal(p.initial) || p.isGoal(p.initial) ==> r == Some(Root(p.initial))
      ensures !(p.isTerminal(p.initial) || p.isGoal(p.initial)) ==>
        && (r.Some? ==> exists j :: 0 <= j < |p.actions(p.initial)| && FirstBest(p, evaluator, Root(p.initial), j, Pair(MaxOutcome(p, evaluator, Root(p.initial)).key, r), true))
        && (r.None? ==> forall j :: 0 <= j < |p.actions(p.initial)| ==> MinOutcome(p, evaluator, Reply(p, Root(p.initial), p.actions(p.initial)[j])).key <= MinInt)
      ensures r.Some? ==> r.value == Root(p.initial) || (r.value.parent == Some(Root(p.initial)) && r.value.cost == 1)
    {
      r := SearchFrom(p, p.initial);
    }
  }
}
