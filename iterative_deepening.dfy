/**
 * Iterative deepening: depth-limited depth-first searches with bounds 0, 1, 2, ..., each over a
 * fresh stack frontier and a fresh set of explored states.
 */
module IterativeDeepening {
  import opened Wrappers
  import opened SearchNode
  import opened SearchProblem
  import opened Frontiers

  /**
   * The children of `n` by `acts`, in order, leaving out those whose state is already in
   * `explored`: what one expansion pushes.
   */
  function Unexplored<S, A>(p: Problem<S, A>, n: Node<S, A>, acts: seq<A>, explored: set<S>): seq<Node<S, A>>
    decreases |acts|
  {
    if acts == [] then []
    else
      var rest := Unexplored(p, n, acts[..|acts| - 1], explored);
      var c := Child(p, n, acts[|acts| - 1]);
      if c.state in explored then rest else rest + [c]
  }

  /**
   * The nodes one expansion pushes are exactly the children, by the given actions, whose state
   * is not explored, at most one per action.
   */
  lemma {:induction false} UnexploredChildren<S, A>(p: Problem<S, A>, n: Node<S, A>, acts: seq<A>, explored: set<S>)
    ensures var r := Unexplored(p, n, acts, explored);
      && (forall c :: c in r ==> c.state !in explored && c.action.Some? && c.action.value in acts && c == Child(p, n, c.action.value))
      && (forall a :: a in acts && p.result(n.state, a) !in explored ==> Child(p, n, a) in r)
      && |r| <= |acts|
    decreases |acts|
  {
    if acts != [] {
      var init := acts[..|acts| - 1];
      UnexploredChildren(p, n, init, explored);
      assert forall a :: a in acts ==> a in init || a == acts[|acts| - 1];
    }
  }

  /** Extending the action list by one action appends at most that action's child. */
  lemma UnexploredStep<S, A>(p: Problem<S, A>, n: Node<S, A>, acts: seq<A>, i: nat, explored: set<S>)
    requires i < |acts|
    ensures Unexplored(p, n, acts[..i + 1], explored)
         == Unexplored(p, n, acts[..i], explored)
            + (if p.result(n.state, acts[i]) in explored then [] else [Child(p, n, acts[i])])
  {
    assert acts[..i + 1][..i] == acts[..i];
  }

  /** The expansion loop: pushes, in action order, every child whose state is not explored. */
  method PushUnexplored<S, A>(p: Problem<S, A>, frontier: Frontier<S, A>, n: Node<S, A>, explored: set<S>)
    modifies frontier
    ensures frontier.nodes == old(frontier.nodes) + Unexplored(p, n, p.actions(n.state), explored)
  {
    var acts := p.actions(n.state);
    var i := 0;
    while i < |acts|
      invariant 0 <= i <= |acts|
      invariant frontier.nodes == old(frontier.nodes) + Unexplored(p, n, acts[..i], explored)
    {
      UnexploredStep(p, n, acts, i, explored);
      var newState := p.result(n.state, acts[i]);
      if newState !in explored {
        var cost := n.cost + p.cost(n.state, acts[i]);
        frontier.Add(Node(newState, Some(n), Some(acts[i]), cost));
      }
      i := i + 1;
    }
    assert acts[..i] == acts;
  }

  /** What one depth-limited pass ends with: its outcome and the nodes it expanded, in order. */
  datatype Pass<S, A> = Pass(outcome: Outcome<S, A>, expanded: seq<Node<S, A>>)

  /**
   * The rest of a depth-limited pass, one loop iteration per call, from the stack `stack` (its
   * top is the last element), the states `explored` and the nodes `done` expanded so far, with
   * `fuel` iterations left: an empty stack ends the pass with nothing found, spent fuel ends it
   * out of fuel, a goal on top is the answer, a node deeper than `maxDepth` is dropped, and any
   * other node is expanded.
   */
  function DepthLimitedFrom<S(==), A>(p: Problem<S, A>, maxDepth: nat, stack: seq<Node<S, A>>, explored: set<S>,
                                      done: seq<Node<S, A>>, fuel: nat): Pass<S, A>
    decreases fuel
  {
    if stack == [] then Pass(NotFound, done)
    else if fuel == 0 then Pass(OutOfFuel, done)
    else
      var current := stack[|stack| - 1];
      var rest := stack[..|stack| - 1];
      if p.isGoal(current.state) then Pass(Found(current), done)
      else if Depth(current) > maxDepth then DepthLimitedFrom(p, maxDepth, rest, explored, done, fuel - 1)
      else
        var e := explored + {current.state};
        DepthLimitedFrom(p, maxDepth, rest + Unexplored(p, current, p.actions(current.state), e), e, done + [current], fuel - 1)
  }

  /** A whole depth-limited pass with bound `maxDepth` from the root of `start`. */
  function DepthLimited<S(==), A>(p: Problem<S, A>, maxDepth: nat, start: S, fuel: nat): Pass<S, A>
  {
    DepthLimitedFrom(p, maxDepth, [Root(start)], {}, [], fuel)
  }

  /**
   * The fuel only cuts a pass off: a pass that ends within its fuel ends the same way, having
   * expanded the same nodes, with any larger amount.
   */
  lemma {:induction false} MoreFuelSamePass<S, A>(p: Problem<S, A>, maxDepth: nat, stack: seq<Node<S, A>>,
                                                      explored: set<S>, done: seq<Node<S, A>>, fuel: nat, more: nat)
    requires !DepthLimitedFrom(p, maxDepth, stack, explored, done, fuel).outcome.OutOfFuel?
    ensures DepthLimitedFrom(p, maxDepth, stack, explored, done, fuel + more)
         == DepthLimitedFrom(p, maxDepth, stack, explored, done, fuel)
    decreases fuel
  {
    if stack != [] && fuel > 0 {
      var current := stack[|stack| - 1];
      var rest := stack[..|stack| - 1];
      if !p.isGoal(current.state) {
        if Depth(current) > maxDepth {
          MoreFuelSamePass(p, maxDepth, rest, explored, done, fuel - 1, more);
        } else {
          var e := explored + {current.state};
          MoreFuelSamePass(p, maxDepth, rest + Unexplored(p, current, p.actions(current.state), e), e, done + [current], fuel - 1, more);
        }
      }
    }
  }

  /** One iteration of a pass that takes `current` from the top of the stack, with `rest` below it. */
  lemma PassStep<S, A>(p: Problem<S, A>, maxDepth: nat, stack: seq<Node<S, A>>, rest: seq<Node<S, A>>, current: Node<S, A>,
                           explored: set<S>, done: seq<Node<S, A>>, fuel: nat)
    requires fuel > 0 && |stack| > 0 && current == stack[|stack| - 1] && rest == stack[..|stack| - 1]
    ensures p.isGoal(current.state) ==> DepthLimitedFrom(p, maxDepth, stack, explored, done, fuel) == Pass(Found(current), done)
    ensures !p.isGoal(current.state) && Depth(current) > maxDepth ==>
      DepthLimitedFrom(p, maxDepth, stack, explored, done, fuel) == DepthLimitedFrom(p, maxDepth, rest, explored, done, fuel - 1)
    ensures !p.isGoal(current.state) && Depth(current) <= maxDepth ==>
      DepthLimitedFrom(p, maxDepth, stack, explored, done, fuel)
        == DepthLimitedFrom(p, maxDepth, rest + Unexplored(p, current, p.actions(current.state), explored + {current.state}),
                            explored + {current.state}, done + [current], fuel - 1)
  {
  }

  /**
   * What the loop of depthLimitedSearch keeps: every node on the stack records a path from
   * `start` at most one level below the bound, every expanded node a path to a non-goal within
   * the bound, and the explored states are those of the expanded nodes.
   */
  ghost predicate Explores<S, A>(p: Problem<S, A>, start: S, maxDepth: nat, stack: seq<Node<S, A>>,
                                 explored: set<S>, expanded: seq<Node<S, A>>)
  {
    && (forall m :: m in stack ==> IsPathFrom(p, start, m) && Depth(m) <= maxDepth + 1)
    && (forall m :: m in expanded ==> !p.isGoal(m.state) && IsPathFrom(p, start, m) && Depth(m) <= maxDepth)
    && explored == set m | m in expanded :: m.state
  }

  /**
   * depthLimitedSearch: takes nodes from a stack; a goal node is returned before its depth is
   * looked at, a node deeper than `maxDepth` is dropped, and any other node has its state
   * marked explored and its unexplored children pushed. Every pass through the loop spends
   * one unit of `fuel`; the source has no such bound. The ghost `expanded` lists the expanded
   * nodes in order.
   */
  method DepthLimitedSearch<S(==), A>(p: Problem<S, A>, maxDepth: nat, start: S, fuel: nat)
    returns (r: Outcome<S, A>, ghost expanded: seq<Node<S, A>>)
    ensures Pass(r, expanded) == DepthLimited(p, maxDepth, start, fuel)
    ensures r.Found? ==> p.isGoal(r.node.state) && IsPathFrom(p, start, r.node)
    ensures r.Found? ==> Depth(r.node) <= maxDepth + 1
    ensures p.isGoal(start) && fuel > 0 ==> r == Found(Root(start))
    ensures forall m :: m in expanded ==> !p.isGoal(m.state) && IsPathFrom(p, start, m) && Depth(m) <= maxDepth
  {
    var frontier := new Frontier<S, A>(Lifo);
    var explored: set<S> := {};
    expanded := [];
    frontier.Add(Root(start));
    var left: nat := fuel;
    ghost var pass := DepthLimited(p, maxDepth, start, fuel);
    while !frontier.IsEmpty()
      invariant fresh(frontier) && frontier.discipline == Lifo
      invariant left == fuel ==> frontier.nodes == [Root(start)]
      invariant left < fuel ==> !p.isGoal(start)
      invariant Explores(p, start, maxDepth, frontier.nodes, explored, expanded)
      invariant DepthLimitedFrom(p, maxDepth, frontier.nodes, explored, expanded, left) == pass
      decreases left
    {
      if left == 0 {
        r := OutOfFuel;
        return;
      }
      var found;
      found, explored, expanded := Step(p, start, maxDepth, frontier, explored, expanded, left);
      if found.Some? {
        r := Found(found.value);
        return;
      }
      left := left - 1;
    }
    r := NotFound;
  }

  /**
   * One pass through the loop of depthLimitedSearch, with `left` units of fuel: the node on top
   * of the stack is taken; a goal is returned, a node deeper than `maxDepth` is dropped, and
   * any other node is expanded. The rest of the pass from the new state, one unit of fuel
   * down, is the rest of the pass from the old one.
   */
  method Step<S(==), A>(p: Problem<S, A>, ghost start: S, maxDepth: nat, frontier: Frontier<S, A>,
                        explored: set<S>, ghost expanded: seq<Node<S, A>>, ghost left: nat)
    returns (found: Option<Node<S, A>>, explored': set<S>, ghost expanded': seq<Node<S, A>>)
    requires frontier.discipline == Lifo && frontier.nodes != [] && left > 0
    requires Explores(p, start, maxDepth, frontier.nodes, explored, expanded)
    modifies frontier
    ensures frontier.discipline == Lifo
    ensures found.Some? ==> found.value == old(frontier.nodes)[|old(frontier.nodes)| - 1] && expanded' == expanded
    ensures found.Some? ==> p.isGoal(found.value.state) && IsPathFrom(p, start, found.value) && Depth(found.value) <= maxDepth + 1
    ensures found.Some? ==> DepthLimitedFrom(p, maxDepth, old(frontier.nodes), explored, expanded, left) == Pass(Found(found.value), expanded)
    ensures found.None? ==> !p.isGoal(old(frontier.nodes)[|old(frontier.nodes)| - 1].state)
    ensures found.None? ==> DepthLimitedFrom(p, maxDepth, frontier.nodes, explored', expanded', left - 1)
                            == DepthLimitedFrom(p, maxDepth, old(frontier.nodes), explored, expanded, left)
    ensures Explores(p, start, maxDepth, frontier.nodes, explored', expanded')
  {
    ghost var before := frontier.nodes;
    var taken := frontier.Remove();
    assert frontier.nodes == before[..|before| - 1];
    var current := taken.value;
    ghost var rest := frontier.nodes;
    PassStep(p, maxDepth, before, rest, current, explored, expanded, left);
    found, explored', expanded' := None, explored, expanded;
    if p.isGoal(current.state) {
      found := Some(current);
      return;
    }
    var depth := ComputeDepth(current);
    if depth > maxDepth {
      return;
    }
    explored', expanded' := Expand(p, start, maxDepth, frontier, current, explored, expanded);
    assert frontier.nodes == rest + Unexplored(p, current, p.actions(current.state), explored + {current.state});
  }

  /**
   * The expansion step of depthLimitedSearch: the state of `current` is marked explored, and its
   * children with unexplored states are pushed; they record paths from `start` one level deeper.
   */
  method Expand<S(==), A>(p: Problem<S, A>, ghost start: S, ghost maxDepth: nat, frontier: Frontier<S, A>,
                          current: Node<S, A>, explored: set<S>, ghost expanded: seq<Node<S, A>>)
    returns (explored': set<S>, ghost expanded': seq<Node<S, A>>)
    requires IsPathFrom(p, start, current) && Depth(current) <= maxDepth && !p.isGoal(current.state)
    requires forall m :: m in frontier.nodes ==> IsPathFrom(p, start, m) && Depth(m) <= maxDepth + 1
    requires explored == set m | m in expanded :: m.state
    modifies frontier
    ensures explored' == explored + {current.state} && expanded' == expanded + [current]
    ensures explored' == set m | m in expanded' :: m.state
    ensures frontier.nodes == old(frontier.nodes) + Unexplored(p, current, p.actions(current.state), explored')
    ensures forall m :: m in frontier.nodes ==> IsPathFrom(p, start, m) && Depth(m) <= maxDepth + 1
  {
    explored' := explored + {current.state};
    expanded' := expanded + [current];
    assert forall m :: m in expanded' <==> m in expanded || m == current;
    PushUnexplored(p, frontier, current, explored');
    UnexploredChildren(p, current, p.actions(current.state), explored');
    forall c | c in Unexplored(p, current, p.actions(current.state), explored')
      ensures IsPathFrom(p, start, c) && Depth(c) <= maxDepth + 1
    {
      ChildIsPath(p, start, current, c.action.value);
    }
  }

  /**
   * search(problem, state): runs depth-limited searches with bounds 0, 1, 2, ... and returns
   * the first node found. The source loops for ever when no goal is reachable; here at most
   * `rounds` bounds are tried, each pass with `fuel` steps. `bound` is the last bound tried:
   * every lower bound found nothing, and the answer is that of the pass with bound `bound`, or
   * `OutOfFuel` when all `rounds` bounds found nothing. `NotFound` is never returned.
   */
  method SearchFrom<S(==), A>(p: Problem<S, A>, start: S, rounds: nat, fuel: nat)
    returns (r: Outcome<S, A>, ghost bound: nat)
    ensures bound <= rounds
    ensures forall d: nat :: d < bound ==> DepthLimited(p, d, start, fuel).outcome == NotFound
    ensures bound < rounds ==> r == DepthLimited(p, bound, start, fuel).outcome && !r.NotFound?
    ensures bound == rounds ==> r == OutOfFuel
    ensures r.Found? ==> p.isGoal(r.node.state) && IsPathFrom(p, start, r.node)
    ensures r.Found? ==> bound < rounds && Depth(r.node) <= bound + 1
    ensures p.isGoal(start) && rounds > 0 && fuel > 0 ==> r == Found(Root(start)) && bound == 0
  {
    var depth := 0;
    while depth < rounds
      invariant depth <= rounds
      invariant depth > 0 ==> !(p.isGoal(start) && fuel > 0)
      invariant forall d: nat :: d < depth ==> DepthLimited(p, d, start, fuel).outcome == NotFound
      decreases rounds - depth
    {
      ghost var expanded;
      var result;
      result, expanded := DepthLimitedSearch(p, depth, start, fuel);
      if result.Found? || result.OutOfFuel? {
        r, bound := result, depth;
        return;
      }
      depth := depth + 1;
    }
    r, bound := OutOfFuel, depth;
  }

  /** search(problem): the same search from the problem's initial state. */
  method Search<S(==), A>(p: Problem<S, A>, rounds: nat, fuel: nat) returns (r: Outcome<S, A>, ghost bound: nat)
    ensures bound <= rounds
    ensures forall d: nat :: d < bound ==> DepthLimited(p, d, p.initial, fuel).outcome == NotFound
    ensures bound < rounds ==> r == DepthLimited(p, bound, p.initial, fuel).outcome && !r.NotFound?
    ensures bound == rounds ==> r == OutOfFuel
    ensures r.Found? ==> p.isGoal(r.node.state) && IsPathFrom(p, p.initial, r.node)
    ensures p.isGoal(p.initial) && rounds > 0 && fuel > 0 ==> r == Found(Root(p.initial))
  {
    r, bound := SearchFrom(p, p.initial, rounds, fuel);
  }
}
