/**
 * Best-first graph search over a frontier the strategy owns: nodes are taken from the frontier,
 * checked against the goal when taken, and expanded at most once per state, as recorded in a
 * `reached` map from state to the cost at its first expansion.
 */
module BestFirst {
  import opened Wrappers
  import opened SearchNode
  import opened SearchProblem
  import opened Frontiers

  /**
   * The children of `n`, one per action of its state and in action order, each with `n` as
   * parent and the cumulative cost.
   */
  method Expand<S, A>(p: Problem<S, A>, n: Node<S, A>) returns (successors: seq<Node<S, A>>)
    ensures |successors| == |p.actions(n.state)|
    ensures forall i :: 0 <= i < |successors| ==> successors[i] == Child(p, n, p.actions(n.state)[i])
  {
    var acts := p.actions(n.state);
    successors := [];
    var i := 0;
    while i < |acts|
      invariant 0 <= i <= |acts| && |successors| == i
      invariant forall j :: 0 <= j < i ==> successors[j] == Child(p, n, acts[j])
    {
      var next := p.result(n.state, acts[i]);
      var newCost := n.cost + p.cost(n.state, acts[i]);
      successors := successors + [Node(next, Some(n), Some(acts[i]), newCost)];
      i := i + 1;
    }
  }

  /** Every node of `nodes` descends from `bases`. */
  ghost predicate AllDescend<S, A>(p: Problem<S, A>, bases: seq<Node<S, A>>, nodes: seq<Node<S, A>>)
  {
    forall m :: m in nodes ==> DescendsFrom(p, bases, m)
  }

  /** No two expanded nodes share a state. */
  ghost predicate DistinctStates<S, A>(expanded: seq<Node<S, A>>)
  {
    forall i, j :: 0 <= i < j < |expanded| ==> expanded[i].state != expanded[j].state
  }

  /** `reached` maps exactly the expanded states, each to the cost of the node that expanded it. */
  ghost predicate Records<S, A>(reached: map<S, int>, expanded: seq<Node<S, A>>)
  {
    && (forall i :: 0 <= i < |expanded| ==> expanded[i].state in reached && reached[expanded[i].state] == expanded[i].cost)
    && (forall s :: s in reached ==> exists i :: 0 <= i < |expanded| && expanded[i].state == s)
  }

  /** Expanding a node whose state is not yet reached keeps states distinct and the map exact. */
  lemma RecordExpansion<S, A>(reached: map<S, int>, expanded: seq<Node<S, A>>, n: Node<S, A>)
    requires Records(reached, expanded) && DistinctStates(expanded) && n.state !in reached
    ensures Records(reached[n.state := n.cost], expanded + [n])
    ensures DistinctStates(expanded + [n])
  {
    var e := expanded + [n];
    var r := reached[n.state := n.cost];
    forall s | s in r
      ensures exists i :: 0 <= i < |e| && e[i].state == s
    {
      if s == n.state {
        assert e[|expanded|].state == s;
      } else {
        var i :| 0 <= i < |expanded| && expanded[i].state == s;
        assert e[i].state == s;
      }
    }
  }

  /** The children of a node that descends from `bases` descend from them too. */
  lemma ChildrenDescend<S, A>(p: Problem<S, A>, bases: seq<Node<S, A>>, n: Node<S, A>, successors: seq<Node<S, A>>)
    requires DescendsFrom(p, bases, n)
    requires |successors| == |p.actions(n.state)|
    requires forall i :: 0 <= i < |successors| ==> successors[i] == Child(p, n, p.actions(n.state)[i])
    ensures AllDescend(p, bases, successors)
  {
    forall m | m in successors
      ensures DescendsFrom(p, bases, m)
    {
      var i :| 0 <= i < |successors| && successors[i] == m;
      assert p.actions(n.state)[i] in p.actions(n.state);
    }
  }

  /** Every expanded node was not a goal and descends from `bases`. */
  ghost predicate Explored<S, A>(p: Problem<S, A>, bases: seq<Node<S, A>>, expanded: seq<Node<S, A>>)
  {
    forall m :: m in expanded ==> !p.isGoal(m.state) && DescendsFrom(p, bases, m)
  }

  /**
   * One expansion keeps the loop's facts: the frontier left after taking a non-goal node that
   * descends from `bases`, followed by that node's children, still descends from `bases`, and so
   * does every expanded node once that node is appended.
   */
  lemma ExpansionKeepsDescent<S, A>(p: Problem<S, A>, bases: seq<Node<S, A>>, rest: seq<Node<S, A>>,
                                    expanded: seq<Node<S, A>>, n: Node<S, A>, successors: seq<Node<S, A>>)
    requires AllDescend(p, bases, rest) && Explored(p, bases, expanded)
    requires DescendsFrom(p, bases, n) && !p.isGoal(n.state)
    requires |successors| == |p.actions(n.state)|
    requires forall i :: 0 <= i < |successors| ==> successors[i] == Child(p, n, p.actions(n.state)[i])
    ensures AllDescend(p, bases, rest + successors) && Explored(p, bases, expanded + [n])
  {
    ChildrenDescend(p, bases, n, successors);
  }

  /** The states of the expanded nodes. */
  ghost function States<S, A>(expanded: seq<Node<S, A>>): set<S>
    decreases |expanded|
  {
    if expanded == [] then {} else States(expanded[..|expanded| - 1]) + {expanded[|expanded| - 1].state}
  }

  /** A state is among the expanded states exactly when some expanded node has it. */
  lemma {:induction false} InStates<S, A>(expanded: seq<Node<S, A>>, x: S)
    ensures x in States(expanded) <==> exists m :: m in expanded && m.state == x
    decreases |expanded|
  {
    if expanded != [] {
      var init := expanded[..|expanded| - 1];
      var last := expanded[|expanded| - 1];
      InStates(init, x);
      assert expanded == init + [last];
      if x in States(init) {
        var m :| m in init && m.state == x;
        assert m in expanded;
      }
      if m :| m in expanded && m.state == x {
        if m != last {
          assert m in init;
        }
      }
    }
  }

  /** Every state one action away from an expanded state is itself an expanded state. */
  ghost predicate Closed<S, A>(p: Problem<S, A>, expanded: seq<Node<S, A>>)
  {
    forall m, a :: m in expanded && a in p.actions(m.state) ==> p.result(m.state, a) in States(expanded)
  }

  /**
   * The work the search still owes: every child of an expanded node, and every starting node,
   * is either still on the frontier or has a state already reached.
   */
  ghost predicate Owed<S, A>(p: Problem<S, A>, bases: seq<Node<S, A>>, nodes: seq<Node<S, A>>,
                             reached: map<S, int>, expanded: seq<Node<S, A>>)
  {
    && (forall m, a :: m in expanded && a in p.actions(m.state) ==> Child(p, m, a) in nodes || p.result(m.state, a) in reached)
    && (forall b :: b in bases ==> b in nodes || b.state in reached)
  }

  /** Taking a node whose state is already reached leaves no work unaccounted for. */
  lemma SkipKeepsOwed<S, A>(p: Problem<S, A>, bases: seq<Node<S, A>>, before: seq<Node<S, A>>, after: seq<Node<S, A>>,
                            reached: map<S, int>, expanded: seq<Node<S, A>>, current: Node<S, A>)
    requires Owed(p, bases, before, reached, expanded) && current in before && current.state in reached
    requires multiset(after) == multiset(before) - multiset{current}
    ensures Owed(p, bases, after, reached, expanded)
  {
    forall m | m in before && m != current
      ensures m in after
    {
      assert multiset(after)[m] == multiset(before)[m];
    }
  }

  /**
   * Expanding the taken node settles it, and the children it pushes account for every action
   * of its state.
   */
  lemma ExpandKeepsOwed<S, A>(p: Problem<S, A>, bases: seq<Node<S, A>>, before: seq<Node<S, A>>, rest: seq<Node<S, A>>,
                              reached: map<S, int>, expanded: seq<Node<S, A>>, current: Node<S, A>, successors: seq<Node<S, A>>)
    requires Owed(p, bases, before, reached, expanded) && current in before
    requires multiset(rest) == multiset(before) - multiset{current}
    requires |successors| == |p.actions(current.state)|
    requires forall i :: 0 <= i < |successors| ==> successors[i] == Child(p, current, p.actions(current.state)[i])
    ensures Owed(p, bases, rest + successors, reached[current.state := current.cost], expanded + [current])
  {
    var reached' := reached[current.state := current.cost];
    forall m | m in before && m != current
      ensures m in rest
    {
      assert multiset(rest)[m] == multiset(before)[m];
    }
    forall a | a in p.actions(current.state)
      ensures Child(p, current, a) in successors
    {
      var i :| 0 <= i < |p.actions(current.state)| && p.actions(current.state)[i] == a;
      assert successors[i] == Child(p, current, a);
    }
  }

  /** Once nothing is owed by an empty frontier, the expanded states are closed and hold every base. */
  lemma SettledIsClosed<S, A>(p: Problem<S, A>, bases: seq<Node<S, A>>, reached: map<S, int>, expanded: seq<Node<S, A>>)
    requires Owed(p, bases, [], reached, expanded) && Records(reached, expanded)
    ensures Closed(p, expanded)
    ensures forall b :: b in bases ==> b.state in States(expanded)
  {
    forall s | s in reached
      ensures s in States(expanded)
    {
      var i :| 0 <= i < |expanded| && expanded[i].state == s;
      assert expanded[i] in expanded;
      InStates(expanded, s);
    }
  }

  /** A closed set of expanded states that holds `start` holds every state on a legal path from it. */
  lemma {:induction false} ClosedCoversPaths<S, A>(p: Problem<S, A>, start: S, expanded: seq<Node<S, A>>, n: Node<S, A>)
    requires Closed(p, expanded) && start in States(expanded) && IsPathFrom(p, start, n)
    ensures n.state in States(expanded)
    decreases n
  {
    match n.parent
    case None =>
    case Some(q) =>
      ClosedCoversPaths(p, start, expanded, q);
      InStates(expanded, q.state);
      var m :| m in expanded && m.state == q.state;
      assert n.action.value in p.actions(m.state);
  }

  /** The children of `n`, one per action of its state and in action order. */
  function Successors<S, A>(p: Problem<S, A>, n: Node<S, A>): (c: seq<Node<S, A>>)
    ensures |c| == |p.actions(n.state)|
    ensures forall i :: 0 <= i < |c| ==> c[i] == Child(p, n, p.actions(n.state)[i])
  {
    ChildrenOf(p, n, p.actions(n.state))
  }

  /** The children of `n` for the actions `acts`, in order. */
  function ChildrenOf<S, A>(p: Problem<S, A>, n: Node<S, A>, acts: seq<A>): (c: seq<Node<S, A>>)
    ensures |c| == |acts|
    ensures forall i :: 0 <= i < |c| ==> c[i] == Child(p, n, acts[i])
    decreases |acts|
  {
    if acts == [] then [] else ChildrenOf(p, n, acts[..|acts| - 1]) + [Child(p, n, acts[|acts| - 1])]
  }

  /** The state of a search between rounds: the frontier's contents, the `reached` map and the expanded nodes. */
  datatype Config<S, A> = Config(nodes: seq<Node<S, A>>, reached: map<S, int>, expanded: seq<Node<S, A>>)

  /** What one round does: it takes a goal, leaving the `rest` of the frontier, or it leaves a new configuration. */
  datatype Taking<S, A> = Goal(node: Node<S, A>, rest: seq<Node<S, A>>) | Next(config: Config<S, A>)

  /**
   * One round on a non-empty frontier of discipline `d`: the node at `Taken` is answered if it
   * is a goal, dropped if its state is already reached, and otherwise recorded at its cost with
   * its children added behind the rest of the frontier.
   */
  function TakeRound<S, A>(p: Problem<S, A>, d: Discipline, c: Config<S, A>): (t: Taking<S, A>)
    requires c.nodes != []
    ensures t.Next? ==> c.expanded <= t.config.expanded && |t.config.expanded| <= |c.expanded| + 1
  {
    var k := Taken(d, c.nodes);
    var current := c.nodes[k];
    var rest := Without(c.nodes, k);
    if p.isGoal(current.state) then Goal(current, rest)
    else if current.state in c.reached then Next(Config(rest, c.reached, c.expanded))
    else Next(Config(rest + Successors(p, current), c.reached[current.state := current.cost], c.expanded + [current]))
  }

  /**
   * How a run of the search ends, the nodes it expanded in order, the rounds it spent, and the
   * nodes it leaves on the frontier.
   */
  datatype Run<S, A> = Run(outcome: Outcome<S, A>, expanded: seq<Node<S, A>>, rounds: nat, left: seq<Node<S, A>>)

  /**
   * The rest of a search from configuration `c`, one round per unit of `fuel`, counting the
   * rounds it spends: an empty frontier ends it with `NotFound`, spent fuel with `OutOfFuel`
   * and the frontier as it stands, and a round that takes a goal with `Found` and the frontier
   * without that goal.
   */
  ghost function Rounds<S, A>(p: Problem<S, A>, d: Discipline, c: Config<S, A>, fuel: nat): Run<S, A>
    decreases fuel
  {
    if c.nodes == [] then Run(NotFound, c.expanded, 0, [])
    else if fuel == 0 then Run(OutOfFuel, c.expanded, 0, c.nodes)
    else match TakeRound(p, d, c)
      case Goal(n, rest) => Run(Found(n), c.expanded, 1, rest)
      case Next(c') => var run := Rounds(p, d, c', fuel - 1); Run(run.outcome, run.expanded, run.rounds + 1, run.left)
  }

  /** A run spends at most its fuel, and all of it when it ends out of fuel. */
  lemma {:induction false} RoundsSpent<S, A>(p: Problem<S, A>, d: Discipline, c: Config<S, A>, fuel: nat)
    ensures var run := Rounds(p, d, c, fuel);
      && run.rounds <= fuel
      && (run.outcome.OutOfFuel? ==> run.rounds == fuel)
    decreases fuel
  {
    if c.nodes != [] && fuel > 0 {
      var t := TakeRound(p, d, c);
      RoundsStep(p, d, c, fuel);
      if t.Next? {
        RoundsSpent(p, d, t.config, fuel - 1);
      }
    }
  }

  /** A run only appends to the expanded nodes, at most one per round. */
  lemma {:induction false} RoundsExpandOneEach<S, A>(p: Problem<S, A>, d: Discipline, c: Config<S, A>, fuel: nat)
    ensures var run := Rounds(p, d, c, fuel);
      c.expanded <= run.expanded && |run.expanded| - |c.expanded| <= run.rounds
    decreases fuel
  {
    if c.nodes != [] && fuel > 0 {
      var t := TakeRound(p, d, c);
      RoundsStep(p, d, c, fuel);
      if t.Next? {
        RoundsExpandOneEach(p, d, t.config, fuel - 1);
      }
    }
  }

  /** A round on a non-empty frontier with fuel left either ends the run or leads to the rest of it. */
  lemma RoundsStep<S, A>(p: Problem<S, A>, d: Discipline, c: Config<S, A>, fuel: nat)
    requires c.nodes != [] && fuel > 0
    ensures TakeRound(p, d, c).Goal? ==>
      Rounds(p, d, c, fuel) == Run(Found(TakeRound(p, d, c).node), c.expanded, 1, TakeRound(p, d, c).rest)
    ensures TakeRound(p, d, c).Next? ==>
      var run := Rounds(p, d, TakeRound(p, d, c).config, fuel - 1);
      Rounds(p, d, c, fuel) == Run(run.outcome, run.expanded, run.rounds + 1, run.left)
  {
  }

  /** A run that ends within its fuel ends the same way, having spent the same rounds, with any more fuel. */
  lemma {:induction false} MoreFuelSameRun<S, A>(p: Problem<S, A>, d: Discipline, c: Config<S, A>, fuel: nat, more: nat)
    requires !Rounds(p, d, c, fuel).outcome.OutOfFuel?
    ensures Rounds(p, d, c, fuel + more) == Rounds(p, d, c, fuel)
    decreases fuel
  {
    if c.nodes != [] && fuel > 0 {
      var t := TakeRound(p, d, c);
      RoundsStep(p, d, c, fuel);
      RoundsStep(p, d, c, fuel + more);
      if t.Next? {
        MoreFuelSameRun(p, d, t.config, fuel - 1, more);
        assert fuel + more - 1 == (fuel - 1) + more;
      }
    }
  }

  /** The configuration in which a run from `c` with `fuel` stops. */
  ghost function Last<S, A>(p: Problem<S, A>, d: Discipline, c: Config<S, A>, fuel: nat): Config<S, A>
    decreases fuel
  {
    if c.nodes == [] || fuel == 0 then c
    else match TakeRound(p, d, c)
      case Goal(_, _) => c
      case Next(c') => Last(p, d, c', fuel - 1)
  }

  /**
   * A run expands what its last configuration has expanded; it ends `NotFound` on an empty
   * frontier, `OutOfFuel` leaving its last configuration's frontier, and `Found` with the goal
   * its last configuration's round takes, leaving the rest of that frontier.
   */
  lemma {:induction false} RoundsEndAtLast<S, A>(p: Problem<S, A>, d: Discipline, c: Config<S, A>, fuel: nat)
    ensures var run := Rounds(p, d, c, fuel); var last := Last(p, d, c, fuel);
      && run.expanded == last.expanded
      && (run.outcome.NotFound? ==> last.nodes == [] && run.left == [])
      && (run.outcome.OutOfFuel? ==> run.left == last.nodes)
      && (run.outcome.Found? ==> last.nodes != [] && TakeRound(p, d, last) == Goal(run.outcome.node, run.left))
    decreases fuel
  {
    if c.nodes != [] && fuel > 0 {
      var t := TakeRound(p, d, c);
      RoundsStep(p, d, c, fuel);
      if t.Next? {
        RoundsEndAtLast(p, d, t.config, fuel - 1);
      }
    }
  }

  /** An invariant every round keeps holds of the configuration a run stops in. */
  lemma {:induction false} LastKeeps<S, A>(p: Problem<S, A>, d: Discipline, inv: Config<S, A> -> bool, c: Config<S, A>, fuel: nat)
    requires forall c' :: inv(c') && c'.nodes != [] && TakeRound(p, d, c').Next? ==> inv(TakeRound(p, d, c').config)
    requires inv(c)
    ensures inv(Last(p, d, c, fuel))
    decreases fuel
  {
    if c.nodes != [] && fuel > 0 && TakeRound(p, d, c).Next? {
      LastKeeps(p, d, inv, TakeRound(p, d, c).config, fuel - 1);
    }
  }

  /** Every node on the frontier descends from `bases`, and every expanded node is a non-goal that does. */
  ghost predicate Descended<S, A>(p: Problem<S, A>, bases: seq<Node<S, A>>, c: Config<S, A>)
  {
    AllDescend(p, bases, c.nodes) && Explored(p, bases, c.expanded)
  }

  /** The expanded nodes have distinct states, and `reached` maps exactly those states to their costs. */
  ghost predicate Recorded<S, A>(c: Config<S, A>)
  {
    DistinctStates(c.expanded) && Records(c.reached, c.expanded)
  }

  /** A round keeps every node descended from `bases`; a goal it takes is one of them. */
  lemma RoundKeepsDescended<S, A>(p: Problem<S, A>, d: Discipline, bases: seq<Node<S, A>>, c: Config<S, A>)
    requires Descended(p, bases, c) && c.nodes != []
    ensures TakeRound(p, d, c).Goal? ==> p.isGoal(TakeRound(p, d, c).node.state) && DescendsFrom(p, bases, TakeRound(p, d, c).node)
    ensures TakeRound(p, d, c).Next? ==> Descended(p, bases, TakeRound(p, d, c).config)
  {
    var k := Taken(d, c.nodes);
    var current := c.nodes[k];
    var rest := Without(c.nodes, k);
    WithoutIsMultisetRemoval(c.nodes, k);
    assert current in c.nodes;
    if !p.isGoal(current.state) && current.state !in c.reached {
      ExpansionKeepsDescent(p, bases, rest, c.expanded, current, Successors(p, current));
    }
  }

  /** A round keeps the expanded states distinct and `reached` exact. */
  lemma RoundKeepsRecorded<S, A>(p: Problem<S, A>, d: Discipline, c: Config<S, A>)
    requires Recorded(c) && c.nodes != []
    ensures TakeRound(p, d, c).Next? ==> Recorded(TakeRound(p, d, c).config)
  {
    var current := c.nodes[Taken(d, c.nodes)];
    if !p.isGoal(current.state) && current.state !in c.reached {
      RecordExpansion(c.reached, c.expanded, current);
    }
  }

  /** A round leaves no work unaccounted for. */
  lemma RoundKeepsOwed<S, A>(p: Problem<S, A>, d: Discipline, bases: seq<Node<S, A>>, c: Config<S, A>)
    requires Owed(p, bases, c.nodes, c.reached, c.expanded) && c.nodes != []
    ensures TakeRound(p, d, c).Next? ==>
      var c' := TakeRound(p, d, c).config;
      Owed(p, bases, c'.nodes, c'.reached, c'.expanded)
  {
    var k := Taken(d, c.nodes);
    var current := c.nodes[k];
    var rest := Without(c.nodes, k);
    WithoutIsMultisetRemoval(c.nodes, k);
    assert current in c.nodes;
    if !p.isGoal(current.state) {
      if current.state in c.reached {
        SkipKeepsOwed(p, bases, c.nodes, rest, c.reached, c.expanded, current);
      } else {
        ExpandKeepsOwed(p, bases, c.nodes, rest, c.reached, c.expanded, current, Successors(p, current));
      }
    }
  }

  /**
   * A run from a configuration whose nodes descend from `bases` finds only goals that descend
   * from them, and expands only non-goals that do.
   */
  lemma RoundsDescend<S, A>(p: Problem<S, A>, d: Discipline, bases: seq<Node<S, A>>, c: Config<S, A>,
                            fuel: nat)
    requires Descended(p, bases, c)
    ensures var run := Rounds(p, d, c, fuel);
      && (run.outcome.Found? ==> p.isGoal(run.outcome.node.state) && DescendsFrom(p, bases, run.outcome.node))
      && Explored(p, bases, run.expanded)
  {
    var inv := (c': Config<S, A>) => Descended(p, bases, c');
    forall c' | inv(c') && c'.nodes != [] && TakeRound(p, d, c').Next?
      ensures inv(TakeRound(p, d, c').config)
    {
      RoundKeepsDescended(p, d, bases, c');
    }
    var last := Last(p, d, c, fuel);
    LastKeeps(p, d, inv, c, fuel);
    RoundsEndAtLast(p, d, c, fuel);
    if last.nodes != [] {
      RoundKeepsDescended(p, d, bases, last);
    }
  }

  /** A run that starts with distinct expanded states and an exact `reached` map never expands a state twice. */
  lemma RoundsDistinct<S, A>(p: Problem<S, A>, d: Discipline, c: Config<S, A>, fuel: nat)
    requires Recorded(c)
    ensures DistinctStates(Rounds(p, d, c, fuel).expanded)
  {
    var inv := (c': Config<S, A>) => Recorded(c');
    forall c' | inv(c') && c'.nodes != [] && TakeRound(p, d, c').Next?
      ensures inv(TakeRound(p, d, c').config)
    {
      RoundKeepsRecorded(p, d, c');
    }
    LastKeeps(p, d, inv, c, fuel);
    RoundsEndAtLast(p, d, c, fuel);
  }

  /** The expanded states are closed and hold the state of every base. */
  ghost predicate Settled<S, A>(p: Problem<S, A>, bases: seq<Node<S, A>>, expanded: seq<Node<S, A>>)
  {
    Closed(p, expanded) && forall b :: b in bases ==> b.state in States(expanded)
  }

  /** The expanded states are distinct, `reached` is exact, and no work is unaccounted for. */
  ghost predicate Accounted<S, A>(p: Problem<S, A>, bases: seq<Node<S, A>>, c: Config<S, A>)
  {
    Recorded(c) && Owed(p, bases, c.nodes, c.reached, c.expanded)
  }

  /**
   * A run from an accounted configuration, when it empties the frontier, leaves the expanded
   * states closed and holding every base.
   */
  lemma RoundsClosed<S, A>(p: Problem<S, A>, d: Discipline, bases: seq<Node<S, A>>, c: Config<S, A>,
                           fuel: nat)
    requires Accounted(p, bases, c)
    ensures var run := Rounds(p, d, c, fuel); run.outcome.NotFound? ==> Settled(p, bases, run.expanded)
  {
    var inv := (c': Config<S, A>) => Accounted(p, bases, c');
    forall c' | inv(c') && c'.nodes != [] && TakeRound(p, d, c').Next?
      ensures inv(TakeRound(p, d, c').config)
    {
      RoundKeepsRecorded(p, d, c');
      RoundKeepsOwed(p, d, bases, c');
    }
    var last := Last(p, d, c, fuel);
    LastKeeps(p, d, inv, c, fuel);
    RoundsEndAtLast(p, d, c, fuel);
    if last.nodes == [] {
      SettledIsClosed(p, bases, last.reached, last.expanded);
    }
  }

  /**
   * A search from the starting nodes `bases` with an empty `reached` map finds only goals that
   * descend from `bases`, expands distinct non-goal states that do, spends at most its fuel and
   * expands at most one node per round; when it empties the frontier, the expanded states are
   * closed and hold every base.
   */
  lemma SearchRun<S, A>(p: Problem<S, A>, d: Discipline, bases: seq<Node<S, A>>, fuel: nat)
    ensures var run := Rounds(p, d, Config(bases, map[], []), fuel);
      && (run.outcome.Found? ==> p.isGoal(run.outcome.node.state) && DescendsFrom(p, bases, run.outcome.node))
      && Explored(p, bases, run.expanded)
      && DistinctStates(run.expanded)
      && run.rounds <= fuel && |run.expanded| <= run.rounds
      && (run.outcome.OutOfFuel? ==> run.rounds == fuel)
      && (run.outcome.NotFound? ==> Settled(p, bases, run.expanded))
  {
    var c := Config(bases, map[], []);
    RoundsSpent(p, d, c, fuel);
    RoundsExpandOneEach(p, d, c, fuel);
    RoundsDescend(p, d, bases, c, fuel);
    RoundsDistinct(p, d, c, fuel);
    RoundsClosed(p, d, bases, c, fuel);
  }

  /**
   * A search from the root of `start` alone finds only goals on a legal path from `start`,
   * answers the root at once when `start` is a goal, and when it empties the frontier no
   * legal path from `start` reaches a goal.
   */
  lemma SearchRunFromRoot<S, A>(p: Problem<S, A>, d: Discipline, start: S, fuel: nat)
    ensures var run := Rounds(p, d, Config([Root(start)], map[], []), fuel);
      && (run.outcome.Found? ==> IsPathFrom(p, start, run.outcome.node))
      && (p.isGoal(start) && fuel > 0 ==> run.outcome == Found(Root(start)))
      && (run.outcome.NotFound? ==> forall n :: IsPathFrom(p, start, n) ==> !p.isGoal(n.state))
  {
    var c := Config([Root(start)], map[], []);
    var run := Rounds(p, d, c, fuel);
    SearchRun(p, d, [Root(start)], fuel);
    if fuel > 0 && p.isGoal(start) {
      assert TakeRound(p, d, c).Goal? && TakeRound(p, d, c).node == Root(start);
    }
    if run.outcome.Found? {
      DescendsFromRootIsPath(p, start, run.outcome.node);
    }
    if run.outcome.NotFound? {
      assert c.nodes[0] in c.nodes;
      forall n | IsPathFrom(p, start, n)
        ensures !p.isGoal(n.state)
      {
        ClosedCoversPaths(p, start, run.expanded, n);
        InStates(run.expanded, n.state);
      }
    }
  }

  /** A search strategy owning one frontier, built once and never cleared between searches. */
  class BestFirstSearch<S(==), A> {
    const frontier: Frontier<S, A>

    /** Builds the strategy over a fresh priority frontier ordered by `o`. */
    constructor WithOrdering(o: Ordering)
      ensures fresh(frontier) && frontier.discipline == Priority(o) && frontier.nodes == []
    {
      frontier := new Frontier(Priority(o));
    }

    /** Builds the strategy over a frontier the caller supplies, of any discipline. */
    constructor WithFrontier(f: Frontier<S, A>)
      ensures frontier == f
    {
      frontier := f;
    }

    /**
     * search(problem, state): pushes a root for `start` onto the frontier and repeatedly takes
     * a node; a goal node is returned, a node whose state was already expanded is skipped, and
     * any other node is recorded in `reached` and its children are added. Every pass through
     * the loop spends one unit of `fuel`; the source has no such bound. The ghost `expanded`
     * lists the expanded nodes in order. The frontier is not cleared afterwards: it keeps the
     * nodes the run leaves on it, and the next search starts from them.
     */
    method SearchFrom(p: Problem<S, A>, start: S, fuel: nat) returns (r: Outcome<S, A>, ghost expanded: seq<Node<S, A>>, steps: nat)
      modifies frontier
      ensures r.Found? ==> p.isGoal(r.node.state)
      ensures r.Found? ==> DescendsFrom(p, old(frontier.nodes) + [Root(start)], r.node)
      ensures r.Found? && old(frontier.nodes) == [] ==> IsPathFrom(p, start, r.node)
      ensures old(frontier.nodes) == [] && p.isGoal(start) && fuel > 0 ==> r == Found(Root(start))
      ensures r.NotFound? ==> frontier.nodes == []
      ensures r.OutOfFuel? ==> frontier.nodes != []
      ensures DistinctStates(expanded)
      ensures forall m :: m in expanded ==> !p.isGoal(m.state) && DescendsFrom(p, old(frontier.nodes) + [Root(start)], m)
      ensures steps <= fuel && |expanded| <= steps
      ensures r.OutOfFuel? ==> steps == fuel
      ensures r.NotFound? ==> Closed(p, expanded) && forall b :: b in old(frontier.nodes) + [Root(start)] ==> b.state in States(expanded)
      ensures r.NotFound? && old(frontier.nodes) == [] ==> forall n :: IsPathFrom(p, start, n) ==> !p.isGoal(n.state)
      ensures Run(r, expanded, steps, frontier.nodes) == Rounds(p, frontier.discipline, Config(old(frontier.nodes) + [Root(start)], map[], []), fuel)
    {
      ghost var bases := frontier.nodes + [Root(start)];
      frontier.Add(Root(start));
      r, expanded, steps := RunRounds(p, fuel);
      SearchRun(p, frontier.discipline, bases, fuel);
      if old(frontier.nodes) == [] {
        assert bases == [Root(start)];
        SearchRunFromRoot(p, frontier.discipline, start, fuel);
      }
    }

    /**
     * The loop of search: runs rounds, one per unit of `fuel`, until a goal is taken, the
     * frontier is empty or the fuel is spent; `reached` starts empty.
     */
    method RunRounds(p: Problem<S, A>, fuel: nat) returns (r: Outcome<S, A>, ghost expanded: seq<Node<S, A>>, steps: nat)
      modifies frontier
      ensures Run(r, expanded, steps, frontier.nodes) == Rounds(p, frontier.discipline, Config(old(frontier.nodes), map[], []), fuel)
      ensures r.NotFound? ==> frontier.nodes == []
      ensures r.OutOfFuel? ==> frontier.nodes != []
    {
      ghost var run := Rounds(p, frontier.discipline, Config(frontier.nodes, map[], []), fuel);
      var reached: map<S, int> := map[];
      expanded := [];
      steps := 0;
      var left: nat := fuel;
      while !frontier.IsEmpty()
        invariant steps + left == fuel
        invariant var rest := Rounds(p, frontier.discipline, Config(frontier.nodes, reached, expanded), left);
          run == Run(rest.outcome, rest.expanded, steps + rest.rounds, rest.left)
        decreases left
      {
        if left == 0 {
          r := OutOfFuel;
          return;
        }
        var found;
        found, reached, expanded := Round(p, reached, expanded);
        steps, left := steps + 1, left - 1;
        if found.Some? {
          r := Found(found.value);
          return;
        }
      }
      r := NotFound;
    }

    /**
     * One round of search on the frontier itself: takes a node; a goal is handed back, a node
     * whose state is already reached is dropped, and any other node is recorded and its
     * children are added. It is the round `TakeRound` describes.
     */
    method Round(p: Problem<S, A>, reached: map<S, int>, ghost expanded: seq<Node<S, A>>)
      returns (found: Option<Node<S, A>>, reached': map<S, int>, ghost expanded': seq<Node<S, A>>)
      requires frontier.nodes != []
      modifies frontier
      ensures found.Some? ==>
        TakeRound(p, frontier.discipline, Config(old(frontier.nodes), reached, expanded)) == Goal(found.value, frontier.nodes) && expanded' == expanded
      ensures found.None? ==>
        TakeRound(p, frontier.discipline, Config(old(frontier.nodes), reached, expanded)) == Next(Config(frontier.nodes, reached', expanded'))
    {
      var taken := frontier.Remove();
      var current := taken.value;
      reached', expanded' := reached, expanded;
      if p.isGoal(current.state) {
        found := Some(current);
        return;
      }
      found := None;
      if current.state !in reached {
        reached', expanded' := reached[current.state := current.cost], expanded + [current];
        var successors := Expand(p, current);
        assert successors == Successors(p, current);
        PushAll(successors);
      }
    }

    /** add, once per successor in order: the successors join the frontier behind its contents. */
    method PushAll(successors: seq<Node<S, A>>)
      modifies frontier
      ensures frontier.nodes == old(frontier.nodes) + successors
    {
      var i := 0;
      while i < |successors|
        invariant 0 <= i <= |successors|
        invariant frontier.nodes == old(frontier.nodes) + successors[..i]
      {
        frontier.Add(successors[i]);
        i := i + 1;
      }
    }

    /** search(problem): the same search from the problem's initial state. */
    method Search(p: Problem<S, A>, fuel: nat) returns (r: Outcome<S, A>, ghost expanded: seq<Node<S, A>>, steps: nat)
      modifies frontier
      ensures r.Found? ==> p.isGoal(r.node.state)
      ensures r.Found? && old(frontier.nodes) == [] ==> IsPathFrom(p, p.initial, r.node)
      ensures old(frontier.nodes) == [] && p.isGoal(p.initial) && fuel > 0 ==> r == Found(Root(p.initial))
      ensures r.NotFound? ==> frontier.nodes == []
      ensures DistinctStates(expanded)
      ensures steps <= fuel && |expanded| <= steps
      ensures r.OutOfFuel? ==> steps == fuel && frontier.nodes != []
      ensures r.NotFound? ==> Closed(p, expanded) && p.initial in States(expanded)
      ensures r.NotFound? && old(frontier.nodes) == [] ==> forall n :: IsPathFrom(p, p.initial, n) ==> !p.isGoal(n.state)
      ensures Run(r, expanded, steps, frontier.nodes) == Rounds(p, frontier.discipline, Config(old(frontier.nodes) + [Root(p.initial)], map[], []), fuel)
    {
      r, expanded, steps := SearchFrom(p, p.initial, fuel);
      assert Root(p.initial) in old(frontier.nodes) + [Root(p.initial)];
    }
  }
}
