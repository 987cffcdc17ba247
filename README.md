# java-assignments, modelled in Dafny

This project models the algorithmic core of the `java-assignments` repository, a set of Java
exercises:

- **Searching.** It has a generic problem and search-node abstraction and three frontiers: a FIFO queue, a LIFO stack and a comparator-ordered priority queue. On top of them sit best-first graph search, iterative deepening and minimax. There is also the tic-tac-toe game, with its search problem and evaluator, and a stand-alone console board.
- **Sorting.** Bubble, insertion, selection, merge, quick and heap sort work in place on an array.
- **Images.** Colours are packed in one integer. Images are grids of colours. There are two families of transforms: those that build a new image and those that change the image they are given. There is also a chained-pixel cipher.
- **Time.** A time stamp holds hours, minutes and seconds. A date extends it with year, month and day, and overrides `skipHour` and `skipTime`.
- **Mini-collections.** Two binary search trees, one with a pre-order iterator. A singly linked list and the stack built on it. A doubly linked list that adds at its head.

Each Java class whose methods update fields is a Dafny `class` with those fields. Its methods carry `modifies` clauses, and their contracts tie the new state to a specification function of the old state. Each image is a two-dimensional `array`, and each sort works in place on an `array<int>`. The linked lists are real nodes linked by references, described by a ghost sequence of the nodes reached from the head. Each binary search tree is kept as a tree value inside its class. Code that only computes a value is a function, and the properties the source promises are lemmas about those functions: sorted and a permutation, round trips, invariants kept, the inverse of each image transform.

The modules follow the repository's packages:

| area | modules |
|---|---|
| search | `SearchProblem`, `SearchNode`, `Frontiers`, `BestFirst`, `IterativeDeepening`, `MinMax` |
| tic-tac-toe | `TicTacToeGame`, `TicTacToeProblems`, `ConsoleBoard` |
| sorting | `SortSpec`, `BubbleSort`, `InsertionSort`, `SelectionSort`, `MergeSort`, `QuickSort`, `HeapSort` |
| images | `Colors`, `Grids`, `Images`, `ImageUtils`, `ImageUtilsSE`, `ImageCoder` |
| time | `Decimal`, `TimeStamps`, `Dates` |
| collections | `SearchTrees`, `Concrete`, `MiniCollections` |
| shared | `Wrappers` (Option, Result and the exceptions as error values), `Arithmetic` (Java's `/` and `%`) |

Java `assert` statements are the caller's obligations and become `requires` clauses. Examples are the component range of `new Color(r, g, b)`, the bounds in the `TimeStamp` constructors and setters, and the calendar check of `Date`. The repository's tests expect `AssertionError` from these, so assertions are taken to be enabled. A method that throws a runtime exception gives a `Result` instead, with the exception as its error value. An element type compared with `compareTo` is modelled as `int`.

`Date.clone` is modelled as written: it builds `new Date(year, month, month)`, so the clone has the month as its day and midnight as its time.

## Model

| member | source | states |
|---|---|---|
| SearchNode.Root | searching/src/main/java/com/mithe/searching/Node.java:10-12 | a node built from a state alone holds that state with no parent, no action and cost 0, and has depth 0 |
| SearchNode.ComputeDepth | searching/src/main/java/com/mithe/searching/Node.java:37-47 | `depth()` counts parent links: that many links from the node reach a parentless node, and every smaller number reaches a node that still has a parent |
| SearchNode.DepthCountsLinks | searching/src/main/java/com/mithe/searching/Node.java:37-47 | following exactly `Depth(n)` parent links reaches a parentless node, and no fewer links do |
| SearchNode.ChildDepth | searching/src/main/java/com/mithe/searching/Node.java:14-19 | a node built with a parent lies one level below that parent, which is its first ancestor |
| SearchProblem.Child | searching/src/main/java/com/mithe/searching/searchStrategies/BestFirstSearch.java:73-77 | the successor for an action records the node as parent, the action, the state `result` gives, the parent's cost plus the step cost, and depth one more |
| SearchProblem.DescendsFromRootIsPath | searching/src/main/java/com/mithe/searching/searchStrategies/BestFirstSearch.java:44-59 | with an empty frontier at the start, the nodes a search can reach from its root are exactly the legal paths from the start state (both directions) |
| SearchProblem.ReplayReproducesState | searching/src/main/java/com/mithe/searching/searchStrategies/BestFirstSearch.java:66-81 | a node on a legal path records `Depth(n)` actions, and replaying them from the start state through `result` reproduces the node's state |
| SearchProblem.ChildIsPath | searching/src/main/java/com/mithe/searching/searchStrategies/BestFirstSearch.java:73-77 | expanding a node on a legal path by one of its actions gives a node on a legal path |
| SearchProblem.PathCostMonotone | searching/src/main/java/com/mithe/searching/searchStrategies/BestFirstSearch.java:75 | when no step cost is negative, every ancestor on a legal path costs at most as much as the node, and no node costs less than 0 |
| BestFirst.Expand | searching/src/main/java/com/mithe/searching/searchStrategies/BestFirstSearch.java:66-81 | `expand` returns one successor per action of the state, in action order, the i-th being the child for the i-th action |
| BestFirst.RecordExpansion | searching/src/main/java/com/mithe/searching/searchStrategies/BestFirstSearch.java:52-54 | putting a not-yet-reached state into `reached` keeps the map exactly the expanded states with their costs, and keeps expanded states distinct |
| BestFirst.ChildrenDescend | searching/src/main/java/com/mithe/searching/searchStrategies/BestFirstSearch.java:55-59 | the successors of a node that descends from the frontier's starting nodes descend from them too |
| BestFirst.ExpansionKeepsDescent | searching/src/main/java/com/mithe/searching/searchStrategies/BestFirstSearch.java:51-59 | after a non-goal node is taken and expanded, the rest of the frontier followed by its children still descends from the starting nodes, and so does every expanded node |
| BestFirst.BestFirstSearch.WithOrdering | searching/src/main/java/com/mithe/searching/searchStrategies/BestFirstSearch.java:23-25 | the comparator constructor owns a new, empty priority frontier with that ordering |
| BestFirst.BestFirstSearch.WithFrontier | searching/src/main/java/com/mithe/searching/searchStrategies/BestFirstSearch.java:27-29 | the frontier constructor uses the caller's frontier itself |
| BestFirst.BestFirstSearch.SearchFrom | searching/src/main/java/com/mithe/searching/searchStrategies/BestFirstSearch.java:39-64 | a returned node is a goal and descends from the leftover frontier plus the new root (a legal path from the start when the frontier began empty); a goal start is returned at once; no state is expanded twice and no expanded node is a goal; at most `fuel` rounds are spent, at most one expansion each, and "out of fuel" means all were spent with nodes left; "not found" leaves the frontier empty with every state one action from an expanded state expanded, every starting node's state expanded, and (from an empty frontier) no goal on any legal path from the start; the answer, the expanded nodes, the rounds spent and the nodes left on the frontier afterwards (the untaken rest after a goal, everything held when out of fuel) are those of the reference run `Rounds` from the leftover frontier plus the root |
| BestFirst.BestFirstSearch.RunRounds | searching/src/main/java/com/mithe/searching/searchStrategies/BestFirstSearch.java:47-63 | the loop over the frontier ends exactly as `Rounds` from the frontier's contents with an empty `reached`: same answer, same expanded nodes, same round count, and the frontier left as the run leaves it; "not found" leaves the frontier empty and "out of fuel" leaves nodes on it |
| BestFirst.BestFirstSearch.Round | searching/src/main/java/com/mithe/searching/searchStrategies/BestFirstSearch.java:48-59 | one pass on the frontier itself does what `TakeRound` says: hands back a goal with the rest of the frontier left on it, drops a node whose state is reached, or records the node and adds its children |
| BestFirst.SkipKeepsOwed | searching/src/main/java/com/mithe/searching/searchStrategies/BestFirstSearch.java:52 | skipping a node whose state is already reached leaves every child of an expanded node and every starting node on the frontier or reached |
| BestFirst.ExpandKeepsOwed | searching/src/main/java/com/mithe/searching/searchStrategies/BestFirstSearch.java:54-59 | after an expansion every action of the expanded state is accounted for by a child on the frontier, and nothing owed before is lost |
| BestFirst.SettledIsClosed | searching/src/main/java/com/mithe/searching/searchStrategies/BestFirstSearch.java:47-63 | when the frontier runs empty, every state one action from an expanded state was expanded, and so was the state of every starting node |
| BestFirst.ClosedCoversPaths | searching/src/main/java/com/mithe/searching/searchStrategies/BestFirstSearch.java:47-63 | a set of expanded states closed under the actions and holding the start holds the state of every legal path from the start, so "not found" means no reachable goal |
| BestFirst.TakeRound | searching/src/main/java/com/mithe/searching/searchStrategies/BestFirstSearch.java:48-59 | one pass of the loop only appends to the expanded nodes, at most one of them |
| BestFirst.RoundsStep | searching/src/main/java/com/mithe/searching/searchStrategies/BestFirstSearch.java:47-59 | with nodes held and fuel left, the run answers the goal the round takes and leaves the rest of the frontier, or goes on as the run from the configuration the round leaves |
| BestFirst.RoundsSpent | searching/src/main/java/com/mithe/searching/searchStrategies/BestFirstSearch.java:47-60 | the loop spends at most `fuel` rounds, and ends out of fuel only having spent them all |
| BestFirst.RoundsExpandOneEach | searching/src/main/java/com/mithe/searching/searchStrategies/BestFirstSearch.java:52-55 | the run only appends to the expanded nodes, at most one per round |
| BestFirst.MoreFuelSameRun | searching/src/main/java/com/mithe/searching/searchStrategies/BestFirstSearch.java:47-63 | a run that answers found or not found within its fuel gives the same answer, expansions and round count with any larger fuel, so the bound only cuts off runs that would go on |
| BestFirst.RoundsEndAtLast | searching/src/main/java/com/mithe/searching/searchStrategies/BestFirstSearch.java:47-63 | the run expands what its stopping configuration has expanded; "not found" stops on an empty frontier and leaves nothing, "out of fuel" leaves the stopping configuration's frontier, and "found" returns the goal that the stopping configuration's round takes and leaves the rest of that frontier |
| BestFirst.LastKeeps | searching/src/main/java/com/mithe/searching/searchStrategies/BestFirstSearch.java:47-60 | a fact about configurations that every round keeps holds where the loop stops |
| BestFirst.RoundKeepsDescended | searching/src/main/java/com/mithe/searching/searchStrategies/BestFirstSearch.java:48-59 | a round keeps every frontier node descended from the starting nodes and every expanded node a non-goal that is; a goal it takes is one of them |
| BestFirst.RoundKeepsRecorded | searching/src/main/java/com/mithe/searching/searchStrategies/BestFirstSearch.java:52-54 | a round keeps the expanded states distinct and `reached` exactly those states with their costs |
| BestFirst.RoundKeepsOwed | searching/src/main/java/com/mithe/searching/searchStrategies/BestFirstSearch.java:52-59 | a round loses no owed work: every child of an expanded node and every starting node stays on the frontier or reached |
| BestFirst.RoundsDescend | searching/src/main/java/com/mithe/searching/searchStrategies/BestFirstSearch.java:44-63 | a run finds only goals that descend from the starting nodes, and expands only non-goals that do |
| BestFirst.RoundsDistinct | searching/src/main/java/com/mithe/searching/searchStrategies/BestFirstSearch.java:52-54 | a run never expands a state twice |
| BestFirst.RoundsClosed | searching/src/main/java/com/mithe/searching/searchStrategies/BestFirstSearch.java:47-63 | a run that empties the frontier leaves the expanded states closed under the actions and holding every starting node's state |
| BestFirst.SearchRun | searching/src/main/java/com/mithe/searching/searchStrategies/BestFirstSearch.java:39-64 | a search from the starting nodes with an empty `reached` finds only goals descended from them, expands distinct non-goal states that are, spends at most its fuel with at most one expansion per round, and on "not found" leaves the expanded states closed and holding every starting state |
| BestFirst.SearchRunFromRoot | searching/src/main/java/com/mithe/searching/searchStrategies/BestFirstSearch.java:39-64 | a search from the start's root alone finds only goals on legal paths from the start, answers a goal start at once, and on "not found" no legal path from the start reaches a goal |
| BestFirst.BestFirstSearch.PushAll | searching/src/main/java/com/mithe/searching/searchStrategies/BestFirstSearch.java:57-59 | the successors join the frontier behind its contents, in order |
| BestFirst.BestFirstSearch.Search | searching/src/main/java/com/mithe/searching/searchStrategies/BestFirstSearch.java:34-37 | searching from the initial state: a found node is a goal on a legal path from it; no state is expanded twice; "out of fuel" means all `fuel` rounds were spent; "not found" from an empty frontier means the expanded states are closed under the actions, hold the initial state, and no goal lies on any legal path from it; the answer, the expanded nodes, the rounds spent and the nodes left on the frontier are those of `Rounds` from the leftover frontier plus the initial root |
| IterativeDeepening.UnexploredChildren | searching/src/main/java/com/mithe/searching/IterativeDeepeningSearch.java:51-58 | the children pushed by one expansion are exactly the children, by the given actions, whose state is not explored (both directions), at most one per action |
| IterativeDeepening.UnexploredStep | searching/src/main/java/com/mithe/searching/IterativeDeepeningSearch.java:51-58 | one more action adds its child at the end exactly when the child's state is not explored |
| IterativeDeepening.PushUnexplored | searching/src/main/java/com/mithe/searching/IterativeDeepeningSearch.java:51-58 | the expansion loop appends to the frontier exactly the unexplored children, in action order |
| IterativeDeepening.DepthLimitedSearch | searching/src/main/java/com/mithe/searching/IterativeDeepeningSearch.java:32-62 | the result and the expanded nodes are exactly those of the pass `DepthLimited`: an empty stack gives "not found", spent fuel "out of fuel", a goal on top is returned, a too-deep node dropped and any other expanded; a returned node is a goal on a legal path from the start at most one level below the bound; a goal start is returned at once; every expanded node is a non-goal on a legal path within the bound |
| IterativeDeepening.Step | searching/src/main/java/com/mithe/searching/IterativeDeepeningSearch.java:45-58 | one loop round takes the top of the stack: a goal is returned, and otherwise the rest of the pass from the new stack, explored set and expanded list, one unit of fuel down, is the rest of the pass from the old ones; the loop facts carry over |
| IterativeDeepening.MoreFuelSamePass | searching/src/main/java/com/mithe/searching/IterativeDeepeningSearch.java:32-62 | the fuel only cuts a pass off: a pass that ends within its fuel ends the same way, having expanded the same nodes, with any larger amount |
| IterativeDeepening.Expand | searching/src/main/java/com/mithe/searching/IterativeDeepeningSearch.java:49-58 | the node's state joins `explored`, its unexplored children are pushed in order, and everything on the frontier stays a legal path at most one level below the bound |
| IterativeDeepening.SearchFrom | searching/src/main/java/com/mithe/searching/IterativeDeepeningSearch.java:19-30 | bounds 0, 1, 2, ... are tried in order: every bound below the last one tried found nothing, the result is that of the pass with the last bound, never "not found", and "out of fuel" when all `rounds` bounds found nothing; a found node is a goal on a legal path from the start within one level of its bound; a goal start is found with bound 0 |
| IterativeDeepening.Search | searching/src/main/java/com/mithe/searching/IterativeDeepeningSearch.java:14-16 | the same search from the initial state, with the same account of the bounds tried |
| Frontiers.Compare | searching/src/main/java/com/mithe/searching/comparators/NodeCostComparator.java:10-13 | the cost comparator is negative, zero or positive exactly as the first node's cost is below, equal to or above the second's; the zero comparator is always 0 |
| Frontiers.CompareIsPreorder | searching/src/main/java/com/mithe/searching/comparators/NodeCostComparator.java:10-13 | both comparators are reflexive, sign-antisymmetric and transitive |
| Frontiers.MinimalFromIsFirstMinimum | searching/src/main/java/com/mithe/searching/frontierStrategies/BestFirstFrontier.java:24-26 | a scan that starts from the first minimal node of a prefix ends at the first minimal node of the whole contents |
| Frontiers.FirstMinimalIsFirstMinimum | searching/src/main/java/com/mithe/searching/frontierStrategies/BestFirstFrontier.java:24-26 | the node a priority frontier hands out precedes or ties every held node, and every node inserted before it is strictly worse |
| Frontiers.Taken | searching/src/main/java/com/mithe/searching/frontierStrategies/BFSFrontier.java:19-22 | a queue hands out its oldest node and a stack its newest; a priority queue hands out the node at `FirstMinimal` |
| Frontiers.WithoutIsMultisetRemoval | searching/src/main/java/com/mithe/searching/frontierStrategies/DFSFrontier.java:18-21 | removing one position takes out exactly one occurrence of that node and adds nothing |
| Frontiers.FifoOrder | searching/src/main/java/com/mithe/searching/frontierStrategies/BFSFrontier.java:14-22 | a queue hands nodes out in the order they were added, keeping the order of the rest |
| Frontiers.LifoAddRemove | searching/src/main/java/com/mithe/searching/frontierStrategies/DFSFrontier.java:13-21 | a stack hands out the node pushed last, and taking it restores the previous contents |
| Frontiers.PriorityTakesCheapest | searching/src/main/java/com/mithe/searching/frontierStrategies/BestFirstFrontier.java:19-26 | under the cost comparator the node handed out costs no more than any node held; under the zero comparator every held node is minimal |
| Frontiers.Frontier.constructor | searching/src/main/java/com/mithe/searching/frontierStrategies/BestFirstFrontier.java:14-16 | a new frontier of the given discipline is empty |
| Frontiers.Frontier.Add | searching/src/main/java/com/mithe/searching/frontierStrategies/BFSFrontier.java:14-17 | `add` appends the node to the contents |
| Frontiers.Frontier.Remove | searching/src/main/java/com/mithe/searching/frontierStrategies/DFSFrontier.java:18-21 | an empty queue or priority queue answers nothing (`poll` gives null) and a stack may not be empty; otherwise the node at `Taken` is handed out and exactly that occurrence leaves |
| Frontiers.Frontier.IsEmpty | searching/src/main/java/com/mithe/searching/frontierStrategies/BFSFrontier.java:24-27 | `isEmpty` holds exactly when no node is held |
| MinMax.Reply | searching/src/main/java/com/mithe/searching/searchStrategies/MinMaxSearch.java:39-40 | the node built for an action records the node as parent, the action and the resulting state, lies one level deeper, and has cost 1 rather than a path cost |
| MinMax.MaxOverPrefix | searching/src/main/java/com/mithe/searching/searchStrategies/MinMaxSearch.java:33-46 | after any number of actions the maximising level's score is at least every reply score seen; with no reply above Integer.MIN_VALUE it stays at MIN_VALUE with no node; otherwise its node is the first reply reaching that score |
| MinMax.MinOverPrefix | searching/src/main/java/com/mithe/searching/searchStrategies/MinMaxSearch.java:56-69 | the mirror image: the minimising level's score is at most every reply score seen, stays Integer.MAX_VALUE with no node when nothing is below it, and otherwise keeps the first reply reaching it |
| MinMax.MinMaxSearch.constructor | searching/src/main/java/com/mithe/searching/searchStrategies/MinMaxSearch.java:14-16 | the strategy keeps the evaluator it is given |
| MinMax.MinMaxSearch.MaxValue | searching/src/main/java/com/mithe/searching/searchStrategies/MinMaxSearch.java:29-50 | `maxValue` returns the evaluator's score at a terminal or goal state, and otherwise the maximising scan over all actions |
| MinMax.MinMaxSearch.MinValue | searching/src/main/java/com/mithe/searching/searchStrategies/MinMaxSearch.java:52-73 | `minValue` returns the evaluator's score at a terminal or goal state, and otherwise the minimising scan over all actions |
| MinMax.MinMaxSearch.SearchFrom | searching/src/main/java/com/mithe/searching/searchStrategies/MinMaxSearch.java:23-27 | the result is the root itself when the start is terminal or a goal; otherwise it is the reply node of the first action with the largest reply score, or none when no reply beats Integer.MIN_VALUE |
| MinMax.MinMaxSearch.Search | searching/src/main/java/com/mithe/searching/searchStrategies/MinMaxSearch.java:18-21 | the same search from the initial state: the root when it is terminal or a goal; otherwise the reply node of the first action with the largest reply score, or none when no reply beats Integer.MIN_VALUE |
| TicTacToeGame.Value | searching/src/main/java/com/mithe/searching/TicTacToe.java:6-19 | X is -1, O is -2 and an empty cell is 0, the only player valued 0 |
| TicTacToeGame.WinnerFromIsFirstUniform | searching/src/main/java/com/mithe/searching/TicTacToe.java:64-74 | the lines are tried in order: the answer is the content of the first uniform line, or NONE when no line is uniform |
| TicTacToeGame.WinnerHoldsLine | searching/src/main/java/com/mithe/searching/TicTacToe.java:64-74 | a winner other than NONE holds all three cells of some line |
| TicTacToeGame.WinnerFromHoldsLine | searching/src/main/java/com/mithe/searching/TicTacToe.java:64-74 | the same for the lines from any position on, by induction over the line list |
| TicTacToeGame.EmptyLineHidesWin | searching/src/main/java/com/mithe/searching/TicTacToe.java:65-70 | an empty line counts as uniform, so X holding the middle row under an empty first row is reported as NONE |
| TicTacToeGame.Mark | searching/src/main/java/com/mithe/searching/TicTacToe.java:46 | the mover writes X when `isPlayerX` and O otherwise, never NONE |
| TicTacToeGame.Play | searching/src/main/java/com/mithe/searching/TicTacToe.java:41-50 | a move writes the mover's mark at the tile, occupied or not, changes no other cell, and passes the turn |
| TicTacToeGame.FreeBelow | searching/src/main/java/com/mithe/searching/TicTacToe.java:52-58 | the listed tiles are exactly the empty cells below the bound, in increasing order |
| TicTacToeGame.FullIffNoFreeTile | searching/src/main/java/com/mithe/searching/TicTacToe.java:84-91 | the board is full exactly when no cell is free |
| TicTacToeGame.FreeBelowAfterMark | searching/src/main/java/com/mithe/searching/TicTacToe.java:46 | marking an empty cell removes exactly that cell from the free cells below any bound past it |
| TicTacToeGame.PlayUsesOneFreeTile | searching/src/main/java/com/mithe/searching/TicTacToe.java:41-50 | playing a free cell leaves exactly one free cell fewer |
| TicTacToeGame.Int32 | searching/src/main/java/com/mithe/searching/TicTacToe.java:117 | Java's int arithmetic: the result lies in the 32-bit range and agrees with the exact value modulo 2^32 |
| TicTacToeGame.TicTacToe.constructor | searching/src/main/java/com/mithe/searching/TicTacToe.java:31-33 | a new game has every cell empty and X to move |
| TicTacToeGame.TicTacToe.Copy | searching/src/main/java/com/mithe/searching/TicTacToe.java:36-39 | the copy constructor holds the same game in a new array |
| TicTacToeGame.TicTacToe.Move | searching/src/main/java/com/mithe/searching/TicTacToe.java:41-50 | a tile outside 0..8 throws IllegalArgumentException and changes nothing; otherwise the game becomes `Play` of the old one and the answer is true |
| TicTacToeGame.TicTacToe.IsFree | searching/src/main/java/com/mithe/searching/TicTacToe.java:52-58 | a tile outside 0..8 throws IllegalArgumentException; otherwise the answer is whether the tile is among the free cells |
| TicTacToeGame.TicTacToe.Won | searching/src/main/java/com/mithe/searching/TicTacToe.java:64-74 | the loop answers `Winner` of the board |
| TicTacToeGame.TicTacToe.IsBoardFull | searching/src/main/java/com/mithe/searching/TicTacToe.java:84-91 | the scan answers true exactly when no cell is empty |
| TicTacToeGame.TicTacToe.GameOver | searching/src/main/java/com/mithe/searching/TicTacToe.java:60-62 | the game is over exactly when somebody has won or the board is full |
| TicTacToeGame.TicTacToe.HashCode | searching/src/main/java/com/mithe/searching/TicTacToe.java:113-121 | the hash is `31 * h + value` over the nine cells from 1, in 32-bit arithmetic, so it depends on the board alone |
| TicTacToeGame.TicTacToe.Equals | searching/src/main/java/com/mithe/searching/TicTacToe.java:123-130 | two games are equal exactly when the other is not null and the boards agree cell by cell; the turn is not compared |
| TicTacToeGame.TicTacToe.Clone | searching/src/main/java/com/mithe/searching/TicTacToe.java:132-135 | the clone holds the same game in a new object over a new array |
| TicTacToeProblems.GameProblem | searching/src/main/java/com/mithe/searching/problems/TicTacToeProblem.java:12-50 | the game as a search problem: it starts from a new game, the actions are exactly the empty cells, every move costs 1, and a goal state is always terminal |
| TicTacToeProblems.GameProblemProgressing | searching/src/main/java/com/mithe/searching/problems/TicTacToeProblem.java:35-40 | every move from a state that is neither terminal nor a goal uses up one free cell, so play always ends |
| TicTacToeProblems.InitialGame | searching/src/main/java/com/mithe/searching/problems/TicTacToeProblem.java:12-15 | the initial state is a new game with an empty board and X to move |
| TicTacToeProblems.Actions | searching/src/main/java/com/mithe/searching/problems/TicTacToeProblem.java:22-33 | the loop lists exactly the free cells, in increasing order |
| TicTacToeProblems.Result | searching/src/main/java/com/mithe/searching/problems/TicTacToeProblem.java:35-40 | the result is a new game holding the old one with the action played; the old game is not touched |
| TicTacToeProblems.IsTerminal | searching/src/main/java/com/mithe/searching/problems/TicTacToeProblem.java:47-50 | a state is terminal exactly when the game is over |
| TicTacToeProblems.IsGoalState | searching/src/main/java/com/mithe/searching/problems/CpuVictoryProblem.java:15-18 | the goal test of each variant: game over and the winner is the CPU, the player, or anybody but NONE |
| TicTacToeProblems.Opposite | searching/src/main/java/com/mithe/searching/evaluators/TicTacToeEvaluator.java:28-30 | X's opposite is O, and anything else, NONE included, has X as its opposite |
| TicTacToeProblems.EvaluateState | searching/src/main/java/com/mithe/searching/evaluators/TicTacToeEvaluator.java:16-26 | the score is 1 exactly when the prioritised player has won, -1 exactly when the opposite player has, and 0 otherwise |
| TicTacToeProblems.EvaluationZeroSum | searching/src/main/java/com/mithe/searching/evaluators/TicTacToeEvaluator.java:16-30 | the scores for X and O are negatives of each other, and a finished game scores 0 exactly when it is a full board with no winner |
| ConsoleBoard.Other | searching/TicTacToe/Board.java:46-50 | the turn always passes to the other mark |
| ConsoleBoard.PrefixOfLine | searching/TicTacToe/Board.java:70-108 | a cell loop that runs to 3 has seen the whole line held, and one that stops early has seen a cell that breaks it |
| ConsoleBoard.AsGameBoard | searching/TicTacToe/Board.java:2 | the console cells become a game board that is empty exactly where the console cells are null |
| ConsoleBoard.WinsIffThreeInARow | searching/TicTacToe/Board.java:53-67 | the rows, columns and two diagonals checked here are exactly the eight lines of the search game: a mark wins here if and only if it holds one of those lines there |
| ConsoleBoard.Board.constructor | searching/TicTacToe/Board.java:5-8 | a new board has nine empty cells and X to play |
| ConsoleBoard.Board.IsFree | searching/TicTacToe/Board.java:26-29 | squares are 1..9, and a square is free exactly when its cell is null |
| ConsoleBoard.Board.Tied | searching/TicTacToe/Board.java:35-41 | the board is tied exactly when no cell is empty and the player who moved last has not won |
| ConsoleBoard.Board.Play | searching/TicTacToe/Board.java:43-51 | the next mark is written at the square, no other cell changes, and the turn passes |
| ConsoleBoard.Board.Won | searching/TicTacToe/Board.java:53-67 | the answer is whether the player who moved last holds a row, a column, the diagonal or the anti-diagonal |
| ConsoleBoard.Board.WonRow | searching/TicTacToe/Board.java:70-78 | the answer is whether the player holds all three cells of the row |
| ConsoleBoard.Board.WonCol | searching/TicTacToe/Board.java:80-88 | the answer is whether the player holds all three cells of the column |
| ConsoleBoard.Board.WonDiagonal | searching/TicTacToe/Board.java:90-98 | the answer is whether the player holds cells 0, 4 and 8 |
| ConsoleBoard.Board.WonAntiDiagonal | searching/TicTacToe/Board.java:100-108 | the answer is whether the player holds cells 2, 4 and 6 |
| SortSpec.SortedUnique | sorting/src/main/java/com/mithe/sorting/MergeSort.java:35-37 | two sorted sequences with the same elements are equal, so every correct sort of an input yields the same array |
| SortSpec.SortedInputUnchanged | sorting/src/main/java/com/mithe/sorting/InsertionSort.java:37-56 | sorting an already sorted array leaves it as it was |
| SortSpec.ShortInputUnchanged | sorting/src/main/java/com/mithe/sorting/QuickSort.java:54-60 | an array of zero or one elements comes out as it went in |
| BubbleSort.Sort | sorting/src/main/java/com/mithe/sorting/BubbleSort.java:35-55 | the array ends sorted and holds the same elements |
| BubbleSort.Pass | sorting/src/main/java/com/mithe/sorting/BubbleSort.java:42-53 | one pass moves the largest unsettled elements into place: everything from the last swap on is sorted and no smaller than what precedes it, and the new bound is below the old one |
| BubbleSort.CompareSwap | sorting/src/main/java/com/mithe/sorting/BubbleSort.java:45-51 | an out-of-order neighbour pair is swapped and the last-swap position moves to it; nothing else changes and the elements are kept |
| BubbleSort.PassStep | sorting/src/main/java/com/mithe/sorting/BubbleSort.java:43-52 | one comparison keeps the pass invariant: the maximum seen so far sits at the current position and everything from the last swap up to it is sorted |
| BubbleSort.SettledGrows | sorting/src/main/java/com/mithe/sorting/BubbleSort.java:53 | after a pass the suffix from the last swap on is in its final place |
| InsertionSort.MovedDown | sorting/src/main/java/com/mithe/sorting/InsertionSort.java:47-51 | the key goes to the hole, the elements between the hole and the key's old place move up by one, and everything else stays |
| InsertionSort.MovedDownPermutes | sorting/src/main/java/com/mithe/sorting/InsertionSort.java:47-51 | shifting and inserting keeps the elements |
| InsertionSort.MovedDownSorts | sorting/src/main/java/com/mithe/sorting/InsertionSort.java:47-51 | inserting the key below the larger elements of a sorted prefix extends the sorted prefix by one |
| InsertionSort.Sort | sorting/src/main/java/com/mithe/sorting/InsertionSort.java:37-56 | the array ends sorted and holds the same elements |
| InsertionSort.Insert | sorting/src/main/java/com/mithe/sorting/InsertionSort.java:43-54 | the key is inserted into the sorted prefix, which grows by one; the rest of the array is untouched and the elements are kept |
| InsertionSort.InsertedInHole | sorting/src/main/java/com/mithe/sorting/InsertionSort.java:47-54 | the array the shifting loop leaves equals the moved-down arrangement, sorted up to the key and unchanged after it |
| SelectionSort.FirstMinimum | sorting/src/main/java/com/mithe/sorting/SelectionSort.java:40-45 | the index found holds the smallest element of the unsorted part, and it is the first such index because only a strictly smaller element replaces the minimum |
| SelectionSort.Sort | sorting/src/main/java/com/mithe/sorting/SelectionSort.java:35-54 | the array ends sorted and holds the same elements |
| SelectionSort.SwapIntoPlace | sorting/src/main/java/com/mithe/sorting/SelectionSort.java:48-52 | swapping the minimum to the front of the unsorted part grows the sorted prefix by one, every element of it at most every later one |
| SelectionSort.SwapKeepsPrefix | sorting/src/main/java/com/mithe/sorting/SelectionSort.java:48-52 | the swap touches only the unsorted part and puts its minimum first |
| SelectionSort.SmallestAppended | sorting/src/main/java/com/mithe/sorting/SelectionSort.java:39-53 | appending the smallest remaining element to a sorted prefix of smaller elements keeps it sorted and partitioned |
| SelectionSort.SortedExtends | sorting/src/main/java/com/mithe/sorting/SelectionSort.java:39 | stopping before the last element is enough: a sorted prefix of all but one element, none larger than the last, is a sorted array |
| MergeSort.Merged | sorting/src/main/java/com/mithe/sorting/MergeSort.java:74-110 | the merge of two runs is as long as the two together |
| MergeSort.MergedPermutes | sorting/src/main/java/com/mithe/sorting/MergeSort.java:74-110 | the merge holds exactly the elements of the two runs |
| MergeSort.MergedSorted | sorting/src/main/java/com/mithe/sorting/MergeSort.java:74-110 | merging two sorted runs gives a sorted run |
| MergeSort.MergedHead | sorting/src/main/java/com/mithe/sorting/MergeSort.java:88-97 | the first element out is the smaller head, the left one on a tie, or the head of the only non-empty run |
| MergeSort.MergeTakesLeftOnTies | sorting/src/main/java/com/mithe/sorting/MergeSort.java:89-91 | on equal heads the left element goes first, which keeps the sort stable |
| MergeSort.Sort | sorting/src/main/java/com/mithe/sorting/MergeSort.java:35-37 | the array ends sorted and holds the same elements |
| MergeSort.MergeSortRange | sorting/src/main/java/com/mithe/sorting/MergeSort.java:47-60 | the range l..r ends sorted and holds the same elements; the rest of the array is untouched |
| MergeSort.MergeSortStep | sorting/src/main/java/com/mithe/sorting/MergeSort.java:53-58 | sorting both halves and merging them sorts the whole range and keeps its elements |
| MergeSort.Merge | sorting/src/main/java/com/mithe/sorting/MergeSort.java:74-110 | the range l..r becomes the merge of its two halves as they were, and nothing else changes |
| MergeSort.MergeHeads | sorting/src/main/java/com/mithe/sorting/MergeSort.java:85-97 | the first loop writes the merge until one run is used up, and stops where the merge's schedule has taken i left and j right elements; nothing outside the written range changes |
| MergeSort.ScheduleStep | sorting/src/main/java/com/mithe/sorting/MergeSort.java:89-95 | while both runs have elements, the merge takes the smaller head, the left one on ties |
| MergeSort.CopyRest | sorting/src/main/java/com/mithe/sorting/MergeSort.java:99-109 | the copy loops write the rest of the remaining run, which is the rest of the merge |
| MergeSort.PathRest | sorting/src/main/java/com/mithe/sorting/MergeSort.java:88-97 | after taking i left and j right elements, the rest of the merge is the merge of the remaining runs |
| MergeSort.Advance | sorting/src/main/java/com/mithe/sorting/MergeSort.java:89-95 | each step writes the element the merge has next and advances the run it came from |
| MergeSort.Leftover | sorting/src/main/java/com/mithe/sorting/MergeSort.java:99-109 | once one run is used up, the rest of the merge is the rest of the other run |
| MergeSort.LeftoverOnPath | sorting/src/main/java/com/mithe/sorting/MergeSort.java:99-109 | where the schedule has used up one run, the rest of the merge is the rest of the other run |
| QuickSort.Sort | sorting/src/main/java/com/mithe/sorting/QuickSort.java:37-39 | the array ends sorted and holds the same elements |
| QuickSort.QuickSortRange | sorting/src/main/java/com/mithe/sorting/QuickSort.java:54-60 | the range lo..hi ends sorted and holds the same elements; the rest of the array is untouched |
| QuickSort.Partition | sorting/src/main/java/com/mithe/sorting/QuickSort.java:74-93 | the pivot, the old last element, ends at the returned index with no larger element before it and only larger elements after it, within the range; the range keeps its elements and nothing outside changes |
| QuickSort.PartitionStep | sorting/src/main/java/com/mithe/sorting/QuickSort.java:79-86 | an element at most the pivot is swapped into the low side, which grows by one; otherwise the high side grows |
| QuickSort.PlacePivot | sorting/src/main/java/com/mithe/sorting/QuickSort.java:88-92 | swapping the pivot to just after the low side puts it between the two sides |
| QuickSort.QuickSortStep | sorting/src/main/java/com/mithe/sorting/QuickSort.java:56-58 | a partitioned range whose two sides are then sorted is sorted, and keeps its elements |
| QuickSort.SidesSorted | sorting/src/main/java/com/mithe/sorting/QuickSort.java:57-58 | two sorted sides separated by the pivot make a sorted range |
| QuickSort.SidesPermute | sorting/src/main/java/com/mithe/sorting/QuickSort.java:57-58 | permuting each side keeps the elements of the whole range |
| QuickSort.AtMostAfterPermute | sorting/src/main/java/com/mithe/sorting/QuickSort.java:57 | sorting the low side keeps it at most the pivot |
| QuickSort.AboveAfterPermute | sorting/src/main/java/com/mithe/sorting/QuickSort.java:58 | sorting the high side keeps it above the pivot |
| HeapSort.HeapRootMax | sorting/src/main/java/com/mithe/sorting/HeapSort.java:47-51 | the root of a max-heap is at least every element of the heap |
| HeapSort.Heapify | sorting/src/main/java/com/mithe/sorting/HeapSort.java:68-94 | sifting the element at i down restores the heap property from lo on, keeps the heap's elements and leaves the rest untouched |
| HeapSort.SiftStep | sorting/src/main/java/com/mithe/sorting/HeapSort.java:85-92 | swapping with the larger child fixes the node and moves the single violation down to that child |
| HeapSort.SwapKeepsHeapAt | sorting/src/main/java/com/mithe/sorting/HeapSort.java:87-89 | the swap keeps every other node's heap property |
| HeapSort.Sort | sorting/src/main/java/com/mithe/sorting/HeapSort.java:37-56 | the array ends sorted and holds the same elements |
| HeapSort.BuildHeap | sorting/src/main/java/com/mithe/sorting/HeapSort.java:42-44 | heapifying from the last parent down to the root makes the whole array a max-heap and keeps its elements |
| HeapSort.ExtractStep | sorting/src/main/java/com/mithe/sorting/HeapSort.java:47-51 | swapping the root to the end settles the largest remaining element and leaves a heap broken only at the root |
| HeapSort.SiftKeepsSettled | sorting/src/main/java/com/mithe/sorting/HeapSort.java:54 | re-heapifying the reduced heap does not disturb the settled suffix |
| Colors.Red | image/src/Color.java:73-75 | red() is bits 16 to 23 of the packed value, always a component 0..255 |
| Colors.Green | image/src/Color.java:82-84 | green() is bits 8 to 15 of the packed value, always a component 0..255 |
| Colors.Blue | image/src/Color.java:91-93 | blue() is the low 8 bits of the packed value, always a component 0..255 |
| Colors.Compose | image/src/Color.java:51-57 | the three-component constructor accepts components 0..255 and packs them so that red(), green() and blue() give them back; the packed value fits in 24 bits |
| Colors.ComposeComponents | image/src/Color.java:51-93 | repacking the three components of a 24-bit colour gives the same colour |
| Colors.ComponentsDetermine | image/src/Color.java:73-93 | two 24-bit colours with the same three components are the same colour |
| Colors.NamedColors | image/src/Color.java:13-37 | the named constants have the components their names promise: BLACK 0,0,0, WHITE 255,255,255, PINK 255,192,203, ORANGE 255,165,0 and the rest |
| Colors.SwapRedGreen | image/src/ImageUtils.java:180-195 | the pixel switchRedGreen writes is a 24-bit colour (green, red, blue) |
| Colors.SwapRedBlue | image/src/ImageUtils.java:203-218 | the pixel switchRedBlue writes is a 24-bit colour (blue, green, red) |
| Colors.SwapGreenBlue | image/src/ImageUtils.java:226-241 | the pixel switchGreenBlue writes is a 24-bit colour (red, blue, green) |
| Colors.GreyAverage | image/src/ImageUtils.java:249-267 | the pixel grayscaleAverage writes is a 24-bit grey whose level lies between the smallest and the largest component |
| Colors.GreyLightness | image/src/ImageUtils.java:275-296 | the pixel grayscaleLightness writes is a 24-bit grey whose level lies between the smallest and the largest component |
| Colors.SwapsUndoThemselves | image/src/ImageUtils.java:180-241 | each channel swap undoes itself on a 24-bit colour |
| Colors.GreyIsFixed | image/src/ImageUtils.java:249-296 | a grey pixel is left as it is by both greyscale conversions, so converting twice is converting once |
| Grids.PointwiseEqual | image/src/Image.java:21 | two images of the same size with the same colour at every pixel are the same image |
| Grids.Filled | image/src/Image.java:35-40 | a grid of one colour has the requested width and height |
| Grids.FlipRows | image/src/ImageUtils.java:17-28 | mirroring the rows keeps the number of rows |
| Grids.FlipColumns | image/src/ImageUtils.java:36-47 | mirroring the columns keeps the number of rows |
| Grids.TurnLeft | image/src/ImageUtils.java:55-66 | a quarter turn left of a w by h image is h by w |
| Grids.TurnRight | image/src/ImageUtils.java:74-85 | a quarter turn right of a w by h image is h by w |
| Grids.TurnHalf | image/src/ImageUtils.java:93-104 | a half turn keeps the size |
| Grids.StretchColumns | image/src/ImageUtils.java:112-126 | stretching horizontally doubles the width |
| Grids.StretchRows | image/src/ImageUtils.java:134-146 | stretching vertically doubles the height |
| Grids.Block | image/src/ImageUtils.java:159-172 | a crop has the requested width and height |
| Grids.Recolor | image/src/ImageUtils.java:180-296 | recolouring every pixel keeps the shape |
| Grids.FlipRowsTwice | image/src/ImageUtils.java:17-28 | mirroring the rows twice gives the image back |
| Grids.FlipColumnsTwice | image/src/ImageUtils.java:36-47 | mirroring the columns twice gives the image back |
| Grids.TurnHalfIsBothFlips | image/src/ImageUtils.java:93-104 | a half turn is both mirrors, in either order |
| Grids.QuarterTurnsUndo | image/src/ImageUtils.java:55-85 | rotateLeft and rotateRight undo each other |
| Grids.TwoLeftTurnsAreHalf | image/src/ImageUtils.java:55-104 | two quarter turns left make a half turn |
| Grids.StretchColumnsUndone | image/src/ImageUtils.java:112-126 | keeping every other column of a horizontally stretched image gives the image back, so no pixel is lost |
| Grids.StretchRowsUndone | image/src/ImageUtils.java:134-146 | keeping every other row of a vertically stretched image gives the image back |
| Grids.BlockOfBlock | image/src/ImageUtils.java:159-172 | cropping a crop is one crop at the summed offset |
| Grids.RecolorTwice | image/src/ImageUtils.java:180-241 | recolouring twice with a pixel map that undoes itself gives the image back |
| Images.Fill | image/src/Image.java:36-40 | the filling loops leave every pixel the given colour |
| Images.Image.Rows | image/src/Image.java:21 | the image as rows of pixels: a width by height rectangle holding the pixel array's colours |
| Images.Image.constructor | image/src/Image.java:31-41 | both dimensions must be positive; the new image has the requested size and every pixel BLACK |
| Images.Image.WithBackground | image/src/Image.java:51-61 | both dimensions must be positive; every pixel of the new image is a colour with the background's packed value |
| Images.Image.Pixel | image/src/Image.java:122-127 | the coordinates must be inside the image; the answer is the colour stored there |
| Images.Image.SetPixel | image/src/Image.java:137-142 | the coordinates must be inside the image; that pixel takes the colour and no other pixel changes |
| Images.SetPixelUpdatesRows | image/src/Image.java:137-142 | setting one pixel changes the image's rows in that one place |
| ImageUtils.Gather | image/src/ImageUtils.java:17-104 | the nested loops shared by the transforms that read each new pixel from one old place: a new w by h image whose pixel at (x, y) is the mapped old pixel |
| ImageUtils.GatherRow | image/src/ImageUtils.java:23-25 | the inner loop writes row y of the new image from the mapped old pixels and leaves the other rows alone |
| ImageUtils.Scatter | image/src/ImageUtils.java:55-85 | the nested loops of the rotations, which write each old pixel to one new place: every old pixel arrives at its image under the placement |
| ImageUtils.ScatterRow | image/src/ImageUtils.java:61-63 | the inner loop writes the old pixels of row y to their places and leaves every other written place alone |
| ImageUtils.FlipHorizontal | image/src/ImageUtils.java:17-28 | despite its name, the answer mirrors the rows: new (x, y) is old (x, h - 1 - y); the input is untouched |
| ImageUtils.FlipVirtical | image/src/ImageUtils.java:36-47 | the answer mirrors the columns: new (x, y) is old (w - 1 - x, y) |
| ImageUtils.RotateLeft | image/src/ImageUtils.java:55-66 | the answer is the h by w quarter turn left: old (x, y) lands at (h - 1 - y, x) |
| ImageUtils.RotateRight | image/src/ImageUtils.java:74-85 | the answer is the h by w quarter turn right: old (x, y) lands at (y, w - 1 - x) |
| ImageUtils.RotateHalf | image/src/ImageUtils.java:93-104 | the answer is the half turn: new (x, y) is old (w - 1 - x, h - 1 - y) |
| ImageUtils.StrechHorizontal | image/src/ImageUtils.java:112-126 | the answer is twice as wide, with each old pixel at (2x, y) and (2x + 1, y) |
| ImageUtils.WidenRow | image/src/ImageUtils.java:118-123 | the inner loop writes row y with every old pixel twice |
| ImageUtils.StrechVertical | image/src/ImageUtils.java:134-146 | the answer is twice as high, with each old pixel at (x, 2y) and (x, 2y + 1) |
| ImageUtils.HeightenRow | image/src/ImageUtils.java:140-143 | the inner loop writes old row y to new rows 2y and 2y + 1 |
| ImageUtils.Crop | image/src/ImageUtils.java:159-172 | the corner must be inside the image and the block non-empty and ending strictly before the right and bottom edges; the answer is the block |
| ImageUtils.RecolorSquare | image/src/ImageUtils.java:180-241 | the channel swaps allocate a height by width image and write it at (x, y), so the image must be square; the answer is every pixel mapped |
| ImageUtils.SwitchRedGreen | image/src/ImageUtils.java:180-195 | on a square image, every pixel with red and green exchanged |
| ImageUtils.SwitchRedBlue | image/src/ImageUtils.java:203-218 | on a square image, every pixel with red and blue exchanged |
| ImageUtils.SwitchGreenBlue | image/src/ImageUtils.java:226-241 | on a square image, every pixel with green and blue exchanged |
| ImageUtils.GrayscaleAverage | image/src/ImageUtils.java:249-267 | every pixel becomes the grey of its truncated component mean |
| ImageUtils.GrayscaleLightness | image/src/ImageUtils.java:275-296 | every pixel becomes the grey halfway between its largest and smallest component |
| ImageUtils.AverageColor | image/src/ImageUtils.java:334-357 | each component of the answer is the truncated mean of that component over all pixels |
| ImageUtils.SumImage | image/src/ImageUtils.java:341-350 | the nested loops count every pixel and add up each component over the image |
| ImageUtils.SumRow | image/src/ImageUtils.java:342-349 | the inner loop adds one row's components and counts its pixels |
| ImageUtils.TotalStep | image/src/ImageUtils.java:341-350 | the sum over the first y + 1 rows is the sum over the first y rows plus row y |
| ImageUtils.MeanIsComponent | image/src/ImageUtils.java:352-356 | the truncated mean of components is a component, so the final constructor call's assertions hold |
| ImageUtils.AverageOfFilled | image/src/ImageUtils.java:334-357 | the average colour of an image of one colour has that colour's components |
| ImageUtils.ColumnSum | image/src/ImageUtils.java:381-386 | the sums over one column of a 3 by 3 block are each at most 255 per pixel |
| ImageUtils.BlockSum | image/src/ImageUtils.java:380-387 | the sums over a block are each at most 255 per pixel |
| ImageUtils.BlockMean | image/src/ImageUtils.java:377-392 | the colour of a block's truncated means is a 24-bit colour, so the constructor call's assertions hold |
| ImageUtils.Resampled | image/src/ImageUtils.java:368-396 | resampling keeps the size |
| ImageUtils.Resample | image/src/ImageUtils.java:368-396 | the answer has the same size; each centre (x, y) with x and y odd and off the border gets the mean colour of its 3 by 3 block, and every other pixel is BLACK |
| ImageUtils.ResampleRows | image/src/ImageUtils.java:375-394 | the loop over the odd rows turns the all-BLACK new image into the resampled image at every pixel, sampled or not |
| ImageUtils.ResampleRow | image/src/ImageUtils.java:376-393 | the middle loop writes the block means of the sampled pixels of row y and leaves the other pixels BLACK |
| ImageUtils.BlockColor | image/src/ImageUtils.java:377-391 | one pass of the block loops computes the block's mean colour |
| ImageUtils.ColumnTotals | image/src/ImageUtils.java:381-386 | the innermost loop adds up the three components of one column of the block |
| ImageUtils.UnsampledRow | image/src/ImageUtils.java:375 | a row holding no block centre stays BLACK |
| ImageUtils.ResampledFilled | image/src/ImageUtils.java:368-396 | resampling an image of one 24-bit colour gives that colour at every block centre and BLACK elsewhere |
| Grids.TurnCorners | image/src/ImageUtilsSE.java:52-63 | exchanging the two corner blocks keeps the size |
| Grids.TurnCornersTwice | image/src/ImageUtilsSE.java:52-63 | exchanging the corner blocks twice gives the image back |
| Grids.TurnCornersAgreesOnCorners | image/src/ImageUtilsSE.java:52-63 | on the top-left `w / 2` by `h / 2` block and its partner block, the in-place rotateHalf agrees with the copying half turn |
| Grids.FillBlock | image/src/ImageUtilsSE.java:208-217 | painting a block keeps the number of rows and the length of each row |
| Grids.FillBlockTwice | image/src/ImageUtilsSE.java:208-217 | painting the same block twice is painting it once |
| ImageUtilsSE.FlipHorizontal | image/src/ImageUtilsSE.java:14-25 | afterwards the image is its old rows in reverse order |
| ImageUtilsSE.ExchangeRows | image/src/ImageUtilsSE.java:19-23 | one pass of the inner loop swaps row y with row h - 1 - y and nothing else |
| ImageUtilsSE.FlipVirtical | image/src/ImageUtilsSE.java:33-44 | afterwards every row is its old self reversed |
| ImageUtilsSE.MirrorRow | image/src/ImageUtilsSE.java:38-42 | one pass of the inner loop reverses row y and nothing else |
| ImageUtilsSE.RotateHalf | image/src/ImageUtilsSE.java:52-63 | afterwards the top-left and bottom-right corner blocks are exchanged pixel by pixel with their half-turn partners and every other pixel is unchanged |
| ImageUtilsSE.ExchangeCornerRows | image/src/ImageUtilsSE.java:57-61 | one pass of the inner loop exchanges the left half of row y with the reversed right half of row h - 1 - y |
| ImageUtilsSE.CornersExchanged | image/src/ImageUtilsSE.java:56-62 | once all h / 2 rows are done, the image is the corner exchange of the old one |
| ImageUtilsSE.RecolorInPlace | image/src/ImageUtilsSE.java:76-82 | every pixel becomes the given recolouring of its old value |
| ImageUtilsSE.RecolorRow | image/src/ImageUtilsSE.java:77-81 | one pass of the inner loop recolours row y and nothing else |
| ImageUtilsSE.SwitchRedGreen | image/src/ImageUtilsSE.java:71-83 | every pixel has its red and green exchanged |
| ImageUtilsSE.SwitchRedBlue | image/src/ImageUtilsSE.java:91-103 | every pixel has its red and blue exchanged |
| ImageUtilsSE.SwitchGreenBlue | image/src/ImageUtilsSE.java:111-123 | every pixel has its green and blue exchanged |
| ImageUtilsSE.GrayscaleAverageAsWritten | image/src/ImageUtilsSE.java:131-144 | as written, every pixel has its red and blue exchanged |
| ImageUtilsSE.GrayscaleAverageAsWrittenNotGrey | image/src/ImageUtilsSE.java:141 | as written, a pure red pixel comes out pure blue, which is not grey |
| ImageUtilsSE.GrayscaleAverage | image/src/ImageUtilsSE.java:131-144 | every pixel becomes the grey of the truncated mean of its components, so the whole image is grey |
| ImageUtilsSE.GrayscaleLightness | image/src/ImageUtilsSE.java:152-171 | every pixel becomes the grey halfway between its largest and smallest component, so the whole image is grey |
| ImageUtilsSE.AddRectangle | image/src/ImageUtilsSE.java:208-217 | under the asserted bounds, exactly the inclusive block of columns x..x + width and rows y..y + height is painted and every other pixel is unchanged |
| ImageUtilsSE.PaintSpan | image/src/ImageUtilsSE.java:213-215 | one pass of the inner loop paints columns from..to of one row and nothing else |
| ImageUtilsSE.AddCircle | image/src/ImageUtilsSE.java:229-260 | under the asserted bounds, only pixels inside the square of side 2 * radius + 1 around the centre change, and they change to the colour; the centre row and the centre column are painted across the whole diameter |
| ImageUtilsSE.PaintOctantStep | image/src/ImageUtilsSE.java:240-249 | one step of the octant walk paints only inside the square, never unpaints, and paints the four points at distance x and y above and below the centre |
| ImageUtilsSE.PaintMirroredSpans | image/src/ImageUtilsSE.java:240-248 | one of the two inner loops paints columns from..to of rows centerY + dy and centerY - dy and nothing else |
| ImageCoder.KeyChar | image/src/ImageCoder.java:69 | the key character used for a pixel is a non-negative code point taken cyclically from the key |
| ImageCoder.KeyIndexIsRowMajor | image/src/ImageCoder.java:60-83 | the key index counted pixel by pixel is the row times the width plus the column |
| ImageCoder.EncryptChannel | image/src/ImageCoder.java:72-74 | an encrypted channel is always a component 0..255 |
| ImageCoder.DecryptChannel | image/src/ImageCoder.java:136-138 | a decrypted channel, reduced into 0..255, is always a component |
| ImageCoder.ChannelRoundTrip | image/src/ImageCoder.java:72-74 | decrypting a channel with the same previous value and key character gives the plain channel back |
| ImageCoder.EncryptPixel | image/src/ImageCoder.java:64-77 | the encrypted pixel is a 24-bit colour whose three channels are the encrypted channels |
| ImageCoder.EncryptedChannels | image/src/ImageCoder.java:72-76 | the three channels computed in the loop are components and compose to the encrypted pixel |
| ImageCoder.DecryptPixel | image/src/ImageCoder.java:128-140 | the decrypted pixel is a 24-bit colour whose three channels are the decrypted channels |
| ImageCoder.DecryptedChannels | image/src/ImageCoder.java:136-140 | the three channels computed in the loop are components and compose to the decrypted pixel |
| ImageCoder.PixelRoundTrip | image/src/ImageCoder.java:64-77 | a 24-bit pixel survives encryption followed by decryption with the same neighbour and key character |
| ImageCoder.DecryptPixelAsWritten | image/src/ImageCoder.java:136-140 | as written, a pixel that decrypts at all decrypts to a 24-bit colour; a negative channel fails the constructor's assertion |
| ImageCoder.DecryptChannelAsWritten | image/src/ImageCoder.java:136-138 | as written, a decrypted channel lies strictly between -256 and 256 and is either the corrected channel or 256 below it, and it is the corrected channel whenever the dividend is not negative |
| ImageCoder.AsWrittenAgreesWhenDefined | image/src/ImageCoder.java:136-140 | wherever the written decryption does not fail, it gives the corrected pixel |
| ImageCoder.EncryptedAt | image/src/ImageCoder.java:60-83 | the ciphertext of each pixel, chained to the ciphertext before it, is a 24-bit colour |
| ImageCoder.EncryptedBefore | image/src/ImageCoder.java:56-58 | the previous ciphertext starts as BLACK and is always a 24-bit colour |
| ImageCoder.Encrypted | image/src/ImageCoder.java:47-86 | encryption keeps the size of the image |
| ImageCoder.Decrypted | image/src/ImageCoder.java:110-150 | decryption keeps the size of the image |
| ImageCoder.DecryptedAt | image/src/ImageCoder.java:124-148 | each decrypted pixel is a 24-bit colour |
| ImageCoder.EncryptedIsPacked | image/src/ImageCoder.java:47-86 | every pixel of an encrypted image is a 24-bit colour |
| ImageCoder.DecryptUndoesEncrypt | image/src/ImageCoder.java:47-150 | decrypting an image of 24-bit colours with the key that encrypted it restores every pixel |
| ImageCoder.DecryptAsWrittenFails | image/src/ImageCoder.java:136-141 | as written, decrypting the 2 by 1 image of greys 103 and 215 encrypted with key "a" fails on the second pixel, though the corrected decryption restores it |
| ImageCoder.CipherOfPair | image/src/ImageCoder.java:47-86 | greys 103 and 215 encrypted with key "a" become greys 200 and 0 |
| ImageCoder.EncryptedPair | image/src/ImageCoder.java:56-83 | in a two-pixel row, the first pixel is chained to BLACK and the second to the first one's ciphertext |
| ImageCoder.StuckChannel | image/src/ImageCoder.java:136-140 | as written, BLACK after grey 200 with key character 97 gives channel -41 and fails |
| ImageCoder.AllEncrypted | image/src/ImageCoder.java:60-85 | an image holding every pixel's ciphertext is the encrypted image |
| ImageCoder.AllDecrypted | image/src/ImageCoder.java:124-149 | an image holding every pixel's decryption is the decrypted image |
| ImageCoder.Encrypt | image/src/ImageCoder.java:47-86 | afterwards the image is the encryption of its old contents under the key |
| ImageCoder.EncryptRow | image/src/ImageCoder.java:61-84 | one pass of the inner loop encrypts row y, advances the key index by the width and leaves the last ciphertext as the previous value |
| ImageCoder.EncryptPixelAt | image/src/ImageCoder.java:64-81 | one step replaces pixel (x, y) by its ciphertext, answers its channels as the new previous value and changes nothing else |
| ImageCoder.Decrypt | image/src/ImageCoder.java:110-150 | afterwards the image is the decryption, reduced into 0..255, of its old contents under the key |
| ImageCoder.DecryptRow | image/src/ImageCoder.java:125-148 | one pass of the inner loop decrypts row y, advances the key index by the width and leaves the last ciphertext read as the previous value |
| ImageCoder.DecryptPixelAt | image/src/ImageCoder.java:128-145 | one step replaces pixel (x, y) by its decryption, answers the ciphertext channels it read and changes nothing else |
| ImageCoder.ChannelAsWrittenAgrees | image/src/ImageCoder.java:136-138 | a channel that the written decryption leaves non-negative equals the corrected channel |
| Arithmetic.JavaRem | image/src/ImageCoder.java:136-138 | Java's remainder by a positive divisor agrees with the Euclidean one on non-negative dividends and takes the sign of a negative dividend, with magnitude below the divisor |
| Arithmetic.JavaDiv | time-system/src/main/java/com/mithe/TimeStamp.java:204-206 | Java's quotient by a positive divisor truncates toward zero and pairs with Java's remainder to give back the dividend |
| Arithmetic.SameRemainder | image/src/ImageCoder.java:136-138 | where Java's remainder is not negative it equals the Euclidean remainder |
| Arithmetic.JavaRemCongruent | image/src/ImageCoder.java:136-138 | Java's remainder equals the Euclidean one, or lies one divisor below it for a negative dividend |
| TimeStamps.IsValid | time-system/src/main/java/com/mithe/TimeStamp.java:147-151 | a time is valid exactly when it meets the upper bounds the constructors assert and no field is negative, and a valid time is one of the 86400 seconds of a day |
| Decimal.NatToString | time-system/src/main/java/com/mithe/TimeStamp.java:230 | the digits of a natural number are non-empty, all digits, one long exactly below 10 and two long from 10 to 99 |
| Decimal.IntToString | time-system/src/main/java/com/mithe/TimeStamp.java:230 | Integer.toString starts with a minus sign exactly for negative numbers |
| Decimal.ParseNatToString | time-system/src/main/java/com/mithe/TimeStamp.java:230 | reading back the digits of a natural number gives the number |
| Decimal.ParseIntToString | time-system/src/main/java/com/mithe/TimeStamp.java:230 | reading back Integer.toString(n) gives n |
| Decimal.Padded | time-system/src/main/java/com/mithe/TimeStamp.java:227-241 | for 0..99 the padded text is two digits that read back as the value |
| TimeStamps.SecondOfDayIsOneToOne | time-system/src/main/java/com/mithe/TimeStamp.java:147-151 | a time that passes valid is one of the 86400 seconds of a day, and no two valid times share a second |
| TimeStamps.NextHour | time-system/src/main/java/com/mithe/TimeStamp.java:156-162 | skipping an hour keeps minutes and seconds, and on a valid time gives the valid time one hour later modulo a day |
| TimeStamps.NextMinute | time-system/src/main/java/com/mithe/TimeStamp.java:167-174 | skipping a minute keeps the seconds, and on a valid time gives the valid time one minute later modulo a day |
| TimeStamps.NextSecond | time-system/src/main/java/com/mithe/TimeStamp.java:179-186 | skipping a second on a valid time gives the valid time one second later modulo a day |
| TimeStamps.AddClockCounts | time-system/src/main/java/com/mithe/TimeStamp.java:194-207 | adding two valid times gives a valid time whose second of the day is the sum of theirs modulo a day |
| TimeStamps.AddClockExample | time-system/src/main/java/com/mithe/TimeStamp.java:194-207 | 10:30:45 plus 5:45:30 is 16:16:15 |
| TimeStamps.ClockString | time-system/src/main/java/com/mithe/TimeStamp.java:224-244 | the text of a valid time is eight characters with colons at positions 2 and 5 |
| TimeStamps.ParseClockString | time-system/src/main/java/com/mithe/TimeStamp.java:224-244 | the text of a valid time reads back as that time |
| TimeStamps.ClockStringExample | time-system/src/main/java/com/mithe/TimeStamp.java:224-244 | 9:05:03 is written "09:05:03" |
| TimeStamps.TimeStamp.constructor | time-system/src/main/java/com/mithe/TimeStamp.java:69-77 | under the asserted upper bounds, the fields are the given hours, minutes and seconds |
| TimeStamps.TimeStamp.Midnight | time-system/src/main/java/com/mithe/TimeStamp.java:27-29 | the no-argument constructor gives 00:00:00 |
| TimeStamps.TimeStamp.OfHours | time-system/src/main/java/com/mithe/TimeStamp.java:37-43 | the one-argument constructor sets the hours and zeroes minutes and seconds |
| TimeStamps.TimeStamp.OfHoursMinutes | time-system/src/main/java/com/mithe/TimeStamp.java:52-59 | the two-argument constructor sets hours and minutes and zeroes the seconds |
| TimeStamps.TimeStamp.SetHours | time-system/src/main/java/com/mithe/TimeStamp.java:85-88 | under the asserted bound, only the hours change |
| TimeStamps.TimeStamp.SetMinutes | time-system/src/main/java/com/mithe/TimeStamp.java:96-99 | under the asserted bound, only the minutes change |
| TimeStamps.TimeStamp.SetSeconds | time-system/src/main/java/com/mithe/TimeStamp.java:107-110 | under the asserted bound, only the seconds change |
| TimeStamps.TimeStamp.SkipHour | time-system/src/main/java/com/mithe/TimeStamp.java:156-162 | the new time is the old one with the hour skipped, and the upper bounds still hold |
| TimeStamps.TimeStamp.SkipMinute | time-system/src/main/java/com/mithe/TimeStamp.java:167-174 | the new time is the old one with the minute skipped, carrying into the hour |
| TimeStamps.TimeStamp.SkipSecond | time-system/src/main/java/com/mithe/TimeStamp.java:179-186 | the new time is the old one with the second skipped, carrying into minute and hour |
| TimeStamps.TimeStamp.SkipTime | time-system/src/main/java/com/mithe/TimeStamp.java:194-207 | the new time is the normalised field sum of the old time and the argument, even when the argument is this very object |
| TimeStamps.TimeStamp.Clone | time-system/src/main/java/com/mithe/TimeStamp.java:214-216 | the clone is a new object with the same fields |
| TimeStamps.TimeStamp.ToString | time-system/src/main/java/com/mithe/TimeStamp.java:224-244 | the text of a valid time stamp is eight characters and reads back as its time |
| Dates.IsLeapYear | time-system/src/main/java/com/mithe/Date.java:298-301 | a leap year is divisible by 4; a year not divisible by 100 is leap exactly when divisible by 4, and a century year exactly when divisible by 400 |
| Dates.DaysInMonth | time-system/src/main/java/com/mithe/Date.java:273-290 | every month has 28 to 31 days, and February has 29 exactly in a leap year |
| Dates.ValidDate | time-system/src/main/java/com/mithe/Date.java:255-261 | days 1 to 28 are valid in every month and days past 31 in none; the 29th of February is valid exactly in a leap year; the 30th is valid in every month but February, and the 31st exactly in January, March, May, July, August, October and December |
| Dates.LeapDayNotClamped | time-system/src/main/java/com/mithe/Date.java:98-100 | skipYear turns 2024-02-29, a calendar date, into 2025-02-29, which is not one |
| Dates.NextMonth | time-system/src/main/java/com/mithe/Date.java:82-93 | skipMonth advances the month count by exactly one, keeps the time, and leaves a calendar date whose day is the old one or, when that is past the end of the new month, its last day |
| Dates.NextDay | time-system/src/main/java/com/mithe/Date.java:63-73 | skipDay keeps the time, a month in 1..12 and a positive day |
| Dates.YearsFollow | time-system/src/main/java/com/mithe/Date.java:298-301 | each year starts one year length after the one before it |
| Dates.MonthsFillYear | time-system/src/main/java/com/mithe/Date.java:273-290 | the twelve month lengths add up to 366 in a leap year and 365 otherwise |
| Dates.NextDayCounts | time-system/src/main/java/com/mithe/Date.java:63-93 | skipDay moves a calendar date to the calendar date whose day number is one higher, across month and year ends |
| Dates.DateNextHourCounts | time-system/src/main/java/com/mithe/Date.java:105-111 | the overriding skipHour moves a complete date and time exactly one hour on, across day, month and year ends |
| Dates.DateNextMinuteCounts | time-system/src/main/java/com/mithe/TimeStamp.java:167-174 | the inherited skipMinute, reaching the overriding skipHour, moves a complete date and time exactly one minute on |
| Dates.DateNextSecondCounts | time-system/src/main/java/com/mithe/TimeStamp.java:179-186 | the inherited skipSecond moves a complete date and time exactly one second on |
| Dates.SkipTimeSums | time-system/src/main/java/com/mithe/Date.java:133-146 | as written, the second normalising test reads the seconds, which are already below 60 |
| Dates.SkipTimeAsWritten | time-system/src/main/java/com/mithe/Date.java:129-158 | as written, when setMinutes throws the minutes and seconds keep their old values though the day may have moved and the hours are set; a clock within the asserted bounds stays within them |
| Dates.SkipTimeCorrected | time-system/src/main/java/com/mithe/Date.java:129-158 | the corrected skipTime always leaves a month in 1..12 and a clock within the asserted bounds, so none of the setters can throw |
| Dates.SkipTimeCorrectedCounts | time-system/src/main/java/com/mithe/Date.java:129-158 | the corrected skipTime moves a complete date and time on by exactly the valid time added |
| Dates.AsWrittenAgreesUnlessFails | time-system/src/main/java/com/mithe/Date.java:129-158 | wherever skipTime as written does not throw, it agrees with the corrected version |
| Dates.SkipTimeAsWrittenFails | time-system/src/main/java/com/mithe/Date.java:143-156 | 00:30:00 plus 00:30:00 reaches minute 60, which setMinutes rejects as written, while the corrected version gives 01:00:00 |
| Dates.DateString | time-system/src/main/java/com/mithe/Date.java:235-245 | the text of a complete date is more than fifteen characters with a space nine from the end |
| Dates.ParseDateStringInverse | time-system/src/main/java/com/mithe/Date.java:235-245 | the text of a complete date reads back as that date |
| Dates.DateTailParts | time-system/src/main/java/com/mithe/Date.java:238-244 | after the year come a dash, two month digits, a dash, two day digits, a space and the eight-character time |
| Dates.Date.constructor | time-system/src/main/java/com/mithe/Date.java:29-36 | under the asserted calendar check, the date is the given one at midnight |
| Dates.Date.WithTime | time-system/src/main/java/com/mithe/Date.java:51-58 | under the asserted bounds and calendar check, the date and time are the given ones |
| Dates.Date.SkipDay | time-system/src/main/java/com/mithe/Date.java:63-73 | the new value is the old one with the day skipped, and the date stays well formed |
| Dates.Date.SkipMonth | time-system/src/main/java/com/mithe/Date.java:82-93 | the new value is the old one with the month skipped and the day clamped |
| Dates.Date.SkipYear | time-system/src/main/java/com/mithe/Date.java:98-100 | only the year goes up by one |
| Dates.Date.SkipHour | time-system/src/main/java/com/mithe/Date.java:105-111 | the time stamp's skipHour runs, and the day is skipped when the hour has become 0 |
| Dates.Date.SkipMinute | time-system/src/main/java/com/mithe/TimeStamp.java:167-174 | the inherited skipMinute, whose carry runs the overriding skipHour |
| Dates.Date.SkipSecond | time-system/src/main/java/com/mithe/TimeStamp.java:179-186 | the inherited skipSecond, whose carries reach the overriding skipHour |
| Dates.Date.SkipTime | time-system/src/main/java/com/mithe/Date.java:129-158 | the new value is what skipTime as written leaves, and the call fails with an assertion error exactly when the minute sum reaches 60 |
| Dates.Date.SetYear | time-system/src/main/java/com/mithe/Date.java:165-167 | only the year changes, with no check |
| Dates.Date.SetMonth | time-system/src/main/java/com/mithe/Date.java:176-179 | under the asserted calendar check, only the month changes |
| Dates.Date.SetDay | time-system/src/main/java/com/mithe/Date.java:188-191 | under the asserted calendar check, only the day changes |
| Dates.Date.Clone | time-system/src/main/java/com/mithe/Date.java:225-227 | as written, the clone is a new date with the same year and month, the month as its day, at midnight |
| Dates.Date.ToString | time-system/src/main/java/com/mithe/Date.java:235-245 | the text of a complete date reads back as that date and time |
| SearchTrees.Insert | mini-collections/src/main/java/com/mithe/miniCollections/concrete/BinaryTree.java:26-52 | adding a key gives a non-empty tree whose keys are the old keys plus one more occurrence of the new one |
| SearchTrees.InsertKeepsOrder | mini-collections/src/main/java/com/mithe/miniCollections/concrete/BinaryTree.java:34-48 | adding a key keeps search-tree order, with keys not below a node on its right |
| SearchTrees.Contains | mini-collections/src/main/java/com/mithe/miniCollections/BinaryTree.java:182-196 | in a search tree, the recursive lookup finds exactly the stored keys |
| SearchTrees.InsertThenContains | mini-collections/src/main/java/com/mithe/miniCollections/BinaryTree.java:72-98 | after add(e) the tree contains e and every key it contained before |
| SearchTrees.PlugSnoc | mini-collections/src/main/java/com/mithe/miniCollections/concrete/BinaryTree.java:31-39 | one more step down the walk puts the slot's contents back one level deeper |
| SearchTrees.PlugKeys | mini-collections/src/main/java/com/mithe/miniCollections/concrete/BinaryTree.java:40-48 | refilling the slot a walk ends in exchanges the keys of the old subtree for those of the new one |
| SearchTrees.InsertionPath | mini-collections/src/main/java/com/mithe/miniCollections/concrete/BinaryTree.java:29-39 | the walk of add ends at a null child of the tree, and hanging a new node with key e there is exactly the added tree |
| SearchTrees.Children | mini-collections/src/main/java/com/mithe/miniCollections/concrete/BinaryTree.java:128-129 | height enqueues only non-null children |
| SearchTrees.NextLevel | mini-collections/src/main/java/com/mithe/miniCollections/concrete/BinaryTree.java:127-130 | the next level holds only nodes |
| SearchTrees.MaxDepthAppend | mini-collections/src/main/java/com/mithe/miniCollections/concrete/BinaryTree.java:119-132 | the deepest tree of two levels joined is the deeper of their deepest |
| SearchTrees.NextLevelSnoc | mini-collections/src/main/java/com/mithe/miniCollections/concrete/BinaryTree.java:127-130 | visiting one more node appends its children to the next level |
| SearchTrees.NextLevelDepth | mini-collections/src/main/java/com/mithe/miniCollections/concrete/BinaryTree.java:119-132 | a non-empty level is exactly one deeper than the level of its children |
| SearchTrees.LevelOrderHeight | mini-collections/src/main/java/com/mithe/miniCollections/concrete/BinaryTree.java:107-136 | the level-order count is 0 for an empty tree and otherwise one less than the number of levels, so 0 for one node and the edges on a longest path |
| SearchTrees.LevelStart | mini-collections/src/main/java/com/mithe/miniCollections/concrete/BinaryTree.java:115-116 | a level starts with its nodes followed by the null marker |
| SearchTrees.LevelVisit | mini-collections/src/main/java/com/mithe/miniCollections/concrete/BinaryTree.java:127-131 | mid-level, the next node is at the front of the queue and enqueueing its children visits it |
| SearchTrees.LevelEnd | mini-collections/src/main/java/com/mithe/miniCollections/concrete/BinaryTree.java:120-126 | once a level is visited, the null marker is at the front and the next level follows it |
| SearchTrees.LeftmostIsLeast | mini-collections/src/main/java/com/mithe/miniCollections/concrete/BinaryTree.java:180-187 | the leftmost key is stored in the tree and, in a search tree, is the least key |
| SearchTrees.TreeMinimum | mini-collections/src/main/java/com/mithe/miniCollections/concrete/BinaryTree.java:180-187 | the node reached has no left child, and its key is stored in the subtree and, in a search tree, is its least key |
| SearchTrees.PreOrder | mini-collections/src/main/java/com/mithe/miniCollections/concrete/BinaryTree.java:228-261 | a non-empty tree has a non-empty pre-order |
| SearchTrees.PreOrderKeys | mini-collections/src/main/java/com/mithe/miniCollections/concrete/BinaryTree.java:228-261 | the pre-order lists every stored key exactly as often as it is stored |
| Concrete.BinaryTree.constructor | mini-collections/src/main/java/com/mithe/miniCollections/concrete/BinaryTree.java:11-14 | a new tree is empty, with count 0 |
| Concrete.BinaryTree.Add | mini-collections/src/main/java/com/mithe/miniCollections/concrete/BinaryTree.java:26-52 | add answers true, the tree becomes the added tree, the count goes up by one and search-tree order is kept |
| Concrete.BinaryTree.Clear | mini-collections/src/main/java/com/mithe/miniCollections/concrete/BinaryTree.java:101-105 | the root becomes null and the count 0 |
| Concrete.BinaryTree.Height | mini-collections/src/main/java/com/mithe/miniCollections/concrete/BinaryTree.java:107-136 | the height is 0 for an empty tree and otherwise the edges on a longest path from the root |
| Concrete.BinaryTree.Transplant | mini-collections/src/main/java/com/mithe/miniCollections/concrete/BinaryTree.java:150-158 | the subtree u is replaced by v where it hangs, or as the root, and the keys change by exactly those of u and v |
| Concrete.BinaryTree.IteratorPreOrder | mini-collections/src/main/java/com/mithe/miniCollections/concrete/BinaryTree.java:138-140 | a new pre-order iterator has the whole tree's pre-order still to come |
| Concrete.PendingEmpty | mini-collections/src/main/java/com/mithe/miniCollections/concrete/BinaryTree.java:257-260 | a stack of nodes has keys pending exactly when it is not empty |
| Concrete.PendingSnoc | mini-collections/src/main/java/com/mithe/miniCollections/concrete/BinaryTree.java:247-252 | pushing a subtree puts its pre-order before everything pending |
| Concrete.PushNodePending | mini-collections/src/main/java/com/mithe/miniCollections/concrete/BinaryTree.java:247-252 | pushing a child only when it is not null adds its pre-order in front |
| Concrete.PoppedPending | mini-collections/src/main/java/com/mithe/miniCollections/concrete/BinaryTree.java:246-254 | popping a node and pushing its right then its left child hands out the node's key and keeps the rest of the pre-order |
| Concrete.PreOrderIterator.constructor | mini-collections/src/main/java/com/mithe/miniCollections/concrete/BinaryTree.java:233-238 | the stack starts with the root when there is one, so the whole pre-order is still to come |
| Concrete.PreOrderIterator.HasNext | mini-collections/src/main/java/com/mithe/miniCollections/concrete/BinaryTree.java:257-260 | there is a next element exactly when keys remain |
| Concrete.PreOrderIterator.Next | mini-collections/src/main/java/com/mithe/miniCollections/concrete/BinaryTree.java:240-255 | on an exhausted iterator, NoSuchElementException and no change; otherwise the first remaining key, which leaves the iterator |
| Concrete.FirstIndex | mini-collections/src/main/java/com/mithe/miniCollections/concrete/SinglyLinkedList.java:78-91 | the first position holding x: x is there and not before it |
| Concrete.FirstIndexAt | mini-collections/src/main/java/com/mithe/miniCollections/concrete/SinglyLinkedList.java:78-91 | a position holding x with no x before it is the first position |
| Concrete.Without | mini-collections/src/main/java/com/mithe/miniCollections/concrete/SinglyLinkedList.java:83 | dropping position k keeps every element before k and shifts every later one down by one |
| Concrete.SinglyLinkedList.NextLink | mini-collections/src/main/java/com/mithe/miniCollections/concrete/SinglyLinkedList.java:63-64 | the next link of each reachable node is the following node, or null after the last |
| Concrete.ListNode.constructor | mini-collections/src/main/java/com/mithe/miniCollections/concrete/SinglyLinkedList.java:13-21 | a new node holds its data and has no next node |
| Concrete.SinglyLinkedList.constructor | mini-collections/src/main/java/com/mithe/miniCollections/concrete/SinglyLinkedList.java:8-11 | a new list is empty, with count 0 |
| Concrete.SinglyLinkedList.Add | mini-collections/src/main/java/com/mithe/miniCollections/concrete/SinglyLinkedList.java:55-71 | add answers true, appends e at the tail and increments the count |
| Concrete.SinglyLinkedList.LastNode | mini-collections/src/main/java/com/mithe/miniCollections/concrete/SinglyLinkedList.java:63-65 | the walk of add stops at the last reachable node, whose next is null |
| Concrete.SinglyLinkedList.LinkLast | mini-collections/src/main/java/com/mithe/miniCollections/concrete/SinglyLinkedList.java:66 | linking a node from outside the list after the last reachable node extends the chain by that node and its data, with every earlier link kept |
| Concrete.SinglyLinkedList.Remove | mini-collections/src/main/java/com/mithe/miniCollections/concrete/SinglyLinkedList.java:73-95 | remove answers whether o was reachable; if not nothing changes; if so the count drops by one and either the first match is unlinked or, when it is the head, every node is dropped |
| Concrete.SinglyLinkedList.FindFirst | mini-collections/src/main/java/com/mithe/miniCollections/concrete/SinglyLinkedList.java:77-92 | the search loop finds o exactly when it is reachable, stops at its first occurrence and keeps its predecessor |
| Concrete.SinglyLinkedList.Unlink | mini-collections/src/main/java/com/mithe/miniCollections/concrete/SinglyLinkedList.java:83 | linking the predecessor past the k-th node removes exactly that node and its data |
| Concrete.SinglyLinkedList.Bypass | mini-collections/src/main/java/com/mithe/miniCollections/concrete/SinglyLinkedList.java:83 | after the predecessor of the k-th node is pointed past it, following next from the head visits every other node in order, each once |
| Concrete.SinglyLinkedList.Get | mini-collections/src/main/java/com/mithe/miniCollections/concrete/SinglyLinkedList.java:97-111 | IndexOutOfBoundsException when the index is not below the count; otherwise the element that many steps from the head, or a NullPointerException when the walk runs off the nodes |
| Concrete.SinglyLinkedList.Clear | mini-collections/src/main/java/com/mithe/miniCollections/concrete/SinglyLinkedList.java:118-122 | the head becomes null and the count 0 |
| Concrete.MStack.constructor | mini-collections/src/main/java/com/mithe/miniCollections/concrete/MStack.java:5-6 | a new stack has an empty list with count 0 |
| Concrete.MStack.Push | mini-collections/src/main/java/com/mithe/miniCollections/concrete/MStack.java:8-10 | push appends e at the tail of the list and increments the count |
| Concrete.MStack.Peek | mini-collections/src/main/java/com/mithe/miniCollections/concrete/MStack.java:12-18 | NoSuchElementException on a count of 0; otherwise get(0), the earliest element pushed, with nothing changed |
| Concrete.MStack.Pop | mini-collections/src/main/java/com/mithe/miniCollections/concrete/MStack.java:20-29 | as peek, and on success the element read is removed: it is the head, so the list drops every node and the count drops by one |
| MiniCollections.BinaryTree.constructor | mini-collections/src/main/java/com/mithe/miniCollections/BinaryTree.java:15-16 | a new tree is empty, with count 0 |
| MiniCollections.BinaryTree.Add | mini-collections/src/main/java/com/mithe/miniCollections/BinaryTree.java:72-98 | add answers true, the tree becomes the added tree containing e, the count goes up by one and search-tree order is kept |
| MiniCollections.BinaryTree.IsEmpty | mini-collections/src/main/java/com/mithe/miniCollections/BinaryTree.java:121-124 | isEmpty holds exactly when the root is null, which for a valid tree is a count of 0 |
| MiniCollections.BinaryTree.Clear | mini-collections/src/main/java/com/mithe/miniCollections/BinaryTree.java:131-135 | the root becomes null and the count 0 |
| MiniCollections.BinaryTree.Contains | mini-collections/src/main/java/com/mithe/miniCollections/BinaryTree.java:137-140 | contains answers whether e is stored |
| MiniCollections.BinaryTree.Height | mini-collections/src/main/java/com/mithe/miniCollections/BinaryTree.java:142-171 | the same level count as the concrete tree: 0 for an empty tree, otherwise the edges on a longest path |
| MiniCollections.BinaryTree.ContainsIteratively | mini-collections/src/main/java/com/mithe/miniCollections/BinaryTree.java:198-213 | the iterative lookup always agrees with the recursive one |
| MiniCollections.MNode.constructor | mini-collections/src/main/java/com/mithe/miniCollections/MLinkedList.java:15-24 | a new node holds its data and has no neighbours |
| MiniCollections.MLinkedList.constructor | mini-collections/src/main/java/com/mithe/miniCollections/MLinkedList.java:8-13 | a new list is empty, with count 0 |
| MiniCollections.MLinkedList.Add | mini-collections/src/main/java/com/mithe/miniCollections/MLinkedList.java:73-88 | add answers true, puts e in front of the head and increments the count |
| MiniCollections.MLinkedList.Remove | mini-collections/src/main/java/com/mithe/miniCollections/MLinkedList.java:90-106 | NoSuchElementException on an empty list; otherwise the head's data, with the rest of the list kept in order and the count down by one |
| MiniCollections.MLinkedList.RemoveObject | mini-collections/src/main/java/com/mithe/miniCollections/MLinkedList.java:108-121 | remove(o) answers whether o is reachable and changes nothing |
| MiniCollections.MLinkedList.IsEmpty | mini-collections/src/main/java/com/mithe/miniCollections/MLinkedList.java:123-126 | isEmpty holds exactly when the list is empty |
| MiniCollections.MLinkedList.Clear | mini-collections/src/main/java/com/mithe/miniCollections/MLinkedList.java:133-138 | the count becomes 0 and head and tail null |
| MiniCollections.MLinkedList.Element | mini-collections/src/main/java/com/mithe/miniCollections/MLinkedList.java:140-143 | the head's data without change, or a NullPointerException on an empty list |

## Left out

- Console and window output is left out because it is I/O: `printBoard`, `Board.print`, the `GameApp` loop, the Swing image viewer and image file loading.
- `grayscaleLuminosity` is left out in both `ImageUtils` and `ImageUtilsSE` because it computes a weighted sum in floating point.
- Path costs and heuristic values are `int` rather than `double`, because floating-point rounding is not modelled. Each cost function in the problem datatype gives an integer.
- Java's 32-bit `int` overflow is written out only in the tic-tac-toe board hash code, through `TicTacToeGame.Int32`. Clock fields, array indices and the sums over one pixel's components or over a 3 by 3 block stay far below 2^31. The image-wide sums of `averageColor` need not; see the next line.
- `ImageUtils.AverageColor` sums each component over all pixels in an unbounded integer. The Java method sums in `int`, which wraps once a total passes 2,147,483,647. An image of more than 8,421,504 pixels of component 255 gets there (8,421,504 × 255 = 2,147,483,520), and Java then averages a wrapped, possibly negative sum. The model does not capture that wrap-around.
- `Colors.Color` holds the packed value `rgb` as an unbounded `int`. `new Color(int)` stores any value as given, and only `Colors.Red`, `Colors.Green` and `Colors.Blue` mask it. Java keeps `rgb` in a 32-bit `int`, so a value outside that range has no Java counterpart. For every 32-bit value the three components agree with Java's `>>` and `& 0xff`.
- Elements compared with `compareTo` are `int`. Generic `Comparable` keys with a user-defined order are not modelled.
- The binary search trees are tree values inside their classes. The `parent` links of the Java nodes are therefore not modelled, and `Concrete.BinaryTree.Add` and `MiniCollections.BinaryTree.Add` do not update a parent field.
- The `concrete` BinaryTree's `remove`, `treeRemove` and `contains` are left out, and so are its in-order and post-order iterators, because as written they are defective with no contract to state. `treeRemove` reuses the node's `parrent` field as a temporary. `contains` descends toward the wrong child. The in-order iterator pushes left children instead of nodes, and `next` throws while elements remain. The pre-order iterator, `transplant` and `treeMinimum` are modelled.
- The older BinaryTree's `remove` and `treeRemove` are left out, and so are its `iteratorPreOrder`, `iteratorInOrder` and `iteratorPostOrder` stubs and its `BinaryTreeIterator`. The stubs have empty bodies with no return and do not compile. `treeRemove` repeats the parent-link defect of the `concrete` tree.
- `TreeSet`, `MSet`, the older `SinglyLinkedList` and `MStack`, the `get` loops of `MAbstractList`, the collection interfaces and `Sortings.java` lie outside the modelled packages. So does the geometry exercise.
- The MLinkedList iterator and the getters that only return a field are left out. Null elements are left out too, because the data fields of the nodes are not nullable here.
- `BestFirst.BestFirstSearch.SearchFrom`, `BestFirst.BestFirstSearch.Search`, `IterativeDeepening.DepthLimitedSearch`, `IterativeDeepening.SearchFrom` and `IterativeDeepening.Search` take bounds that the source does not have. Each loop round spends one unit of `fuel`, and iterative deepening tries at most `rounds` depth bounds. A best-first search that reports `OutOfFuel` has spent all `fuel` rounds and still holds nodes. Its answer, expanded nodes and round count are those of the reference run `BestFirst.Rounds`, and by `BestFirst.MoreFuelSameRun` more fuel never changes a run that ended within its fuel. A depth-limited pass returns what `IterativeDeepening.DepthLimited` computes, which is `OutOfFuel` only when `fuel` rounds pass with nodes still on the stack. By `IterativeDeepening.MoreFuelSamePass`, more fuel never changes a pass that ended within its fuel. A search that the source would run forever is therefore not modelled.
- `ImageCoder.KeyChar`, `ImageCoder.Encrypt` and `ImageCoder.Decrypt` require a non-empty key. The Java code computes `keyIndex % key.length()`, so an empty key throws `ArithmeticException` at the first pixel. That error path is not modelled. The key is also a sequence of Unicode scalar values (Dafny `char`), while Java's `length()` and `charAt` count UTF-16 code units. A key with a character outside the Basic Multilingual Plane therefore differs: "a😀" has length 2 here and 3 in Java, where the emoji's two surrogate halves act as two key characters. Keys made only of Basic Multilingual Plane characters behave the same.
- `Concrete.PreOrderIterator` holds a stack of tree values, a snapshot of the subtrees still to visit. The Java iterator holds references to live nodes and would see later changes to nodes it has not yet visited. That aliasing is not modelled.
- `Frontiers.Frontier.Remove`: for the priority-queue discipline, it removes the first node of least priority in insertion order. `java.util.PriorityQueue` breaks ties in an unspecified order.
- `MergeSort.Sort` states sortedness and permutation. Stability is stated only for one merge step, by `MergeSort.MergeTakesLeftOnTies`.
- `ImageUtilsSE.AddCircle` is stated more weakly than the midpoint-circle drawing. It states only that every painted pixel lies in the square around the centre and that the centre row and column are painted. It does not state the exact set of pixels.
- `Dates.Date.SkipTime` follows the source as written, including the second normalisation that tests the seconds instead of the minutes (see Findings). The corrected behaviour is `Dates.SkipTimeCorrected`.
- `Dates.Date.Clone` follows the source as written and does not copy the day or the time.
- `Colors.Compose`, `Images.Image.constructor`, `Images.Image.WithBackground`, `Images.Image.Pixel`, `Images.Image.SetPixel`, `ImageUtils.Crop`, `ImageUtilsSE.AddRectangle` and `ImageUtilsSE.AddCircle` take the Java `assert` conditions as preconditions. These are the component range, positive sizes, in-bounds coordinates, and crop, rectangle and circle areas inside the image. The `AssertionError` path is not modelled.
- `TimeStamps.TimeStamp.constructor`, `TimeStamps.TimeStamp.OfHours`, `TimeStamps.TimeStamp.OfHoursMinutes`, `TimeStamps.TimeStamp.SetHours`, `TimeStamps.TimeStamp.SetMinutes` and `TimeStamps.TimeStamp.SetSeconds` take the Java `assert` bounds (hours below 24, minutes and seconds below 60) as preconditions. The `AssertionError` path is not modelled.
- `Dates.Date.constructor`, `Dates.Date.WithTime`, `Dates.Date.SetMonth` and `Dates.Date.SetDay` take the Java `assert` calendar and time checks as preconditions. The `AssertionError` path is not modelled.

## Findings

| source | as written | input that shows it | evidently intended | confidence | as-written member | corrected member |
|---|---|---|---|---|---|---|
| image/src/ImageCoder.java:136-141 | each channel is decrypted as `(c - prev - key + 256) % 256` with Java's remainder. The result is negative when `c - prev - key < -256`, and with assertions enabled, as the repository's tests assume, `new Color` then rejects it. Without assertions, `Color` masks the value with `& 0x0ff`, which turns -41 into 215, the correct channel; `ImageCoder.DecryptChannelAsWritten` states that the written channel is the correct one or 256 below it | a 2 by 1 image of greys 103 and 215 encrypted with key "a": the second pixel decrypts to -41 | the channel is reduced into 0..255, so that decryption undoes encryption | not executed | ImageCoder.DecryptAsWrittenFails | ImageCoder.DecryptUndoesEncrypt |
| image/src/ImageUtilsSE.java:141 | `grayscaleAverage` writes `new Color(blue, green, red)`, which only exchanges red and blue | pure red (255, 0, 0) becomes pure blue (0, 0, 255) | every pixel becomes the grey of the mean of its components, as the copying `ImageUtils.grayscaleAverage` does | not executed | ImageUtilsSE.GrayscaleAverageAsWrittenNotGrey | ImageUtilsSE.GrayscaleAverage |
| time-system/src/main/java/com/mithe/Date.java:143-147 | the second carry tests `newSeconds >= 60` again, so minutes of 60 or more are never carried into the hours | 00:30:00 skipped by 00:30:00 reaches minute 60, and `setMinutes` rejects it | minutes of 60 or more are carried into the hours | not executed | Dates.SkipTimeAsWrittenFails | Dates.SkipTimeCorrectedCounts |
