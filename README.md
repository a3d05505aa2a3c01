# MCTS move picker, modelled in Dafny

This project models the engine of a Monte Carlo Tree Search move picker for
ultimate tic-tac-toe. The engine exists in two near-identical variants:

- `src/mcts_vanilla.py` plays its playouts at random;
- `src/mcts_modified.py` plays its playouts heuristic-first.

Both variants share one model. The `Policy` parameter of the driver picks the
rollout.

Each of `think`'s iterations does these steps:

1. It descends from the root (`traverse_nodes`). At each node it takes the
   first child with the strictly largest UCB value. The mover's identity
   flips between 1 and 2 after every step.
2. It expands the node it reached (`expand_leaf`). The first untried action
   becomes a new child.
3. It plays the new state out to the end of the game (`rollout`), at random
   or heuristic-first.
4. It folds the result back to the root (`backpropagate`). Every node on the
   path gains a visit, and every node except the root gains the win.

After the budget is spent, `get_best_action` reports a root action. Its
acceptance rule is unusual: a child replaces the best so far only when BOTH
its win rate and its visit count are strictly greater.

The modules follow the program's structure:

- `Games` (games.dfy) is the board as an interface.
  - `Game` is a datatype of function-valued fields: legal actions, next state,
    ended, current player, points, owned sub-boards, and a rank that legal
    moves decrease.
  - `ValidGame` states what the engine assumes of the board: no legal actions
    exactly when the game has ended, no duplicate actions, players 1 and 2,
    and points exactly when the game has ended.
- `Selection` (selection.dfy) holds the two child scans as functions.
  - `FirstArgmax` is the descent's first strict maximum.
  - `Flip` gives the mover's alternation.
  - `Scan` and `BestIndex` are the final choice's acceptance rule.
- `Arena` (arena.dfy) holds the tree's nodes as values, with the lemmas about
  them.
  - The tree is an arena: a sequence of node records. A node names its
    parent by index, and the children are a sequence of (action, index)
    pairs in the insertion order of the source's child dictionary.
  - `WellFormed` is the tree invariant. It links parents and children and
    ties every node to its game state. Each node's expanded actions followed
    by its untried actions are exactly the legal actions of its state.
  - `Counters` states that counters are non-negative, that `wins <= visits`
    below the root, and that the root has no wins.
  - `Settled` states that every non-root node has a visit.
  - `VisitsBelowParent` states that no node has more visits than its parent.
  - `Descend`, `Credited` and `Expanded` are the specification functions the
    tree's methods are proved against.
- `Tree` (tree.dfy) has the class `SearchTree`.
  - Its fields are the arena `nodes` and, as ghost state, each node's game
    `states`.
  - `ExpandLeaf` and `Backpropagate` update the arena in place.
  - `SelectChild`, `Traverse` and `GetBestAction` are the source's loops, with
    their invariants.
- `Rollout` (rollout.dfy) has the sub-board capture heuristic, the two
  playouts (as loops and as move-sequence functions), and `IsWin`.
- `Search` (search.dfy) is the driver: the two halves of an iteration
  (descend and expand; play out and credit), one iteration, the budgeted
  loop, and `Think`.
  - `IterationStep` relates the nodes before and after one iteration, given
    the iteration's random stream.
  - `Traced` states that a sequence of node sequences is a run of the loop:
    each consecutive pair is related by one iteration, iteration `k` using
    the stream `rng(k)`.

The source's calls and globals that the model replaces:

- `random.choice` is drawn from an injected stream `rand: nat -> nat`. Step
  `k` of a playout (the source's `starter` counter) plays the legal move at
  index `rand(k) % |moves|`.
- `Think` takes one such stream per iteration (`rng`). It takes the
  iteration budget and the score as parameters, in place of the module-level
  globals.
- `ucb` is an abstract `Score` of (parent visits, wins, visits, isOpponent).
  The root's value of -1 is modelled. Of the score, `AboveSentinel` assumes
  only what the real formula gives: on a visited node with at most as many
  wins as visits and a parent visited at least as often, the score lies above
  the scans' starting value of -1000000000.

Three behaviours of the code that the model keeps as written:

- `child_nodes` is iterated in insertion order, and both scans break ties by
  that order, so a node's children are an ordered sequence.
- The heuristic rollout compares sub-board owners before and after each
  candidate move played from the playout's STARTING state
  (`src/mcts_modified.py:120`, which passes `state`, not `current_game`),
  while the candidates are the legal moves of the current state.
- `range(num_nodes)` runs zero times for 0, so a budget of 0 is accepted: the
  tree then stays a single root and the report is absent.

## Model

| member | source | states |
|---|---|---|
| Tree.SearchTree.constructor | src/mcts_vanilla.py:181 | The root holds all legal actions of the state as untried, has no parent, no children and no visits, and the tree invariant holds. |
| Tree.SearchTree.ExpandLeaf | src/mcts_vanilla.py:56-83 | On an ended state: returns the same node and state, and the tree is unchanged. Otherwise: the first untried action moves to a new last node. That node is keyed under the action, points back to the parent and has the successor's legal actions. The successor state is returned, the invariant holds, and no old counter changes. |
| Arena.ExpandedWellFormed | src/mcts_vanilla.py:76-82 | Expanding a node keeps the tree invariant, with the successor state attached to the new node. Each node's expanded and untried actions remain its legal actions. |
| Arena.ActionsPartitioned | src/mcts_vanilla.py:76-82 | Under the invariant, a node's untried actions and child keys are disjoint. Together they are the set of legal actions, and their counts add up to the number of legal actions. |
| Arena.ExpandedCounters | src/mcts_modified.py:72-78 | Expansion keeps the counters invariant and keeps every node at most as visited as its parent (the new node starts at 0). Every old node keeps its visits and wins. |
| Tree.SearchTree.Backpropagate | src/mcts_vanilla.py:108-120 | The new arena is the old one with exactly the leaf-to-root path credited: one visit at each path node and the win at each path node but the root. Nodes off the path are unchanged. The root gains a visit, and the invariant, the counters and the child lists are kept. |
| Arena.CreditedPath | src/mcts_vanilla.py:116-120 | Crediting the path from a leaf keeps the tree invariant and the child lists, and gives the root one more visit. It keeps the counters invariant, and it leaves every non-root node visited once the leaf was the only unvisited one. |
| Arena.CreditedVisitsBelowParent | src/mcts_vanilla.py:116-120 | Crediting the whole path from a leaf keeps every node at most as visited as its parent, since a credited node's parent is credited too. |
| Arena.CreditedStep | src/mcts_vanilla.py:116-120 | Crediting one more node of the walk extends the credited part of the path by that node, up to its parent. |
| Arena.CreditedCounters | src/mcts_modified.py:137-141 | Crediting keeps visits and wins non-negative and `wins <= visits` below the root, and never changes the root's wins. |
| Arena.CreditedSettles | src/mcts_vanilla.py:116-120 | After a path through the leaf is credited, the leaf has been visited too. |
| Arena.AncestryHasRoot | src/mcts_vanilla.py:117-120 | The walk up the parent links from any node reaches the root. |
| Arena.WellFormedParents | src/mcts_vanilla.py:117 | In a well-formed tree, parents precede their children, every child points back to its parent, and only the root lacks a parent. |
| Selection.FirstArgmaxIsFirstMaximum | src/mcts_vanilla.py:35-46 | The index kept by the strict `>` scan holds the largest score, and every earlier score is strictly smaller. |
| Tree.SearchTree.SelectChild | src/mcts_vanilla.py:35-46 | The loop over the children returns the first-maximum index of the children's UCB values, in insertion order. |
| Selection.FlipSwaps | src/mcts_vanilla.py:50 | For a mover of 1 or 2 the flip gives the other player, and flipping twice gives the mover back. |
| Arena.Ucb | src/mcts_vanilla.py:122-141 | The root's value is -1. On a node with 0 <= wins <= visits, visits at least 1 and at most its parent's, and a score meeting `AboveSentinel`, the value beats the starting value -1000000000 of the descent's scan. |
| Arena.FullyExpandedHasChildren | src/mcts_vanilla.py:34-48 | A node with no untried actions whose game has not ended has a child, so the descent always finds a child to move to. |
| Arena.DescendStep | src/mcts_vanilla.py:34-50 | One step of the loop stays on the descent. It moves to the first best-scored child, scored as the opponent's exactly when the mover is not the bot, with the successor state and the flipped mover. |
| Arena.DescendBelow | src/mcts_vanilla.py:34-52 | The descent stops inside the subtree of the start node, at a node with an untried action, an ended state, or no children. The childless stop is never taken in a well-formed tree (`Arena.FullyExpandedHasChildren`); `Tree.SearchTree.Traverse` states the two-way stop. |
| Tree.SearchTree.Traverse | src/mcts_vanilla.py:11-52 | Returns exactly the node and state of the descent from the start. The node has an untried action or an ended state, the state is the node's own, and a start node with an untried action is returned as is. |
| Arena.ChildStatsNonNegative | src/mcts_vanilla.py:157 | With the counters invariant, every root child's win rate and visit count is non-negative. |
| Selection.ScanChosen | src/mcts_vanilla.py:156-161 | The scan's result is not beaten on both measures by any later child, and it is the first child or beats the first child. |
| Selection.BestIndexSpec | src/mcts_vanilla.py:152-162 | With non-negative statistics the report is absent exactly when there are no children. Otherwise no later child beats it on both rate and visits, and it is the first child or beats the first child on both. |
| Selection.BestIndexIsNotAMaximum | src/mcts_vanilla.py:157-161 | A concrete case where the reported child has neither the highest rate nor the most visits. |
| Tree.SearchTree.GetBestAction | src/mcts_modified.py:164-183 | The loop returns the action of the child the acceptance scan picks, which is `Arena.Reported` of the nodes. The result is absent exactly when the root has no children, and otherwise it is a child key. |
| Rollout.Heuristic | src/mcts_modified.py:81-101 | Returns the first move, in list order, that turns some sub-board into the bot's. It is absent exactly when no move does. |
| Rollout.HeuristicPicksCandidate | src/mcts_modified.py:85-100 | The heuristic's move is one of the candidate moves, and it captures a sub-board for the bot. |
| Rollout.RandomMoves | src/mcts_vanilla.py:100-104 | The moves of a random playout are legal, each in the state it is played from, and they end the game. |
| Rollout.RandomRollout | src/mcts_vanilla.py:86-105 | The loop returns an ended state: the state reached by playing the random playout's moves. |
| Rollout.HeuristicMoves | src/mcts_modified.py:117-123 | The moves of a heuristic-first playout are legal and end the game. |
| Rollout.HeuristicStep | src/mcts_modified.py:120-123 | A step takes the heuristic move, judged from the starting state, whenever some legal move captures. It falls back to the random move only when none does. |
| Rollout.HeuristicRollout | src/mcts_modified.py:103-126 | The loop returns an ended state: the state reached by playing the heuristic-first playout's moves. |
| Rollout.IsWin | src/mcts_vanilla.py:164-168 | Reports an error exactly when the game has not ended (given a valid board). Otherwise it returns whether the bot's points entry is 1. |
| Search.SelectAndExpand | src/mcts_vanilla.py:186-187 | The result is the descent from the root followed by expand_leaf at the node reached: on an ended state that node and state come back and the nodes are unchanged; otherwise the first untried action there becomes the new last node, which is returned with the successor state. The invariants hold, and the leaf is the only node that may lack a visit. |
| Search.Playout | src/mcts_modified.py:214 | Returns the ended state that the chosen rollout's moves reach from the leaf's state. |
| Search.PlayoutMoves | src/mcts_vanilla.py:188 | The moves of the chosen rollout are legal, each in the state it is played from, and they end the game. |
| Search.PlayAndCredit | src/mcts_vanilla.py:188-189 | `won` is the `is_win` of the playout's end, and the new nodes are the old ones credited on exactly the path from the leaf to the root. |
| Search.Iterate | src/mcts_modified.py:207-215 | One iteration: the intermediate nodes are the descent-and-expansion of the old ones, `won` is the `is_win` of the playout from the leaf, and the new nodes are the intermediate ones credited on the leaf's path to the root. At most one node and one root visit are added, and all invariants are kept. |
| Search.TracedExtend | src/mcts_vanilla.py:183-189 | A run of the loop followed by one more iteration, drawn from the next stream, is a run one iteration longer. |
| Search.TracedIterate | src/mcts_vanilla.py:184-189 | One pass of the loop body extends the run by the new nodes, keeps its first entry and keeps all invariants. The root gains one visit and at most one node is added. |
| Search.RunSearch | src/mcts_vanilla.py:183-189 | The loop's run has exactly `budget` iterations: it starts at the old nodes, ends at the new ones, and each consecutive pair of nodes is related by one iteration (descend, expand, play out from `rng(k)`, credit). The root has gained exactly `budget` visits, with at most `budget` new nodes, and the invariants are kept. With budget 0 the tree is unchanged. |
| Search.Think | src/mcts_vanilla.py:170-198 | The search is a run of `budget` iterations, for the player to move, from a single root holding all legal moves. The reported move is the final choice (`Arena.Reported`) on the run's last nodes. A move is reported exactly when the budget is positive and the game has not ended, and it is then a legal move of the input state. |

## Left out

- `ucb`'s arithmetic (`src/mcts_vanilla.py:131-141`) is left out. It uses floating-point `log` and `sqrt` and approximates ln by dividing by `log(2.71828)`. The score is a parameter, and only the root's value of -1 and the division by visits (so visits must be at least 1) are modelled.
- The win rate `wins / visits` of `get_best_action` (`src/mcts_vanilla.py:157-159`, `src/mcts_modified.py:178-180`) is an exact real in the model, while the source divides in floating point. Correctly rounded division is monotone, and two different rates with visit counts below 2^26 differ by more than one rounding step, so for such counts the comparisons come out the same.
- The distribution of `random.choice` is left out. A move is picked from an injected stream, and nothing is proved about convergence.
- `print`, the commented-out diagnostics and `tree_to_string` are left out, because they are output only.
- The globals `num_nodes` and `explore_faction` are parameters: `budget` and the score.
- The board class and the node class are not part of this model. The board is a set of functions, with the assumptions listed in `ValidGame` and a rank that makes playouts finite. `OwnershipStable` assumes that a move keeps the set of sub-boards, so the heuristic's lookup of each sub-board after the move cannot fail. The node class's constructor is assumed to start at zero visits and wins.
- The source's crash paths are excluded by preconditions rather than modelled:
  - popping from an empty untried list in `expand_leaf`;
  - dividing by zero visits;
  - a descent step that finds no child above the -1000000000 starting value.
  The driver never reaches them: it keeps `Settled`, `Counters` and `VisitsBelowParent`, `AboveSentinel` is assumed of the score, and `FullyExpandedHasChildren` guarantees a child.
- `backpropagate` is recursive in the source. It is modelled as the equivalent loop up the parent links.
- Arena.Descend has an extra stop at a node without children. It is never taken in a well-formed tree (`Arena.FullyExpandedHasChildren`), and it keeps the function total.
