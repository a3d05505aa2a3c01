/**
 * The search driver: a fixed number of iterations of descend, expand, play
 * out and back up, each restarting from the root and the state the search
 * was asked about, then the report of the chosen root action. The plain
 * engine plays out at random; the modified engine plays out heuristic-first.
 */
module Search {
  import opened Wrappers
  import opened Games
  import opened Selection
  import opened Arena
  import opened Tree
  import opened Rollout

  datatype Policy = Random | HeuristicThenRandom

  /** The moves the playout of `policy` makes from `s`. */
  function PlayoutMoves<S(!new), A(!new)>(g: Game<S, A>, s: S, bot: int, policy: Policy, rand: nat -> nat): (ms: seq<A>)
    requires ValidGame(g) && (policy == HeuristicThenRandom ==> OwnershipStable(g))
    ensures LegalRun(g, s, ms) && g.ended(Play(g, s, ms))
  {
    if policy == Random then RandomMoves(g, s, rand, 0) else HeuristicMoves(g, s, s, bot, rand, 0)
  }

  /** What one iteration leaves behind besides the new nodes: the nodes after expansion, the leaf, its state and the outcome. */
  datatype Step<S, A> = Step(mid: seq<Node<A>>, leaf: nat, leafState: S, won: bool)

  /**
   * One iteration takes the nodes `ns` to `ns'` by way of `step`: descend
   * and expand gives `step.mid` and the leaf, the playout of `policy` from
   * the leaf's state ends with the outcome `step.won`, and `ns'` is `step.mid`
   * credited on the path from the leaf to the root.
   */
  ghost predicate IterationStep<S(!new), A(!new)>(g: Game<S, A>, ns: seq<Node<A>>, s: S, bot: int, policy: Policy, score: Score,
                                                  rand: nat -> nat, step: Step<S, A>, ns': seq<Node<A>>)
    requires ValidGame(g) && (policy == HeuristicThenRandom ==> OwnershipStable(g))
  {
    && Linked(ns) && Settled(ns) && 0 < |ns|
    && DescendedAndExpanded(g, ns, s, bot, score, step.leaf, step.leafState, step.mid)
    && ParentsBelow(step.mid) && step.leaf < |step.mid|
    && IsWin(g, Play(g, step.leafState, PlayoutMoves(g, step.leafState, bot, policy, rand)), bot) == Ok(step.won)
    && ns' == Credited(step.mid, Ancestry(step.mid, step.leaf), step.won)
  }

  /**
   * `trace` runs through the iterations of `steps`: iteration `k`, drawing
   * its playout from `rng(k)`, takes `trace[k]` to `trace[k + 1]`.
   */
  ghost predicate Traced<S(!new), A(!new)>(g: Game<S, A>, s: S, bot: int, policy: Policy, score: Score, rng: nat -> nat -> nat,
                                           trace: seq<seq<Node<A>>>, steps: seq<Step<S, A>>)
    requires ValidGame(g) && (policy == HeuristicThenRandom ==> OwnershipStable(g))
  {
    && |trace| == |steps| + 1
    && forall k :: 0 <= k < |steps| ==> IterationStep(g, trace[k], s, bot, policy, score, rng(k), steps[k], trace[k + 1])
  }

  /** A trace extended by one more iteration is a trace. */
  lemma TracedExtend<S(!new), A(!new)>(g: Game<S, A>, s: S, bot: int, policy: Policy, score: Score, rng: nat -> nat -> nat,
                                        trace: seq<seq<Node<A>>>, steps: seq<Step<S, A>>, step: Step<S, A>, ns': seq<Node<A>>)
    requires ValidGame(g) && (policy == HeuristicThenRandom ==> OwnershipStable(g))
    requires Traced(g, s, bot, policy, score, rng, trace, steps)
    requires IterationStep(g, trace[|steps|], s, bot, policy, score, rng(|steps|), step, ns')
    ensures Traced(g, s, bot, policy, score, rng, trace + [ns'], steps + [step])
  {
    var trace', steps' := trace + [ns'], steps + [step];
    forall k | 0 <= k < |steps'|
      ensures IterationStep(g, trace'[k], s, bot, policy, score, rng(k), steps'[k], trace'[k + 1])
    {
      if k < |steps| {
        assert trace'[k] == trace[k] && trace'[k + 1] == trace[k + 1] && steps'[k] == steps[k];
      }
    }
  }

  /** Plays `s` out with the rollout of `policy`. */
  method Playout<S(!new), A(!new)>(g: Game<S, A>, s: S, bot: int, policy: Policy, rand: nat -> nat) returns (t: S)
    requires ValidGame(g) && (policy == HeuristicThenRandom ==> OwnershipStable(g))
    ensures g.ended(t)
    ensures t == Play(g, s, PlayoutMoves(g, s, bot, policy, rand))
  {
    if policy == Random {
      t := RandomRollout(g, s, rand);
    } else {
      t := HeuristicRollout(g, s, bot, rand);
    }
  }

  /**
   * What the first half of an iteration produces from the nodes `ns`, with
   * `s` the root's state: the descent from the root ends at a node; when
   * its game has ended, that node and its state come back and the nodes are
   * unchanged; otherwise the node has an untried action, its first one is
   * expanded into the new last node, and the new node and its state come back.
   */
  ghost predicate DescendedAndExpanded<S, A>(g: Game<S, A>, ns: seq<Node<A>>, s: S, bot: int, score: Score,
                                             leaf: nat, leafState: S, ns': seq<Node<A>>)
    requires Linked(ns) && Settled(ns) && 0 < |ns|
  {
    var d := Descend(g, ns, 0, s, bot, bot, score);
    if g.ended(d.1) then
      leaf == d.0 && leafState == d.1 && ns' == ns
    else
      && d.0 < |ns| && ns[d.0].untried != []
      && leaf == |ns|
      && leafState == g.next(d.1, ns[d.0].untried[0])
      && ns' == Expanded(ns, d.0, g.legal(leafState))
  }

  /**
   * The first half of an iteration: descend from the root, then expand the
   * node reached. The leaf returned is the only node that may still lack a
   * visit; the root's counters are untouched, its expanded actions only
   * grow, and a root with an untried action gains exactly one child.
   */
  method SelectAndExpand<S(!new), A(!new)>(tree: SearchTree<S, A>, s: S, bot: int, score: Score)
    returns (leaf: nat, leafState: S)
    requires tree.Valid() && Counters(tree.nodes) && Settled(tree.nodes) && VisitsBelowParent(tree.nodes)
    requires s == tree.states[0] && AboveSentinel(score)
    modifies tree
    ensures Linked(old(tree.nodes))
    ensures DescendedAndExpanded(tree.game, old(tree.nodes), s, bot, score, leaf, leafState, tree.nodes)
    ensures tree.Valid() && Counters(tree.nodes) && VisitsBelowParent(tree.nodes) && s == tree.states[0]
    ensures leaf < |tree.nodes| && leafState == tree.states[leaf]
    ensures forall j :: 0 <= j < |tree.nodes| && j != leaf && tree.nodes[j].parent.Some? ==> 1 <= tree.nodes[j].visits
    ensures old(|tree.nodes|) <= |tree.nodes| <= old(|tree.nodes|) + 1
    ensures tree.nodes[0].visits == old(tree.nodes[0].visits)
    ensures old(tree.nodes[0].children) <= tree.nodes[0].children
    ensures old(tree.nodes[0].untried) != [] ==> |tree.nodes[0].children| == old(|tree.nodes[0].children|) + 1
  {
    var node, state := tree.Traverse(0, s, bot, score);
    if old(tree.nodes[0].untried) != [] {
      assert ActionsAccounted(tree.game, tree.nodes, tree.states, 0);
    }
    leaf, leafState := tree.ExpandLeaf(node, state);
  }

  /**
   * The second half of an iteration: play the state of `leaf` out and
   * credit the outcome on the path from `leaf` to the root.
   */
  method PlayAndCredit<S(!new), A(!new)>(tree: SearchTree<S, A>, s: S, leaf: nat, leafState: S, bot: int, policy: Policy, rand: nat -> nat)
    returns (won: bool)
    requires tree.Valid() && Counters(tree.nodes) && VisitsBelowParent(tree.nodes) && s == tree.states[0]
    requires leaf < |tree.nodes| && leafState == tree.states[leaf]
    requires forall j :: 0 <= j < |tree.nodes| && j != leaf && tree.nodes[j].parent.Some? ==> 1 <= tree.nodes[j].visits
    requires bot == 1 || bot == 2
    requires policy == HeuristicThenRandom ==> OwnershipStable(tree.game)
    modifies tree
    ensures ParentsBelow(old(tree.nodes))
    ensures IsWin(tree.game, Play(tree.game, leafState, PlayoutMoves(tree.game, leafState, bot, policy, rand)), bot) == Ok(won)
    ensures tree.nodes == Credited(old(tree.nodes), Ancestry(old(tree.nodes), leaf), won)
    ensures tree.Valid() && Counters(tree.nodes) && Settled(tree.nodes) && VisitsBelowParent(tree.nodes) && s == tree.states[0]
    ensures |tree.nodes| == old(|tree.nodes|)
    ensures tree.nodes[0].visits == old(tree.nodes[0].visits) + 1
    ensures tree.nodes[0].children == old(tree.nodes[0].children)
  {
    var final := Playout(tree.game, leafState, bot, policy, rand);
    won := IsWin(tree.game, final, bot).value;
    tree.Backpropagate(leaf, won);
  }

  /**
   * One iteration: descend and expand (giving the nodes `mid` and the leaf),
   * play the leaf's state out, and credit the outcome `won` on the path from
   * the leaf to the root. At most one new node, one more visit at the root,
   * the root's expanded actions only grow, and a root with an untried action
   * gains exactly one child.
   */
  method Iterate<S(!new), A(!new)>(tree: SearchTree<S, A>, s: S, bot: int, policy: Policy, score: Score, rand: nat -> nat)
    returns (ghost mid: seq<Node<A>>, leaf: nat, leafState: S, won: bool)
    requires tree.Valid() && Counters(tree.nodes) && Settled(tree.nodes) && VisitsBelowParent(tree.nodes)
    requires s == tree.states[0]
    requires bot == 1 || bot == 2
    requires AboveSentinel(score)
    requires policy == HeuristicThenRandom ==> OwnershipStable(tree.game)
    modifies tree
    ensures Linked(old(tree.nodes)) && ParentsBelow(mid) && leaf < |mid|
    ensures DescendedAndExpanded(tree.game, old(tree.nodes), s, bot, score, leaf, leafState, mid)
    ensures IsWin(tree.game, Play(tree.game, leafState, PlayoutMoves(tree.game, leafState, bot, policy, rand)), bot) == Ok(won)
    ensures tree.nodes == Credited(mid, Ancestry(mid, leaf), won)
    ensures IterationStep(tree.game, old(tree.nodes), s, bot, policy, score, rand, Step(mid, leaf, leafState, won), tree.nodes)
    ensures tree.Valid() && Counters(tree.nodes) && Settled(tree.nodes) && VisitsBelowParent(tree.nodes) && s == tree.states[0]
    ensures old(|tree.nodes|) <= |tree.nodes| <= old(|tree.nodes|) + 1
    ensures tree.nodes[0].visits == old(tree.nodes[0].visits) + 1
    ensures old(tree.nodes[0].children) <= tree.nodes[0].children
    ensures old(tree.nodes[0].untried) != [] ==> |tree.nodes[0].children| == old(|tree.nodes[0].children|) + 1
  {
    leaf, leafState := SelectAndExpand(tree, s, bot, score);
    mid := tree.nodes;
    won := PlayAndCredit(tree, s, leaf, leafState, bot, policy, rand);
  }

  /** Runs iteration number `k` and records it at the end of the trace. */
  method TracedIterate<S(!new), A(!new)>(tree: SearchTree<S, A>, s: S, bot: int, policy: Policy, score: Score, rng: nat -> nat -> nat, k: nat,
                                         ghost trace: seq<seq<Node<A>>>, ghost steps: seq<Step<S, A>>)
    returns (ghost trace': seq<seq<Node<A>>>, ghost steps': seq<Step<S, A>>)
    requires tree.Valid() && Counters(tree.nodes) && Settled(tree.nodes) && VisitsBelowParent(tree.nodes)
    requires s == tree.states[0]
    requires bot == 1 || bot == 2
    requires AboveSentinel(score)
    requires policy == HeuristicThenRandom ==> OwnershipStable(tree.game)
    requires |steps| == k && Traced(tree.game, s, bot, policy, score, rng, trace, steps) && trace[k] == tree.nodes
    modifies tree
    ensures |trace'| == |trace| + 1 && trace'[0] == trace[0] && trace'[|trace|] == tree.nodes && |steps'| == |steps| + 1
    ensures Traced(tree.game, s, bot, policy, score, rng, trace', steps')
    ensures tree.Valid() && Counters(tree.nodes) && Settled(tree.nodes) && VisitsBelowParent(tree.nodes) && s == tree.states[0]
    ensures old(|tree.nodes|) <= |tree.nodes| <= old(|tree.nodes|) + 1
    ensures tree.nodes[0].visits == old(tree.nodes[0].visits) + 1
    ensures old(tree.nodes[0].children) <= tree.nodes[0].children
    ensures old(tree.nodes[0].untried) != [] ==> |tree.nodes[0].children| == old(|tree.nodes[0].children|) + 1
  {
    ghost var mid, leaf, leafState, won := Iterate(tree, s, bot, policy, score, rng(k));
    TracedExtend(tree.game, s, bot, policy, score, rng, trace, steps, Step(mid, leaf, leafState, won), tree.nodes);
    trace' := trace + [tree.nodes];
    steps' := steps + [Step(mid, leaf, leafState, won)];
  }

  /**
   * `budget` iterations from the root, iteration `k` drawing its playout from
   * `rng(k)`: `trace` holds the nodes before each iteration and after the
   * last, each consecutive pair related by one iteration. The root gains
   * exactly `budget` visits.
   */
  method RunSearch<S(!new), A(!new)>(tree: SearchTree<S, A>, s: S, bot: int, budget: nat, policy: Policy, score: Score, rng: nat -> nat -> nat)
    returns (ghost trace: seq<seq<Node<A>>>, ghost steps: seq<Step<S, A>>)
    requires tree.Valid() && Counters(tree.nodes) && Settled(tree.nodes) && VisitsBelowParent(tree.nodes)
    requires s == tree.states[0]
    requires bot == 1 || bot == 2
    requires AboveSentinel(score)
    requires policy == HeuristicThenRandom ==> OwnershipStable(tree.game)
    modifies tree
    ensures |steps| == budget && Traced(tree.game, s, bot, policy, score, rng, trace, steps)
    ensures trace[0] == old(tree.nodes) && trace[budget] == tree.nodes
    ensures tree.Valid() && Counters(tree.nodes) && Settled(tree.nodes) && VisitsBelowParent(tree.nodes) && s == tree.states[0]
    ensures tree.nodes[0].visits == old(tree.nodes[0].visits) + budget
    ensures old(|tree.nodes|) <= |tree.nodes| <= old(|tree.nodes|) + budget
    ensures old(tree.nodes[0].children) <= tree.nodes[0].children
    ensures 0 < budget && old(tree.nodes[0].untried) != [] ==> tree.nodes[0].children != []
  {
    trace := [tree.nodes];
    steps := [];
    assert Traced(tree.game, s, bot, policy, score, rng, trace, steps);
    for k := 0 to budget
      invariant tree.Valid() && Counters(tree.nodes) && Settled(tree.nodes) && VisitsBelowParent(tree.nodes) && s == tree.states[0]
      invariant |steps| == k && Traced(tree.game, s, bot, policy, score, rng, trace, steps)
      invariant trace[0] == old(tree.nodes) && trace[k] == tree.nodes
      invariant tree.nodes[0].visits == old(tree.nodes[0].visits) + k
      invariant old(|tree.nodes|) <= |tree.nodes| <= old(|tree.nodes|) + k
      invariant old(tree.nodes[0].children) <= tree.nodes[0].children
      invariant 0 < k && old(tree.nodes[0].untried) != [] ==> tree.nodes[0].children != []
    {
      trace, steps := TracedIterate(tree, s, bot, policy, score, rng, k, trace, steps);
    }
  }

  /**
   * Picks the move for state `s`: the bot is the player to move, the tree
   * starts as a single root holding all legal moves, `budget` iterations
   * take it through `trace`, and the action the final choice reports on
   * the last nodes is returned. There is a move exactly when at least one
   * iteration ran and the game has not ended, and it is then one of the
   * legal moves of `s`.
   */
  method Think<S(!new), A(!new)>(g: Game<S, A>, s: S, budget: nat, policy: Policy, score: Score, rng: nat -> nat -> nat)
    returns (best: Option<A>, ghost trace: seq<seq<Node<A>>>, ghost steps: seq<Step<S, A>>)
    requires ValidGame(g) && AboveSentinel(score)
    requires policy == HeuristicThenRandom ==> OwnershipStable(g)
    ensures |steps| == budget && Traced(g, s, g.player(s), policy, score, rng, trace, steps)
    ensures trace[0] == [Node(None, None, g.legal(s), [], 0, 0)]
    ensures 0 < |trace[budget]| && Settled(trace[budget]) && ChildrenLinked(trace[budget], 0)
    ensures best == Reported(trace[budget])
    ensures best.Some? <==> 0 < budget && !g.ended(s)
    ensures best.Some? ==> best.value in g.legal(s)
  {
    var bot := g.player(s);
    var root := new SearchTree(g, s);
    trace, steps := RunSearch(root, s, bot, budget, policy, score, rng);
    best := root.GetBestAction();
    assert ActionsAccounted(g, root.nodes, root.states, 0);
  }
}
