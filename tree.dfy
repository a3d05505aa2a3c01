/**
 * The search tree as an object: the arena of nodes and, as ghost state, the
 * game state each node stands for; its methods update the arena in place as
 * the source's node objects are updated.
 */
module Tree {
  import opened Wrappers
  import opened Games
  import opened Selection
  import opened Arena

  class SearchTree<S(!new), A(!new)> {
    const game: Game<S, A>
    var nodes: seq<Node<A>>
    ghost var states: seq<S>

    ghost predicate Valid()
      reads this
    {
      ValidGame(game) && WellFormed(game, nodes, states)
    }

    /** A tree of one root node for state `s`, with all legal actions untried and no visits. */
    constructor (g: Game<S, A>, s: S)
      requires ValidGame(g)
      ensures Valid() && game == g && states == [s]
      ensures nodes == [Node(None, None, g.legal(s), [], 0, 0)]
      ensures Counters(nodes) && Settled(nodes) && VisitsBelowParent(nodes)
    {
      game := g;
      nodes := [Node(None, None, g.legal(s), [], 0, 0)];
      states := [s];
      new;
      assert Keys(nodes[0].children) == [];
    }

    /**
     * Adds a leaf under node `i`, whose state is `s`: nothing happens when
     * the game has ended there; otherwise the first untried action moves to
     * a new child that gets the legal actions of the successor state.
     */
    method ExpandLeaf(i: nat, s: S) returns (c: nat, t: S)
      requires Valid() && i < |nodes| && s == states[i]
      requires !game.ended(s) ==> nodes[i].untried != []
      modifies this
      ensures Valid()
      ensures c < |nodes| && t == states[c]
      ensures game.ended(s) ==> c == i && t == s && nodes == old(nodes) && states == old(states)
      ensures !game.ended(s) ==>
                && c == old(|nodes|)
                && t == game.next(s, old(nodes[i].untried[0]))
                && nodes == Expanded(old(nodes), i, game.legal(t))
                && states == old(states) + [t]
      ensures old(|nodes|) <= |nodes| <= old(|nodes|) + 1
      ensures forall j :: 0 <= j < old(|nodes|) ==>
                && nodes[j].visits == old(nodes[j].visits) && nodes[j].wins == old(nodes[j].wins)
                && old(nodes[j].children) <= nodes[j].children
      ensures !game.ended(s) ==> |nodes[i].children| == old(|nodes[i].children|) + 1
      ensures Counters(old(nodes)) ==> Counters(nodes)
      ensures Counters(old(nodes)) && VisitsBelowParent(old(nodes)) ==> VisitsBelowParent(nodes)
      ensures Settled(old(nodes)) ==> forall j :: 0 <= j < |nodes| && j != c && nodes[j].parent.Some? ==> 1 <= nodes[j].visits
    {
      if game.ended(s) {
        return i, s;
      }
      ExpandedWellFormed(game, nodes, states, i);
      if Counters(nodes) {
        ExpandedCounters(nodes, i, game.legal(game.next(s, nodes[i].untried[0])));
      }
      var a := nodes[i].untried[0];
      t := game.next(s, a);
      c := |nodes|;
      nodes := Expanded(nodes, i, game.legal(t));
      states := states + [t];
    }

    /** Walks from `leaf` up to the root: a visit for every node on the way, the win for each one but the root. */
    method Backpropagate(leaf: nat, won: bool)
      requires Valid() && leaf < |nodes|
      modifies this
      ensures Valid() && states == old(states)
      ensures ParentsBelow(old(nodes))
      ensures nodes == Credited(old(nodes), Ancestry(old(nodes), leaf), won)
      ensures |nodes| == old(|nodes|)
      ensures forall j :: 0 <= j < |nodes| ==> nodes[j].children == old(nodes[j].children)
      ensures nodes[0].visits == old(nodes[0].visits) + 1
      ensures Counters(old(nodes)) ==> Counters(nodes)
      ensures VisitsBelowParent(old(nodes)) ==> VisitsBelowParent(nodes)
      ensures Counters(old(nodes)) && (forall j :: 0 <= j < |nodes| && j != leaf && old(nodes[j].parent.Some?) ==> 1 <= old(nodes[j].visits))
              ==> Settled(nodes)
    {
      CreditedPath(game, nodes, states, leaf, won);
      ghost var ns0 := nodes;
      ghost var path := Ancestry(ns0, leaf);
      CreditedNothing(ns0, won);
      var i: nat := leaf;
      while true
        invariant i < |ns0| && Ancestry(ns0, i) <= path
        invariant states == old(states)
        invariant nodes == Credited(ns0, path - Ancestry(ns0, i), won)
        decreases i
      {
        CreditedStep(ns0, path, i, won);
        var n := nodes[i].(visits := nodes[i].visits + 1);
        if n.parent.None? {
          assert n == Credit(nodes[i], won);
          nodes := nodes[i := n];
          break;
        }
        n := n.(wins := n.wins + if won then 1 else 0);
        assert n == Credit(nodes[i], won);
        nodes := nodes[i := n];
        i := n.parent.value;
      }
    }

    /**
     * The child of node `i` the descent moves to: the first child, in
     * insertion order, whose UCB value is strictly larger than that of
     * every earlier child and at least that of every later one.
     */
    method SelectChild(i: nat, isOpponent: bool, score: Score) returns (k: nat)
      requires ParentsBelow(nodes) && Settled(nodes) && Counters(nodes) && VisitsBelowParent(nodes)
      requires i < |nodes| && ChildrenLinked(nodes, i)
      requires nodes[i].children != [] && AboveSentinel(score)
      ensures k < |nodes[i].children|
      ensures k == FirstArgmax(Scores(nodes, i, isOpponent, score))
    {
      var ch := nodes[i].children;
      ghost var xs := Scores(nodes, i, isOpponent, score);
      var uctVal := Sentinel;
      var chosen: Option<nat> := None;
      for j := 0 to |ch|
        invariant chosen.None? <==> j == 0
        invariant chosen.None? ==> uctVal == Sentinel
        invariant chosen.Some? ==> chosen.value == FirstArgmax(xs[..j]) && uctVal == xs[chosen.value]
      {
        assert ChildLink(nodes, i, ch[j]);
        var u := Ucb(nodes, ch[j].1, isOpponent, score);
        assert u == xs[j];
        assert xs[..j + 1][..j] == xs[..j];
        if u > uctVal {
          uctVal := u;
          chosen := Some(j);
        }
      }
      assert xs[..|ch|] == xs;
      k := chosen.value;
    }

    /**
     * Descends from node `start`, whose state is `s`, while the current node
     * has no untried action and its game has not ended, following the first
     * child with the best score; the mover flips between 1 and 2 after every
     * step, and a child is scored as the opponent's exactly when the mover
     * is not the bot. Returns the node reached and its state.
     */
    method Traverse(start: nat, s: S, bot: int, score: Score) returns (n: nat, t: S)
      requires Valid() && Counters(nodes) && Settled(nodes) && VisitsBelowParent(nodes)
      requires start < |nodes| && s == states[start]
      requires AboveSentinel(score)
      ensures Linked(nodes)
      ensures n < |nodes| && t == states[n]
      ensures nodes[n].untried != [] || game.ended(t)
      ensures nodes[start].untried != [] ==> n == start
      ensures (n, t) == Descend(game, nodes, start, s, bot, bot, score)
    {
      WellFormedParents(game, nodes, states);
      n, t := start, s;
      var currentIdentity := bot;
      while nodes[n].untried == [] && !game.ended(t)
        invariant OnDescent(game, nodes, states, start, s, n, t, currentIdentity, bot, score)
        decreases |nodes| - n
      {
        assert ActionsAccounted(game, nodes, states, n);
        DescendStep(game, nodes, states, start, s, n, t, currentIdentity, bot, score);
        var k := SelectChild(n, currentIdentity != bot, score);
        var e := nodes[n].children[k];
        n := e.1;
        t := game.next(t, e.0);
        currentIdentity := Flip(currentIdentity);
      }
    }

    /**
     * The action reported from the root: scanning the children in insertion
     * order, a child replaces the best so far only when both its win rate
     * and its visit count are strictly larger. Absent exactly when the root
     * has no children.
     */
    method GetBestAction() returns (best: Option<A>)
      requires Valid() && Counters(nodes) && Settled(nodes)
      ensures ChildrenLinked(nodes, 0)
      ensures best == Reported(nodes)
      ensures best.None? <==> nodes[0].children == []
      ensures best.Some? ==> best.value in Keys(nodes[0].children)
      ensures best.Some? ==>
                && BestIndex(ChildStats(nodes, 0)).Some?
                && BestIndex(ChildStats(nodes, 0)).value < |nodes[0].children|
                && best.value == nodes[0].children[BestIndex(ChildStats(nodes, 0)).value].0
    {
      assert ChildrenLinked(nodes, 0);
      var ch := nodes[0].children;
      ghost var st := ChildStats(nodes, 0);
      var val := Sentinel;
      var visit := -1;
      ghost var chosen: Option<nat> := None;
      best := None;
      for k := 0 to |ch|
        invariant Scan(st, k, Stat(val, visit), chosen) == BestIndex(st)
        invariant chosen.None? <==> best.None?
        invariant chosen.Some? ==> chosen.value < k && best == Some(ch[chosen.value].0)
      {
        assert ChildLink(nodes, 0, ch[k]);
        var c := ch[k].1;
        var rate := nodes[c].wins as real / nodes[c].visits as real;
        assert st[k] == Stat(rate, nodes[c].visits);
        if rate > val {
          if nodes[c].visits > visit {
            val := rate;
            visit := nodes[c].visits;
            best := Some(ch[k].0);
            chosen := Some(k);
          }
        }
      }
      ChildStatsNonNegative(nodes, 0);
      BestIndexSpec(st);
      if chosen.Some? {
        assert Keys(ch)[chosen.value] == best.value;
      }
    }
  }
}
