/**
 * The nodes of the move picker's search tree, as values. The tree's nodes live in one sequence
 * (an arena): a node names its parent by index, the root is index 0, and a
 * child is always created after its parent, so every parent index is smaller
 * than its child's. `children` keeps the insertion order of the source's
 * dictionary of child nodes.
 */
module Arena {
  import opened Wrappers
  import opened Games
  import opened Selection

  /** One tree node: the fields the source reads and writes on its node objects. */
  datatype Node<A> = Node(
    parent: Option<nat>,         // index of the parent; None for the root
    parentAction: Option<A>,     // the action that led here from the parent
    untried: seq<A>,             // legal actions not yet expanded, consumed from the front
    children: seq<(A, nat)>,     // action -> child index, in insertion order
    visits: int,
    wins: int)

  /** The actions of a child list, in insertion order. */
  function Keys<A>(ch: seq<(A, nat)>): seq<A>
  {
    seq(|ch|, k requires 0 <= k < |ch| => ch[k].0)
  }

  lemma KeysAppend<A>(ch: seq<(A, nat)>, e: (A, nat))
    ensures Keys(ch + [e]) == Keys(ch) + [e.0]
  {
    assert forall k :: 0 <= k < |ch| + 1 ==> Keys(ch + [e])[k] == (Keys(ch) + [e.0])[k];
  }

  /**
   * The untried actions and the expanded actions of a node are its legal
   * actions split in two: no action is in both, together they are all of
   * them, and their counts add up.
   */
  lemma {:induction false} ActionsPartitioned<A>(ch: seq<(A, nat)>, untried: seq<A>, legal: seq<A>)
    requires Keys(ch) + untried == legal
    requires NoDuplicates(legal)
    ensures (set a | a in Keys(ch)) !! (set a | a in untried)
    ensures (set a | a in Keys(ch)) + (set a | a in untried) == (set a | a in legal)
    ensures |ch| + |untried| == |legal|
  {
    forall i, j | 0 <= i < |ch| && 0 <= j < |untried|
      ensures Keys(ch)[i] != untried[j]
    {
      assert Keys(ch)[i] == legal[i] && untried[j] == legal[|ch| + j];
    }
  }

  // ---------------------------------------------------------------------
  // Structure

  ghost predicate ParentsBelow<A>(ns: seq<Node<A>>)
  {
    forall i :: 0 <= i < |ns| && ns[i].parent.Some? ==> ns[i].parent.value < i
  }

  /** The child `e` of node `i` points back to `i` under its action. */
  ghost predicate ChildLink<A>(ns: seq<Node<A>>, i: nat, e: (A, nat))
  {
    i < e.1 < |ns| && ns[e.1].parent == Some(i) && ns[e.1].parentAction == Some(e.0)
  }

  ghost predicate ChildrenLinked<A>(ns: seq<Node<A>>, i: nat)
    requires i < |ns|
  {
    forall k :: 0 <= k < |ns[i].children| ==> ChildLink(ns, i, ns[i].children[k])
  }

  /** Node `i` has a parent, whose state its action leads to and which lists it as a child. */
  ghost predicate LinkedToParent<S, A>(g: Game<S, A>, ns: seq<Node<A>>, sts: seq<S>, i: nat)
    requires |ns| == |sts| && i < |ns|
  {
    && ns[i].parent.Some? && ns[i].parentAction.Some?
    && ns[i].parent.value < i
    && sts[i] == g.next(sts[ns[i].parent.value], ns[i].parentAction.value)
    && (ns[i].parentAction.value, i) in ns[ns[i].parent.value].children
  }

  /**
   * The tree invariant, with `sts[i]` the game state of node `i` (the root's
   * is the state the search started from): one root, every other node hangs
   * under its parent, and every node's expanded actions followed by its
   * untried actions are exactly the legal actions of its state.
   */
  ghost predicate WellFormed<S, A>(g: Game<S, A>, ns: seq<Node<A>>, sts: seq<S>)
  {
    && |ns| == |sts| && 0 < |ns|
    && ns[0].parent.None? && ns[0].parentAction.None?
    && (forall i :: 0 < i < |ns| ==> LinkedToParent(g, ns, sts, i))
    && (forall i :: 0 <= i < |ns| ==> ChildrenLinked(ns, i))
    && (forall i :: 0 <= i < |ns| ==> ActionsAccounted(g, ns, sts, i))
  }

  /** Node `i`'s expanded actions, in insertion order, followed by its untried ones are the legal actions of its state. */
  ghost predicate ActionsAccounted<S, A>(g: Game<S, A>, ns: seq<Node<A>>, sts: seq<S>, i: nat)
    requires |ns| == |sts| && i < |ns|
  {
    Keys(ns[i].children) + ns[i].untried == g.legal(sts[i])
  }

  lemma WellFormedParents<S, A>(g: Game<S, A>, ns: seq<Node<A>>, sts: seq<S>)
    requires WellFormed(g, ns, sts)
    ensures Linked(ns)
    ensures forall i :: 0 <= i < |ns| ==> (ns[i].parent.None? <==> i == 0)
  {
    forall i | 0 < i < |ns|
      ensures ns[i].parent.Some? && ns[i].parent.value < i
    {
      assert LinkedToParent(g, ns, sts, i);
    }
  }

  /** The node itself and all its ancestors up to the root. */
  ghost function Ancestry<A>(ns: seq<Node<A>>, i: nat): (r: set<nat>)
    requires ParentsBelow(ns) && i < |ns|
    ensures i in r
    ensures forall j :: j in r ==> j <= i
    decreases i
  {
    if ns[i].parent.None? then {i} else {i} + Ancestry(ns, ns[i].parent.value)
  }

  /** Every node's ancestry reaches the root. */
  lemma {:induction false} AncestryHasRoot<A>(ns: seq<Node<A>>, i: nat)
    requires ParentsBelow(ns) && i < |ns|
    requires forall j :: 0 <= j < |ns| ==> (ns[j].parent.None? <==> j == 0)
    ensures 0 in Ancestry(ns, i)
    decreases i
  {
    if i != 0 {
      AncestryHasRoot(ns, ns[i].parent.value);
    }
  }

  // ---------------------------------------------------------------------
  // Counters

  /** Visits and wins are non-negative, a non-root node never has more wins than visits, the root has no wins. */
  ghost predicate Counters<A>(ns: seq<Node<A>>)
  {
    forall i :: 0 <= i < |ns| ==>
      && 0 <= ns[i].wins && 0 <= ns[i].visits
      && (ns[i].parent.Some? ==> ns[i].wins <= ns[i].visits)
      && (ns[i].parent.None? ==> ns[i].wins == 0)
  }

  /** No node has more visits than its parent: every visit of a node passes through its parent. */
  ghost predicate VisitsBelowParent<A>(ns: seq<Node<A>>)
  {
    && ParentsBelow(ns)
    && forall i :: 0 <= i < |ns| && ns[i].parent.Some? ==> ns[i].visits <= ns[ns[i].parent.value].visits
  }

  /** Every non-root node has been visited, so its win rate can be computed. */
  ghost predicate Settled<A>(ns: seq<Node<A>>)
  {
    forall i :: 0 <= i < |ns| && ns[i].parent.Some? ==> 1 <= ns[i].visits
  }

  /** One node's update when a playout result is folded back: a visit, and the win for a non-root node. */
  function Credit<A>(n: Node<A>, won: bool): Node<A>
  {
    n.(visits := n.visits + 1, wins := if n.parent.Some? && won then n.wins + 1 else n.wins)
  }

  /** The nodes with every node of `path` credited and every other node as it was. */
  function Credited<A>(ns: seq<Node<A>>, path: set<nat>, won: bool): seq<Node<A>>
  {
    seq(|ns|, j requires 0 <= j < |ns| => if j in path then Credit(ns[j], won) else ns[j])
  }

  /** Crediting node `i` of a partly credited path extends the credited part by `i`, up to its parent. */
  lemma CreditedStep<A>(ns: seq<Node<A>>, path: set<nat>, i: nat, won: bool)
    requires ParentsBelow(ns) && i < |ns| && Ancestry(ns, i) <= path
    ensures Credited(ns, path - Ancestry(ns, i), won)[i] == ns[i]
    ensures Credited(ns, path - Ancestry(ns, i), won)[i := Credit(ns[i], won)]
            == Credited(ns, if ns[i].parent.None? then path else path - Ancestry(ns, ns[i].parent.value), won)
  {
    var rest := if ns[i].parent.None? then path else path - Ancestry(ns, ns[i].parent.value);
    assert path - Ancestry(ns, i) + {i} == rest;
  }

  lemma CreditedNothing<A>(ns: seq<Node<A>>, won: bool)
    ensures Credited(ns, {}, won) == ns
  {
  }

  /**
   * Crediting a path keeps the counters invariant: counters stay
   * non-negative, wins stay at most visits below the root, and the root's
   * wins do not change.
   */
  lemma CreditedCounters<A>(ns: seq<Node<A>>, path: set<nat>, won: bool)
    requires Counters(ns)
    ensures Counters(Credited(ns, path, won))
    ensures forall j :: 0 <= j < |ns| && ns[j].parent.None? ==> Credited(ns, path, won)[j].wins == ns[j].wins
  {
  }

  /** After a path through `leaf` is credited, `leaf` has been visited too. */
  lemma CreditedSettles<A>(ns: seq<Node<A>>, path: set<nat>, won: bool, leaf: nat)
    requires Counters(ns) && leaf in path
    requires forall j :: 0 <= j < |ns| && j != leaf && ns[j].parent.Some? ==> 1 <= ns[j].visits
    ensures Settled(Credited(ns, path, won))
  {
  }

  /** Crediting the whole path from a leaf keeps every node at most as visited as its parent. */
  lemma CreditedVisitsBelowParent<A>(ns: seq<Node<A>>, leaf: nat, won: bool)
    requires VisitsBelowParent(ns) && leaf < |ns|
    ensures VisitsBelowParent(Credited(ns, Ancestry(ns, leaf), won))
  {
    var path := Ancestry(ns, leaf);
    var ns' := Credited(ns, path, won);
    forall i | 0 <= i < |ns'| && ns'[i].parent.Some?
      ensures ns'[i].visits <= ns'[ns'[i].parent.value].visits
    {
      if i in path {
        AncestryClosed(ns, leaf, i);
      }
    }
  }

  lemma CreditedWellFormed<S, A>(g: Game<S, A>, ns: seq<Node<A>>, sts: seq<S>, path: set<nat>, won: bool)
    requires WellFormed(g, ns, sts)
    ensures WellFormed(g, Credited(ns, path, won), sts)
  {
    var ns' := Credited(ns, path, won);
    assert forall j :: 0 <= j < |ns| ==>
      && ns'[j].parent == ns[j].parent && ns'[j].parentAction == ns[j].parentAction
      && ns'[j].children == ns[j].children && ns'[j].untried == ns[j].untried;
    forall i | 0 < i < |ns'|
      ensures LinkedToParent(g, ns', sts, i)
    {
      assert LinkedToParent(g, ns, sts, i);
    }
    forall i | 0 <= i < |ns'|
      ensures ActionsAccounted(g, ns', sts, i)
    {
      assert ActionsAccounted(g, ns, sts, i);
    }
    forall i | 0 <= i < |ns'|
      ensures ChildrenLinked(ns', i)
    {
      assert ChildrenLinked(ns, i);
      forall k | 0 <= k < |ns'[i].children|
        ensures ChildLink(ns', i, ns'[i].children[k])
      {
        assert ChildLink(ns, i, ns[i].children[k]);
      }
    }
  }

  /**
   * Crediting the path from `leaf` to the root keeps the tree invariant and
   * the child lists, gives the root one more visit, keeps the counters
   * invariant, and leaves every non-root node visited once `leaf` was the
   * only unvisited one.
   */
  lemma CreditedPath<S, A>(g: Game<S, A>, ns: seq<Node<A>>, sts: seq<S>, leaf: nat, won: bool)
    requires WellFormed(g, ns, sts) && leaf < |ns|
    ensures ParentsBelow(ns)
    ensures var ns' := Credited(ns, Ancestry(ns, leaf), won);
            && WellFormed(g, ns', sts)
            && |ns'| == |ns|
            && (forall j :: 0 <= j < |ns| ==> ns'[j].children == ns[j].children)
            && ns'[0].visits == ns[0].visits + 1
            && (Counters(ns) ==> Counters(ns'))
            && (VisitsBelowParent(ns) ==> VisitsBelowParent(ns'))
            && (Counters(ns) && (forall j :: 0 <= j < |ns| && j != leaf && ns[j].parent.Some? ==> 1 <= ns[j].visits)
                ==> Settled(ns'))
  {
    WellFormedParents(g, ns, sts);
    var path := Ancestry(ns, leaf);
    AncestryHasRoot(ns, leaf);
    CreditedWellFormed(g, ns, sts, path, won);
    if VisitsBelowParent(ns) {
      CreditedVisitsBelowParent(ns, leaf, won);
    }
    if Counters(ns) {
      CreditedCounters(ns, path, won);
      if forall j :: 0 <= j < |ns| && j != leaf && ns[j].parent.Some? ==> 1 <= ns[j].visits {
        CreditedSettles(ns, path, won, leaf);
      }
    }
  }

  // ---------------------------------------------------------------------
  // Expansion

  /** The nodes after node `i` hands its first untried action to a new last node, whose untried actions are `actions`. */
  function Expanded<A>(ns: seq<Node<A>>, i: nat, actions: seq<A>): seq<Node<A>>
    requires i < |ns| && ns[i].untried != []
  {
    var a := ns[i].untried[0];
    ns[i := ns[i].(untried := ns[i].untried[1..], children := ns[i].children + [(a, |ns|)])]
      + [Node(Some(i), Some(a), actions, [], 0, 0)]
  }

  /** Expanding a node keeps the tree invariant, with the successor state attached to the new node. */
  lemma ExpandedWellFormed<S, A>(g: Game<S, A>, ns: seq<Node<A>>, sts: seq<S>, i: nat)
    requires WellFormed(g, ns, sts) && i < |ns| && ns[i].untried != []
    ensures var t := g.next(sts[i], ns[i].untried[0]);
            WellFormed(g, Expanded(ns, i, g.legal(t)), sts + [t])
  {
    var a := ns[i].untried[0];
    var t := g.next(sts[i], a);
    var ns' := Expanded(ns, i, g.legal(t));
    var sts' := sts + [t];
    var c := |ns|;
    KeysAppend(ns[i].children, (a, c));
    assert ActionsAccounted(g, ns, sts, i);
    assert Keys(ns'[i].children) + ns'[i].untried == Keys(ns[i].children) + [a] + ns[i].untried[1..];
    assert [a] + ns[i].untried[1..] == ns[i].untried;
    assert Keys(ns'[c].children) == [];
    forall j | 0 <= j < |ns'|
      ensures ActionsAccounted(g, ns', sts', j)
    {
      if j < c && j != i {
        assert ns'[j] == ns[j] && sts'[j] == sts[j];
        assert ActionsAccounted(g, ns, sts, j);
      }
    }
    forall j | 0 < j < |ns'|
      ensures LinkedToParent(g, ns', sts', j)
    {
      if j < c {
        assert LinkedToParent(g, ns, sts, j);
        var p := ns[j].parent.value;
        assert (ns[j].parentAction.value, j) in ns[p].children;
        assert ns[p].children <= ns'[p].children;
      } else {
        assert ns'[c].parent == Some(i);
        assert ns'[i].children[|ns[i].children|] == (a, c);
      }
    }
    forall j | 0 <= j < |ns'|
      ensures ChildrenLinked(ns', j)
    {
      if j < c {
        assert ChildrenLinked(ns, j);
        forall k | 0 <= k < |ns'[j].children|
          ensures ChildLink(ns', j, ns'[j].children[k])
        {
          if k < |ns[j].children| {
            assert ns'[j].children[k] == ns[j].children[k];
            assert ChildLink(ns, j, ns[j].children[k]);
          }
        }
      }
    }
  }

  /** Expansion keeps the counters and leaves every old node's counters unchanged; the new node starts below its parent's visits. */
  lemma ExpandedCounters<A>(ns: seq<Node<A>>, i: nat, actions: seq<A>)
    requires Counters(ns) && i < |ns| && ns[i].untried != []
    ensures Counters(Expanded(ns, i, actions))
    ensures VisitsBelowParent(ns) ==> VisitsBelowParent(Expanded(ns, i, actions))
    ensures forall j :: 0 <= j < |ns| ==>
              Expanded(ns, i, actions)[j].visits == ns[j].visits && Expanded(ns, i, actions)[j].wins == ns[j].wins
  {
  }

  // ---------------------------------------------------------------------
  // Selection

  /**
   * The UCB value of node `c`: -1 for the root, otherwise the score of the
   * parent's visits, the node's wins and visits and the side that moved into
   * it, which divides by the node's visits. On a node whose counters are in
   * range it beats the scans' starting value.
   */
  function Ucb<A>(ns: seq<Node<A>>, c: nat, isOpponent: bool, score: Score): (r: real)
    requires ParentsBelow(ns) && c < |ns|
    requires ns[c].parent.Some? ==> 1 <= ns[c].visits
    ensures ns[c].parent.None? ==> r == -1.0
    ensures AboveSentinel(score) && 0 <= ns[c].wins <= ns[c].visits
            && (ns[c].parent.Some? ==> ns[c].visits <= ns[ns[c].parent.value].visits)
            ==> r > Sentinel
  {
    match ns[c].parent
    case None => -1.0
    case Some(p) => score(ns[p].visits, ns[c].wins, ns[c].visits, isOpponent)
  }

  /** The UCB values of node `i`'s children, in insertion order. */
  function Scores<A>(ns: seq<Node<A>>, i: nat, isOpponent: bool, score: Score): seq<real>
    requires ParentsBelow(ns) && Settled(ns) && i < |ns| && ChildrenLinked(ns, i)
  {
    seq(|ns[i].children|, k requires 0 <= k < |ns[i].children| =>
      assert ChildLink(ns, i, ns[i].children[k]);
      Ucb(ns, ns[i].children[k].1, isOpponent, score))
  }

  /** A node with no untried actions whose state has not ended has at least one child. */
  lemma FullyExpandedHasChildren<S(!new), A(!new)>(g: Game<S, A>, ns: seq<Node<A>>, sts: seq<S>, i: nat)
    requires ValidGame(g) && WellFormed(g, ns, sts) && i < |ns|
    requires ns[i].untried == [] && !g.ended(sts[i])
    ensures ns[i].children != []
  {
    assert ActionsAccounted(g, ns, sts, i);
  }

  /** Parents come before their children and every child points back to its parent. */
  ghost predicate Linked<A>(ns: seq<Node<A>>)
  {
    ParentsBelow(ns) && forall i :: 0 <= i < |ns| ==> ChildrenLinked(ns, i)
  }

  /**
   * The tree descent as a function: from node `i` with state `s`, where
   * `identity` is to move, follow the first child with the largest score,
   * scored as the opponent's exactly when the mover is not the bot, with the
   * mover flipped after each step, until a node with an untried action or
   * an ended state. The stop at a node without children
   * is never taken in a well-formed tree (`FullyExpandedHasChildren`).
   */
  ghost function Descend<S, A>(g: Game<S, A>, ns: seq<Node<A>>, i: nat, s: S, identity: int, bot: int, score: Score): (r: (nat, S))
    requires Linked(ns) && Settled(ns) && i < |ns|
    decreases |ns| - i
  {
    if ns[i].untried != [] || g.ended(s) || ns[i].children == [] then (i, s)
    else
      assert ChildrenLinked(ns, i);
      var k := FirstArgmax(Scores(ns, i, identity != bot, score));
      var e := ns[i].children[k];
      assert ChildLink(ns, i, e);
      Descend(g, ns, e.1, g.next(s, e.0), Flip(identity), bot, score)
  }

  /** Node `n`, with state `t`, is reached, with `identity` to move, on the descent that starts at node `start` with state `s`. */
  ghost predicate OnDescent<S, A>(g: Game<S, A>, ns: seq<Node<A>>, sts: seq<S>, start: nat, s: S, n: nat, t: S, identity: int, bot: int, score: Score)
  {
    && Linked(ns) && Settled(ns) && start < |ns| && n < |ns| == |sts| && t == sts[n]
    && Descend(g, ns, n, t, identity, bot, score) == Descend(g, ns, start, s, bot, bot, score)
  }

  /**
   * One step of the descent: a node with no untried action that has not
   * ended has children, and the first best-scored child, with the
   * successor state, continues the same descent one level deeper.
   */
  lemma DescendStep<S(!new), A(!new)>(g: Game<S, A>, ns: seq<Node<A>>, sts: seq<S>, start: nat, s: S, n: nat, t: S, identity: int, bot: int, score: Score)
    requires OnDescent(g, ns, sts, start, s, n, t, identity, bot, score)
    requires ns[n].untried == [] && !g.ended(t)
    requires ActionsAccounted(g, ns, sts, n) && (g.legal(t) == [] <==> g.ended(t))
    requires forall c :: 0 < c < |ns| ==> LinkedToParent(g, ns, sts, c)
    ensures ns[n].children != [] && ChildrenLinked(ns, n)
    ensures var k := FirstArgmax(Scores(ns, n, identity != bot, score));
            && n < ns[n].children[k].1
            && OnDescent(g, ns, sts, start, s, ns[n].children[k].1, g.next(t, ns[n].children[k].0), Flip(identity), bot, score)
  {
    assert ChildrenLinked(ns, n);
    var k := FirstArgmax(Scores(ns, n, identity != bot, score));
    var e := ns[n].children[k];
    assert ChildLink(ns, n, e);
    assert LinkedToParent(g, ns, sts, e.1);
  }

  /** A node's ancestry contains the parent of each of its members. */
  lemma {:induction false} AncestryClosed<A>(ns: seq<Node<A>>, r: nat, j: nat)
    requires ParentsBelow(ns) && r < |ns| && j in Ancestry(ns, r) && ns[j].parent.Some?
    ensures ns[j].parent.value in Ancestry(ns, r)
    decreases r
  {
    if j != r {
      AncestryClosed(ns, ns[r].parent.value, j);
    }
  }

  /** The descent ends in the subtree of the node it starts from. */
  lemma {:induction false} DescendBelow<S, A>(g: Game<S, A>, ns: seq<Node<A>>, i: nat, s: S, identity: int, bot: int, score: Score)
    requires Linked(ns) && Settled(ns) && i < |ns|
    ensures var r := Descend(g, ns, i, s, identity, bot, score);
            && i <= r.0 < |ns|
            && (ns[r.0].untried != [] || g.ended(r.1) || ns[r.0].children == [])
            && i in Ancestry(ns, r.0)
    decreases |ns| - i
  {
    if !(ns[i].untried != [] || g.ended(s) || ns[i].children == []) {
      assert ChildrenLinked(ns, i);
      var k := FirstArgmax(Scores(ns, i, identity != bot, score));
      var e := ns[i].children[k];
      assert ChildLink(ns, i, e);
      DescendBelow(g, ns, e.1, g.next(s, e.0), Flip(identity), bot, score);
      AncestryClosed(ns, Descend(g, ns, i, s, identity, bot, score).0, e.1);
    }
  }

  /** The statistics the final choice compares, for node `i`'s children in insertion order. */
  function ChildStats<A>(ns: seq<Node<A>>, i: nat): seq<Stat>
    requires Settled(ns) && i < |ns| && ChildrenLinked(ns, i)
  {
    seq(|ns[i].children|, k requires 0 <= k < |ns[i].children| =>
      assert ChildLink(ns, i, ns[i].children[k]);
      var c := ns[ns[i].children[k].1];
      Stat(c.wins as real / c.visits as real, c.visits))
  }

  /**
   * The action reported from the root of `ns`: the action of the child the
   * acceptance scan picks, or none. (The index check never fails, since the
   * scan picks an index of the children.)
   */
  function Reported<A>(ns: seq<Node<A>>): Option<A>
    requires 0 < |ns| && Settled(ns) && ChildrenLinked(ns, 0)
  {
    match BestIndex(ChildStats(ns, 0))
    case None => None
    case Some(k) => if k < |ns[0].children| then Some(ns[0].children[k].0) else None
  }

  lemma ChildStatsNonNegative<A>(ns: seq<Node<A>>, i: nat)
    requires Counters(ns) && Settled(ns) && i < |ns| && ChildrenLinked(ns, i)
    ensures forall k :: 0 <= k < |ChildStats(ns, i)| ==> ChildStats(ns, i)[k].rate >= 0.0 && ChildStats(ns, i)[k].visits >= 0
  {
    forall k | 0 <= k < |ChildStats(ns, i)|
      ensures ChildStats(ns, i)[k].rate >= 0.0
    {
      assert ChildLink(ns, i, ns[i].children[k]);
      var c := ns[ns[i].children[k].1];
      assert 0 <= c.wins && 1 <= c.visits;
      assert c.wins as real / c.visits as real >= 0.0;
    }
  }
}
