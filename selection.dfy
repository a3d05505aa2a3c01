/**
 * The comparisons behind the two scans over a node's children: the
 * first-maximum choice of the tree descent, with the mover's identity that
 * flips after each step, and the acceptance rule used to report the final
 * action from the root.
 */
module Selection {
  import opened Wrappers

  /** The starting value of both scans (`-1000000000` in the source). */
  const Sentinel: real := -1000000000.0

  /**
   * The UCB score of a node, given its parent's visits, its wins, its visits
   * and whether the opponent moved into it. Its floating-point arithmetic is
   * not modelled: the score is a parameter.
   */
  type Score = (int, int, int, bool) -> real

  /**
   * Every score of a visited node, with at most as many wins as visits and a
   * parent visited at least as often, beats the scans' starting value. The
   * real UCB does: on those inputs it is a sum of non-negative terms.
   */
  ghost predicate AboveSentinel(score: Score)
  {
    forall p, w, v, o :: 1 <= v <= p && 0 <= w <= v ==> score(p, w, v, o) > Sentinel
  }

  /**
   * The index a left-to-right scan keeps when it replaces the best so far
   * only on a strictly larger value (`FirstArgmaxIsFirstMaximum`).
   */
  function FirstArgmax(xs: seq<real>): (k: nat)
    requires |xs| > 0
    ensures k < |xs|
    decreases |xs|
  {
    if |xs| == 1 then 0
    else
      var k := FirstArgmax(xs[..|xs| - 1]);
      if xs[|xs| - 1] > xs[k] then |xs| - 1 else k
  }

  /** The scan keeps the first index holding the largest value: later equal values do not replace it. */
  lemma {:induction false} FirstArgmaxIsFirstMaximum(xs: seq<real>)
    requires |xs| > 0
    ensures forall j :: 0 <= j < |xs| ==> xs[j] <= xs[FirstArgmax(xs)]
    ensures forall j :: 0 <= j < FirstArgmax(xs) ==> xs[j] < xs[FirstArgmax(xs)]
    decreases |xs|
  {
    if |xs| > 1 {
      var p := xs[..|xs| - 1];
      FirstArgmaxIsFirstMaximum(p);
      assert forall j :: 0 <= j < |p| ==> p[j] == xs[j];
    }
  }

  /** The identity the descent moves to after each step: 2 becomes 1, anything else becomes 2. */
  function Flip(identity: int): int
  {
    if identity == 2 then 1 else 2
  }

  /** For a bot playing as 1 or 2, the mover alternates between the two players. */
  lemma FlipSwaps(identity: int)
    requires identity == 1 || identity == 2
    ensures Flip(identity) == 3 - identity
    ensures Flip(Flip(identity)) == identity
  {
  }

  /** The win rate and visit count of one root child, as the final choice compares them. */
  datatype Stat = Stat(rate: real, visits: int)

  /** The acceptance rule of the final choice: better on BOTH the win rate and the visit count. */
  predicate Dominates(a: Stat, b: Stat)
  {
    a.rate > b.rate && a.visits > b.visits
  }

  /** The running best before the first child: any child with a non-negative rate and visit count beats it. */
  const Initial: Stat := Stat(Sentinel, -1)

  /**
   * The scan from index `k` on, with `best` the running best and `chosen` the
   * index accepted last.
   */
  function Scan(st: seq<Stat>, k: nat, best: Stat, chosen: Option<nat>): Option<nat>
    requires k <= |st|
    decreases |st| - k
  {
    if k == |st| then chosen
    else if Dominates(st[k], best) then Scan(st, k + 1, st[k], Some(k))
    else Scan(st, k + 1, best, chosen)
  }

  /** The index of the root child the search reports. */
  function BestIndex(st: seq<Stat>): Option<nat>
  {
    Scan(st, 0, Initial, None)
  }

  lemma {:induction false} ScanChosen(st: seq<Stat>, k: nat, best: Stat, chosen: Option<nat>)
    requires k <= |st|
    requires chosen.Some? ==> chosen.value < k && st[chosen.value] == best
    requires chosen.Some? ==> forall j :: chosen.value < j < k ==> !Dominates(st[j], best)
    requires chosen.Some? && Dominates(st[0], Initial) ==> chosen.value == 0 || Dominates(best, st[0])
    requires chosen.None? ==> best == Initial
    requires chosen.None? ==> forall j :: 0 <= j < k ==> !Dominates(st[j], Initial)
    ensures Scan(st, k, best, chosen).None? ==> chosen.None? && forall j :: k <= j < |st| ==> !Dominates(st[j], best)
    ensures Scan(st, k, best, chosen).Some? ==>
              var r := Scan(st, k, best, chosen).value;
              && r < |st|
              && (forall j :: r < j < |st| ==> !Dominates(st[j], st[r]))
              && (Dominates(st[0], Initial) ==> r == 0 || Dominates(st[r], st[0]))
    decreases |st| - k
  {
    if k < |st| {
      if Dominates(st[k], best) {
        if chosen.Some? && chosen.value != 0 && Dominates(st[0], Initial) {
          assert Dominates(st[k], st[0]);
        }
        ScanChosen(st, k + 1, st[k], Some(k));
      } else {
        ScanChosen(st, k + 1, best, chosen);
      }
    }
  }

  /**
   * With non-negative statistics the first child is always accepted, so the
   * report is absent exactly when there are no children. The reported child
   * is not beaten on both measures by any later child, and it is either the
   * first child or beats the first child on both measures.
   */
  lemma BestIndexSpec(st: seq<Stat>)
    requires forall j :: 0 <= j < |st| ==> st[j].rate >= 0.0 && st[j].visits >= 0
    ensures BestIndex(st).None? <==> st == []
    ensures BestIndex(st).Some? ==>
              var r := BestIndex(st).value;
              && r < |st|
              && (forall j :: r < j < |st| ==> !Dominates(st[j], st[r]))
              && (r == 0 || Dominates(st[r], st[0]))
  {
    ScanChosen(st, 0, Initial, None);
    if st != [] {
      assert Dominates(st[0], Initial);
      ScanChosen(st, 1, st[0], Some(0));
    }
  }

  /**
   * The acceptance rule is neither a maximum of the rate nor of the visits:
   * with children (3 wins of 4), (5 of 10) and (2 of 2) the first one is
   * reported, although the third has the best rate and the second the most
   * visits.
   */
  lemma BestIndexIsNotAMaximum()
    ensures var st := [Stat(3.0 / 4.0, 4), Stat(5.0 / 10.0, 10), Stat(2.0 / 2.0, 2)];
            && BestIndex(st) == Some(0)
            && (forall j :: 0 <= j < 3 ==> st[j].rate <= st[2].rate)
            && (forall j :: 0 <= j < 3 ==> st[j].visits <= st[1].visits)
  {
  }
}
