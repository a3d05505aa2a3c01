/**
 * The game the search plays, seen only through the interface the engine
 * calls: the board object of the ultimate tic-tac-toe program is not part of
 * this model, so each of its queries is a function-valued field, and the
 * assumptions the engine makes of it are stated by `ValidGame`.
 */
module Games {
  import opened Wrappers

  /** A sub-board coordinate, the key of the ownership map. */
  type Box = (int, int)

  datatype Game<!S, !A> = Game(
    legal: S -> seq<A>,                  // legal_actions, in the board's order
    next: (S, A) -> S,                   // next_state; states are values and are never changed
    ended: S -> bool,                    // is_ended
    player: S -> int,                    // current_player
    points: S -> Option<map<int, int>>,  // points_values: None while the game is running
    owned: S -> map<Box, int>,           // owned_boxes: owner of every sub-board (0 when nobody)
    rank: S -> nat)                      // a measure every legal move decreases (finite games)

  ghost predicate NoDuplicates<A>(xs: seq<A>)
  {
    forall i, j :: 0 <= i < j < |xs| ==> xs[i] != xs[j]
  }

  /** What the engine relies on from the board. */
  ghost predicate ValidGame<S(!new), A(!new)>(g: Game<S, A>)
  {
    && (forall s ::
          && (g.legal(s) == [] <==> g.ended(s))
          && NoDuplicates(g.legal(s))
          && (g.player(s) == 1 || g.player(s) == 2)
          && (!g.ended(s) ==> g.points(s).None?)
          && (g.ended(s) ==> g.points(s).Some? && 1 in g.points(s).value && 2 in g.points(s).value))
    && (forall s, a :: a in g.legal(s) ==> g.rank(g.next(s, a)) < g.rank(s))
  }

  /** The optional ownership query: every move keeps the set of sub-boards. */
  ghost predicate OwnershipStable<S(!new), A(!new)>(g: Game<S, A>)
  {
    forall s, a :: g.owned(s).Keys <= g.owned(g.next(s, a)).Keys
  }

  /** The state reached by playing `moves` from `s`. */
  function Play<S, A>(g: Game<S, A>, s: S, moves: seq<A>): S
    decreases |moves|
  {
    if moves == [] then s else Play(g, g.next(s, moves[0]), moves[1..])
  }

  /** Every move of `moves` is legal in the state it is played from. */
  ghost predicate LegalRun<S, A>(g: Game<S, A>, s: S, moves: seq<A>)
    decreases |moves|
  {
    moves == [] || (moves[0] in g.legal(s) && LegalRun(g, g.next(s, moves[0]), moves[1..]))
  }
}
