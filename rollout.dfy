/**
 * Playing a state out to the end of the game, and scoring the end. The
 * random choice among legal moves is drawn from an injected random stream:
 * step `k` of a playout (the source's `starter` counter) plays the legal move
 * at index `rand(k) % |moves|`.
 */
module Rollout {
  import opened Wrappers
  import opened Games

  /**
   * Move `m` played from `s` changes the owner of some sub-board to the bot,
   * for a bot playing as 1 or as 2.
   */
  predicate Captures<S(!new), A(!new)>(g: Game<S, A>, s: S, m: A, bot: int)
    requires OwnershipStable(g)
  {
    var before := g.owned(s);
    var after := g.owned(g.next(s, m));
    exists b | b in before ::
      || (bot == 1 && before[b] != after[b] && after[b] == 1)
      || (bot == 2 && before[b] != after[b] && after[b] == 2)
  }

  /**
   * The heuristic move: the first of `moves`, in order, that captures a
   * sub-board for the bot when played from `s`; None when none does.
   */
  function Heuristic<S(!new), A(!new)>(g: Game<S, A>, s: S, moves: seq<A>, bot: int): (r: Option<A>)
    requires OwnershipStable(g)
    ensures r.None? <==> forall k :: 0 <= k < |moves| ==> !Captures(g, s, moves[k], bot)
    ensures r.Some? ==>
              exists k :: 0 <= k < |moves| && moves[k] == r.value && Captures(g, s, moves[k], bot)
                          && forall j :: 0 <= j < k ==> !Captures(g, s, moves[j], bot)
    decreases |moves|
  {
    if moves == [] then None
    else if Captures(g, s, moves[0], bot) then Some(moves[0])
    else
      var r := Heuristic(g, s, moves[1..], bot);
      assert forall k :: 1 <= k < |moves| ==> moves[k] == moves[1..][k - 1];
      r
  }

  /** The heuristic's move is one of the candidates. */
  lemma HeuristicPicksCandidate<S(!new), A(!new)>(g: Game<S, A>, s: S, moves: seq<A>, bot: int)
    requires OwnershipStable(g)
    ensures Heuristic(g, s, moves, bot).Some? ==>
              Heuristic(g, s, moves, bot).value in moves && Captures(g, s, Heuristic(g, s, moves, bot).value, bot)
  {
  }

  /** The moves of a random playout from `s`, `step` moves into it. */
  function RandomMoves<S(!new), A(!new)>(g: Game<S, A>, s: S, rand: nat -> nat, step: nat): (ms: seq<A>)
    requires ValidGame(g)
    ensures LegalRun(g, s, ms) && g.ended(Play(g, s, ms))
    decreases g.rank(s)
  {
    if g.ended(s) then []
    else
      var moves := g.legal(s);
      var m := moves[rand(step + 1) % |moves|];
      var rest := RandomMoves(g, g.next(s, m), rand, step + 1);
      assert ([m] + rest)[1..] == rest;
      [m] + rest
  }

  /**
   * The moves of a heuristic-first playout: at every step the heuristic
   * move, when there is one, else a random legal move. As in the source the
   * heuristic compares sub-board owners before and after each candidate
   * played from the playout's STARTING state `start`, while the candidates
   * are the legal moves of the current state `s`.
   */
  function HeuristicMoves<S(!new), A(!new)>(g: Game<S, A>, start: S, s: S, bot: int, rand: nat -> nat, step: nat): (ms: seq<A>)
    requires ValidGame(g) && OwnershipStable(g)
    ensures LegalRun(g, s, ms) && g.ended(Play(g, s, ms))
    decreases g.rank(s)
  {
    if g.ended(s) then []
    else
      var moves := g.legal(s);
      var h := Heuristic(g, start, moves, bot);
      HeuristicPicksCandidate(g, start, moves, bot);
      var m := if h.Some? then h.value else moves[rand(step + 1) % |moves|];
      var rest := HeuristicMoves(g, start, g.next(s, m), bot, rand, step + 1);
      assert ([m] + rest)[1..] == rest;
      [m] + rest
  }

  /**
   * Each step of a heuristic-first playout takes the capturing move when
   * the heuristic finds one, and falls back to the random legal move only
   * when no candidate captures anything.
   */
  lemma HeuristicStep<S(!new), A(!new)>(g: Game<S, A>, start: S, s: S, bot: int, rand: nat -> nat, step: nat)
    requires ValidGame(g) && OwnershipStable(g) && !g.ended(s)
    ensures var ms := HeuristicMoves(g, start, s, bot, rand, step);
            var moves := g.legal(s);
            && 0 < |ms| && ms[0] in moves
            && (Captures(g, start, ms[0], bot) || forall m :: m in moves ==> !Captures(g, start, m, bot))
            && ((exists m :: m in moves && Captures(g, start, m, bot)) ==> ms[0] == Heuristic(g, start, moves, bot).value)
  {
    var moves := g.legal(s);
    HeuristicPicksCandidate(g, start, moves, bot);
    if exists m :: m in moves && Captures(g, start, m, bot) {
      var m :| m in moves && Captures(g, start, m, bot);
      var k :| 0 <= k < |moves| && moves[k] == m;
      assert Heuristic(g, start, moves, bot).Some?;
    }
  }

  /** Plays `s` out with random moves; the result is an ended state reached by legal moves. */
  method RandomRollout<S(!new), A(!new)>(g: Game<S, A>, s: S, rand: nat -> nat) returns (t: S)
    requires ValidGame(g)
    ensures g.ended(t)
    ensures t == Play(g, s, RandomMoves(g, s, rand, 0))
  {
    var current := s;
    var starter := 0;
    while !g.ended(current)
      invariant Play(g, current, RandomMoves(g, current, rand, starter)) == Play(g, s, RandomMoves(g, s, rand, 0))
      decreases g.rank(current)
    {
      starter := starter + 1;
      var moves := g.legal(current);
      var m := moves[rand(starter) % |moves|];
      current := g.next(current, m);
    }
    t := current;
  }

  /** Plays `s` out heuristic-first; the result is an ended state reached by legal moves. */
  method HeuristicRollout<S(!new), A(!new)>(g: Game<S, A>, s: S, bot: int, rand: nat -> nat) returns (t: S)
    requires ValidGame(g) && OwnershipStable(g)
    ensures g.ended(t)
    ensures t == Play(g, s, HeuristicMoves(g, s, s, bot, rand, 0))
  {
    var current := s;
    var starter := 0;
    while !g.ended(current)
      invariant Play(g, current, HeuristicMoves(g, s, current, bot, rand, starter)) == Play(g, s, HeuristicMoves(g, s, s, bot, rand, 0))
      decreases g.rank(current)
    {
      starter := starter + 1;
      var moves := g.legal(current);
      var m := Heuristic(g, s, moves, bot);
      var chosen := if m.Some? then m.value else moves[rand(starter) % |moves|];
      HeuristicPicksCandidate(g, s, moves, bot);
      current := g.next(current, chosen);
    }
    t := current;
  }

  datatype WinError =
    | NotTerminal       // the board has no points for a running game
    | MissingIdentity   // the points have no entry for the bot

  /**
   * Whether the bot won the ended game `s`: its points entry is 1. Reports
   * an error instead for a game that has not ended.
   */
  function IsWin<S(!new), A(!new)>(g: Game<S, A>, s: S, bot: int): (r: Result<bool, WinError>)
    ensures ValidGame(g) ==> (r == Err(NotTerminal) <==> !g.ended(s))
    ensures ValidGame(g) && (bot == 1 || bot == 2) ==> (r.Ok? <==> g.ended(s))
    ensures r.Ok? ==> g.points(s).Some? && bot in g.points(s).value && (r.value <==> g.points(s).value[bot] == 1)
  {
    match g.points(s)
    case None => Err(NotTerminal)
    case Some(outcome) => if bot in outcome then Ok(outcome[bot] == 1) else Err(MissingIdentity)
  }
}
