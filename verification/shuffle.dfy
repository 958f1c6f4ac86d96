/** The random walk that shuffles the board. The game draws
    `Math.random()` once per round; here the draws are an input sequence of
    reals in [0, 1), and a draw picks `Math.floor(draw * n)` among the `n`
    current neighbours of the empty space.
 */
module Shuffle {
  import opened Board
  import opened Paths

  /** How many random slides one shuffle performs. */
  const Rounds := 1000

  /** Every draw is a possible value of `Math.random()`. */
  predicate ValidDraws(draws: seq<real>) {
    forall k :: 0 <= k < |draws| ==> 0.0 <= draws[k] < 1.0
  }

  /** `Math.floor(draw * n)`: a draw in [0, 1) picks a position among `n`. */
  function PickIndex(draw: real, n: nat): (k: nat)
    requires 0.0 <= draw < 1.0 && n > 0
    ensures k < n
    ensures k as real <= draw * n as real < k as real + 1.0
  {
    assert draw * n as real < n as real by {
      assert (1.0 - draw) * n as real > 0.0;
    }
    (draw * n as real).Floor
  }

  /** The cell a draw sends the empty space at `e` into. */
  function Choose(e: int, draw: real): (x: int)
    requires 0.0 <= draw < 1.0
    ensures x in ValidMoves(e)
  {
    var moves := ValidMoves(e);
    moves[PickIndex(draw, |moves|)]
  }

  /** The cells the empty space visits, one per draw, starting from `e`. */
  function Trail(e: int, draws: seq<real>): (path: seq<int>)
    requires ValidDraws(draws)
    ensures |path| == |draws|
    ensures LegalPath(e, path)
    decreases |draws|
  {
    if |draws| == 0 then []
    else
      var x := Choose(e, draws[0]);
      [x] + Trail(x, draws[1..])
  }

  /** The board after one slide per draw, started from `c`. */
  function Walk(c: Config, draws: seq<real>): (r: Config)
    requires Shaped(c) && ValidDraws(draws)
    ensures Shaped(r)
    ensures WellFormed(c) ==> WellFormed(r)
    decreases |draws|
  {
    if |draws| == 0 then c
    else
      ValidMovesAreNeighbours(c.emptyIndex);
      var x := Choose(c.emptyIndex, draws[0]);
      SlidePreservesWellFormed(c, x);
      Walk(Slide(c, x), draws[1..])
  }

  /** The walk is the legal path its draws choose: the shuffled board is
      reachable from the starting board by exactly one legal move per draw. */
  lemma {:induction false} WalkFollowsTrail(c: Config, draws: seq<real>)
    requires Shaped(c) && ValidDraws(draws)
    ensures Replay(c, Trail(c.emptyIndex, draws)) == Walk(c, draws)
    decreases |draws|
  {
    if |draws| > 0 {
      ValidMovesAreNeighbours(c.emptyIndex);
      var x := Choose(c.emptyIndex, draws[0]);
      var path := Trail(c.emptyIndex, draws);
      assert path[0] == x && path[1..] == Trail(x, draws[1..]);
      WalkFollowsTrail(Slide(c, x), draws[1..]);
    }
  }

  /** Shuffling from a solvable board gives a solvable board. */
  lemma WalkPreservesSolvable(c: Config, draws: seq<real>)
    requires Shaped(c) && ValidDraws(draws) && Solvable(c)
    ensures Solvable(Walk(c, draws))
  {
    WalkFollowsTrail(c, draws);
    ReplayPreservesSolvable(c, Trail(c.emptyIndex, draws));
  }
}
