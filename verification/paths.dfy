/** Sequences of legal moves of the empty space, the configuration they lead
    to, their inverses, and the solvability of a configuration.

    A path lists, move by move, the cell the empty space slides into.
 */
module Paths {
  import opened Board

  /** Every step of `path` slides the empty space, starting at `e`, into one
      of its current neighbours. */
  predicate LegalPath(e: int, path: seq<int>)
    decreases |path|
  {
    |path| == 0 || (path[0] in ValidMoves(e) && LegalPath(path[0], path[1..]))
  }

  /** Where the empty space ends up after following `path` from `e`. */
  function EndGap(e: int, path: seq<int>): int {
    if |path| == 0 then e else path[|path| - 1]
  }

  /** The configuration reached by playing `path` from `c`. */
  function Replay(c: Config, path: seq<int>): (r: Config)
    requires Shaped(c) && LegalPath(c.emptyIndex, path)
    ensures Shaped(r) && r.emptyIndex == EndGap(c.emptyIndex, path)
    ensures multiset(r.board) == multiset(c.board)
    ensures WellFormed(c) ==> WellFormed(r)
    decreases |path|
  {
    if |path| == 0 then c
    else
      ValidMovesAreNeighbours(c.emptyIndex);
      Replay(Slide(c, path[0]), path[1..])
  }

  lemma {:induction false} LegalPathAppend(e: int, p: seq<int>, q: seq<int>)
    ensures LegalPath(e, p + q) <==> LegalPath(e, p) && LegalPath(EndGap(e, p), q)
    decreases |p|
  {
    if |p| > 0 {
      assert (p + q)[1..] == p[1..] + q;
      LegalPathAppend(p[0], p[1..], q);
    } else {
      assert p + q == q;
    }
  }

  /** Playing `p + q` is playing `p`, then `q`. */
  lemma {:induction false} ReplayAppend(c: Config, p: seq<int>, q: seq<int>)
    requires Shaped(c) && LegalPath(c.emptyIndex, p + q)
    ensures LegalPath(c.emptyIndex, p) && LegalPath(EndGap(c.emptyIndex, p), q)
    ensures Replay(c, p + q) == Replay(Replay(c, p), q)
    decreases |p|
  {
    LegalPathAppend(c.emptyIndex, p, q);
    if |p| > 0 {
      ValidMovesAreNeighbours(c.emptyIndex);
      assert (p + q)[1..] == p[1..] + q;
      ReplayAppend(Slide(c, p[0]), p[1..], q);
    } else {
      assert p + q == q;
    }
  }

  /** The path that walks the empty space back along `path`, from its end to `e`. */
  function Inverse(e: int, path: seq<int>): (r: seq<int>)
    ensures |r| == |path|
    decreases |path|
  {
    if |path| == 0 then [] else Inverse(path[0], path[1..]) + [e]
  }

  /** The inverse of a legal path is legal from the path's end and brings the
      empty space home to `e`. */
  lemma {:induction false} InverseLegal(e: int, path: seq<int>)
    requires 0 <= e < Cells && LegalPath(e, path)
    ensures LegalPath(EndGap(e, path), Inverse(e, path))
    ensures EndGap(EndGap(e, path), Inverse(e, path)) == e
    decreases |path|
  {
    if |path| > 0 {
      var x := path[0];
      ValidMovesAreNeighbours(e);
      assert EndGap(e, path) == EndGap(x, path[1..]);
      InverseLegal(x, path[1..]);
      ValidMovesSymmetric(e, x);
      LegalPathAppend(EndGap(x, path[1..]), Inverse(x, path[1..]), [e]);
    }
  }

  /** Playing a path and then its inverse restores the configuration. */
  lemma {:induction false} ReplayInverse(c: Config, path: seq<int>)
    requires Shaped(c) && LegalPath(c.emptyIndex, path)
    ensures LegalPath(Replay(c, path).emptyIndex, Inverse(c.emptyIndex, path))
    ensures Replay(Replay(c, path), Inverse(c.emptyIndex, path)) == c
    decreases |path|
  {
    InverseLegal(c.emptyIndex, path);
    if |path| > 0 {
      var x := path[0];
      ValidMovesAreNeighbours(c.emptyIndex);
      var c1 := Slide(c, x);
      var back := Inverse(x, path[1..]);
      ReplayInverse(c1, path[1..]);
      ReplayAppend(Replay(c1, path[1..]), back, [c.emptyIndex]);
      SlideUndo(c, x);
    }
  }

  /** A configuration is solvable when some legal path leads to the solved one. */
  ghost predicate Solvable(c: Config) {
    Shaped(c) && exists path :: LegalPath(c.emptyIndex, path) && Replay(c, path) == SolvedConfig()
  }

  /** A configuration is reachable when some legal path leads to it from the solved one. */
  ghost predicate Reachable(c: Config) {
    exists path :: LegalPath(HomeGap, path) && Replay(SolvedConfig(), path) == c
  }

  /** Solvable and reachable from the solved configuration are the same thing,
      because every legal path can be walked back. */
  lemma SolvableIffReachable(c: Config)
    requires Shaped(c)
    ensures Solvable(c) <==> Reachable(c)
  {
    if Solvable(c) {
      var path :| LegalPath(c.emptyIndex, path) && Replay(c, path) == SolvedConfig();
      ReplayInverse(c, path);
      assert LegalPath(HomeGap, Inverse(c.emptyIndex, path));
    }
    if Reachable(c) {
      var path :| LegalPath(HomeGap, path) && Replay(SolvedConfig(), path) == c;
      ReplayInverse(SolvedConfig(), path);
      assert LegalPath(c.emptyIndex, Inverse(HomeGap, path));
    }
  }

  lemma SolvedConfigSolvable()
    ensures Solvable(SolvedConfig())
  {
    assert LegalPath(HomeGap, []);
  }

  /** Every configuration a legal path leads to from a solvable one is solvable. */
  lemma ReplayPreservesSolvable(c: Config, path: seq<int>)
    requires Shaped(c) && LegalPath(c.emptyIndex, path) && Solvable(c)
    ensures Solvable(Replay(c, path))
  {
    var home :| LegalPath(c.emptyIndex, home) && Replay(c, home) == SolvedConfig();
    var d := Replay(c, path);
    var back := Inverse(c.emptyIndex, path);
    ReplayInverse(c, path);
    var p := back + home;
    ConcatLegal(d, back, home);
    assert Replay(d, p) == Replay(Replay(d, back), home) == Replay(c, home) == SolvedConfig();
    assert LegalPath(d.emptyIndex, p) && Replay(d, p) == SolvedConfig();
  }

  /** Two legal paths, the second starting where the first ends, join into
      one legal path that plays them in turn. */
  lemma ConcatLegal(c: Config, p: seq<int>, q: seq<int>)
    requires Shaped(c) && LegalPath(c.emptyIndex, p)
    requires LegalPath(EndGap(c.emptyIndex, p), q)
    ensures LegalPath(c.emptyIndex, p + q)
    ensures Replay(c, p + q) == Replay(Replay(c, p), q)
  {
    LegalPathAppend(c.emptyIndex, p, q);
    ReplayAppend(c, p, q);
  }

  /** A single slide is the one-step path. */
  lemma SlideIsReplay(c: Config, x: int)
    requires Shaped(c) && x in ValidMoves(c.emptyIndex)
    ensures LegalPath(c.emptyIndex, [x])
    ensures Replay(c, [x]) == Slide(c, x)
  {
    ValidMovesAreNeighbours(c.emptyIndex);
    assert [x][1..] == [];
  }
}
