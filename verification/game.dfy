/** The game session: the board and its cached empty index, the move counter,
    the elapsed seconds and the playing / complete flags, with the four
    transitions the game performs on them — reset, shuffle, tile click and
    timer tick.
 */
module Game {
  import opened Board
  import opened Paths
  import opened Shuffle

  datatype Session = Session(
    board: seq<int>,
    emptyIndex: int,
    moves: nat,
    time: nat,
    isPlaying: bool,
    isComplete: bool)
  {
    /** The board with its cached empty index. */
    function Layout(): Config {
      Config(board, emptyIndex)
    }
  }

  /** Reset: the solved board, counters at zero, not playing, not complete. */
  function Initialize(): (s: Session)
    ensures |s.board| == Cells
    ensures forall i :: 0 <= i < HomeGap ==> s.board[i] == i + 1
    ensures s.board[HomeGap] == Empty && s.emptyIndex == HomeGap
    ensures s.moves == 0 && s.time == 0
    ensures !s.isPlaying && !s.isComplete
    ensures IsSolved(s.board)
  {
    Session(SolvedBoard(), HomeGap, 0, 0, false, false)
  }

  /** A click on `index` is acted on only during play, before the win, and
      only on a neighbour of the empty space. */
  predicate Accepts(s: Session, index: int): (accepted: bool)
    ensures 0 <= s.emptyIndex < Cells ==>
      (accepted <==> s.isPlaying && !s.isComplete && Adjacent(s.emptyIndex, index))
  {
    s.isPlaying && !s.isComplete && index in ValidMoves(s.emptyIndex)
  }

  /** A click on the tile at `index`. */
  function Click(s: Session, index: int): (r: Session)
    requires Shaped(s.Layout())
    ensures Shaped(r.Layout())
    ensures !Accepts(s, index) ==> r == s
    ensures index < 0 || index >= Cells ==> r == s
    ensures Accepts(s, index) ==>
      && r.board[s.emptyIndex] == s.board[index]
      && r.board[index] == s.board[s.emptyIndex]
      && (forall k :: 0 <= k < Cells && k != index && k != s.emptyIndex ==> r.board[k] == s.board[k])
      && r.emptyIndex == index
      && r.moves == s.moves + 1
      && r.time == s.time
    ensures Accepts(s, index) ==>
      && (r.isComplete <==> IsSolved(r.board))
      && (r.isPlaying <==> !IsSolved(r.board))
  {
    ValidMovesAreNeighbours(s.emptyIndex);
    if !s.isPlaying || s.isComplete then s
    else if index in ValidMoves(s.emptyIndex) then
      var board := Swap(s.board, s.emptyIndex, index);
      var solved := IsSolved(board);
      Session(
        board, index, s.moves + 1, s.time,
        if solved then false else s.isPlaying,
        if solved then true else s.isComplete)
    else s
  }

  /** One pulse of the one-second timer: time advances only while playing
      and not complete. */
  function Tick(s: Session): (r: Session)
    ensures r.board == s.board && r.emptyIndex == s.emptyIndex && r.moves == s.moves
    ensures r.isPlaying == s.isPlaying && r.isComplete == s.isComplete
    ensures r.time == (if s.isPlaying && !s.isComplete then s.time + 1 else s.time)
  {
    if s.isPlaying && !s.isComplete then s.(time := s.time + 1) else s
  }

  /** Shuffle: 1000 random slides of the empty space from the current board,
      then a new game starts. */
  method ShuffleBoard(s: Session, draws: seq<real>) returns (t: Session)
    requires Shaped(s.Layout()) && |draws| == Rounds && ValidDraws(draws)
    ensures t.Layout() == Walk(s.Layout(), draws)
    ensures LegalPath(s.emptyIndex, Trail(s.emptyIndex, draws))
    ensures |Trail(s.emptyIndex, draws)| == Rounds
    ensures Replay(s.Layout(), Trail(s.emptyIndex, draws)) == t.Layout()
    ensures WellFormed(s.Layout()) ==> WellFormed(t.Layout())
    ensures Solvable(s.Layout()) ==> Solvable(t.Layout())
    ensures t.moves == 0 && t.time == 0 && t.isPlaying && !t.isComplete
  {
    var board := s.board;
    var current := s.emptyIndex;
    var i := 0;
    while i < Rounds
      invariant 0 <= i <= Rounds
      invariant Shaped(Config(board, current))
      invariant ValidDraws(draws[i..])
      invariant Walk(Config(board, current), draws[i..]) == Walk(s.Layout(), draws)
    {
      var moves := ValidMoves(current);
      var randomMove := moves[PickIndex(draws[i], |moves|)];
      ValidMovesAreNeighbours(current);
      assert draws[i..][0] == draws[i] && draws[i..][1..] == draws[i + 1..];
      board := Swap(board, current, randomMove);
      current := randomMove;
      i := i + 1;
    }
    t := Session(board, current, 0, 0, true, false);
    WalkFollowsTrail(s.Layout(), draws);
    if Solvable(s.Layout()) {
      WalkPreservesSolvable(s.Layout(), draws);
    }
  }

  /** Clicking back on the cell the empty space just left undoes the move. */
  lemma ClickBackUndoes(s: Session, index: int)
    requires Shaped(s.Layout()) && Accepts(s, index) && !IsSolved(Click(s, index).board)
    ensures Accepts(Click(s, index), s.emptyIndex)
    ensures Click(Click(s, index), s.emptyIndex).Layout() == s.Layout()
    ensures Click(Click(s, index), s.emptyIndex).moves == s.moves + 2
    ensures Click(Click(s, index), s.emptyIndex).isComplete <==> IsSolved(s.board)
  {
    ValidMovesAreNeighbours(s.emptyIndex);
    ValidMovesSymmetric(s.emptyIndex, index);
    assert Click(s, index).Layout() == Slide(s.Layout(), index);
    assert Click(Click(s, index), s.emptyIndex).Layout() == Slide(Slide(s.Layout(), index), s.emptyIndex);
    SlideUndo(s.Layout(), index);
  }

  /** The empty cell itself is never a legal click target. */
  lemma ClickOnGapRejected(s: Session)
    requires Shaped(s.Layout())
    ensures Click(s, s.emptyIndex) == s
  {
  }

  /** From the solved board during play, clicking cell 11 slides tile 12 down. */
  lemma ClickExample()
    ensures var s := Click(Initialize().(isPlaying := true), 11);
      && s.emptyIndex == 11 && s.board[HomeGap] == 12 && s.board[11] == Empty
      && s.moves == 1 && s.isPlaying && !s.isComplete
  {
    var s0 := Initialize().(isPlaying := true);
    var s := Click(s0, 11);
    assert !IsSolved(s.board) by {
      assert s.board[11] != 11 + 1;
    }
  }

  /** A sequence of clicks, one after another. */
  function Clicks(s: Session, indices: seq<int>): (r: Session)
    requires Shaped(s.Layout())
    ensures Shaped(r.Layout())
    ensures !s.isPlaying || s.isComplete ==> r == s
    ensures r.moves <= s.moves + |indices|
    decreases |indices|
  {
    if |indices| == 0 then s else Clicks(Click(s, indices[0]), indices[1..])
  }

  /** No board the path passes through, after its first slide, is solved. */
  predicate AvoidsSolved(c: Config, path: seq<int>)
    requires Shaped(c) && LegalPath(c.emptyIndex, path)
    decreases |path|
  {
    if |path| == 0 then true
    else
      ValidMovesAreNeighbours(c.emptyIndex);
      var next := Slide(c, path[0]);
      !IsSolved(next.board) && AvoidsSolved(next, path[1..])
  }

  /** During play, clicking along a legal path that never passes through the
      solved board accepts every click: the session follows the path, counts
      one move per click and stays in play. */
  lemma {:induction false} ClicksFollowPath(s: Session, path: seq<int>)
    requires Shaped(s.Layout()) && s.isPlaying && !s.isComplete
    requires LegalPath(s.emptyIndex, path) && AvoidsSolved(s.Layout(), path)
    ensures Clicks(s, path).Layout() == Replay(s.Layout(), path)
    ensures Clicks(s, path).moves == s.moves + |path|
    ensures Clicks(s, path).time == s.time
    ensures Clicks(s, path).isPlaying && !Clicks(s, path).isComplete
    decreases |path|
  {
    if |path| > 0 {
      ValidMovesAreNeighbours(s.emptyIndex);
      var s1 := Click(s, path[0]);
      assert s1.Layout() == Slide(s.Layout(), path[0]);
      ClicksFollowPath(s1, path[1..]);
    }
  }

  /** Clicking along a legal path that ends on the solved board wins the
      game, at the latest with the path's last click and possibly earlier:
      once the board is solved, the remaining clicks are ignored. */
  lemma {:induction false} ClicksReachSolved(s: Session, path: seq<int>)
    requires WellFormed(s.Layout()) && s.isPlaying && !s.isComplete
    requires |path| > 0 && LegalPath(s.emptyIndex, path)
    requires Replay(s.Layout(), path) == SolvedConfig()
    ensures Clicks(s, path).Layout() == SolvedConfig()
    ensures Clicks(s, path).isComplete && !Clicks(s, path).isPlaying
    decreases |path|
  {
    var x := path[0];
    ValidMovesAreNeighbours(s.emptyIndex);
    var s1 := Click(s, x);
    assert s1.Layout() == Slide(s.Layout(), x);
    SlidePreservesWellFormed(s.Layout(), x);
    assert Clicks(s, path) == Clicks(s1, path[1..]);
    if IsSolved(s1.board) {
      WellFormedGapUnique(s1.Layout());
    } else {
      assert Replay(s1.Layout(), path[1..]) == SolvedConfig();
      assert |path[1..]| > 0;
      ClicksReachSolved(s1, path[1..]);
    }
  }

  /** Undoing a shuffle wins: after a shuffle from the solved board, clicking
      the shuffle's slides back in reverse order ends on the solved board
      with the game complete. */
  lemma ShuffleThenUnshuffleWins(draws: seq<real>, t: Session)
    requires ValidDraws(draws) && |draws| > 0
    requires t.Layout() == Walk(SolvedConfig(), draws) && t.isPlaying && !t.isComplete
    ensures Clicks(t, Inverse(HomeGap, Trail(HomeGap, draws))).Layout() == SolvedConfig()
    ensures Clicks(t, Inverse(HomeGap, Trail(HomeGap, draws))).isComplete
  {
    var trail := Trail(HomeGap, draws);
    SolvedConfigWellFormed();
    WalkFollowsTrail(SolvedConfig(), draws);
    ReplayInverse(SolvedConfig(), trail);
    ClicksReachSolved(t, Inverse(HomeGap, trail));
  }

  /** The invariant of every session the game can be in: a well-formed,
      solvable board; never playing and complete at once; complete only on
      the solved board. */
  ghost predicate Inv(s: Session) {
    && WellFormed(s.Layout())
    && Solvable(s.Layout())
    && !(s.isPlaying && s.isComplete)
    && (s.isComplete ==> s.Layout() == SolvedConfig())
  }

  lemma InitializeEstablishesInv()
    ensures Inv(Initialize())
  {
    SolvedConfigWellFormed();
    SolvedConfigSolvable();
  }

  /** A click, accepted or not, keeps the invariant. */
  lemma ClickPreservesInv(s: Session, index: int)
    requires Inv(s)
    ensures Inv(Click(s, index))
  {
    if Accepts(s, index) {
      var r := Click(s, index);
      assert r.Layout() == Slide(s.Layout(), index);
      SlidePreservesWellFormed(s.Layout(), index);
      SlideIsReplay(s.Layout(), index);
      ReplayPreservesSolvable(s.Layout(), [index]);
      if r.isComplete {
        WellFormedGapUnique(r.Layout());
      }
    }
  }

  lemma TickPreservesInv(s: Session)
    requires Inv(s)
    ensures Inv(Tick(s))
  {
    assert Tick(s).Layout() == s.Layout();
  }
}
