/** The 4x4 sliding-tile board: cells, neighbours of a cell, the swap that moves
    the empty cell, the solved layout and the tile-set invariant.

    A board is a row-major sequence of 16 cells (index = row * 4 + col); the
    game's `null` empty cell is the value `Empty` (0), the tiles are 1..15.
 */
module Board {

  /** Number of columns, and of rows, of the grid. */
  const Width := 4
  /** Number of cells on the board. */
  const Cells := 16
  /** The cell value that stands for the empty space. */
  const Empty := 0
  /** Where the empty space sits on the solved board. */
  const HomeGap := 15

  /** A board together with the cached index of its empty cell. */
  datatype Config = Config(board: seq<int>, emptyIndex: int)

  /** The shape every board of the game has once it is mounted. */
  predicate Shaped(c: Config) {
    |c.board| == Cells && 0 <= c.emptyIndex < Cells
  }

  /** JavaScript's `%`: the remainder takes the sign of the dividend. */
  function JsRem(a: int, n: int): (r: int)
    requires n > 0
    ensures a >= 0 ==> r == a % n
    ensures a < 0 ==> -n < r <= 0
    ensures exists q :: a == q * n + r
  {
    if a >= 0 then
      assert a == (a / n) * n + a % n;
      a % n
    else
      var m := -a;
      assert a == (-(m / n)) * n + -(m % n);
      -(m % n)
  }

  function Abs(x: int): nat {
    if x < 0 then -x else x
  }

  /** Two cells are adjacent when both are on the grid and their (row, col)
      coordinates are at Manhattan distance one. */
  predicate Adjacent(i: int, j: int) {
    && 0 <= i < Cells && 0 <= j < Cells
    && Abs(i / Width - j / Width) + Abs(i % Width - j % Width) == 1
  }

  /** The cells the empty space at `e` may swap with, in the game's order:
      up, down, left, right. The row is `Math.floor(e / 4)`, which is Dafny's
      `/` for a positive divisor; the column is JavaScript's `e % 4`. */
  function ValidMoves(e: int): (r: seq<int>)
    ensures |r| > 0
    ensures forall k, l :: 0 <= k < l < |r| ==> r[k] != r[l]
  {
    var row := e / Width;
    var col := JsRem(e, Width);
    (if row > 0 then [e - Width] else [])
    + (if row < Width - 1 then [e + Width] else [])
    + (if col > 0 then [e - 1] else [])
    + (if col < Width - 1 then [e + 1] else [])
  }

  /** For a cell on the grid, `ValidMoves` lists exactly its grid neighbours:
      cells four apart in the same column or one apart in the same row. A
      corner has two, any other border cell three, an inner cell four. */
  lemma ValidMovesAreNeighbours(e: int)
    requires 0 <= e < Cells
    ensures forall j :: j in ValidMoves(e) <==> Adjacent(e, j)
    ensures forall j :: j in ValidMoves(e) ==>
      || ((j == e + Width || j == e - Width) && j % Width == e % Width)
      || ((j == e + 1 || j == e - 1) && j / Width == e / Width)
    ensures e in {0, 3, 12, 15} ==> |ValidMoves(e)| == 2
    ensures e in {1, 2, 4, 7, 8, 11, 13, 14} ==> |ValidMoves(e)| == 3
    ensures e in {5, 6, 9, 10} ==> |ValidMoves(e)| == 4
  {
  }

  /** The neighbour lists the game computes for its corners and one interior cell. */
  lemma ValidMovesExamples()
    ensures ValidMoves(0) == [4, 1]
    ensures ValidMoves(3) == [7, 2]
    ensures ValidMoves(5) == [1, 9, 4, 6]
    ensures ValidMoves(15) == [11, 14]
  {
  }

  /** Adjacency on the grid is symmetric: the empty space can always slide back. */
  lemma ValidMovesSymmetric(i: int, j: int)
    requires 0 <= i < Cells && 0 <= j < Cells
    ensures j in ValidMoves(i) <==> i in ValidMoves(j)
  {
  }

  /** Exchanges cells `i` and `j`. */
  function Swap(b: seq<int>, i: int, j: int): (r: seq<int>)
    requires 0 <= i < |b| && 0 <= j < |b|
    ensures |r| == |b|
    ensures r[i] == b[j] && r[j] == b[i]
    ensures forall k :: 0 <= k < |b| && k != i && k != j ==> r[k] == b[k]
    ensures multiset(r) == multiset(b)
  {
    b[i := b[j]][j := b[i]]
  }

  /** Moves the empty space of `c` to cell `x`: the two cells are exchanged
      and the cached empty index follows. */
  function Slide(c: Config, x: int): (r: Config)
    requires Shaped(c) && 0 <= x < Cells
    ensures Shaped(r) && r.emptyIndex == x
    ensures r.board[x] == c.board[c.emptyIndex] && r.board[c.emptyIndex] == c.board[x]
    ensures forall k :: 0 <= k < Cells && k != x && k != c.emptyIndex ==> r.board[k] == c.board[k]
  {
    Config(Swap(c.board, c.emptyIndex, x), x)
  }

  /** Sliding the empty space back to where it came from restores the configuration. */
  lemma SlideUndo(c: Config, x: int)
    requires Shaped(c) && 0 <= x < Cells
    ensures Slide(Slide(c, x), c.emptyIndex) == c
  {
    var b := Slide(Slide(c, x), c.emptyIndex).board;
    assert forall k :: 0 <= k < Cells ==> b[k] == c.board[k];
  }

  /** The solved board: tiles 1..15 in order, then the empty space. */
  function SolvedBoard(): (b: seq<int>)
    ensures |b| == Cells && b[HomeGap] == Empty
    ensures forall i :: 0 <= i < HomeGap ==> b[i] == i + 1
  {
    seq(HomeGap, i => i + 1) + [Empty]
  }

  /** The solved configuration the game starts from. */
  function SolvedConfig(): Config {
    Config(SolvedBoard(), HomeGap)
  }

  /** The game's win test: every cell holds its own number, except cell 15,
      which must be empty. On a 16-cell board it accepts exactly the solved
      board. */
  predicate IsSolved(b: seq<int>): (solved: bool)
    ensures |b| == Cells ==> (solved <==> b == SolvedBoard())
  {
    forall idx :: 0 <= idx < |b| ==> b[idx] == (if idx == HomeGap then Empty else idx + 1)
  }

  /** The board invariant: a permutation of the tiles 1..15 and one empty
      space, with the cached empty index pointing at the empty space. */
  predicate WellFormed(c: Config) {
    && Shaped(c)
    && multiset(c.board) == multiset(SolvedBoard())
    && c.board[c.emptyIndex] == Empty
  }

  lemma SolvedConfigWellFormed()
    ensures WellFormed(SolvedConfig())
  {
  }

  /** The empty value occurs exactly once on the solved board. */
  lemma SolvedBoardEmptyOnce()
    ensures multiset(SolvedBoard())[Empty] == 1
  {
    var tiles := seq(HomeGap, i => i + 1);
    assert SolvedBoard() == tiles + [Empty];
    assert Empty !in tiles;
    assert multiset(tiles)[Empty] == 0;
  }

  /** On a well-formed board the cached empty index is the only empty cell. */
  lemma WellFormedGapUnique(c: Config)
    requires WellFormed(c)
    ensures forall i :: 0 <= i < Cells ==> (c.board[i] == Empty <==> i == c.emptyIndex)
  {
    SolvedBoardEmptyOnce();
    forall i | 0 <= i < Cells && i != c.emptyIndex
      ensures c.board[i] != Empty
    {
      RepeatedValueCountsTwice(c.board, i, c.emptyIndex);
    }
  }

  /** A value held by two distinct cells occurs at least twice in the board's multiset. */
  lemma RepeatedValueCountsTwice(b: seq<int>, i: int, j: int)
    requires 0 <= i < |b| && 0 <= j < |b| && i != j
    ensures b[i] == b[j] ==> multiset(b)[b[i]] >= 2
  {
    var b' := b[j := b[j] + 1];
    assert multiset(b') == multiset(b) - multiset{b[j]} + multiset{b[j] + 1};
    assert b'[i] in multiset(b');
  }

  /** A neighbour of the empty space is on the grid, and sliding into it
      keeps the board invariant. */
  lemma SlidePreservesWellFormed(c: Config, x: int)
    requires Shaped(c) && x in ValidMoves(c.emptyIndex)
    ensures 0 <= x < Cells
    ensures WellFormed(c) ==> WellFormed(Slide(c, x))
  {
    ValidMovesAreNeighbours(c.emptyIndex);
  }
}
