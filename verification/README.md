# 15-puzzle engine of the puzzle game

A Dafny model of the sliding-tile engine inside the `AestheticPuzzleGame`
React component (`puzzle-game/src/App.js`). The board is a row-major 4×4
grid of 16 cells held as a `seq<int>`. The tiles are 1..15 and the game's
`null` empty cell is `0` (`Board.Empty`). A session (`Game.Session`) holds the board,
the cached empty index, the move counter, the elapsed seconds and the
`isPlaying` / `isComplete` flags. All transitions are pure functions over that
immutable value. The one exception is the shuffle, which is a method whose loop
mirrors the game's `for` loop.

Modules, one per concern of the component:

- `Board` (`board.dfy`): the grid and its cells. `ValidMoves` is
  `getValidMoves`. `Slide` is the swap that moves the empty cell. `IsSolved`
  is the win test. `WellFormed` is the tile-set invariant: the board is a
  permutation of 1..15 plus one empty cell, and `board[emptyIndex]` is that
  empty cell.
- `Paths` (`paths.dfy`): sequences of legal moves (`LegalPath`) and where
  they lead (`Replay`). `Inverse` walks a path back. A board is solvable
  (`Solvable`) when some path leads from it to the solved board, and
  reachable (`Reachable`) when some path leads to it from the solved board.
- `Shuffle` (`shuffle.dfy`): the shuffle's random walk. `Math.random()` becomes an input
  sequence of draws, each a real in [0, 1). A draw picks
  `Math.floor(draw * n)` among the `n` current neighbours of the empty cell.
- `Game` (`game.dfy`): the session and its four transitions. `Initialize`
  is `initializeBoard`. `Click` is `handleTileClick`. `ShuffleBoard` is
  `shuffleBoard`. `Tick` is one step of the timer. `Inv` is the invariant
  every session keeps.
- `TimeFormat` (`time_format.dfy`): `formatTime`, the `MM:SS` display.

The `## Model` table below lists each member with the App.js lines it
models. Notes on how the code behaves:

- `getValidMoves` returns an ordered array (up, down, left, right). The order
  decides which neighbour a random draw picks, so the model keeps it.
- The click handler returns nothing. Whether a click was accepted is the
  predicate `Game.Accepts`.
- Clicking a shuffle's moves back in reverse order ends on the solved board.
  The win can come before the last reverse click, because clicks stop being
  accepted once the board is solved. `Game.ShuffleThenUnshuffleWins` states
  both.
- A shuffle can leave the board in its solved layout. The session is then
  playing on a solved board, and the next click moves away from it.

## Model

| member | source | states |
|---|---|---|
| Board.JsRem | puzzle-game/src/App.js:77 | JavaScript's `%` keeps the dividend's sign. For a non-negative index it is the ordinary remainder; for a negative one it lies in (-n, 0]. In both cases the dividend minus the result is a multiple of `n`. |
| Board.ValidMoves | puzzle-game/src/App.js:74-85 | Returns a non-empty neighbour list with no repeated cell, for every integer input. |
| Board.ValidMovesAreNeighbours | puzzle-game/src/App.js:74-85 | For a cell on the grid, the list holds exactly the cells at grid (Manhattan) distance one. Each is 4 away in the same column or 1 away in the same row. A corner has 2 entries, another border cell 3, an inner cell 4. |
| Board.ValidMovesExamples | puzzle-game/src/App.js:79-82 | Returns `[4,1]` for 0, `[7,2]` for 3, `[1,9,4,6]` for 5 and `[11,14]` for 15. |
| Board.ValidMovesSymmetric | puzzle-game/src/App.js:79-82 | `j` is a neighbour of `i` exactly when `i` is a neighbour of `j`. |
| Board.Swap | puzzle-game/src/App.js:94 | The destructuring swap exchanges the two cells. It changes no other cell and keeps the multiset of values. |
| Board.Slide | puzzle-game/src/App.js:94-97 | Moving the empty cell to `x` exchanges the two cells, moves the cached empty index to `x` and touches nothing else. |
| Board.SlideUndo | puzzle-game/src/App.js:94 | Sliding back to the previous empty index restores the board and the empty index. |
| Board.SolvedBoard | puzzle-game/src/App.js:17-18 | The solved board has 16 cells: `i+1` at every index below 15 and the empty cell at 15. |
| Board.IsSolved | puzzle-game/src/App.js:101-104 | On a 16-cell board, the `every` win test accepts exactly the solved board. |
| Board.SolvedConfigWellFormed | puzzle-game/src/App.js:17-20 | The initial board with `emptyIndex = 15` satisfies the tile-set invariant. |
| Board.SolvedBoardEmptyOnce | puzzle-game/src/App.js:17-18 | The solved board has exactly one empty cell. |
| Board.WellFormedGapUnique | puzzle-game/src/App.js:94-97 | Under the tile-set invariant, the cached empty index is the only empty cell. |
| Board.SlidePreservesWellFormed | puzzle-game/src/App.js:94-97 | A neighbour of the empty cell is on the grid, and a slide to it keeps the tile-set invariant. |
| Paths.Replay | puzzle-game/src/App.js:56-63 | A sequence of legal slides keeps the shape and the multiset of values. It keeps the tile-set invariant and ends with the empty cell at the path's last cell. |
| Paths.InverseLegal | puzzle-game/src/App.js:79-82 | Walking the visited cells back in reverse order is itself a legal path, and it ends where the original path started. |
| Paths.ReplayInverse | puzzle-game/src/App.js:94 | Playing a legal path and then its inverse restores the starting board. |
| Paths.ConcatLegal | puzzle-game/src/App.js:56-63 | Two legal paths, the second starting where the first ends, join into one legal path, and playing it plays the first and then the second. |
| Paths.SolvableIffReachable | puzzle-game/src/App.js:55-63 | A board can be solved by legal moves exactly when it can be reached from the solved board by legal moves. |
| Paths.SolvedConfigSolvable | puzzle-game/src/App.js:16-20 | The solved board is solvable. |
| Paths.ReplayPreservesSolvable | puzzle-game/src/App.js:55-63 | Any board that legal moves reach from a solvable board is solvable. |
| Shuffle.PickIndex | puzzle-game/src/App.js:58 | `Math.floor(draw * n)` for a draw in [0, 1) is a valid position below `n`. It is the floor of `draw * n`. |
| Shuffle.Choose | puzzle-game/src/App.js:57-58 | The cell a draw picks is always a neighbour of the empty cell. |
| Shuffle.Trail | puzzle-game/src/App.js:56-62 | The cells the shuffle's empty cell visits form a legal path with one slide per draw. |
| Shuffle.Walk | puzzle-game/src/App.js:56-63 | The shuffled board keeps the shape and the tile-set invariant. |
| Shuffle.WalkFollowsTrail | puzzle-game/src/App.js:56-63 | The shuffled board is exactly the board reached by the draws' legal path. |
| Shuffle.WalkPreservesSolvable | puzzle-game/src/App.js:55-63 | Shuffling a solvable board gives a solvable board. |
| Game.Initialize | puzzle-game/src/App.js:16-25 | Reset gives `board[i] == i+1` for `i < 15`, an empty cell 15 and `emptyIndex == 15`. It sets `moves == 0` and `time == 0` and clears both flags. The board passes the win test. |
| Game.Accepts | puzzle-game/src/App.js:89-92 | On the grid, a click is acted on exactly when the game is playing, not complete, and the clicked cell is adjacent to the empty cell. |
| Game.Click | puzzle-game/src/App.js:88-111 | A click while not playing, after the win, off the grid, or off the empty cell's neighbours changes nothing. An accepted click exchanges exactly `board[emptyIndex]` and `board[index]` and sets `emptyIndex` to `index`. It adds one move, keeps the time, and sets complete and not-playing exactly when the new board is solved. |
| Game.Tick | puzzle-game/src/App.js:116-118 | The timer step adds one second only while playing and not complete. It changes nothing else. |
| Game.ShuffleBoard | puzzle-game/src/App.js:51-71 | The result is the board that exactly 1000 legal moves, chosen by the draws, reach from the current board. It keeps the tile-set invariant and solvability. It resets both counters to 0, sets playing and clears complete. |
| Game.ClickBackUndoes | puzzle-game/src/App.js:91-98 | After an accepted click that does not win, clicking the previous empty index is accepted. It restores the board and the empty index, and the move count has grown by two. |
| Game.ClickOnGapRejected | puzzle-game/src/App.js:91-92 | A click on the empty cell itself is never accepted. |
| Game.ClickExample | puzzle-game/src/App.js:93-109 | During play on the solved board, a click on cell 11 moves tile 12 to cell 15 and the empty cell to 11. It counts one move and does not win. |
| Game.Clicks | puzzle-game/src/App.js:88-92 | Once the game is not playing or is complete, a sequence of clicks changes nothing. Each click adds at most one move. |
| Game.ClicksFollowPath | puzzle-game/src/App.js:88-98 | During play, clicking along a legal path that never passes through the solved board accepts every click. The session ends on the path's board with exactly one extra move per click, the same time, still in play. |
| Game.ClicksReachSolved | puzzle-game/src/App.js:100-109 | Clicking along a legal path that ends on the solved board wins the game. The session ends complete, not playing, on the solved board. |
| Game.ShuffleThenUnshuffleWins | puzzle-game/src/App.js:56-109 | After a shuffle from the solved board, clicking the shuffle's moves back in reverse order wins the game on the solved board. |
| Game.InitializeEstablishesInv | puzzle-game/src/App.js:16-25 | A reset session satisfies the session invariant: a well-formed, solvable board, never playing and complete at once, and complete only when solved. |
| Game.ClickPreservesInv | puzzle-game/src/App.js:88-111 | Every click keeps the session invariant, whether it is accepted or not. |
| Game.TickPreservesInv | puzzle-game/src/App.js:116-118 | The timer step keeps the session invariant. |
| TimeFormat.NatToString | puzzle-game/src/App.js:133 | `toString` of a non-negative integer the timer reaches gives a non-empty digit string with no leading zero that reads back as the number. It has one digit exactly below 10, and at most two exactly below 100. |
| TimeFormat.PadStart | puzzle-game/src/App.js:133 | `padStart` keeps the string as a suffix and fills up to the requested length with the fill character. |
| TimeFormat.LeadingZeros | puzzle-game/src/App.js:133 | Zero padding does not change the value a digit string reads as. |
| TimeFormat.Pad2 | puzzle-game/src/App.js:133 | A padded field reads back as its number. It has at least two digits, exactly two below 100, and no leading zero when it is longer than two. |
| TimeFormat.FormatTime | puzzle-game/src/App.js:130-134 | The display is a minutes field, a colon and a two-digit seconds field. Read back, the fields give the minutes and the seconds below 60 that make up the input. The minutes field has two digits exactly below 6000 seconds: there is no rollover into hours. A longer minutes field has no leading zero. |

## Left out

- React state hooks, `useCallback` and `useEffect`: the state slots become one immutable `Session` value. The `setInterval` / `clearInterval` scheduling at lines 114-122 is left out too. Only the single timer step is modelled (`Game.Tick`).
- React batches state updates, and click handlers close over the rendered `board` and `emptyIndex`. Two clicks handled before a re-render are not modelled. Each click is taken to see the result of the previous one, which is the single-threaded event order.
- The logo intro (lines 27-48, 137-155) and all rendering, CSS classes and icons (lines 157-228) are presentation only. This includes the `movable` class at line 185, which reuses `getValidMoves`.
- The empty board before the first render (`useState([])` at line 6) is not modelled. The same goes for the shuffle button being disabled while that board is empty (line 206). Every modelled operation starts from a mounted 16-cell board.
- Game.Click: requires a mounted board (16 cells, empty index on the grid). The game only renders clicks for such a board.
- Game.ShuffleBoard: requires the mounted board and exactly 1000 draws in [0, 1). The draws stand for the values `Math.random()` returns.
- Shuffle.PickIndex: draws are exact reals, not IEEE doubles. For the list lengths 2-4 that occur here, `Math.floor(Math.random() * n)` stays below `n` for doubles too. How evenly the draws spread is not modelled: only reachability and solvability are stated.
- TimeFormat.NatToString: JavaScript numbers are doubles. `time` and `moves` (lines 98 and 118) stop growing at 2^53, and `toString` switches to exponential notation from 1e21. The model's `nat` does neither, which is why `Game.Click`, `Game.Tick` and `TimeFormat.FormatTime` are stated for unbounded counters. A one-second timer and one move per click never get near either bound.
