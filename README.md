# Connect-a-graph puzzle solver, modelled in Dafny

`connect_a_graph.py` generates and solves "connect the graph" puzzles. A puzzle is a
height x width grid with some cells removed. A solution is a path that starts at a given cell,
moves one cell up, down, left or right at a time, and visits every remaining cell exactly once.
That is a Hamiltonian path of the grid graph induced by the remaining cells.

The program stores a board as an integer: bit `width * row + col` is set when cell (row, col) is
present. A position is the one-hot integer `1 << (width * row + col)`. The model represents a board
by the set of its set bit indices (`set<nat>`) and a position by its bit index. The `BitBoard` module
keeps the integer view where the program relies on it: `EncodePosition`, `DecodePosition` and the
shifts of one-hot values.

Modules, following `Masks` and `Helper`:

- `BitBoard`: the grid, the row-major cell numbering, the one-hot encoding and its inverse, and
  `Masks.__init__` (`BuildMasks`).
- `Adjacency`: `Helper.GetPositionAfterMove` and `Helper.Move`, and their link to grid adjacency.
- `Feasibility`: `Helper.IsBoardPossible` and `Helper.Size`.
  - `IsBoardPossible` is a colour count followed by a breadth-first search with a FIFO list.
  - It is proved to decide `BoardPossible`: the board is non-empty, lies on the grid, its two
    checkerboard colour classes differ by at most one, and it is connected.
- `Solver`: `Helper._Solve` and `Helper.Solve`.
  - The shared `path` list becomes the `path` field of the class `PathSearch`.
  - The recursion becomes the mutually recursive methods `TryExtend`, `Descend` and `TryDirections`.
  - They are proved against `Search`, a function that fixes the order Up, Down, Left, Right.
  - `Search` is proved sound and complete for Hamiltonian paths. The pruning by `IsBoardPossible`
    is proved never to discard a solvable board.
- `Canonical`: `Helper.DeduplicateBoard`.
  - The key is the board shifted up past its empty leading rows and left past its empty leading
    columns.
  - Boards get the same key exactly when they are placements of one shape.
- `Puzzles`: `Helper.GetAllPossibleBoards` (itertools.combinations order), the board filter and
  the board total of `Helper.FindAllPuzzles`, and `Helper.ParsePosition` and `Helper.ParseBoard` on
  already converted numbers.
- `Scenarios`: a few concrete boards worked through the model.

The model follows the code. Where a comment says something different, the code wins:

- The comment at `connect_a_graph.py:52` numbers cell (i, j) as bit `i * M + j`, with M the
  number of rows. The code uses `width * row + col` (lines 98 and 348), and so does the model.
- `DecodePosition` uses `/` on integers. The program is written for Python 2 (its `print`
  statements), where that is floor division, so the model uses integer division.

## Model

| member | source | states |
|---|---|---|
| BitBoard.EncodePosition | connect_a_graph.py:93-98 | the encoding of (row, col) is one-hot, and its top bit is cell `width * row + col` |
| BitBoard.DecodePosition | connect_a_graph.py:100-105 | for a positive value, the column is below the width and the top set bit is the cell of the returned (row, col) |
| BitBoard.DecodeEncode | connect_a_graph.py:93-105 | decoding an encoded in-range cell gives back its (row, col) |
| BitBoard.EncodeDecode | connect_a_graph.py:93-105 | encoding the decoding of a one-hot value gives back the value |
| BitBoard.BuildMasks | connect_a_graph.py:60-84 | there is one row mask per row and one column mask per column, and mask i holds exactly the cells of row (column) i |
| Adjacency.GetPositionAfterMoveSpec | connect_a_graph.py:137-149 | `GetPositionAfterMove` gives no new position exactly when the cell is on the edge being crossed; otherwise the result is the cell one row or column over, and its one-hot value is the old one shifted by `width` (up/down) or by 1 (left/right) |
| Adjacency.MoveIsAdjacent | connect_a_graph.py:122-135 | a successful `Move` ends on a cell that is set in the board and adjacent to the start |
| Adjacency.AdjacentIsMove | connect_a_graph.py:122-147 | every set cell adjacent to a position is the result of `Move` in the direction towards it |
| Adjacency.AdjacentParity | connect_a_graph.py:155-160 | adjacent cells have different checkerboard colours |
| Feasibility.Size | connect_a_graph.py:193-201 | the count equals the number of set cells |
| Feasibility.CountColours | connect_a_graph.py:161-171 | the two counters are the sizes of the two colour classes, and the remembered cell is the first set cell in row-major order (none when no grid cell is set) |
| Feasibility.Visit | connect_a_graph.py:180-183 | the neighbour is appended exactly when Move finds it and it is not yet marked; the queue invariant is kept |
| Feasibility.SearchStep | connect_a_graph.py:184-190 | popping, marking and visiting four directions keeps the search invariant (marked cells are reachable from the seed, and every neighbour of a marked cell is marked or queued), and the termination measure drops |
| Feasibility.MarkReachable | connect_a_graph.py:174-190 | the loop ends, and a set cell is marked exactly when it is reachable from the seed through set cells |
| Feasibility.ConnectedFromSeed | connect_a_graph.py:174-178 | a board is connected exactly when every set cell is reachable from one chosen set cell |
| Feasibility.ClosedHoldsReachable | connect_a_graph.py:184-191 | a marked set that is closed under Move contains every cell reachable from its members |
| Feasibility.IsBoardPossible | connect_a_graph.py:151-191 | the result is true exactly when the board is non-empty, on the grid, colour-balanced within one, and connected |
| Solver.AlternatingColours | connect_a_graph.py:155-160 | along a walk without repeats, the start's colour class has as many cells as the other class, or one more |
| Solver.StartColour | connect_a_graph.py:155-160 | a Hamiltonian path starts in the larger colour class, or in either when they are the same size |
| Solver.PossibleIfHamiltonian | connect_a_graph.py:210-211 | every board with a Hamiltonian path passes IsBoardPossible, so the pruning loses no solution |
| Solver.ImpossibleNoPath | connect_a_graph.py:210-211 | a board that fails IsBoardPossible has no Hamiltonian path from any cell |
| Solver.NoBranchNoPath | connect_a_graph.py:218-225 | if none of the four directions leads to a Hamiltonian path of the rest, none starts at the cell |
| Solver.HamiltonianCons | connect_a_graph.py:212-223 | the cell followed by a Hamiltonian path of the rest that starts next to it is a Hamiltonian path of the board |
| Solver.HamiltonianTail | connect_a_graph.py:217-222 | dropping the first cell of a Hamiltonian path leaves one of the rest of the board, starting next to the dropped cell |
| Solver.SearchCorrect | connect_a_graph.py:203-225 | `Search`, the path `_Solve` appends as a function of its arguments, finds a path exactly when a Hamiltonian path starts at the position, and what it finds is such a path |
| Solver.SearchDirectionsCorrect | connect_a_graph.py:218-222 | trying the four directions succeeds exactly when one of them leads to a Hamiltonian path of the rest, and the result is such a path starting next to the cell |
| Solver.PathSearch.constructor | connect_a_graph.py:227-228 | the search starts with an empty path |
| Solver.PathSearch.TryExtend | connect_a_graph.py:203-211 | the result is true exactly when the search succeeds; then the path list has the found path appended, and otherwise it is unchanged |
| Solver.PathSearch.Descend | connect_a_graph.py:212-225 | appending the cell, stopping at the last cell or recursing, and popping on failure extends the list by the found path on success and leaves it unchanged on failure |
| Solver.PathSearch.TryDirections | connect_a_graph.py:219-222 | the first of Up, Down, Left, Right that succeeds extends the list, and on failure the list is unchanged |
| Solver.Solve | connect_a_graph.py:227-230 | the returned path is non-empty exactly when a Hamiltonian path starts at the cell; then it starts there, has one entry per set cell, repeats none, covers the board and moves between adjacent cells |
| Canonical.FirstRowColAreMin | connect_a_graph.py:338-347 | for a non-empty board, the two scans stop at its topmost row and its leftmost column |
| Canonical.KeyCard | connect_a_graph.py:348 | `Key`, the board shifted past its empty leading rows and columns, has as many cells as the board |
| Canonical.KeyAligned | connect_a_graph.py:321-324 | the key touches the top row and the left column |
| Canonical.KeyIsTranslate | connect_a_graph.py:321-334 | the key lies on the grid and moving it back down and right by the scanned amounts gives the board again |
| Canonical.KeyOfAligned | connect_a_graph.py:321-324 | a board touching the top row and the left column is its own key |
| Canonical.KeyFixedIffAligned | connect_a_graph.py:321-324 | a non-empty board is its own key exactly when it touches the top row and the left column |
| Canonical.KeyIdempotent | connect_a_graph.py:318-348 | the key of a key is the key |
| Canonical.KeyTranslate | connect_a_graph.py:326-334 | moving a board down and right within the grid does not change its key |
| Canonical.SameKeySameShape | connect_a_graph.py:321-334 | two boards with the same key are both that key moved within the grid |
| Canonical.SameShapeSameKey | connect_a_graph.py:326-334 | any two placements of one shape within the grid share a key |
| Canonical.DeduplicateBoard | connect_a_graph.py:318-348 | the scan over the masks returns the key of the board, including for the empty board |
| Puzzles.CombinationsSound | connect_a_graph.py:352-353 | every tuple is an increasing k-tuple of numbers from the range |
| Puzzles.CombinationsComplete | connect_a_graph.py:352-353 | every increasing k-tuple of numbers from the range is produced |
| Puzzles.CombinationsDistinct | connect_a_graph.py:352-353 | no tuple is produced twice |
| Puzzles.CombinationsCount | connect_a_graph.py:352-353 | there are Binomial(n, k) tuples |
| Puzzles.AllNum | connect_a_graph.py:285-286 | the total is defined exactly when num is at most the number of cells; beyond that `math.factorial` of a negative raises |
| Puzzles.BinomialFactorial | connect_a_graph.py:285-286 | Binomial(m, k) * k! * (m - k)! == m! for k <= m |
| Puzzles.AllNumIsBinomial | connect_a_graph.py:284-286 | for num up to the number of cells, the factorial total with integer division is Binomial(cells, num), the number of generated boards |
| Puzzles.IncreasingElemsInjective | connect_a_graph.py:354-357 | two increasing tuples with the same elements are equal, so distinct tuples give distinct boards |
| Puzzles.PositionsToBoard | connect_a_graph.py:354-356 | the board holds exactly the listed positions |
| Puzzles.GetAllPossibleBoards | connect_a_graph.py:350-357 | the boards are the combinations' cell sets, in combination order |
| Puzzles.AllBoardsSound | connect_a_graph.py:284-286 | Binomial(height * width, num) boards, each on the grid with num cells, none repeated |
| Puzzles.AllBoardsComplete | connect_a_graph.py:350-357 | every board of num grid cells is generated |
| Puzzles.KeepBoard | connect_a_graph.py:288-296 | a board is kept for solving exactly when it is its own key and IsBoardPossible accepts it |
| Puzzles.KeptIffAlignedPossible | connect_a_graph.py:289-292 | the kept boards are the possible boards that touch the top row and the left column |
| Puzzles.KeptOncePerShape | connect_a_graph.py:289-291 | of the placements of one shape within the grid, only one is kept |
| Puzzles.ParsePosition | connect_a_graph.py:264-270 | a 1-based (row, col) parses exactly when `width * (row - 1) + (col - 1)` is not negative; otherwise the shift raises |
| Puzzles.ParsePositionInGrid | connect_a_graph.py:264-270 | a position inside the grid parses to the cell of 0-based row `row - 1` and column `col - 1` |
| Puzzles.ParsePositionWraps | connect_a_graph.py:264-270 | column 0 in row 2 or below parses, without raising, to the last cell of the row above |
| Puzzles.ParseBoard | connect_a_graph.py:272-277 | the board exists exactly when every position parses; then, starting from the full grid, a cell stays set exactly when it is on the grid and no position parses to it |
| Scenarios.DiagonalPairHasNoPath | connect_a_graph.py:151-173 | on a 2 x 2 grid, the two cells of one diagonal fail the colour check and have no path |
| Scenarios.SquareHasPath | connect_a_graph.py:227-230 | the full 2 x 2 grid has a path from cell 0 |
| Scenarios.MiddleStartHasNoPath | connect_a_graph.py:155-160 | the full 1 x 3 grid has no path from its middle cell |
| Scenarios.LineFromLeft | connect_a_graph.py:203-230 | on the full 1 x 3 grid, [0, 1, 2] is the only path from cell 0, and it is what the search finds |
| Scenarios.CentreStartHasPath | connect_a_graph.py:227-230 | on the full 3 x 3 grid, [4, 1, 0, 3, 6, 7, 8, 5, 2] is a path from the centre cell |

## Left out

- `Helper.PrintBoard`, `Helper.RenderPath` and the console output of `FindAllPuzzles` and `main`: they
  only print. Command-line parsing in `main` is left out for the same reason.
- The loop of `FindAllPuzzles` is left out: its iteration over the generated boards, its loop over
  start cells (connect_a_graph.py:298-304) and its timing and progress counters (`itr`, `found`, the
  time estimate), which use the clock and only feed the output. What that loop calls is modelled:
  the board filter (`KeepBoard`), the board total (`AllNum`) and `Solve`.
- `Helper.ParsePosition` and `Helper.ParseBoard` split strings and convert fields with `int`; string
  handling is not modelled, and `ParsePosition` and `ParseBoard` take the converted 1-based
  numbers. A malformed field (no `:`, a non-number) is not modelled.
- BitBoard.Grid: the model covers grids of height and width at least 1. With width 0, only
  `DecodePosition` and the Left/Right guards of `GetPositionAfterMove` divide by zero; `Masks`,
  `EncodePosition`, `IsBoardPossible` (which returns False), `Size` and `DeduplicateBoard` would run.
  With height 0 nothing fails: the grid has no cells (and `GetAllPossibleBoards(0)` yields the
  board 0). Those degenerate grids are not modelled.
- Puzzles.GetAllPossibleBoards: the generator is modelled as a method returning the whole sequence
  of boards, not a lazy stream.
- Feasibility.Size: it counts the bits below `height * width` rather than below `bit_length()`, and
  it requires the board to lie on the grid. That count is the same for every board it is called on,
  because `_Solve` calls it only after `IsBoardPossible` accepted the board.
- Solver.Solve: the start is a cell index (the bit index of the one-hot position), not an integer.
  A start of `None` is covered by `TryExtend`.
- Integers are modelled as sets of bit indices, except in `BitBoard`, which relates the two views.
  Python's unbounded integers need no width.
