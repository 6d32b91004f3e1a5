# Connect Four solver and camera move tracker, in Dafny

This project models two parts of a camera-assisted Connect Four assistant:

- **The decision engine of `connect4_solver.py`.**
  - The board model: legal columns, the landing row, the copy-on-write drop, win detection and terminal detection.
  - The window heuristic: `evaluate_window` and `score_position`, with its centre bonus and its fork bonus and penalty.
  - The depth-aware minimax with alpha-beta pruning, which tries columns centre-first.
  - `choose_best_move`, which takes an immediate win before it searches.
- **The move-tracking logic of the GUI** (`connect4_gui.py`, duplicated verbatim in `gui.py`).
  - The debouncer `_update_stable_board` accepts a camera reading only after five identical consecutive frames.
  - The diff classifier `_process_move_and_cheating` decides whether two stable boards differ by exactly one new piece. It then updates the turn and the first and last mover, and reports a cheat (the same colour moving twice) and a winner.
  - `_find_landing_row` finds the row a piece lands in.

A board is a `seq<seq<Cell>>` with `Cell = Empty | Red | Yel`. Every operation is a pure function; `_find_landing_row` is a method with a loop. Python's `math.inf` bounds become the `ExtInt` datatype (`NegInf | Fin(n) | PosInf`). `deepcopy` becomes value semantics. The GUI object becomes the `Tracker` record, and each GUI method becomes a function from one record to the next that also returns the method's results.

Modules:

- `Board` (board.dfy) holds the grid, the drop and win detection.
- `Heuristic` (heuristic.dfy) holds the window table, immediate wins and `score_position`.
- `Search` (search.dfy) holds move ordering, `minimax` and `choose_best_move`.
- `AlphaBeta` (alphabeta.dfy) proves alpha-beta correct against plain minimax.
- `MoveTracker` (tracker.dfy) holds the GUI state machine.
- `Scenarios` and `Openings` (scenarios.dfy) hold the immediate-win positions of `test_connect-4.py`.

Each operation is tied to an independent meaning:

- `is_winner`'s family-by-family loops are proved equivalent to "some four-cell window of the board holds the piece four times" (`HasFour`).
- The centre-first insertion sort is proved to be the unique centre-ordered permutation of the legal columns.
- `minimax` with alpha-beta is proved to satisfy the fail-soft guarantee against a plain minimax reference (`AlphaBeta.Value`). Without an immediate win, `choose_best_move` therefore returns exactly the plain minimax value.
- The debouncer is proved to report a board only after it was read five times in a row.
- The diff classifier is proved to accept exactly the one-piece changes.

`gui.py` repeats the two tracking methods line for line: lines 177-199 of `gui.py` are lines 218-240 of `connect4_gui.py`, and lines 201-245 are lines 242-286. Every `MoveTracker` row below therefore holds for both files.

## Model

| member | source | states |
|---|---|---|
| Board.MakeBoard | connect4_solver.py:11-12 | a `rows` x `cols` grid with every cell empty |
| Board.ValidLocations | connect4_solver.py:24-26 | a column is listed iff it is on the board and its top cell is empty; the list is strictly ascending |
| Board.ValidFrom | connect4_solver.py:24-26 | the comprehension from column `c` on lists exactly the open columns from `c`, ascending |
| Board.IsValidLocation | connect4_solver.py:29-30 | a column is valid iff `get_valid_locations` lists it |
| Board.NextOpenRow | connect4_solver.py:33-38 | None iff the whole column is occupied; otherwise an empty cell with every cell below it occupied (the lowest empty cell) |
| Board.OpenRowBelowSpec | connect4_solver.py:35-38 | the bottom-up loop over the first `n` rows finds the lowest empty cell among them, and finds none only when all are occupied |
| Board.DropPiece | connect4_solver.py:45-53 | the drop fails (None) exactly when the column's top cell is occupied |
| Board.DropPieceSpec | connect4_solver.py:45-53 | a successful drop changes exactly one cell, the landing row of the column, from empty to the piece; the rest of the board is unchanged |
| Board.FamilyRange | connect4_solver.py:56-83 | each family's loop bounds range over exactly the start cells whose four-cell window fits on the board |
| Board.ScanColsSpec | connect4_solver.py:61-63 | an inner loop of `is_winner` finds a four iff one starts in that row at a column from `c` on |
| Board.ScanRowsSpec | connect4_solver.py:60-63 | an outer loop of `is_winner` finds a four iff one starts in a row from `r` on |
| Board.FamilyHasFourSound | connect4_solver.py:56-83 | one family's scan finds a four iff some window of that direction holds the piece four times |
| Board.IsWinner | connect4_solver.py:56-83 | the four window scans of `is_winner`, horizontal, vertical, falling and rising, in the source's order; `IsWinnerSpec` states what they find |
| Board.IsWinnerSpec | connect4_solver.py:56-83 | `is_winner` is true iff some horizontal, vertical, falling-diagonal or rising-diagonal window holds the piece four times |
| Board.IsTerminal | connect4_solver.py:86-91 | terminal iff Red wins, Yellow wins, or no top cell is empty |
| Board.IsTerminalSpec | connect4_solver.py:86-91 | terminal iff either colour has four in a window or no column is legal |
| Heuristic.CountsPartition | connect4_solver.py:102-104 | the empty, red and yellow counts of a window add up to its length |
| Heuristic.EvaluateWindow | connect4_solver.py:94-122 | a window scores between -300 and +10000; a positive score needs at least two own pieces in the window, a negative one at least two opponent pieces |
| Heuristic.OppThreeOutweighs | connect4_solver.py:111-120 | the penalty for an opponent's open three (or two) is larger than the bonus for one's own |
| Heuristic.EvaluateWindowTable | connect4_solver.py:94-122 | on a four-cell window the score is +10000, +200, +20, -300, -25 or 0, each taken exactly for its pattern of own, opponent and empty cells |
| Heuristic.EmptyBoardWindowsZero | connect4_solver.py:153-175 | the four window loops of `score_position` sum to 0 on an empty board, for either colour |
| Heuristic.Column | connect4_solver.py:148-150 | the column array holds the column's cells from top to bottom |
| Heuristic.WinsAtDrop | connect4_solver.py:132-133 | "wins at column c" is the source's test: the drop succeeds and the new board is a win |
| Heuristic.CountWinsInIsSetSize | connect4_solver.py:130-135 | counting along a strictly increasing list of legal columns counts the set of winning columns among them |
| Heuristic.WinsAmongValid | connect4_solver.py:131-134 | the winning columns among `get_valid_locations` are all the columns where one move wins |
| Heuristic.CountImmediateWins | connect4_solver.py:125-135 | the count is the number of columns where one move wins, and at most the number of legal columns |
| Heuristic.ScorePosition | connect4_solver.py:138-187 | the base score alone when neither side has two immediate wins; plus 6000·(k-1) only for k ≥ 2 own wins; minus 6500·(k'-1) only for k' ≥ 2 opponent wins |
| Heuristic.ForkDominance | connect4_solver.py:177-185 | with the base score and the opponent's threats fixed, more immediate wins beyond one score strictly higher; zero and one immediate win score the same |
| Heuristic.OpponentForkOutweighs | connect4_solver.py:177-185 | an opponent fork of k threats costs more than an own fork of k threats earns |
| Search.InsertSpec | connect4_solver.py:197 | inserting a new column into a centre-ordered list keeps it centre-ordered and adds exactly that column |
| Search.SortByCenter | connect4_solver.py:197 | the sort returns as many columns as it was given |
| Search.SortByCenterSpec | connect4_solver.py:197 | the stable sort of distinct ascending columns is centre-ordered (distance from the centre, ties by column) and a permutation of its input |
| Search.CenterSortedUnique | connect4_solver.py:197 | two centre-ordered arrangements of the same columns are equal, so the order is fully determined |
| Search.OrderedValidLocations | connect4_solver.py:190-197 | lists exactly the legal columns |
| Search.OrderedValidLocationsSpec | connect4_solver.py:190-197 | a permutation of `get_valid_locations` ordered by distance from `cols // 2`, ties by ascending column |
| Search.NonTerminalHasMove | connect4_solver.py:223-227 | a non-terminal position has a legal column, so `valid_locations[0]` exists |
| Search.LeafScore | connect4_solver.py:206-221 | on a finished game the score is positive exactly when `ai` has won, and negative exactly when `ai` has not won and the opponent has; when only the depth ran out it is `score_position` |
| Search.Minimax | connect4_solver.py:200-265 | the returned score is always finite |
| Search.MinimaxSpec | connect4_solver.py:205-265 | at a leaf: no column, and `WIN_SCORE + depth` for an ai win, `-WIN_SCORE - depth` for an opponent win, 0 for a draw, `score_position` when only the depth ran out; at an inner node the column is one of the ordered legal columns |
| Search.Child | connect4_solver.py:230-232 | the child of a legal column is a well-formed board of the same shape |
| Search.MaxLoop | connect4_solver.py:225-244 | the maximizing loop returns the first column or one it visited, with a finite score once a child was searched |
| Search.MinLoop | connect4_solver.py:246-265 | the minimizing loop returns the first column or one it visited, with a finite score once a child was searched |
| Search.FirstWhereSpec | connect4_solver.py:278-282 | the shortcut loop stops at the first listed column satisfying the test, and finds none only when no column does |
| Search.FirstWhereAt | connect4_solver.py:278-282 | a column satisfying the test with none before it is the one the loop stops at |
| Search.ChooseBestMove | connect4_solver.py:268-286 | the score is always finite |
| Search.ChooseBestMoveSpec | connect4_solver.py:268-286 | with an immediate win: the first winning column in centre-first order, scored `WIN_SCORE + depth`; with no legal column: no column; otherwise, when it searched, a legal column |
| Search.NoWinSearches | connect4_solver.py:285-286 | without an immediate win, the result is the root search from (-inf, +inf) |
| Search.FirstWinChosen | connect4_solver.py:278-282 | a winning column with no winning column before it in centre-first order is the move, with score `WIN_SCORE + depth` |
| AlphaBeta.FoldBound | connect4_solver.py:236-238 | the running best is at least as good as every child value |
| AlphaBeta.FoldAttained | connect4_solver.py:236-238 | the best value over a non-empty list is one of the values |
| AlphaBeta.FoldSameElements | connect4_solver.py:229 | the best child value depends only on which values occur, not on the order the columns are tried in |
| AlphaBeta.OrderIrrelevant | connect4_solver.py:223-229 | plain minimax over the centre-ordered columns equals plain minimax over the columns in any order |
| AlphaBeta.MaxStep | connect4_solver.py:236-242 | one maximizing iteration keeps the loop invariant relating `value`, `alpha` and the best child so far, or cuts off with `value` at least `beta` |
| AlphaBeta.MinStep | connect4_solver.py:257-263 | one minimizing iteration keeps the dual invariant, or cuts off with `value` at most `alpha` |
| AlphaBeta.MaxLoopIsScan | connect4_solver.py:229-244 | the maximizing loop is the abstract loop run with the real child search |
| AlphaBeta.MinLoopIsScan | connect4_solver.py:250-265 | the minimizing loop is the abstract loop run with the real child search |
| AlphaBeta.MaxScanSound | connect4_solver.py:225-244 | the maximizing loop keeps the fail-soft guarantee for the best child value, and a score strictly inside the window comes from a column attaining it |
| AlphaBeta.MinScanSound | connect4_solver.py:246-265 | the minimizing loop keeps the fail-soft guarantee, with alpha and beta exchanged |
| AlphaBeta.AlphaBetaSound | connect4_solver.py:200-265 | a score strictly inside (alpha, beta) is the plain minimax value; a score at or below alpha bounds it from above; a score at or above beta bounds it from below |
| AlphaBeta.AlphaBetaColumn | connect4_solver.py:223-265 | at an inner node, a score strictly inside the window comes with a legal column whose child has exactly that value |
| AlphaBeta.NodeScanSound | connect4_solver.py:225-265 | the loop over the legal columns keeps the fail-soft guarantee for the best child value |
| AlphaBeta.ChildScoreSound | connect4_solver.py:234 | each recursive child search keeps the fail-soft guarantee for that child |
| AlphaBeta.OracleSound | connect4_solver.py:234 | every child search of the listed columns keeps the fail-soft guarantee |
| AlphaBeta.ChooseBestMoveOptimal | connect4_solver.py:285-286 | without an immediate win, `choose_best_move` returns exactly the plain minimax value, and when it searched, a legal column whose child attains it |
| MoveTracker.Init | connect4_gui.py:169-191 | a new game starts with no candidate, no stable boards, count 0, turn 0, and no last mover, first mover or last move column |
| MoveTracker.UpdateStableBoard | connect4_gui.py:218-240 | no reading clears the candidate; any reading becomes the candidate with a positive count; a report means the reading differs from the old stable board, becomes the stable board, and the old one becomes the previous stable board; without a report both stay; move fields untouched |
| MoveTracker.RepeatedReading | connect4_gui.py:225-240 | reading a new board k times counts k frames and reports it exactly once, on the fifth reading, and only if it differs from the stable board; from then on it is the stable board |
| MoveTracker.UpdateDebounced | connect4_gui.py:218-240 | one reading keeps the debouncer invariant, and a report comes only after the reported board was read in each of the last five readings |
| MoveTracker.FeedDebounced | connect4_gui.py:218-240 | after any sequence of readings from a new game, the candidate was read in each of the last `candidate_frames` readings |
| MoveTracker.StableNeedsFiveReadings | connect4_gui.py:230-240 | from a new game, a board becomes stable only after five identical consecutive readings of it |
| MoveTracker.JoinDescribes | connect4_gui.py:247-252 | the masks' counts over two disjoint parts of the grid combine into those of the whole |
| MoveTracker.CellDescribes | connect4_gui.py:247-249 | one cell's tally reports exactly its new, removed or recoloured mask entry |
| MoveTracker.TallyColsSpec | connect4_gui.py:247-252 | the scan of one row counts the new cells, finds the first in row-major order, and detects any removal or recolouring |
| MoveTracker.TallyRows | connect4_gui.py:247-252 | a first new cell is found exactly when at least one is counted, and it lies on the grid at or below the start row |
| MoveTracker.TallyRowsSpec | connect4_gui.py:247-252 | the scan of the whole grid counts the new cells, finds the first in row-major order, and detects any removal or recolouring |
| MoveTracker.Classify | connect4_gui.py:247-258 | a reported position lies on the board |
| MoveTracker.ClassifySpec | connect4_gui.py:247-258 | a position is reported iff the current board is the previous one with exactly that empty cell filled and nothing else changed |
| MoveTracker.Baseline | connect4_gui.py:244-245 | a missing previous board is an all-empty board of the current board's shape |
| MoveTracker.ProcessMove | connect4_gui.py:242-286 | debouncer fields untouched; the turn stays or advances by one; with no move, no cheater, no winner and no last move column; a cheater is the mover who also moved last; a winner is the mover with four in a row |
| MoveTracker.MoveAccepted | connect4_gui.py:258-286 | a one-piece change: the turn advances by one, the column becomes the last move column, the first mover is set only if unset, the mover is the cheater iff it also made the previous move, and the winner iff it has four in a row |
| MoveTracker.MoveRejected | connect4_gui.py:254-256 | any other change clears the last move column, reports nothing and changes nothing else |
| MoveTracker.LegalDropAccepted | connect4_gui.py:242-286 | a legal drop between two stable boards is counted as that player's move in that column, with the cheat and win verdicts of the mover |
| MoveTracker.SameColourTwiceIsCheat | connect4_gui.py:273-277 | one colour dropping twice in a row is flagged on the second drop |
| MoveTracker.AlternationIsNotCheat | connect4_gui.py:273-277 | a reply by the other colour is never flagged |
| MoveTracker.FindLandingRow | connect4_gui.py:289-294 | the landing row is the lowest empty cell of the column, or None for a full column, the same as `get_next_open_row` |
| Scenarios.LandsOnFloor | connect4_solver.py:45-53 | in a column whose bottom cell is empty, the piece lands on the bottom row |
| Openings.ValidFromAllOpen | connect4_solver.py:24-26 | with every top cell open, all columns from `c` on are listed, in order |
| Openings.SevenOpenColumnsOrder | connect4_solver.py:190-197 | on a seven-column board with every column open, the order is 3, 2, 4, 1, 5, 0, 6 |
| Openings.WinChosenAt3 | connect4_solver.py:278-282 | with seven open columns, a win in column 3 is taken first |
| Openings.WinChosenAt2 | connect4_solver.py:278-282 | a win in column 2 is taken when column 3 does not win |
| Openings.WinChosenAt4 | connect4_solver.py:278-282 | a win in column 4 is taken when neither 3 nor 2 wins |
| Openings.WinChosenAt1 | connect4_solver.py:278-282 | a win in column 1 is taken when none of 3, 2 and 4 wins |
| Scenarios.Case1Chooses3 | test_connect-4.py:23-31 | three in a row on the bottom row: column 3 is chosen with score `WIN_SCORE + 3` |
| Scenarios.Case2Chooses2 | test_connect-4.py:33-41 | three stacked in column 2: column 2 is chosen with score `WIN_SCORE + 3` |
| Scenarios.Case3Chooses4 | test_connect-4.py:43-51 | the falling diagonal (2,1), (3,2), (4,3): column 4 is chosen with score `WIN_SCORE + 4` (the script expects 0; see below) |
| Scenarios.Case4Chooses1 | test_connect-4.py:53-61 | the rising diagonal (4,2), (3,3), (2,4): column 1 is chosen with score `WIN_SCORE + 4` |

### The test script's third case

`test_connect-4.py` expects column 0 for the board at lines 43-51, and for the same board again at lines 105-113.

- The three pieces sit at (2,1), (3,2) and (4,3) on a falling diagonal.
- Column 0 would complete the diagonal only if the piece stopped at (1,0). Under gravity it falls to (5,0), which wins nothing.
- Column 4 lands at (5,4) and completes the diagonal. Columns 3 and 2, tried before it in centre order, do not win.
- So `choose_best_move` returns column 4 with score `WIN_SCORE + 4`. `Scenarios.Case3Chooses4` states this, and the model follows the solver's code, not the script's expectation.
- The board at lines 115-123 is the same as the fourth case, so `Scenarios.Case4Chooses1` covers it.

## Left out

- The Tk window, labels, timers, sounds, the camera and video feed, and all drawing are left out. They are interface plumbing; the model keeps only the fields the tracking logic reads and writes.
- `read_board.py` (OpenCV blob detection and floating-point colour classification) and `record_test_video.py` (camera I/O) are not part of this model. A camera reading is an abstract `Option<Board>`.
- `print_board` (output only) and `drop_piece_inplace` (not used by the search) are not modelled.
- Search.Minimax: `depth` is a natural number. The source does not check it, and a negative depth would recurse until the game ends, at the first board that is won or full (connect4_solver.py:206-208).
- MoveTracker.ProcessMove: requires the previous board to have the current board's shape (`Admissible`). The source does not check shapes, and numpy would broadcast some mismatched pairs rather than fail. Every reading the tracker receives is the transpose of a `np.zeros((7, 6))` grid, so 6 x 7, or `None`, which never reaches `_process_move_and_cheating` (read_board.py:70, 83).
- MoveTracker.ProcessMove: the `try`/`except` around `is_winner` is not modelled. `is_winner` cannot raise on a well-formed board.
- MoveTracker.ProcessMove: the `moved_color == 0` branch is kept as written. `ClassifySpec` shows it is unreachable, because an accepted cell is occupied.
- Board.DropPiece: requires `col < Cols(b)`, as do `IsValidLocation` and `NextOpenRow`. In the source a column past the right edge raises `IndexError` and a negative column wraps around to the right (connect4_solver.py:29-30, 45-47); the search only passes legal columns.
- Board.MakeBoard: the default arguments `rows=6, cols=7` of `make_board` (connect4_solver.py:11) and `ai_piece=YEL, depth=5` of `choose_best_move` (connect4_solver.py:268) are not modelled; callers pass every argument.
- Heuristic.ScorePosition: requires at least one column. The source indexes the centre column and fails on an empty row.
- Board.IsWinnerSpec: it states which windows hold a four, not the order in which the source's loops visit them. Within each family the model scans row by row, while the source's vertical family loops column by column. The boolean result does not depend on the order.
- The scan-based `is_winner`, `score_position` window loops and the diff masks are modelled as recursion over index ranges rather than as Python list slices and numpy masks.
- Cases 5 to 8 of `test_connect-4.py` (lines 63-94) are not stated as lemmas. They are the blocking cases, the empty-board centre choice and a mixed position, and they need the full search to be evaluated. Only the immediate-win cases are stated as lemmas. The search itself is covered for all boards by `MinimaxSpec` and the alpha-beta lemmas. The board built at lines 96-104 is never passed to `run_case`.
- The GUI's suggestion fields (`current_suggested_col`, `prev_suggested_col`) and the `game_over` flag belong to the display loop and are not part of the tracker.
