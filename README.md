# Othello engine core in Dafny

This project models the `Othello` class of `main.cpp`, an Othello (Reversi) engine on an 8x8 board, and proves properties of it. Cells hold 0 for Black, 1 for White and 5 for empty. The class keeps three fields:

- the authoritative `board`;
- whose `turn` it is;
- the `winner`.

It offers these operations:

- queries: `is_full`, `count_pieces`, `copy_board`;
- move application: `replace_direction`, `rearrange_board`;
- legal-move generation: `get_valid_moves`;
- evaluation and search: `evaluate_position` and the alpha-beta `minimax`;
- move choice: `get_best_move`;
- the self-play loop `play_full_game`.

The model is imperative, as the source is. `Engine.Othello` is a class whose board is an `array2<int>`. The `hu` boards that move application updates in place are arrays with `modifies` clauses. Each method is proved against value-level functions on `Grid`, an 8x8 `seq<seq<int>>`, read from an array by `Snapshot`:

- `Brackets`, `Replaced` and `Rearranged` describe move application.
- `IsLegal` and `CanMove` describe legal moves.
- `Tally` and `Material` count pieces.
- `FirstLegal` gives the move `get_best_move` settles on.

Modules:

- `Board`: cell codes, grids, counting.
- `Rays`: the direction table, runs of equal codes along a ray.
- `Moves`: legality and move application on values.
- `Scan`: the progress invariant of the `get_valid_moves` loops.
- `Engine`: the class and its methods.

Two behaviours of the code are modelled as written:

- **Evaluation ignores its argument.** `evaluate_position` (main.cpp:130-134) counts the member `board` seen from the member `turn`, not the board passed as `hu`.
  - So every call of `minimax` returns the same number, `Material(Snapshot(board), turn)`, whatever the depth, the board it is given or the pruning window (`Engine.Othello.Minimax`).
  - Every candidate in `get_best_move` therefore gets the same score. The tie-break (main.cpp:200-202) then makes the result the legal move with the smallest linear index `row * 8 + col`, or -1 when there is none (`Engine.Othello.GetBestMove`, `Moves.FirstLegalFacts`).
- **The game loop can run forever.** `play_full_game` (main.cpp:211-232) loops while the board is not full. When neither side can move on a board with empty cells, it passes turns forever. The model runs at most `fuel` passes and reports whether the board became full.

## Model

| member | source | states |
|---|---|---|
| Engine.Othello.constructor | main.cpp:172-186 | The game starts on the given position and turn with `winner == -1`; the board is a fresh 8x8 array. |
| Engine.Othello.IsFull | main.cpp:20-27 | True exactly when no cell holds the empty code 5, which is exactly when the number of empty cells is 0. |
| Engine.Othello.CountPieces | main.cpp:29-37 | Returns the number of cells holding `pieceType`, which lies in [0, 64]. |
| Engine.Othello.CopyBoard | main.cpp:39-41 | Returns a fresh array holding the same position: a value copy, not an alias. |
| Engine.Clone | main.cpp:149 | The value copy `auto new_board = ...` (also made at main.cpp:160 and main.cpp:196) is a fresh array equal to the original, so the simulated move never touches the board it was copied from. |
| Engine.ClosesRun | main.cpp:45-61 | The validity loop answers true exactly when the ray from (h, k) passes one or more `antirep` cells and then reaches a `rep` cell on the board. |
| Engine.FillRun | main.cpp:64-71 | On a bracketing ray, the array afterwards equals `Replaced`: (h, k) and the run of `antirep` cells become `rep`. |
| Engine.Othello.ReplaceDirection | main.cpp:43-72 | The array afterwards is `Replaced(old board, ...)`: the run is flipped and the origin set when the ray brackets, otherwise nothing changes. |
| Engine.Othello.RearrangeBoard | main.cpp:74-91 | The array afterwards is `Rearranged(old board, h, k, rep)`: the eight directions are applied in table order, each only when its neighbour holds the opponent's code. |
| Engine.Othello.GetValidMoves | main.cpp:93-128 | Every listed cell is a legal move and every legal move is listed. No cell is listed twice. The list is empty exactly when the player cannot move. |
| Engine.WalkRun | main.cpp:108-116 | The counted length is the run length of `antirep` from the neighbour, and the walk stops on the cell where that run ends. |
| Engine.ScanFrom | main.cpp:107-123 | After the eight directions from a `rep` piece, the scan invariant holds at the next cell, and `visited` marks exactly the listed cells. |
| Engine.ScanDirection | main.cpp:108-122 | One direction extends the scan invariant by one position: the list grows only by appending the landing cell at its end, exactly when that cell is empty, ends a non-empty run and is not yet listed (`push_back`). |
| Engine.Othello.EvaluatePosition | main.cpp:130-134 | The score is Black minus White seen from the member turn, computed on the member board whatever `hu` is, and it lies in [-64, 64]. |
| Engine.Othello.Minimax | main.cpp:136-169 | Returns `Material(member board, member turn)` for every depth, board, side to move and window. The recursion ends because each simulated move fills one empty cell. |
| Engine.Othello.SearchChild | main.cpp:148-151 | Playing a listed legal move on a copy and searching one level deeper yields the member board's material score. |
| Engine.Othello.GetBestMove | main.cpp:188-209 | Returns `FirstLegal(board, turn)`: -1 when the player to move has no legal move, otherwise the legal move of smallest `row * 8 + col`. |
| Engine.Othello.SelectMove | main.cpp:192-208 | The chosen move is in the list, and its linear index is at most that of every listed move. |
| Engine.Othello.PlayTurn | main.cpp:214-224 | The move is `FirstLegal` of the position before the turn, or -1. The turn always flips. With -1 the board is unchanged; otherwise it is `Rearranged` by that move, with one fewer empty cell and one more piece. |
| Engine.Othello.PlayMoves | main.cpp:213-225 | The final board, turn and recorded moves are exactly `GameFrom` of the starting position: turn after turn, the side to move plays `FirstLegal` or passes, and the turn flips. Every recorded move is a cell index in [0, 64). The number of pieces grows, and the number of empty cells shrinks, by the number of recorded moves. `full` is true exactly when the board has no empty cell. |
| Engine.Othello.DeclareWinner | main.cpp:227-229 | The winner is 0 or 1 exactly when that colour has strictly more pieces, and -1 exactly on equal counts. The board and the turn are unchanged. |
| Engine.Othello.PlayFullGame | main.cpp:211-232 | The final board, turn and move list are `GameFrom` of the starting position, i.e. the repeated turns of the loop. Piece and empty counts change by the number of moves played. The game is finished exactly when the board is full, and then the winner follows the piece counts. |
| Engine.GameStep | main.cpp:214-224 | One turn of the loop (a pass that records nothing, or the move `FirstLegal` recorded and played by `Rearranged`, then the turn flipped) leaves the game's outcome from that point unchanged. |
| Engine.GameCounts | main.cpp:213-225 | Across any number of turns, the side to move stays 0 or 1, every recorded move is in [0, 64), and pieces grow and empty cells shrink by exactly the number of recorded moves. |
| Board.MaterialBounds | main.cpp:130-134 | The material score lies in [-64, 64] and is antisymmetric between the two colours. At most 64 pieces are on the board. |
| Board.NoEmptyIffNoEmpties | main.cpp:20-27 | The board has no empty cell exactly when the count of empty cells is zero. |
| Board.TallyBound | main.cpp:29-37 | Any piece count lies in [0, 64]. |
| Board.PlacementCounts | main.cpp:74-91 | Putting a piece on an empty cell while only swapping colours elsewhere fills exactly one empty cell and adds exactly one piece. |
| Board.LinearIndex | main.cpp:208-222 | `row * 8 + col` of an on-board cell lies in [0, 64), and `/ 8` and `% 8` recover the row and the column. |
| Moves.BracketsAtEnd | main.cpp:49-61 | A ray brackets exactly when its run of `anti` is non-empty and the cell where the run ends is on the board and holds `rep`. |
| Moves.ScanFindsAtEnd | main.cpp:112-119 | A scan finds (r, c) exactly when it starts on `rep`, its opponent run is non-empty, and (r, c) is the run's end, on the board and empty. |
| Moves.ScanFindsBrackets | main.cpp:108-121 | Read backwards, a scan from a `rep` piece that finds the empty cell (r, c) is a bracketing ray from (r, c). |
| Moves.BracketsScanFinds | main.cpp:49-61 | A bracketing ray from an empty cell is, read backwards, a scan from the closing piece that finds that cell. |
| Moves.DiscoveredIsLegal | main.cpp:118-121 | Every cell the scan of get_valid_moves discovers is a legal move. |
| Moves.LegalIsDiscovered | main.cpp:98-123 | Every bracketing direction of a legal move is discovered by the scan from the closing piece, along the reverse direction. |
| Moves.ReplacedRun | main.cpp:64-71 | On a bracketing ray, exactly (h, k) and the run of n cells after it become `rep`, and those n cells held `anti`. |
| Moves.ReplacedChanges | main.cpp:43-72 | replace_direction only writes `rep`, and only on (h, k) or on cells that held `anti`. |
| Moves.ReplacedOffRay | main.cpp:83-90 | Flipping along one direction leaves every cell beyond (h, k) on another direction's ray untouched. |
| Moves.StepKeepsBrackets | main.cpp:83-90 | The directions are independent: the pass for one direction never changes whether another direction brackets. |
| Moves.RearrangeChanges | main.cpp:74-91 | rearrange_board only writes `rep`, on the moved-to cell or on cells that held the opponent's code. |
| Moves.RearrangeSetsOrigin | main.cpp:74-91 | If some later direction brackets in the starting position, the moved-to cell ends up holding `rep`. |
| Moves.RearrangeLegal | main.cpp:74-91 | On a legal move, the moved-to cell holds `rep` and is no longer a legal move. Every other cell is kept or goes from the opponent to `rep`. One empty cell is filled and one piece is added; the mover gains at least two pieces and the opponent loses at least one. |
| Moves.StepCells | main.cpp:83-90 | Off the moved-to cell, the pass for one direction sets to `rep` exactly the cells of the opponent run that direction brackets, and keeps every other cell. |
| Moves.RearrangeCells | main.cpp:83-90 | Off the moved-to cell, the passes for directions t..7 set to `rep` exactly the cells captured along one of those directions in the position before them. |
| Moves.RearrangeCaptures | main.cpp:74-91 | Off the moved-to cell, a cell changes exactly when it lies on an opponent run bracketed by `rep` in some direction, and such a cell goes from the opponent's code to `rep`. |
| Moves.RearrangeGains | main.cpp:74-91 | A legal move gives the mover at least two more pieces: the moved-to cell and at least one captured cell. |
| Moves.FirstLegalFacts | main.cpp:188-209 | `FirstLegal` is -1 exactly when the player cannot move. Otherwise it is the index of a legal move, and no legal move has a smaller index. |
| Moves.FirstLegalIs | main.cpp:200-208 | A legal move whose index is at most that of every legal move is `FirstLegal`. |
| Scan.DiscoversLanding | main.cpp:112-122 | A scan from one piece in one direction can only discover the cell where the opponent run ends. |
| Scan.ScanStep | main.cpp:118-122 | One pass of the direction loop keeps all three parts of the scan invariant: listed moves are legal and distinct, and everything discovered so far is listed. |
| Scan.ScanComplete | main.cpp:98-127 | After the whole scan, every legal move of `rep` is in the list. |

## Left out

- The file-loading part of the constructor (main.cpp:172-186) is not modelled. The constructor takes the position and the turn as arguments, and loading errors are left out.
- `print_board` and `main` are terminal I/O.
- Engine.Othello.PlayFullGame: the loop of main.cpp never ends when neither side can move on a board with empty cells. The model stops after `fuel` passes and reports `finished == false`. What happens after those passes is not modelled.
- Engine.Othello.GetValidMoves: the order of the list (row-major by origin piece, then by direction) is not stated. Only the set of cells and their distinctness are stated. No result of the model depends on the order, because every candidate gets the same score.
- Engine.Othello.Minimax: requires the side to move to be 0 or 1. For other codes, `antirep` is 0 (main.cpp:96) and `1 - current_turn` can be 5, so a simulated move can make cells empty and the empty count can rise. The search of the source still ends, because every such move turns at least one 0-cell, but the model does not prove this. The same requirement is on Engine.Othello.SearchChild, Engine.Othello.GetBestMove, Engine.Othello.SelectMove, Engine.Othello.PlayTurn, Engine.Othello.PlayMoves and Engine.Othello.PlayFullGame.
- Engine.Othello.ReplaceDirection: requires `rep != antirep`. Its only caller passes the opponent's code.
- Alpha-beta pruning is modelled, with its `break`s, but no contract speaks of it. Every subtree returns the same score, so pruning never changes a result.
- 32-bit integers: scores lie in [-64, 64], and `INT_MIN`/`INT_MAX` are used only as sentinels, so no arithmetic of the source can overflow. `depth - 1` for a very negative depth is not modelled as wrapping. Termination does not rest on the depth.
