/** The `Othello` engine class of main.cpp: the authoritative board, whose turn it is and the winner,
    with move generation, move application, evaluation, alpha-beta search and the self-play loop. */
module Engine {
  import opened Board
  import opened Rays
  import opened Moves
  import opened Scan

  /** The INT_MIN and INT_MAX sentinels of the search (32-bit `int`). */
  const IntMin := -2147483648
  const IntMax := 2147483647

  /** A fresh array holding the same position: the value copy `auto new_board = current_board`. */
  method Clone(a: array2<int>) returns (b: array2<int>)
    requires IsBoardArray(a)
    ensures fresh(b) && IsBoardArray(b) && Snapshot(b) == Snapshot(a)
  {
    b := new int[8, 8]((i, j) reads a => if 0 <= i < 8 && 0 <= j < 8 then a[i, j] else Empty);
    GridsEqual(Snapshot(b), Snapshot(a));
  }

  /** The validity check of replace_direction (main.cpp:45-61): walks the run of `antirep` from the
      neighbour of (h, k) and reports whether a `rep` cell closes it. */
  method ClosesRun(h: int, k: int, rep: int, antirep: int, hu: array2<int>, dh: int, dk: int)
      returns (valid: bool)
    requires IsBoardArray(hu) && InBounds(h, k) && IsDirection(dh, dk) && rep != antirep
    ensures valid == Brackets(Snapshot(hu), h, k, dh, dk, rep, antirep)
  {
    ghost var g := Snapshot(hu);
    ghost var n := RunLength(g, h + dh, k + dk, dh, dk, antirep);
    ghost var e := RunEnd(g, h + dh, k + dk, dh, dk, antirep);
    var testH, testK := h + dh, k + dk;
    valid := false;
    ghost var s := 0;
    while InBounds(testH, testK) && hu[testH, testK] == antirep
      invariant RunEnd(g, testH, testK, dh, dk, antirep) == e
      invariant 0 <= s && s + RunLength(g, testH, testK, dh, dk, antirep) == n
      invariant s >= 1 ==> !(InBounds(testH, testK) && g[testH][testK] == rep)
      invariant !valid
      decreases RunLength(g, testH, testK, dh, dk, antirep)
    {
      testH, testK := testH + dh, testK + dk;
      s := s + 1;
      if InBounds(testH, testK) && hu[testH, testK] == rep {
        valid := true;
        break;
      }
    }
    BracketsAtEnd(g, h, k, dh, dk, rep, antirep);
  }

  /** The replacement of replace_direction (main.cpp:64-71), run once the check has succeeded. */
  method FillRun(h: int, k: int, rep: int, antirep: int, hu: array2<int>, dh: int, dk: int)
    requires IsBoardArray(hu) && InBounds(h, k) && IsDirection(dh, dk)
    requires Brackets(Snapshot(hu), h, k, dh, dk, rep, antirep)
    modifies hu
    ensures Snapshot(hu) == Replaced(old(Snapshot(hu)), h, k, rep, antirep, dh, dk)
  {
    ghost var g := Snapshot(hu);
    ghost var target := FillFrom(Set(g, h, k, rep), h + dh, k + dk, dh, dk, rep, antirep);
    hu[h, k] := rep;
    ghost var p := Set(g, h, k, rep);
    SetCells(g, h, k, rep);
    var curH, curK := h + dh, k + dk;
    while InBounds(curH, curK) && hu[curH, curK] == antirep
      invariant forall i, j | InBounds(i, j) :: hu[i, j] == p[i][j]
      invariant FillFrom(p, curH, curK, dh, dk, rep, antirep) == target
      decreases Reach(curH, dh) + Reach(curK, dk)
    {
      SetCells(p, curH, curK, rep);
      hu[curH, curK] := rep;
      p := Set(p, curH, curK, rep);
      curH, curK := curH + dh, curK + dk;
    }
    GridsEqual(Snapshot(hu), p);
  }

  /** The run walk of get_valid_moves (main.cpp:108-116): from the neighbour of (i, j) along (dr, dc),
      counts the cells holding `antirep` and stops on the first cell that does not. */
  method WalkRun(hu: array2<int>, i: int, j: int, dr: int, dc: int, antirep: int)
      returns (h: int, k: int, count: int)
    requires IsBoardArray(hu) && IsDirection(dr, dc)
    ensures count == RunLength(Snapshot(hu), i + dr, j + dc, dr, dc, antirep)
    ensures (h, k) == RunEnd(Snapshot(hu), i + dr, j + dc, dr, dc, antirep)
  {
    ghost var g := Snapshot(hu);
    h, k := i + dr, j + dc;
    count := 0;
    while InBounds(h, k) && hu[h, k] == antirep
      invariant RunEnd(g, h, k, dr, dc, antirep) == RunEnd(g, i + dr, j + dc, dr, dc, antirep)
      invariant count + RunLength(g, h, k, dr, dc, antirep) == RunLength(g, i + dr, j + dc, dr, dc, antirep)
      decreases RunLength(g, h, k, dr, dc, antirep)
    {
      count := count + 1;
      h := h + dr;
      k := k + dc;
    }
  }

  /** The direction loop of get_valid_moves (main.cpp:107-123) for the `rep` piece at (i, j);
      `g` is the position held by `hu`. */
  method ScanFrom(hu: array2<int>, ghost g: Grid, rep: int, antirep: int, i: int, j: int,
                  visited: array2<bool>, moves: seq<(int, int)>) returns (next: seq<(int, int)>)
    requires IsBoardArray(hu) && g == Snapshot(hu) && InBounds(i, j) && g[i][j] == rep
    requires antirep == Opponent(rep) && visited.Length0 == 8 && visited.Length1 == 8
    requires ScannedUpTo(g, rep, moves, i, j, 0)
    requires forall r, c | InBounds(r, c) :: visited[r, c] <==> (r, c) in moves
    modifies visited
    ensures ScannedUpTo(g, rep, next, i, j + 1, 0)
    ensures forall r, c | InBounds(r, c) :: visited[r, c] <==> (r, c) in next
  {
    next := moves;
    for t := 0 to |Directions|
      invariant ScannedUpTo(g, rep, next, i, j, t)
      invariant forall r, c | InBounds(r, c) :: visited[r, c] <==> (r, c) in next
    {
      next := ScanDirection(hu, g, rep, antirep, i, j, t, visited, next);
    }
    ScanNextCell(g, rep, next, i, j);
  }

  /** One direction of that loop (main.cpp:108-122): walks the run of `antirep` and records the empty
      cell that ends it, unless it is already listed. */
  method ScanDirection(hu: array2<int>, ghost g: Grid, rep: int, antirep: int, i: int, j: int, t: int,
                       visited: array2<bool>, moves: seq<(int, int)>) returns (next: seq<(int, int)>)
    requires IsBoardArray(hu) && g == Snapshot(hu) && InBounds(i, j) && g[i][j] == rep
    requires antirep == Opponent(rep) && 0 <= t < 8 && visited.Length0 == 8 && visited.Length1 == 8
    requires ScannedUpTo(g, rep, moves, i, j, t)
    requires forall r, c | InBounds(r, c) :: visited[r, c] <==> (r, c) in moves
    modifies visited
    ensures ScannedUpTo(g, rep, next, i, j, t + 1)
    ensures forall r, c | InBounds(r, c) :: visited[r, c] <==> (r, c) in next
    ensures var e := Landing(g, rep, i, j, t);
      next == if Discovers(g, rep, i, j, t, e.0, e.1) && e !in moves then moves + [e] else moves
  {
    DirectionsAreDirections();
    var (dr, dc) := Directions[t];
    var h, k, count := WalkRun(hu, i, j, dr, dc, antirep);
    assert (h, k) == Landing(g, rep, i, j, t);
    ScanFindsAtEnd(g, rep, i, j, dr, dc, h, k);
    ghost var found := Discovers(g, rep, i, j, t, h, k);
    next := moves;
    if count > 0 && InBounds(h, k) && hu[h, k] == Empty && !visited[h, k] {
      assert found && (h, k) !in moves;
      next := moves + [(h, k)];
      visited[h, k] := true;
    } else {
      assert !(found && (h, k) !in moves);
    }
    ScanStep(g, rep, moves, i, j, t, next);
  }

  // Spent, Other, AppendAssoc and SameGame are solver aids: naming `fuel - 1` and `1 - turn`, and
  // stating associativity and equal-argument facts as lemmas, keeps the game proofs below small.

  /** The passes left after one more: play_full_game's loop is bounded by `fuel` passes here. */
  function Spent(fuel: nat): nat
    requires fuel > 0
  {
    fuel - 1
  }

  /** The player to move after `turn`: play_full_game flips the turn with `1 - turn`. */
  function Other(turn: int): int
  {
    1 - turn
  }

  /** The self-play loop of play_full_game (main.cpp:213-225) on values, from position `g` with `turn`
      to move, for at most `fuel` passes: each pass plays FirstLegal, the move get_best_move returns,
      or only passes the turn when it is -1. Returns the final position, the final turn and the moves
      played, in order. */
  ghost function GameFrom(g: Grid, turn: int, fuel: nat): (Grid, int, seq<int>)
    decreases fuel
  {
    if NoEmpty(g) || fuel == 0 then (g, turn, [])
    else
      var m := FirstLegal(g, turn);
      var next := if m == -1 then g else Rearranged(g, m / 8, m % 8, turn);
      var rest := GameFrom(next, Other(turn), Spent(fuel));
      (rest.0, rest.1, (if m == -1 then [] else [m]) + rest.2)
  }

  /** How a game ends that has recorded `moves` so far and stands at `g` with `turn` to move and
      `left` passes to go. */
  ghost function Outcome(g: Grid, turn: int, left: nat, moves: seq<int>): (Grid, int, seq<int>)
  {
    var rest := GameFrom(g, turn, left);
    (rest.0, rest.1, moves + rest.2)
  }

  /** Before the first pass nothing is recorded, so the outcome is the game itself. */
  lemma OutcomeStart(g: Grid, turn: int, fuel: nat)
    ensures Outcome(g, turn, fuel, []) == GameFrom(g, turn, fuel)
  {
    var rest := GameFrom(g, turn, fuel);
    assert [] + rest.2 == rest.2;
  }

  /** One pass of the game: `m` is the move chosen on `g` and `next` the position after it. The game
      records `m` (unless it is -1) and then continues from `next`, ending the same way. */
  lemma GameStep(g: Grid, turn: int, fuel: nat, m: int, next: Grid, nextTurn: int, nextFuel: nat,
                 moves: seq<int>, played: seq<int>)
    requires !NoEmpty(g) && fuel == nextFuel + 1 && m == FirstLegal(g, turn)
    requires m == -1 ==> next == g && played == moves
    requires m != -1 ==> 0 <= m < 64 && next == Rearranged(g, m / 8, m % 8, turn) && played == moves + [m]
    requires nextTurn == Other(turn)
    ensures Outcome(next, nextTurn, nextFuel, played) == Outcome(g, turn, fuel, moves)
  {
    GameUnfold(g, turn, fuel, m, next, moves, played);
    SameGame(next, Other(turn), nextTurn, Spent(fuel), nextFuel);
  }

  /** GameStep with the next turn and fuel written as GameFrom computes them. */
  lemma GameUnfold(g: Grid, turn: int, fuel: nat, m: int, next: Grid, moves: seq<int>, played: seq<int>)
    requires !NoEmpty(g) && fuel > 0 && m == FirstLegal(g, turn)
    requires m == -1 ==> next == g && played == moves
    requires m != -1 ==> 0 <= m < 64 && next == Rearranged(g, m / 8, m % 8, turn) && played == moves + [m]
    ensures Outcome(next, Other(turn), Spent(fuel), played) == Outcome(g, turn, fuel, moves)
  {
    if m != -1 {
      MoveUnfold(g, turn, fuel, m, moves);
    } else {
      PassUnfold(g, turn, fuel, moves);
    }
  }

  /** GameUnfold when a move is played. */
  lemma MoveUnfold(g: Grid, turn: int, fuel: nat, m: int, moves: seq<int>)
    requires !NoEmpty(g) && fuel > 0 && m == FirstLegal(g, turn) && 0 <= m < 64
    ensures Outcome(Rearranged(g, m / 8, m % 8, turn), Other(turn), Spent(fuel), moves + [m]) == Outcome(g, turn, fuel, moves)
  {
    MoveFrom(g, turn, fuel, m);
    AppendAssoc(moves, [m], GameFrom(Rearranged(g, m / 8, m % 8, turn), Other(turn), Spent(fuel)).2);
  }

  /** GameUnfold when the player passes. */
  lemma PassUnfold(g: Grid, turn: int, fuel: nat, moves: seq<int>)
    requires !NoEmpty(g) && fuel > 0 && FirstLegal(g, turn) == -1
    ensures Outcome(g, Other(turn), Spent(fuel), moves) == Outcome(g, turn, fuel, moves)
  {
    PassFrom(g, turn, fuel);
  }

  /** A turn with a legal move records it and continues from the rearranged board. */
  lemma MoveFrom(g: Grid, turn: int, fuel: nat, m: int)
    requires !NoEmpty(g) && fuel > 0 && m == FirstLegal(g, turn) && 0 <= m < 64
    ensures var r, a := GameFrom(g, turn, fuel), GameFrom(Rearranged(g, m / 8, m % 8, turn), Other(turn), Spent(fuel));
      r.0 == a.0 && r.1 == a.1 && r.2 == [m] + a.2
  {
  }

  /** A turn without a legal move records nothing and passes to the other player. */
  lemma PassFrom(g: Grid, turn: int, fuel: nat)
    requires !NoEmpty(g) && fuel > 0 && FirstLegal(g, turn) == -1
    ensures var r, a := GameFrom(g, turn, fuel), GameFrom(g, Other(turn), Spent(fuel));
      r.0 == a.0 && r.1 == a.1 && r.2 == a.2
  {
    var a, r := GameFrom(g, Other(turn), Spent(fuel)), GameFrom(g, turn, fuel);
    assert r.2 == [] + a.2 == a.2;
  }

  /** Concatenation of move lists is associative. */
  lemma AppendAssoc(s: seq<int>, t: seq<int>, u: seq<int>)
    ensures s + (t + u) == (s + t) + u
  {
  }

  /** Equal turns and fuel give the same game. */
  lemma SameGame(g: Grid, turn: int, turn': int, fuel: nat, fuel': nat)
    requires turn == turn' && fuel == fuel'
    ensures var a, b := GameFrom(g, turn, fuel), GameFrom(g, turn', fuel');
      a.0 == b.0 && a.1 == b.1 && a.2 == b.2
  {
  }

  /** Once the board is full or no passes are left, the game has ended where it stands. */
  lemma OutcomeEnd(g: Grid, turn: int, left: nat, moves: seq<int>)
    requires NoEmpty(g) || left == 0
    ensures Outcome(g, turn, left, moves) == (g, turn, moves)
  {
    assert moves + [] == moves;
  }

  /** `game` is how a game from `g` ends: the turn is a player's, every recorded move is a cell
      index, and each recorded move filled one empty cell and added one piece. */
  ghost predicate CountsHold(g: Grid, game: (Grid, int, seq<int>))
  {
    IsPlayer(game.1) && (forall m | m in game.2 :: 0 <= m < 64) &&
    Pieces(game.0) == Pieces(g) + |game.2| && Empties(game.0) == Empties(g) - |game.2|
  }

  /** Along the whole game every recorded move is a cell index that filled one empty cell and
      added one piece, and the turn stays a player's. */
  lemma {:induction false} GameCounts(g: Grid, turn: int, fuel: nat)
    requires IsPlayer(turn)
    ensures CountsHold(g, GameFrom(g, turn, fuel))
    decreases fuel
  {
    var r := GameFrom(g, turn, fuel);
    if !NoEmpty(g) && fuel > 0 {
      var m := FirstLegal(g, turn);
      if m == -1 {
        PassFrom(g, turn, fuel);
        GameCounts(g, Other(turn), Spent(fuel));
        CountsPass(g, r, GameFrom(g, Other(turn), Spent(fuel)));
      } else {
        var next := Rearranged(g, m / 8, m % 8, turn);
        MoveFrom(g, turn, fuel, m);
        GameCounts(next, Other(turn), Spent(fuel));
        MoveCounts(g, turn, m);
        CountsMove(g, next, m, r, GameFrom(next, Other(turn), Spent(fuel)));
      }
    } else {
      GameEnds(g, turn, fuel);
      assert CountsHold(g, r);
    }
  }

  /** A pass keeps the counts of the rest of the game. */
  lemma CountsPass(g: Grid, r: (Grid, int, seq<int>), a: (Grid, int, seq<int>))
    requires r.0 == a.0 && r.1 == a.1 && r.2 == a.2 && CountsHold(g, a)
    ensures CountsHold(g, r)
  {
  }

  /** A move that fills one empty cell and adds one piece extends the counts of the rest of the game. */
  lemma CountsMove(g: Grid, next: Grid, m: int, r: (Grid, int, seq<int>), a: (Grid, int, seq<int>))
    requires r.0 == a.0 && r.1 == a.1 && r.2 == [m] + a.2 && CountsHold(next, a) && 0 <= m < 64
    requires Pieces(next) == Pieces(g) + 1 && Empties(next) == Empties(g) - 1
    ensures CountsHold(g, r)
  {
    assert forall x | x in r.2 :: x == m || x in a.2;
  }

  /** On a full board, or with no passes left, the game ends where it stands. */
  lemma GameEnds(g: Grid, turn: int, fuel: nat)
    requires NoEmpty(g) || fuel == 0
    ensures var r := GameFrom(g, turn, fuel);
      r.0 == g && r.1 == turn && r.2 == []
  {
  }

  /** The move `get_best_move` picks fills one empty cell and adds one piece. */
  lemma MoveCounts(g: Grid, turn: int, m: int)
    requires IsPlayer(turn) && m == FirstLegal(g, turn) && m != -1
    ensures 0 <= m < 64
    ensures Pieces(Rearranged(g, m / 8, m % 8, turn)) == Pieces(g) + 1
    ensures Empties(Rearranged(g, m / 8, m % 8, turn)) == Empties(g) - 1
  {
    FirstLegalFacts(g, turn);
    RearrangeLegal(g, turn, m / 8, m % 8);
  }

  class Othello {
    var turn: int
    var winner: int
    var board: array2<int>

    ghost predicate Valid()
      reads this
    {
      IsBoardArray(board)
    }

    /** A game on the given position; loading it from a file is not modelled (main.cpp:172-186). */
    constructor (initialTurn: int, cells: Grid)
      ensures Valid() && fresh(board)
      ensures turn == initialTurn && winner == -1 && Snapshot(board) == cells
    {
      turn := initialTurn;
      board := new int[8, 8]((i, j) => if 0 <= i < 8 && 0 <= j < 8 then cells[i][j] else Empty);
      winner := -1;
      new;
      GridsEqual(Snapshot(board), cells);
    }

    /** is_full: true exactly when no cell of the board is empty. */
    method IsFull() returns (full: bool)
      requires Valid()
      ensures full <==> NoEmpty(Snapshot(board))
      ensures full <==> Empties(Snapshot(board)) == 0
    {
      NoEmptyIffNoEmpties(Snapshot(board));
      for i := 0 to 8
        invariant forall r, c | 0 <= r < i && 0 <= c < 8 :: board[r, c] != Empty
      {
        for j := 0 to 8
          invariant forall r, c | (0 <= r < i && 0 <= c < 8) || (r == i && 0 <= c < j) :: board[r, c] != Empty
        {
          if board[i, j] == Empty {
            return false;
          }
        }
      }
      return true;
    }

    /** count_pieces: the number of cells of the board holding `pieceType`. */
    method CountPieces(pieceType: int) returns (count: int)
      requires Valid()
      ensures count == Tally(Snapshot(board), pieceType)
      ensures 0 <= count <= 64
    {
      ghost var g := Snapshot(board);
      count := 0;
      for i := 0 to 8
        invariant count == Tally(g[..i], pieceType)
      {
        for j := 0 to 8
          invariant count == Tally(g[..i], pieceType) + RowTally(g[i][..j], pieceType)
        {
          assert g[i][..j + 1][..j] == g[i][..j];
          if board[i, j] == pieceType {
            count := count + 1;
          }
        }
        assert g[..i + 1][..i] == g[..i] && g[i][..8] == g[i];
      }
      assert g[..8] == g;
      TallyBound(g, pieceType);
    }

    /** copy_board: an independent copy of the board. */
    method CopyBoard() returns (copy: array2<int>)
      requires Valid()
      ensures fresh(copy) && IsBoardArray(copy) && Snapshot(copy) == Snapshot(board)
    {
      copy := Clone(board);
    }

    /** replace_direction: if the ray from (h, k) along (dh, dk) passes one or more `antirep` cells and
        then reaches `rep`, puts `rep` on (h, k) and on that run; otherwise changes nothing. */
    method ReplaceDirection(h: int, k: int, rep: int, antirep: int, hu: array2<int>, dh: int, dk: int)
      requires IsBoardArray(hu) && InBounds(h, k) && IsDirection(dh, dk) && rep != antirep
      modifies hu
      ensures Snapshot(hu) == Replaced(old(Snapshot(hu)), h, k, rep, antirep, dh, dk)
    {
      var valid := ClosesRun(h, k, rep, antirep, hu, dh, dk);
      if valid {
        FillRun(h, k, rep, antirep, hu, dh, dk);
      }
    }

    /** rearrange_board: `rep` plays at (h, k); each of the eight directions whose neighbour holds the
        opponent's code is handed to replace_direction, in the order of the direction table. */
    method RearrangeBoard(hu: array2<int>, h: int, k: int, rep: int)
      requires IsBoardArray(hu) && InBounds(h, k)
      modifies hu
      ensures Snapshot(hu) == Rearranged(old(Snapshot(hu)), h, k, rep)
    {
      var antirep := if rep == 0 then 1 else 0;
      ghost var g := Snapshot(hu);
      DirectionsAreDirections();
      for t := 0 to |Directions|
        invariant RearrangeFrom(Snapshot(hu), h, k, rep, t) == Rearranged(g, h, k, rep)
      {
        var (dh, dk) := Directions[t];
        var newH, newK := h + dh, k + dk;
        if InBounds(newH, newK) && hu[newH, newK] == antirep {
          ReplaceDirection(h, k, rep, antirep, hu, dh, dk);
        }
      }
    }

    /** get_valid_moves: the legal moves of `rep` on `hu`, each listed once; no moves gives the empty list. */
    method GetValidMoves(hu: array2<int>, rep: int) returns (moves: seq<(int, int)>)
      requires IsBoardArray(hu)
      ensures forall m | m in moves :: IsLegal(Snapshot(hu), rep, m.0, m.1)
      ensures forall r, c | IsLegal(Snapshot(hu), rep, r, c) :: (r, c) in moves
      ensures forall a, b | 0 <= a < b < |moves| :: moves[a] != moves[b]
      ensures moves == [] <==> !CanMove(Snapshot(hu), rep)
    {
      ghost var g := Snapshot(hu);
      moves := [];
      var visited := new bool[8, 8]((_, _) => false);
      var antirep := if rep == 0 then 1 else 0;
      assert antirep == Opponent(rep);
      DirectionsAreDirections();
      ScanStart(g, rep);
      for i := 0 to 8
        invariant ScannedUpTo(g, rep, moves, i, 0, 0)
        invariant forall r, c | InBounds(r, c) :: visited[r, c] <==> (r, c) in moves
      {
        for j := 0 to 8
          invariant ScannedUpTo(g, rep, moves, i, j, 0)
          invariant forall r, c | InBounds(r, c) :: visited[r, c] <==> (r, c) in moves
        {
          if hu[i, j] == rep {
            moves := ScanFrom(hu, g, rep, antirep, i, j, visited, moves);
          } else {
            ScanSkipCell(g, rep, moves, i, j);
          }
        }
        ScanNextRow(g, rep, moves, i);
      }
      ScanComplete(g, rep, moves);
      if moves != [] {
        assert IsLegal(g, rep, moves[0].0, moves[0].1);
      }
    }

    /** evaluate_position: the material difference of the member board from the member turn's side.
        The argument `hu` is never read (main.cpp:130-134). */
    method EvaluatePosition(hu: array2<int>) returns (score: int)
      requires Valid()
      ensures score == Material(Snapshot(board), turn)
      ensures -64 <= score <= 64
    {
      var blackCount := CountPieces(Black);
      var whiteCount := CountPieces(White);
      score := if turn == 0 then blackCount - whiteCount else whiteCount - blackCount;
      MaterialBounds(Snapshot(board), turn);
    }

    /** minimax with alpha-beta cut-offs. Since every leaf is scored by evaluate_position, which reads
        only the member board, every call returns that one score, whatever its arguments. The search
        ends because each simulated move fills one empty cell. */
    method Minimax(depth: int, maximizingPlayer: bool, currentBoard: array2<int>, currentTurn: int,
                   alpha: int, beta: int) returns (score: int)
      requires Valid() && IsBoardArray(currentBoard) && IsPlayer(currentTurn)
      ensures score == Material(Snapshot(board), turn)
      decreases Empties(Snapshot(currentBoard)), 1
    {
      if depth == 0 {
        score := EvaluatePosition(currentBoard);
        return;
      }
      var moves := GetValidMoves(currentBoard, currentTurn);
      if moves == [] {
        score := EvaluatePosition(currentBoard);
        return;
      }
      AllLegalIntro(Snapshot(currentBoard), currentTurn, moves);
      ghost var leaf := Material(Snapshot(board), turn);
      MaterialBounds(Snapshot(board), turn);
      var a, b := alpha, beta;
      if maximizingPlayer {
        var maxEval := IntMin;
        var idx := 0;
        while idx < |moves|
          invariant 0 <= idx <= |moves|
          invariant idx == 0 ==> maxEval == IntMin
          invariant idx > 0 ==> maxEval == leaf
        {
          var eval := SearchChild(depth, false, currentBoard, currentTurn, moves, idx, a, b);
          maxEval := if maxEval < eval then eval else maxEval;
          a := if a < eval then eval else a;
          if b <= a {
            break;
          }
          idx := idx + 1;
        }
        score := maxEval;
      } else {
        var minEval := IntMax;
        var idx := 0;
        while idx < |moves|
          invariant 0 <= idx <= |moves|
          invariant idx == 0 ==> minEval == IntMax
          invariant idx > 0 ==> minEval == leaf
        {
          var eval := SearchChild(depth, true, currentBoard, currentTurn, moves, idx, a, b);
          minEval := if eval < minEval then eval else minEval;
          b := if eval < b then eval else b;
          if b <= a {
            break;
          }
          idx := idx + 1;
        }
        score := minEval;
      }
    }

    /** The body of the search loops of minimax (main.cpp:148-151, main.cpp:160-163) and of
        get_best_move (main.cpp:196-198): plays the legal `move` on a copy of `currentBoard` and
        searches the result one level deeper, for the other player and with `childMaximizing`. */
    method SearchChild(depth: int, childMaximizing: bool, currentBoard: array2<int>, currentTurn: int,
                       moves: seq<(int, int)>, idx: int, alpha: int, beta: int) returns (eval: int)
      requires Valid() && IsBoardArray(currentBoard) && IsPlayer(currentTurn)
      requires AllLegal(Snapshot(currentBoard), currentTurn, moves) && 0 <= idx < |moves|
      ensures eval == Material(Snapshot(board), turn)
      decreases Empties(Snapshot(currentBoard)), 0
    {
      var move := moves[idx];
      AllLegalAt(Snapshot(currentBoard), currentTurn, moves, idx);
      var newBoard := Clone(currentBoard);
      RearrangeBoard(newBoard, move.0, move.1, currentTurn);
      RearrangeLegal(Snapshot(currentBoard), currentTurn, move.0, move.1);
      eval := Minimax(depth - 1, childMaximizing, newBoard, 1 - currentTurn, alpha, beta);
    }

    /** get_best_move: -1 when the player to move has no legal move; otherwise `row * 8 + col` of a
        legal move. All searched scores are equal, so the tie-break makes it the legal move with the
        smallest linear index (see FirstLegalFacts). The board and the turn are left as they were. */
    method GetBestMove(depth: int) returns (best: int)
      requires Valid() && IsPlayer(turn)
      ensures best == FirstLegal(Snapshot(board), turn)
    {
      ghost var g := Snapshot(board);
      var moves := GetValidMoves(board, turn);
      if moves == [] {
        FirstLegalFacts(g, turn);
        return -1;
      }
      AllLegalIntro(g, turn, moves);
      var bestMove := SelectMove(depth, moves, g);
      best := CellIndex(bestMove.0, bestMove.1);
      forall i, j | IsLegal(g, turn, i, j)
        ensures best <= CellIndex(i, j)
      {
        var a :| 0 <= a < |moves| && moves[a] == (i, j);
      }
      FirstLegalIs(g, turn, bestMove.0, bestMove.1);
    }

    /** The selection loop of get_best_move (main.cpp:192-208): searches each move in list order and
        keeps the first one with the highest score, or with an equal score and a smaller linear index.
        Every score is the same, so the result is the listed move of smallest linear index. */
    method SelectMove(depth: int, moves: seq<(int, int)>, ghost g: Grid) returns (bestMove: (int, int))
      requires Valid() && IsPlayer(turn) && moves != [] && g == Snapshot(board)
      requires AllLegal(g, turn, moves)
      ensures bestMove in moves
      ensures forall a | 0 <= a < |moves| :: CellIndex(bestMove.0, bestMove.1) <= CellIndex(moves[a].0, moves[a].1)
    {
      ghost var leaf := Material(g, turn);
      MaterialBounds(g, turn);
      var bestScore := IntMin;
      bestMove := moves[0];
      ghost var bestIdx := 0;
      for idx := 0 to |moves|
        invariant 0 <= bestIdx < |moves| && bestMove == moves[bestIdx]
        invariant idx == 0 ==> bestScore == IntMin
        invariant idx > 0 ==> bestScore == leaf
        invariant forall a | 0 <= a < idx :: CellIndex(bestMove.0, bestMove.1) <= CellIndex(moves[a].0, moves[a].1)
        invariant Snapshot(board) == g
      {
        var move := moves[idx];
        var score := SearchChild(depth, false, board, turn, moves, idx, IntMin, IntMax);
        assert score == leaf;
        ghost var previous := CellIndex(bestMove.0, bestMove.1);
        if score > bestScore ||
           (score == bestScore && CellIndex(move.0, move.1) < CellIndex(bestMove.0, bestMove.1)) {
          assert idx == 0 || CellIndex(move.0, move.1) < previous;
          bestScore := score;
          bestMove := move;
          bestIdx := idx;
        }
        assert idx > 0 ==> CellIndex(bestMove.0, bestMove.1) <= previous;
        assert CellIndex(bestMove.0, bestMove.1) <= CellIndex(move.0, move.1);
      }
    }

    /** One pass of the play_full_game loop (main.cpp:214-224): search for a move; with none, only the
        turn passes; otherwise the move is played on the board for the player to move, filling one
        empty cell, and the turn passes. */
    method PlayTurn(depth: int) returns (move: int)
      requires Valid() && IsPlayer(turn)
      modifies this, board
      ensures Valid() && board == old(board) && turn == 1 - old(turn) && winner == old(winner)
      ensures move == FirstLegal(old(Snapshot(board)), old(turn)) && -1 <= move < 64
      ensures move == -1 ==> Snapshot(board) == old(Snapshot(board))
      ensures move != -1 ==> Snapshot(board) == Rearranged(old(Snapshot(board)), move / 8, move % 8, old(turn))
      ensures move != -1 ==> Empties(Snapshot(board)) == Empties(old(Snapshot(board))) - 1
      ensures move != -1 ==> Pieces(Snapshot(board)) == Pieces(old(Snapshot(board))) + 1
    {
      ghost var before := Snapshot(board);
      move := GetBestMove(depth);
      FirstLegalFacts(before, turn);
      if move == -1 {
        turn := 1 - turn;
        return;
      }
      var h := move / 8;
      var k := move % 8;
      RearrangeLegal(before, turn, h, k);
      RearrangeBoard(board, h, k, turn);
      turn := 1 - turn;
    }

    /** play_full_game: plays moves chosen by get_best_move, passing when a player has none, until the
        board is full, then records the winner: 0 or 1 for strictly more pieces, -1 for a draw.
        The loop of main.cpp never ends when neither player can move on a board that is not full;
        here it stops after `fuel` passes, reporting `finished == false`. */
    method PlayFullGame(depth: int, fuel: nat) returns (moves: seq<int>, finished: bool)
      requires Valid() && IsPlayer(turn)
      modifies this, board
      ensures Valid() && board == old(board) && IsPlayer(turn)
      ensures var game := GameFrom(old(Snapshot(board)), old(turn), fuel);
        Snapshot(board) == game.0 && turn == game.1 && moves == game.2
      ensures forall m | m in moves :: 0 <= m < 64
      ensures Pieces(Snapshot(board)) == Pieces(old(Snapshot(board))) + |moves|
      ensures Empties(Snapshot(board)) == Empties(old(Snapshot(board))) - |moves|
      ensures finished <==> NoEmpty(Snapshot(board))
      ensures finished ==> var g := Snapshot(board);
                (winner == Black <==> Tally(g, Black) > Tally(g, White)) &&
                (winner == White <==> Tally(g, Black) < Tally(g, White)) &&
                (winner == -1 <==> Tally(g, Black) == Tally(g, White))
      ensures !finished ==> winner == old(winner)
    {
      moves, finished := PlayMoves(depth, fuel);
      if finished {
        DeclareWinner();
      }
    }

    /** The move loop of play_full_game (main.cpp:213-225), stopped after `fuel` passes: every played
        move fills one empty cell and adds one piece. */
    method PlayMoves(depth: int, fuel: nat) returns (moves: seq<int>, full: bool)
      requires Valid() && IsPlayer(turn)
      modifies this, board
      ensures Valid() && board == old(board) && IsPlayer(turn) && winner == old(winner)
      ensures var game := GameFrom(old(Snapshot(board)), old(turn), fuel);
        Snapshot(board) == game.0 && turn == game.1 && moves == game.2
      ensures forall m | m in moves :: 0 <= m < 64
      ensures Pieces(Snapshot(board)) == Pieces(old(Snapshot(board))) + |moves|
      ensures Empties(Snapshot(board)) == Empties(old(Snapshot(board))) - |moves|
      ensures full <==> NoEmpty(Snapshot(board))
    {
      moves := [];
      full := IsFull();
      ghost var g0, turn0 := Snapshot(board), turn;
      ghost var game := GameFrom(g0, turn0, fuel);
      OutcomeStart(g0, turn0, fuel);
      ghost var cur: Grid, left: nat := g0, fuel;
      var passes := 0;
      while !full && passes < fuel
        invariant Valid() && board == old(board) && IsPlayer(turn) && winner == old(winner)
        invariant passes <= fuel && left == fuel - passes
        invariant cur == Snapshot(board)
        invariant Outcome(cur, turn, left, moves) == game
        invariant full <==> NoEmpty(cur)
        decreases fuel - passes
      {
        ghost var turnBefore, movesBefore := turn, moves;
        var move := PlayTurn(depth);
        ghost var now: Grid := Snapshot(board);
        full := IsFull();
        if move != -1 {
          moves := moves + [move];
        }
        ghost var before, left0 := cur, left;
        passes := passes + 1;
        cur, left := now, left - 1;
        GameStep(before, turnBefore, left0, move, now, turn, left, movesBefore, moves);
      }
      OutcomeEnd(cur, turn, left, moves);
      GameCounts(g0, turn0, fuel);
    }

    /** The result of play_full_game (main.cpp:227-229): 0 or 1 when that colour has strictly more
        pieces on the board, -1 on equal counts. */
    method DeclareWinner()
      requires Valid()
      modifies this
      ensures Valid() && board == old(board) && turn == old(turn)
      ensures var g := Snapshot(board);
        (winner == Black <==> Tally(g, Black) > Tally(g, White)) &&
        (winner == White <==> Tally(g, Black) < Tally(g, White)) &&
        (winner == -1 <==> Tally(g, Black) == Tally(g, White))
    {
      var blackCount := CountPieces(Black);
      var whiteCount := CountPieces(White);
      winner := if blackCount > whiteCount then Black else if blackCount < whiteCount then White else -1;
    }
  }
}
