/** Legal moves and move application on board values. */
module Moves {
  import opened Board
  import opened Rays

  /** The ray from (h, k) along (dh, dk) passes one or more `anti` cells and then reaches a `rep`
      cell on the board: the validity test of replace_direction (main.cpp:49-61). */
  predicate Brackets(g: Grid, h: int, k: int, dh: int, dk: int, rep: int, anti: int)
    requires IsDirection(dh, dk)
  {
    var n := RunLength(g, h + dh, k + dk, dh, dk, anti);
    n >= 1 && HoldsAt(g, h, k, dh, dk, n + 1, rep)
  }

  /** The position replace_direction leaves: when the ray brackets, the cell (h, k) and the run of
      `anti` cells after it hold `rep`; otherwise nothing changes. */
  function Replaced(g: Grid, h: int, k: int, rep: int, anti: int, dh: int, dk: int): Grid
    requires InBounds(h, k) && IsDirection(dh, dk)
  {
    if Brackets(g, h, k, dh, dk, rep, anti) then
      FillFrom(Set(g, h, k, rep), h + dh, k + dk, dh, dk, rep, anti)
    else g
  }

  /** The replacement loop of replace_direction from (r, c): while the cell is on the board and holds
      `anti`, it is set to `rep` and the walk moves on by (dr, dc). */
  function FillFrom(p: Grid, r: int, c: int, dr: int, dc: int, rep: int, anti: int): Grid
    requires IsDirection(dr, dc)
    decreases Reach(r, dr) + Reach(c, dc)
  {
    if InBounds(r, c) && p[r][c] == anti then FillFrom(Set(p, r, c, rep), r + dr, c + dc, dr, dc, rep, anti)
    else p
  }

  /** `g` with (h, k) and then the cells 1, 2, ..., f steps after it along (dh, dk) set to `rep`,
      one write at a time as replace_direction makes them; cells off the board are skipped. */
  function Painted(g: Grid, h: int, k: int, dh: int, dk: int, rep: int, f: nat): Grid
    requires InBounds(h, k)
  {
    if f == 0 then Set(g, h, k, rep)
    else
      var p, r, c := Painted(g, h, k, dh, dk, rep, f - 1), Shift(h, dh, f), Shift(k, dk, f);
      if InBounds(r, c) then Set(p, r, c, rep) else p
  }

  /** One pass of the direction loop of rearrange_board (main.cpp:84-89). */
  function DirectionStep(g: Grid, h: int, k: int, rep: int, t: int): Grid
    requires InBounds(h, k) && 0 <= t < 8
  {
    var (dh, dk) := Directions[t];
    if InBounds(h + dh, k + dk) && g[h + dh][k + dk] == Opponent(rep)
    then Replaced(g, h, k, rep, Opponent(rep), dh, dk)
    else g
  }

  /** The directions t, t+1, ..., 7 of rearrange_board applied in order. */
  function RearrangeFrom(g: Grid, h: int, k: int, rep: int, t: int): Grid
    requires InBounds(h, k) && 0 <= t <= 8
    decreases 8 - t
  {
    if t == 8 then g else RearrangeFrom(DirectionStep(g, h, k, rep, t), h, k, rep, t + 1)
  }

  /** The position rearrange_board leaves after `rep` plays at (h, k). */
  function Rearranged(g: Grid, h: int, k: int, rep: int): Grid
    requires InBounds(h, k)
  {
    RearrangeFrom(g, h, k, rep, 0)
  }

  /** (r, c) is empty and some direction from it brackets a run of opponent pieces with a piece of `rep`. */
  predicate IsLegal(g: Grid, rep: int, r: int, c: int)
  {
    InBounds(r, c) && g[r][c] == Empty &&
    exists t | 0 <= t < 8 :: Brackets(g, r, c, Directions[t].0, Directions[t].1, rep, Opponent(rep))
  }

  /** Some cell is a legal move for `rep`. */
  predicate CanMove(g: Grid, rep: int)
  {
    exists r, c | 0 <= r < 8 && 0 <= c < 8 :: IsLegal(g, rep, r, c)
  }

  /** Every cell listed in `moves` is a legal move of `rep`, stated one list element at a time. */
  ghost predicate AllLegal(g: Grid, rep: int, moves: seq<(int, int)>)
  {
    moves == [] || (IsLegal(g, rep, moves[0].0, moves[0].1) && AllLegal(g, rep, moves[1..]))
  }

  lemma {:induction false} AllLegalAt(g: Grid, rep: int, moves: seq<(int, int)>, a: int)
    requires AllLegal(g, rep, moves) && 0 <= a < |moves|
    ensures IsLegal(g, rep, moves[a].0, moves[a].1)
  {
    if a > 0 {
      AllLegalAt(g, rep, moves[1..], a - 1);
    }
  }

  lemma {:induction false} AllLegalIntro(g: Grid, rep: int, moves: seq<(int, int)>)
    requires forall m | m in moves :: IsLegal(g, rep, m.0, m.1)
    ensures AllLegal(g, rep, moves)
  {
    if moves != [] {
      assert forall m | m in moves[1..] :: m in moves;
      AllLegalIntro(g, rep, moves[1..]);
    }
  }

  /** The scan of get_valid_moves from the `rep` piece at (i, j) along (dr, dc) passes one or more
      opponent pieces and stops on the empty cell (r, c) (main.cpp:108-121). */
  predicate ScanFinds(g: Grid, rep: int, i: int, j: int, dr: int, dc: int, r: int, c: int)
    requires InBounds(i, j) && IsDirection(dr, dc)
  {
    var n := RunLength(g, i + dr, j + dc, dr, dc, Opponent(rep));
    g[i][j] == rep && n > 0 && r == Shift(i, dr, n + 1) && c == Shift(j, dc, n + 1) &&
    InBounds(r, c) && g[r][c] == Empty
  }

  /** The same scan along the t-th direction of the table. */
  predicate Discovers(g: Grid, rep: int, i: int, j: int, t: int, r: int, c: int)
    requires InBounds(i, j) && 0 <= t < 8
  {
    ScanFinds(g, rep, i, j, Directions[t].0, Directions[t].1, r, c)
  }

  // ---------------------------------------------------------------------------------------------
  // Scanning a run backwards

  /** A run of n cells of `v` between two cells read the same from either end. */
  lemma RunReflect(g: Grid, ar: int, ac: int, dr: int, dc: int, v: int, n: nat)
    requires IsDirection(dr, dc)
    requires InBounds(ar, ac) && g[ar][ac] != v
    requires RunLength(g, ar + dr, ac + dc, dr, dc, v) == n
    requires InBounds(Shift(ar, dr, n + 1), Shift(ac, dc, n + 1))
    ensures var br, bc := Shift(ar, dr, n + 1), Shift(ac, dc, n + 1);
      RunLength(g, br - dr, bc - dc, -dr, -dc, v) == n &&
      Shift(br, -dr, n + 1) == ar && Shift(bc, -dc, n + 1) == ac
  {
    var br, bc := Shift(ar, dr, n + 1), Shift(ac, dc, n + 1);
    var b1, d1 := Shift(ar, dr, n), Shift(ac, dc, n);
    var er, ec := -dr, -dc;
    ShiftStep(ar, dr, n);
    ShiftStep(ac, dc, n);
    RunHolds(g, ar + dr, ac + dc, dr, dc, v);
    forall s | 0 <= s < n
      ensures HoldsAt(g, b1, d1, er, ec, s, v)
    {
      ReflectCell(g, ar, ac, dr, dc, v, n, s);
    }
    ShiftReverse(ar, dr, n, n);
    ShiftReverse(ac, dc, n, n);
    RunLengthIs(g, b1, d1, er, ec, v, n);
    assert br - dr == b1 && bc - dc == d1;
    ShiftNext(br, er, n);
    ShiftNext(bc, ec, n);
  }

  /** Cell n - 1 - s of the run read forwards from (ar, ac) is cell s read backwards from n steps on. */
  lemma ReflectCell(g: Grid, ar: int, ac: int, dr: int, dc: int, v: int, n: int, s: int)
    requires IsDirection(dr, dc) && 0 <= s < n
    requires HoldsAt(g, ar + dr, ac + dc, dr, dc, n - 1 - s, v)
    ensures HoldsAt(g, Shift(ar, dr, n), Shift(ac, dc, n), -dr, -dc, s, v)
  {
    ShiftReverse(ar, dr, n, s);
    ShiftReverse(ac, dc, n, s);
    ShiftNext(ar, dr, n - 1 - s);
    ShiftNext(ac, dc, n - 1 - s);
  }

  /** Read backwards, a scan that finds (r, c) is a bracketing ray from (r, c). */
  lemma ScanFindsBrackets(g: Grid, rep: int, i: int, j: int, dr: int, dc: int, r: int, c: int)
    requires InBounds(i, j) && IsDirection(dr, dc)
    requires ScanFinds(g, rep, i, j, dr, dc, r, c)
    ensures Brackets(g, r, c, -dr, -dc, rep, Opponent(rep))
  {
    var n := RunLength(g, i + dr, j + dc, dr, dc, Opponent(rep));
    assert r == Shift(i, dr, n + 1) && c == Shift(j, dc, n + 1) && InBounds(r, c);
    assert g[i][j] != Opponent(rep);
    RunReflect(g, i, j, dr, dc, Opponent(rep), n);
    BracketsOf(g, r, c, -dr, -dc, rep, Opponent(rep), n);
  }

  /** A run of n >= 1 `anti` cells followed by a `rep` cell brackets. */
  lemma BracketsOf(g: Grid, r: int, c: int, dr: int, dc: int, rep: int, anti: int, n: nat)
    requires IsDirection(dr, dc)
    requires RunLength(g, r + dr, c + dc, dr, dc, anti) == n && n >= 1
    requires HoldsAt(g, r, c, dr, dc, n + 1, rep)
    ensures Brackets(g, r, c, dr, dc, rep, anti)
  {
  }

  /** Read backwards, a bracketing ray from the empty cell (r, c) is a scan that finds it. */
  lemma BracketsScanFinds(g: Grid, rep: int, r: int, c: int, dr: int, dc: int) returns (i: int, j: int)
    requires InBounds(r, c) && g[r][c] == Empty && IsDirection(dr, dc)
    requires Brackets(g, r, c, dr, dc, rep, Opponent(rep))
    ensures InBounds(i, j) && ScanFinds(g, rep, i, j, -dr, -dc, r, c)
  {
    var n := RunLength(g, r + dr, c + dc, dr, dc, Opponent(rep));
    i, j := Shift(r, dr, n + 1), Shift(c, dc, n + 1);
    RunReflect(g, r, c, dr, dc, Opponent(rep), n);
  }

  /** What get_valid_moves discovers is a legal move. */
  lemma DiscoveredIsLegal(g: Grid, rep: int, i: int, j: int, t: int, r: int, c: int)
    requires InBounds(i, j) && 0 <= t < 8
    requires Discovers(g, rep, i, j, t, r, c)
    ensures IsLegal(g, rep, r, c)
  {
    DirectionsAreDirections();
    var u := Reverse(t);
    ScanFindsBrackets(g, rep, i, j, Directions[t].0, Directions[t].1, r, c);
    assert Brackets(g, r, c, Directions[u].0, Directions[u].1, rep, Opponent(rep));
  }

  /** Conversely, each bracketing direction t of a legal move is found by the scan, along the
      reverse of t, from the piece that closes it. */
  lemma LegalIsDiscovered(g: Grid, rep: int, r: int, c: int, t: int) returns (i: int, j: int)
    requires InBounds(r, c) && g[r][c] == Empty && 0 <= t < 8
    requires Brackets(g, r, c, Directions[t].0, Directions[t].1, rep, Opponent(rep))
    ensures InBounds(i, j) && Discovers(g, rep, i, j, Reverse(t), r, c)
  {
    DirectionsAreDirections();
    i, j := BracketsScanFinds(g, rep, r, c, Directions[t].0, Directions[t].1);
  }

  /** Brackets, read off the cell where the run of `anti` ends. */
  lemma BracketsAtEnd(g: Grid, h: int, k: int, dh: int, dk: int, rep: int, anti: int)
    requires IsDirection(dh, dk)
    ensures Brackets(g, h, k, dh, dk, rep, anti) <==>
      RunLength(g, h + dh, k + dk, dh, dk, anti) >= 1 &&
      var e := RunEnd(g, h + dh, k + dk, dh, dk, anti);
      InBounds(e.0, e.1) && g[e.0][e.1] == rep
  {
    var n := RunLength(g, h + dh, k + dk, dh, dk, anti);
    RunEndAt(g, h + dh, k + dk, dh, dk, anti);
    ShiftNext(h, dh, n);
    ShiftNext(k, dk, n);
  }

  /** The scan of get_valid_moves, read off the cell where the run of the opponent's code ends. */
  lemma ScanFindsAtEnd(g: Grid, rep: int, i: int, j: int, dr: int, dc: int, r: int, c: int)
    requires InBounds(i, j) && IsDirection(dr, dc)
    ensures ScanFinds(g, rep, i, j, dr, dc, r, c) <==>
      g[i][j] == rep && RunLength(g, i + dr, j + dc, dr, dc, Opponent(rep)) > 0 &&
      (r, c) == RunEnd(g, i + dr, j + dc, dr, dc, Opponent(rep)) && InBounds(r, c) && g[r][c] == Empty
  {
    var n := RunLength(g, i + dr, j + dc, dr, dc, Opponent(rep));
    RunEndAt(g, i + dr, j + dc, dr, dc, Opponent(rep));
    ShiftNext(i, dr, n);
    ShiftNext(j, dc, n);
  }

  // ---------------------------------------------------------------------------------------------
  // One direction

  /** The cells painted after f writes are exactly (h, k) and the next f cells of its ray. */
  lemma {:induction false} PaintedCells(g: Grid, h: int, k: int, dh: int, dk: int, rep: int, f: nat)
    requires InBounds(h, k) && IsDirection(dh, dk)
    ensures forall i, j | InBounds(i, j) ::
      Painted(g, h, k, dh, dk, rep, f)[i][j] == if OnRay(h, k, dh, dk, 0, f, i, j) then rep else g[i][j]
  {
    if f == 0 {
      SetCells(g, h, k, rep);
      OnRayAt(h, k, dh, dk, 0, 0, 0);
    } else {
      PaintedCells(g, h, k, dh, dk, rep, f - 1);
      var r, c := Shift(h, dh, f), Shift(k, dk, f);
      if InBounds(r, c) {
        SetCells(Painted(g, h, k, dh, dk, rep, f - 1), r, c, rep);
      }
      OnRayAt(h, k, dh, dk, 0, f, f);
    }
  }

  /** The next cell of the ray is still as in `g`. */
  lemma PaintedAhead(g: Grid, h: int, k: int, dh: int, dk: int, rep: int, f: nat)
    requires InBounds(h, k) && IsDirection(dh, dk)
    requires InBounds(Shift(h, dh, f + 1), Shift(k, dk, f + 1))
    ensures Painted(g, h, k, dh, dk, rep, f)[Shift(h, dh, f + 1)][Shift(k, dk, f + 1)]
         == g[Shift(h, dh, f + 1)][Shift(k, dk, f + 1)]
  {
    PaintedCells(g, h, k, dh, dk, rep, f);
    OnRayAt(h, k, dh, dk, 0, f, f + 1);
  }

  /** One cell of the run: filling from step s + 1 of a ray painted through step s is filling from
      step s + 2 of the ray painted through step s + 1, and the run is one cell shorter there. */
  lemma FillFromStep(g: Grid, h: int, k: int, dh: int, dk: int, rep: int, anti: int, s: nat)
    requires InBounds(h, k) && IsDirection(dh, dk)
    requires var r, c := Shift(h, dh, s + 1), Shift(k, dk, s + 1); InBounds(r, c) && g[r][c] == anti
    ensures var r, c := Shift(h, dh, s + 1), Shift(k, dk, s + 1);
      var r1, c1 := Shift(h, dh, s + 1 + 1), Shift(k, dk, s + 1 + 1);
      FillFrom(Painted(g, h, k, dh, dk, rep, s), r, c, dh, dk, rep, anti)
        == FillFrom(Painted(g, h, k, dh, dk, rep, s + 1), r1, c1, dh, dk, rep, anti) &&
      RunLength(g, r, c, dh, dk, anti) == 1 + RunLength(g, r1, c1, dh, dk, anti)
  {
    var s1 := s + 1;
    var r, c := Shift(h, dh, s1), Shift(k, dk, s1);
    PaintedAhead(g, h, k, dh, dk, rep, s);
    ShiftStep(h, dh, s1);
    ShiftStep(k, dk, s1);
    RunLengthNext(g, r, c, dh, dk, anti);
    assert Painted(g, h, k, dh, dk, rep, s1) == Set(Painted(g, h, k, dh, dk, rep, s), r, c, rep);
  }

  /** Filling from step s + 1 of a ray already painted through step s paints the rest of the run. */
  ghost predicate FillsRun(g: Grid, h: int, k: int, dh: int, dk: int, rep: int, anti: int, s: nat)
    requires InBounds(h, k) && IsDirection(dh, dk)
  {
    var r, c := Shift(h, dh, s + 1), Shift(k, dk, s + 1);
    FillFrom(Painted(g, h, k, dh, dk, rep, s), r, c, dh, dk, rep, anti)
      == Painted(g, h, k, dh, dk, rep, s + RunLength(g, r, c, dh, dk, anti))
  }

  lemma {:induction false} FillFromPainted(g: Grid, h: int, k: int, dh: int, dk: int, rep: int, anti: int, s: nat)
    requires InBounds(h, k) && IsDirection(dh, dk)
    ensures FillsRun(g, h, k, dh, dk, rep, anti, s)
    decreases 8 - s
  {
    var r, c := Shift(h, dh, s + 1), Shift(k, dk, s + 1);
    if InBounds(r, c) && g[r][c] == anti {
      FillFromPainted(g, h, k, dh, dk, rep, anti, s + 1);
      FillsRunStep(g, h, k, dh, dk, rep, anti, s);
    } else {
      FillsRunEnd(g, h, k, dh, dk, rep, anti, s);
    }
  }

  /** One more cell of the run: the fill from step s + 1 is the fill from step s + 2 after painting it. */
  lemma FillsRunStep(g: Grid, h: int, k: int, dh: int, dk: int, rep: int, anti: int, s: nat)
    requires InBounds(h, k) && IsDirection(dh, dk)
    requires var r, c := Shift(h, dh, s + 1), Shift(k, dk, s + 1); InBounds(r, c) && g[r][c] == anti
    requires FillsRun(g, h, k, dh, dk, rep, anti, s + 1)
    ensures FillsRun(g, h, k, dh, dk, rep, anti, s)
  {
    var r, c := Shift(h, dh, s + 1), Shift(k, dk, s + 1);
    var r1, c1 := Shift(h, dh, s + 1 + 1), Shift(k, dk, s + 1 + 1);
    FillFromStep(g, h, k, dh, dk, rep, anti, s);
    var n, n1 := RunLength(g, r, c, dh, dk, anti), RunLength(g, r1, c1, dh, dk, anti);
    assert s + n == s + 1 + n1;
    calc {
      FillFrom(Painted(g, h, k, dh, dk, rep, s), r, c, dh, dk, rep, anti);
      FillFrom(Painted(g, h, k, dh, dk, rep, s + 1), r1, c1, dh, dk, rep, anti);
      Painted(g, h, k, dh, dk, rep, s + 1 + n1);
    }
  }

  /** Where the run ends, the fill writes nothing more. */
  lemma FillsRunEnd(g: Grid, h: int, k: int, dh: int, dk: int, rep: int, anti: int, s: nat)
    requires InBounds(h, k) && IsDirection(dh, dk)
    requires var r, c := Shift(h, dh, s + 1), Shift(k, dk, s + 1); !(InBounds(r, c) && g[r][c] == anti)
    ensures FillsRun(g, h, k, dh, dk, rep, anti, s)
  {
    var r, c := Shift(h, dh, s + 1), Shift(k, dk, s + 1);
    var p := Painted(g, h, k, dh, dk, rep, s);
    if InBounds(r, c) {
      PaintedAhead(g, h, k, dh, dk, rep, s);
    }
    RunLengthNext(g, r, c, dh, dk, anti);
    assert RunLength(g, r, c, dh, dk, anti) == 0;
    assert FillFrom(p, r, c, dh, dk, rep, anti) == p;
  }

  /** When the ray brackets, replace_direction paints (h, k) and the whole run after it. */
  lemma ReplacedPainted(g: Grid, h: int, k: int, rep: int, anti: int, dh: int, dk: int)
    requires InBounds(h, k) && IsDirection(dh, dk) && Brackets(g, h, k, dh, dk, rep, anti)
    ensures Replaced(g, h, k, rep, anti, dh, dk)
         == Painted(g, h, k, dh, dk, rep, RunLength(g, h + dh, k + dk, dh, dk, anti))
  {
    ShiftStep(h, dh, 0);
    ShiftStep(k, dk, 0);
    FillFromPainted(g, h, k, dh, dk, rep, anti, 0);
  }

  /** replace_direction when the ray brackets (main.cpp:64-71): (h, k) and the n cells of the run of
      `anti` after it become `rep`, and no other cell changes. */
  lemma ReplacedRun(g: Grid, h: int, k: int, rep: int, anti: int, dh: int, dk: int)
    requires InBounds(h, k) && IsDirection(dh, dk)
    requires Brackets(g, h, k, dh, dk, rep, anti)
    ensures var u := Replaced(g, h, k, rep, anti, dh, dk);
      var n := RunLength(g, h + dh, k + dk, dh, dk, anti);
      (forall i, j | InBounds(i, j) :: u[i][j] == if OnRay(h, k, dh, dk, 0, n, i, j) then rep else g[i][j]) &&
      (forall i, j | InBounds(i, j) && OnRay(h, k, dh, dk, 1, n, i, j) :: g[i][j] == anti)
  {
    var n := RunLength(g, h + dh, k + dk, dh, dk, anti);
    ReplacedPainted(g, h, k, rep, anti, dh, dk);
    PaintedCells(g, h, k, dh, dk, rep, n);
    RunOnRay(g, h, k, dh, dk, anti);
  }

  /** replace_direction turns cells to `rep` and nothing else; each cell it turns is (h, k) or held `anti`. */
  lemma ReplacedChanges(g: Grid, h: int, k: int, rep: int, anti: int, dh: int, dk: int)
    requires InBounds(h, k) && IsDirection(dh, dk)
    ensures var u := Replaced(g, h, k, rep, anti, dh, dk);
      forall i, j | InBounds(i, j) ::
        u[i][j] == g[i][j] || (u[i][j] == rep && ((i == h && j == k) || g[i][j] == anti))
  {
    if Brackets(g, h, k, dh, dk, rep, anti) {
      ReplacedRun(g, h, k, rep, anti, dh, dk);
    }
  }

  /** replace_direction along (da, db) leaves alone every cell beyond (h, k) on the ray of another direction. */
  lemma ReplacedOffRay(g: Grid, h: int, k: int, rep: int, anti: int, da: int, db: int, ea: int, eb: int)
    requires InBounds(h, k) && IsDirection(da, db) && IsDirection(ea, eb) && (da != ea || db != eb)
    ensures AgreeBeyond(g, Replaced(g, h, k, rep, anti, da, db), h, k, ea, eb)
  {
    var u := Replaced(g, h, k, rep, anti, da, db);
    if Brackets(g, h, k, da, db, rep, anti) {
      ReplacedPainted(g, h, k, rep, anti, da, db);
      PaintedCells(g, h, k, da, db, rep, RunLength(g, h + da, k + db, da, db, anti));
    }
    forall s | 1 <= s && InBounds(Shift(h, ea, s), Shift(k, eb, s))
      ensures g[Shift(h, ea, s)][Shift(k, eb, s)] == u[Shift(h, ea, s)][Shift(k, eb, s)]
    {
      var i, j := Shift(h, ea, s), Shift(k, eb, s);
      if OnRay(h, k, da, db, 0, 64, i, j) {
        RaysDisjoint(h, k, da, db, ea, eb, StepTo(h, k, da, db, i, j), s);
      }
    }
  }

  /** Whether a ray brackets, and the run it flips, depend only on the cells beyond (h, k). */
  lemma BracketsFrame(g: Grid, u: Grid, h: int, k: int, dh: int, dk: int, rep: int, anti: int)
    requires IsDirection(dh, dk) && AgreeBeyond(g, u, h, k, dh, dk)
    ensures RunLength(u, h + dh, k + dk, dh, dk, anti) == RunLength(g, h + dh, k + dk, dh, dk, anti)
    ensures Brackets(u, h, k, dh, dk, rep, anti) <==> Brackets(g, h, k, dh, dk, rep, anti)
  {
    RunLengthFrame(g, u, h, k, dh, dk, anti);
  }

  // ---------------------------------------------------------------------------------------------
  // All eight directions

  lemma StepChanges(g: Grid, h: int, k: int, rep: int, t: int)
    requires InBounds(h, k) && 0 <= t < 8
    ensures var u := DirectionStep(g, h, k, rep, t);
      forall i, j | InBounds(i, j) ::
        u[i][j] == g[i][j] || (u[i][j] == rep && ((i == h && j == k) || g[i][j] == Opponent(rep)))
  {
    ReplacedChanges(g, h, k, rep, Opponent(rep), Directions[t].0, Directions[t].1);
  }

  /** Directions are independent: the pass for direction t never changes whether direction t0 brackets
      (the rays from (h, k) meet only at (h, k), which no test reads). */
  lemma StepKeepsBrackets(g: Grid, h: int, k: int, rep: int, t: int, t0: int)
    requires InBounds(h, k) && 0 <= t < 8 && 0 <= t0 < 8 && t != t0
    ensures var (dh, dk) := Directions[t0];
      (Brackets(DirectionStep(g, h, k, rep, t), h, k, dh, dk, rep, Opponent(rep)) <==>
       Brackets(g, h, k, dh, dk, rep, Opponent(rep))) &&
      RunLength(DirectionStep(g, h, k, rep, t), h + dh, k + dk, dh, dk, Opponent(rep))
        == RunLength(g, h + dh, k + dk, dh, dk, Opponent(rep))
  {
    DirectionsAreDirections();
    var (da, db) := Directions[t];
    var (ea, eb) := Directions[t0];
    var u := DirectionStep(g, h, k, rep, t);
    if u != g {
      ReplacedOffRay(g, h, k, rep, Opponent(rep), da, db, ea, eb);
    }
    BracketsFrame(g, u, h, k, ea, eb, rep, Opponent(rep));
  }

  /** The pass for a bracketing direction puts `rep` on (h, k). */
  lemma StepSetsOrigin(g: Grid, h: int, k: int, rep: int, t: int)
    requires InBounds(h, k) && 0 <= t < 8
    requires Brackets(g, h, k, Directions[t].0, Directions[t].1, rep, Opponent(rep))
    ensures DirectionStep(g, h, k, rep, t)[h][k] == rep
  {
    DirectionsAreDirections();
    var (dh, dk) := Directions[t];
    var h1, k1 := h + dh, k + dk;
    RunCells(g, h1, k1, dh, dk, Opponent(rep));
    assert HoldsAt(g, h1, k1, dh, dk, 0, Opponent(rep));
    ReplacedPainted(g, h, k, rep, Opponent(rep), dh, dk);
    PaintedCells(g, h, k, dh, dk, rep, RunLength(g, h1, k1, dh, dk, Opponent(rep)));
    OnRayAt(h, k, dh, dk, 0, RunLength(g, h1, k1, dh, dk, Opponent(rep)), 0);
  }

  /** rearrange_board turns cells to `rep` and nothing else; each cell it turns is (h, k) or held the opponent's code. */
  lemma {:induction false} RearrangeChanges(g: Grid, h: int, k: int, rep: int, t: int)
    requires InBounds(h, k) && 0 <= t <= 8
    ensures var u := RearrangeFrom(g, h, k, rep, t);
      forall i, j | InBounds(i, j) ::
        u[i][j] == g[i][j] || (u[i][j] == rep && ((i == h && j == k) || g[i][j] == Opponent(rep)))
    decreases 8 - t
  {
    if t < 8 {
      StepChanges(g, h, k, rep, t);
      RearrangeChanges(DirectionStep(g, h, k, rep, t), h, k, rep, t + 1);
    }
  }

  /** If direction t0 brackets in the starting position, the moved-to cell ends up holding `rep`. */
  lemma {:induction false} RearrangeSetsOrigin(g: Grid, h: int, k: int, rep: int, t: int, t0: int)
    requires InBounds(h, k) && 0 <= t <= t0 < 8
    requires Brackets(g, h, k, Directions[t0].0, Directions[t0].1, rep, Opponent(rep))
    ensures RearrangeFrom(g, h, k, rep, t)[h][k] == rep
    decreases 8 - t
  {
    var u := DirectionStep(g, h, k, rep, t);
    if t == t0 {
      StepSetsOrigin(g, h, k, rep, t);
      RearrangeChanges(u, h, k, rep, t + 1);
    } else {
      StepKeepsBrackets(g, h, k, rep, t, t0);
      RearrangeSetsOrigin(u, h, k, rep, t + 1, t0);
    }
  }

  /** (i, j) is one of the opponent pieces that direction t of a move by `rep` at (h, k) captures:
      the ray brackets and (i, j) lies on its run. */
  predicate CapturedBy(g: Grid, h: int, k: int, rep: int, t: int, i: int, j: int)
    requires 0 <= t < 8
  {
    var (dh, dk) := Directions[t];
    Brackets(g, h, k, dh, dk, rep, Opponent(rep)) &&
    OnRay(h, k, dh, dk, 1, RunLength(g, h + dh, k + dk, dh, dk, Opponent(rep)), i, j)
  }

  /** (i, j) is captured along one of the directions t, t+1, ..., 7. */
  predicate Captured(g: Grid, h: int, k: int, rep: int, t: int, i: int, j: int)
    requires 0 <= t
  {
    exists t0 | t <= t0 < 8 :: CapturedBy(g, h, k, rep, t0, i, j)
  }

  /** Off the moved-to cell, the pass for direction t sets exactly the cells that direction captures. */
  lemma StepCells(g: Grid, h: int, k: int, rep: int, t: int, i: int, j: int)
    requires InBounds(h, k) && 0 <= t < 8 && InBounds(i, j) && !(i == h && j == k)
    ensures DirectionStep(g, h, k, rep, t)[i][j] == if CapturedBy(g, h, k, rep, t, i, j) then rep else g[i][j]
  {
    DirectionsAreDirections();
    var (dh, dk) := Directions[t];
    var anti := Opponent(rep);
    if Brackets(g, h, k, dh, dk, rep, anti) {
      var h1, k1 := h + dh, k + dk;
      RunCells(g, h1, k1, dh, dk, anti);
      assert HoldsAt(g, h1, k1, dh, dk, 0, anti);
      ReplacedRun(g, h, k, rep, anti, dh, dk);
    }
  }

  /** The pass for direction t leaves what every other direction captures as it was. */
  lemma StepKeepsCaptured(g: Grid, h: int, k: int, rep: int, t: int, t0: int, i: int, j: int)
    requires InBounds(h, k) && 0 <= t < 8 && 0 <= t0 < 8 && t != t0
    ensures CapturedBy(DirectionStep(g, h, k, rep, t), h, k, rep, t0, i, j) <==> CapturedBy(g, h, k, rep, t0, i, j)
  {
    StepKeepsBrackets(g, h, k, rep, t, t0);
  }

  /** Off the moved-to cell, directions t..7 of rearrange_board set exactly the captured cells. */
  lemma {:induction false} RearrangeCells(g: Grid, h: int, k: int, rep: int, t: int, i: int, j: int)
    requires InBounds(h, k) && 0 <= t <= 8 && InBounds(i, j) && !(i == h && j == k)
    ensures RearrangeFrom(g, h, k, rep, t)[i][j] == if Captured(g, h, k, rep, t, i, j) then rep else g[i][j]
    decreases 8 - t
  {
    if t < 8 {
      var u := DirectionStep(g, h, k, rep, t);
      RearrangeCells(u, h, k, rep, t + 1, i, j);
      StepCells(g, h, k, rep, t, i, j);
      forall t0 | t < t0 < 8
        ensures CapturedBy(u, h, k, rep, t0, i, j) <==> CapturedBy(g, h, k, rep, t0, i, j)
      {
        StepKeepsCaptured(g, h, k, rep, t, t0, i, j);
      }
      assert Captured(u, h, k, rep, t + 1, i, j) <==> Captured(g, h, k, rep, t + 1, i, j);
      assert Captured(g, h, k, rep, t, i, j) <==>
        CapturedBy(g, h, k, rep, t, i, j) || Captured(g, h, k, rep, t + 1, i, j);
    }
  }

  /** A captured cell held the opponent's code. */
  lemma CapturedIsOpponent(g: Grid, h: int, k: int, rep: int, t: int, i: int, j: int)
    requires 0 <= t && InBounds(i, j) && Captured(g, h, k, rep, t, i, j)
    ensures g[i][j] == Opponent(rep)
  {
    var t0 :| t <= t0 < 8 && CapturedBy(g, h, k, rep, t0, i, j);
    DirectionsAreDirections();
    var (dh, dk) := Directions[t0];
    RunOnRay(g, h, k, dh, dk, Opponent(rep));
  }

  /** rearrange_board (main.cpp:74-91): every cell other than the moved-to one becomes `rep` exactly when
      some direction captures it, and every captured cell held the opponent's code. */
  lemma RearrangeCaptures(g: Grid, h: int, k: int, rep: int)
    requires InBounds(h, k)
    ensures forall i, j | InBounds(i, j) && !(i == h && j == k) ::
      Rearranged(g, h, k, rep)[i][j] == if Captured(g, h, k, rep, 0, i, j) then rep else g[i][j]
    ensures forall i, j | InBounds(i, j) && Captured(g, h, k, rep, 0, i, j) :: g[i][j] == Opponent(rep)
  {
    forall i, j | InBounds(i, j) && !(i == h && j == k)
      ensures Rearranged(g, h, k, rep)[i][j] == if Captured(g, h, k, rep, 0, i, j) then rep else g[i][j]
    {
      RearrangeCells(g, h, k, rep, 0, i, j);
    }
    forall i, j | InBounds(i, j) && Captured(g, h, k, rep, 0, i, j)
      ensures g[i][j] == Opponent(rep)
    {
      CapturedIsOpponent(g, h, k, rep, 0, i, j);
    }
  }

  /** A legal move captures the neighbour along each bracketing direction, which held the opponent's code. */
  lemma FirstCaptured(g: Grid, rep: int, h: int, k: int) returns (t0: int, i: int, j: int)
    requires IsLegal(g, rep, h, k)
    ensures 0 <= t0 < 8 && Brackets(g, h, k, Directions[t0].0, Directions[t0].1, rep, Opponent(rep))
    ensures InBounds(i, j) && !(i == h && j == k)
    ensures g[i][j] == Opponent(rep) && Captured(g, h, k, rep, 0, i, j)
  {
    var anti := Opponent(rep);
    t0 :| 0 <= t0 < 8 && Brackets(g, h, k, Directions[t0].0, Directions[t0].1, rep, anti);
    DirectionsAreDirections();
    var (dh, dk) := Directions[t0];
    i, j := h + dh, k + dk;
    RunCells(g, i, j, dh, dk, anti);
    assert HoldsAt(g, i, j, dh, dk, 0, anti);
    assert Shift(h, dh, 1) == i && Shift(k, dk, 1) == j;
    OnRayAt(h, k, dh, dk, 1, RunLength(g, i, j, dh, dk, anti), 1);
    assert CapturedBy(g, h, k, rep, t0, i, j);
  }

  /** A legal move gains its player at least two pieces: the moved-to cell and a captured piece. */
  lemma RearrangeGains(g: Grid, rep: int, h: int, k: int)
    requires IsPlayer(rep) && IsLegal(g, rep, h, k)
    ensures Tally(Rearranged(g, h, k, rep), rep) >= Tally(g, rep) + 2
  {
    var u := Rearranged(g, h, k, rep);
    var t0, i1, j1 := FirstCaptured(g, rep, h, k);
    RearrangeSetsOrigin(g, h, k, rep, 0, t0);
    RearrangeCells(g, h, k, rep, 0, i1, j1);
    forall i, j | InBounds(i, j) && g[i][j] == rep
      ensures u[i][j] == rep
    {
      if !(i == h && j == k) {
        RearrangeCells(g, h, k, rep, 0, i, j);
      }
    }
    TallyGainsTwo(g, u, rep, h, k, i1, j1);
  }

  /** rearrange_board on a legal move of player `rep` (main.cpp:74-91): the moved-to cell holds `rep` and
      is no longer a legal move; every other cell either keeps its code or goes from the opponent's code
      to `rep`; one empty cell is filled; the mover gains the moved-to cell and at least one captured
      piece, and the opponent loses at least one piece. */
  lemma RearrangeLegal(g: Grid, rep: int, h: int, k: int)
    requires IsPlayer(rep) && IsLegal(g, rep, h, k)
    ensures var u := Rearranged(g, h, k, rep);
      u[h][k] == rep && !IsLegal(u, rep, h, k) &&
      (forall i, j | InBounds(i, j) && !(i == h && j == k) ::
        u[i][j] == g[i][j] || (g[i][j] == Opponent(rep) && u[i][j] == rep)) &&
      Empties(u) == Empties(g) - 1 &&
      Pieces(u) == Pieces(g) + 1 &&
      Tally(u, rep) >= Tally(g, rep) + 2 &&
      Tally(u, Opponent(rep)) < Tally(g, Opponent(rep))
  {
    var t0 :| 0 <= t0 < 8 && Brackets(g, h, k, Directions[t0].0, Directions[t0].1, rep, Opponent(rep));
    RearrangeSetsOrigin(g, h, k, rep, 0, t0);
    RearrangeChanges(g, h, k, rep, 0);
    PlacementCounts(g, Rearranged(g, h, k, rep), h, k, rep);
    RearrangeGains(g, rep, h, k);
  }

  // ---------------------------------------------------------------------------------------------
  // The move get_best_move settles on

  /** The smallest linear index from n on whose cell is a legal move of `rep`, or -1 when there is none. */
  ghost function FirstLegalFrom(g: Grid, rep: int, n: int): (b: int)
    requires 0 <= n <= 64
    ensures b == -1 || n <= b < 64
    decreases 64 - n
  {
    if n == 64 then -1
    else if IsLegal(g, rep, n / 8, n % 8) then n
    else FirstLegalFrom(g, rep, n + 1)
  }

  /** The legal move of `rep` with the smallest linear index, or -1 when `rep` has none. */
  ghost function FirstLegal(g: Grid, rep: int): (b: int)
    ensures -1 <= b < 64
  {
    FirstLegalFrom(g, rep, 0)
  }

  /** `b` is -1 exactly when no index from n on is a legal move; otherwise it is such an index and no
      index from n up to it is one. */
  ghost predicate FirstLegalSpec(g: Grid, rep: int, n: int, b: int)
  {
    (b == -1 <==> forall m | n <= m < 64 :: !IsLegal(g, rep, m / 8, m % 8)) &&
    (b != -1 ==> n <= b < 64 && IsLegal(g, rep, b / 8, b % 8) &&
                 forall m | n <= m < b :: !IsLegal(g, rep, m / 8, m % 8))
  }

  lemma {:induction false} FirstLegalFromFacts(g: Grid, rep: int, n: int)
    requires 0 <= n <= 64
    ensures FirstLegalSpec(g, rep, n, FirstLegalFrom(g, rep, n))
    decreases 64 - n
  {
    if n < 64 && !IsLegal(g, rep, n / 8, n % 8) {
      FirstLegalFromFacts(g, rep, n + 1);
      FirstLegalSkip(g, rep, n, FirstLegalFrom(g, rep, n + 1));
    }
  }

  /** An index that is not a legal move extends the search from the next index by one. */
  lemma FirstLegalSkip(g: Grid, rep: int, n: int, b: int)
    requires 0 <= n < 64 && !IsLegal(g, rep, n / 8, n % 8)
    requires FirstLegalSpec(g, rep, n + 1, b)
    ensures FirstLegalSpec(g, rep, n, b)
  {
    forall m | n <= m < 64 && (b == -1 || m < b)
      ensures !IsLegal(g, rep, m / 8, m % 8)
    {
      if m != n {
        assert n + 1 <= m;
      }
    }
  }

  /** FirstLegal is -1 exactly when `rep` cannot move; otherwise it is the linear index of a legal move
      and no legal move has a smaller one. */
  lemma FirstLegalFacts(g: Grid, rep: int)
    ensures FirstLegal(g, rep) == -1 <==> !CanMove(g, rep)
    ensures FirstLegal(g, rep) != -1 ==>
      var b := FirstLegal(g, rep);
      0 <= b < 64 && IsLegal(g, rep, b / 8, b % 8) &&
      forall r, c | IsLegal(g, rep, r, c) :: b <= CellIndex(r, c)
  {
    FirstLegalFromFacts(g, rep, 0);
    var b := FirstLegal(g, rep);
    if b == -1 {
      forall r, c | 0 <= r < 8 && 0 <= c < 8
        ensures !IsLegal(g, rep, r, c)
      {
        LinearIndex(r, c);
      }
    } else {
      LinearIndex(b / 8, b % 8);
      assert CanMove(g, rep);
      forall r, c | IsLegal(g, rep, r, c)
        ensures b <= CellIndex(r, c)
      {
        LinearIndex(r, c);
      }
    }
  }

  /** Conversely, a legal move whose linear index is at most that of every legal move is FirstLegal. */
  lemma FirstLegalIs(g: Grid, rep: int, r: int, c: int)
    requires IsLegal(g, rep, r, c)
    requires forall i, j | IsLegal(g, rep, i, j) :: CellIndex(r, c) <= CellIndex(i, j)
    ensures FirstLegal(g, rep) == CellIndex(r, c)
  {
    FirstLegalFacts(g, rep);
    var b := FirstLegal(g, rep);
    assert CanMove(g, rep);
    LinearIndex(r, c);
    LinearIndex(b / 8, b % 8);
  }
}
