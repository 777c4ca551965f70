/** The 8x8 board as a value: cell codes, counting, the material score. */
module Board {

  /** Cell codes of main.cpp: 0 is Black, 1 is White, 5 is an empty cell. */
  const Black := 0
  const White := 1
  const Empty := 5

  predicate IsPlayer(p: int) { p == Black || p == White }

  /** `antirep` of main.cpp: the opponent code of `rep` (any code other than 0 counts as White). */
  function Opponent(rep: int): (a: int)
    ensures IsPlayer(a) && a != rep
    ensures IsPlayer(rep) ==> a == 1 - rep
  {
    if rep == 0 then 1 else 0
  }

  predicate InBounds(r: int, c: int) { 0 <= r < 8 && 0 <= c < 8 }

  /** The linear index `row * 8 + col` by which main.cpp reports a move. */
  function CellIndex(r: int, c: int): int { r * 8 + c }

  /** A cell's linear index lies in [0, 64) and gives back its row and column. */
  lemma LinearIndex(r: int, c: int)
    requires InBounds(r, c)
    ensures 0 <= CellIndex(r, c) < 64 && CellIndex(r, c) / 8 == r && CellIndex(r, c) % 8 == c
  {
  }

  predicate IsGrid(g: seq<seq<int>>) { |g| == 8 && forall i | 0 <= i < 8 :: |g[i]| == 8 }

  /** A board position: 8 rows of 8 cell codes, row-major as in `board[i][j]`. */
  type Grid = g: seq<seq<int>> | IsGrid(g) witness seq(8, _ => seq(8, _ => Empty))

  predicate IsBoardArray(a: array2<int>) { a.Length0 == 8 && a.Length1 == 8 }

  /** The value held by an 8x8 array. */
  function Snapshot(a: array2<int>): (g: Grid)
    requires IsBoardArray(a)
    reads a
    ensures forall i, j | InBounds(i, j) :: g[i][j] == a[i, j]
  {
    RowsOf(a, 8)
  }

  /** The first n rows of `a`. */
  function RowsOf(a: array2<int>, n: nat): (rows: seq<seq<int>>)
    requires IsBoardArray(a) && n <= 8
    reads a
    ensures |rows| == n
    ensures forall i | 0 <= i < n :: rows[i] == RowOf(a, i, 8)
  {
    if n == 0 then [] else RowsOf(a, n - 1) + [RowOf(a, n - 1, 8)]
  }

  /** The first n cells of row i of `a`. */
  function RowOf(a: array2<int>, i: int, n: nat): (row: seq<int>)
    requires IsBoardArray(a) && 0 <= i < 8 && n <= 8
    reads a
    ensures |row| == n
    ensures forall j | 0 <= j < n :: row[j] == a[i, j]
  {
    if n == 0 then [] else RowOf(a, i, n - 1) + [a[i, n - 1]]
  }

  /** The value `g` with cell (r, c) set to `x`. */
  function Set(g: Grid, r: int, c: int, x: int): Grid
    requires InBounds(r, c)
  {
    g[r := g[r][c := x]]
  }

  /** Setting a cell changes that cell and no other. */
  lemma SetCells(g: Grid, r: int, c: int, x: int)
    requires InBounds(r, c)
    ensures forall i, j | InBounds(i, j) :: Set(g, r, c, x)[i][j] == if i == r && j == c then x else g[i][j]
  {
  }

  /** Number of cells of `row` holding `v`. */
  function RowTally(row: seq<int>, v: int): (n: nat)
    ensures n <= |row|
    ensures n == 0 <==> forall j | 0 <= j < |row| :: row[j] != v
  {
    if row == [] then 0
    else RowTally(row[..|row| - 1], v) + (if row[|row| - 1] == v then 1 else 0)
  }

  /** Number of cells of `g` holding `v`, row by row. */
  function Tally(g: seq<seq<int>>, v: int): nat
  {
    if g == [] then 0 else Tally(g[..|g| - 1], v) + RowTally(g[|g| - 1], v)
  }

  function Empties(g: Grid): nat { Tally(g, Empty) }

  /** Pieces on the board, of either colour. */
  function Pieces(g: Grid): nat { Tally(g, Black) + Tally(g, White) }

  /** The position is full: no cell holds the empty code. */
  predicate NoEmpty(g: Grid) { forall i, j | 0 <= i < 8 && 0 <= j < 8 :: g[i][j] != Empty }

  /** Material difference from `side`'s point of view; any code other than 0 scores as White. */
  function Material(g: Grid, side: int): int
  {
    if side == 0 then Tally(g, Black) - Tally(g, White) else Tally(g, White) - Tally(g, Black)
  }

  lemma {:induction false} TallyAtMost(g: seq<seq<int>>, v: int)
    requires forall i | 0 <= i < |g| :: |g[i]| == 8
    ensures Tally(g, v) <= 8 * |g|
  {
    if g != [] {
      TallyAtMost(g[..|g| - 1], v);
    }
  }

  /** Any count lies in [0, 64]. */
  lemma TallyBound(g: Grid, v: int)
    ensures 0 <= Tally(g, v) <= 64
  {
    TallyAtMost(g, v);
  }

  /** Together the two colours occupy at most 64 cells, so the score lies in [-64, 64]. */
  lemma {:induction false} PairAtMost(g: seq<seq<int>>)
    requires forall i | 0 <= i < |g| :: |g[i]| == 8
    ensures Tally(g, Black) + Tally(g, White) <= 8 * |g|
  {
    if g != [] {
      PairAtMost(g[..|g| - 1]);
      RowPairAtMost(g[|g| - 1]);
    }
  }

  lemma {:induction false} RowPairAtMost(row: seq<int>)
    ensures RowTally(row, Black) + RowTally(row, White) <= |row|
  {
    if row != [] {
      RowPairAtMost(row[..|row| - 1]);
    }
  }

  lemma MaterialBounds(g: Grid, side: int)
    ensures -64 <= Material(g, side) <= 64
    ensures Material(g, Black) == -Material(g, White)
    ensures Pieces(g) <= 64
  {
    PairAtMost(g);
  }

  /** The board is full exactly when the empty code is counted zero times. */
  lemma {:induction false} NoEmptyIffNoEmpties(g: Grid)
    ensures NoEmpty(g) <==> Empties(g) == 0
  {
    RowsNoValue(g, Empty);
  }

  lemma {:induction false} RowsNoValue(g: seq<seq<int>>, v: int)
    ensures Tally(g, v) == 0 <==> forall i, j | 0 <= i < |g| && 0 <= j < |g[i]| :: g[i][j] != v
  {
    if g != [] {
      RowsNoValue(g[..|g| - 1], v);
      assert forall i | 0 <= i < |g| - 1 :: g[..|g| - 1][i] == g[i];
    }
  }

  /** Changing one cell changes each count by the value that left and the value that arrived. */
  lemma {:induction false} RowTallyUpdate(row: seq<int>, c: int, x: int, v: int)
    requires 0 <= c < |row|
    ensures RowTally(row[c := x], v)
         == RowTally(row, v) - (if row[c] == v then 1 else 0) + (if x == v then 1 else 0)
  {
    var n := |row| - 1;
    if c < n {
      RowTallyUpdate(row[..n], c, x, v);
      assert row[c := x][..n] == row[..n][c := x];
    } else {
      assert row[c := x][..n] == row[..n];
    }
  }

  lemma {:induction false} TallyRowUpdate(g: seq<seq<int>>, r: int, row: seq<int>, v: int)
    requires 0 <= r < |g|
    ensures Tally(g[r := row], v) == Tally(g, v) - RowTally(g[r], v) + RowTally(row, v)
  {
    var n := |g| - 1;
    if r < n {
      TallyRowUpdate(g[..n], r, row, v);
      assert g[r := row][..n] == g[..n][r := row];
    } else {
      assert g[r := row][..n] == g[..n];
    }
  }

  lemma TallySet(g: Grid, r: int, c: int, x: int, v: int)
    requires InBounds(r, c)
    ensures Tally(Set(g, r, c, x), v)
         == Tally(g, v) - (if g[r][c] == v then 1 else 0) + (if x == v then 1 else 0)
  {
    TallyRowUpdate(g, r, g[r][c := x], v);
    RowTallyUpdate(g[r], c, x, v);
  }

  /** Two rows agreeing cell by cell on membership in {v, w} have the same combined count of v and w. */
  lemma {:induction false} RowPairSame(a: seq<int>, b: seq<int>, v: int, w: int)
    requires |a| == |b|
    requires forall j | 0 <= j < |a| :: (a[j] == v || a[j] == w) == (b[j] == v || b[j] == w)
    ensures RowTally(a, v) + RowTally(a, w) == RowTally(b, v) + RowTally(b, w)
  {
    if a != [] {
      RowPairSame(a[..|a| - 1], b[..|b| - 1], v, w);
    }
  }

  lemma {:induction false} PairSame(g: seq<seq<int>>, u: seq<seq<int>>, v: int, w: int)
    requires |g| == |u|
    requires forall i | 0 <= i < |g| :: |g[i]| == |u[i]|
    requires forall i, j | 0 <= i < |g| && 0 <= j < |g[i]| ::
               (g[i][j] == v || g[i][j] == w) == (u[i][j] == v || u[i][j] == w)
    ensures Tally(g, v) + Tally(g, w) == Tally(u, v) + Tally(u, w)
  {
    if g != [] {
      var n := |g| - 1;
      PairSame(g[..n], u[..n], v, w);
      RowPairSame(g[n], u[n], v, w);
    }
  }

  /** A row in which every `v` of `a` is still `v` holds at least as many `v` as `a`. */
  lemma {:induction false} RowTallyMono(a: seq<int>, b: seq<int>, v: int)
    requires |a| == |b|
    requires forall j | 0 <= j < |a| :: a[j] == v ==> b[j] == v
    ensures RowTally(a, v) <= RowTally(b, v)
  {
    if a != [] {
      RowTallyMono(a[..|a| - 1], b[..|b| - 1], v);
    }
  }

  /** Keeping every `v` of `g` never lowers the count of `v`. */
  lemma {:induction false} TallyMono(g: seq<seq<int>>, u: seq<seq<int>>, v: int)
    requires |g| == |u|
    requires forall i | 0 <= i < |g| :: |g[i]| == |u[i]|
    requires forall i, j | 0 <= i < |g| && 0 <= j < |g[i]| :: g[i][j] == v ==> u[i][j] == v
    ensures Tally(g, v) <= Tally(u, v)
  {
    if g != [] {
      var n := |g| - 1;
      TallyMono(g[..n], u[..n], v);
      RowTallyMono(g[n], u[n], v);
    }
  }

  /** If `u` keeps every `v` of `g` and adds `v` on two distinct cells that did not hold it, `u` counts
      at least two more `v`. */
  lemma TallyGainsTwo(g: Grid, u: Grid, v: int, a: int, b: int, c: int, d: int)
    requires InBounds(a, b) && InBounds(c, d) && !(a == c && b == d)
    requires g[a][b] != v && g[c][d] != v && u[a][b] == v && u[c][d] == v
    requires forall i, j | InBounds(i, j) && g[i][j] == v :: u[i][j] == v
    ensures Tally(u, v) >= Tally(g, v) + 2
  {
    var w0 := Set(g, a, b, v);
    var w := Set(w0, c, d, v);
    SetCells(g, a, b, v);
    SetCells(w0, c, d, v);
    TallySet(g, a, b, v, v);
    TallySet(w0, c, d, v, v);
    TallyMono(w, u, v);
  }

  /** Two positions that agree on every cell. */
  lemma GridsEqual(g: Grid, u: Grid)
    requires forall i, j | InBounds(i, j) :: g[i][j] == u[i][j]
    ensures g == u
  {
    forall i | 0 <= i < 8
      ensures g[i] == u[i]
    {
      assert forall j | 0 <= j < 8 :: g[i][j] == u[i][j];
    }
  }

  /** Placing a piece on an empty cell while only exchanging one colour for another elsewhere fills
      exactly one empty cell and adds exactly one piece. */
  lemma PlacementCounts(g: Grid, u: Grid, h: int, k: int, rep: int)
    requires InBounds(h, k) && IsPlayer(rep) && g[h][k] == Empty && u[h][k] == rep
    requires forall i, j | InBounds(i, j) && !(i == h && j == k) ::
               u[i][j] == g[i][j] || (IsPlayer(g[i][j]) && IsPlayer(u[i][j]))
    ensures Empties(u) == Empties(g) - 1
    ensures Pieces(u) == Pieces(g) + 1
  {
    var w := Set(u, h, k, Empty);
    PairSame(g, w, Empty, Empty);
    PairSame(g, w, Black, White);
    SetCells(u, h, k, Empty);
    SetCells(w, h, k, rep);
    GridsEqual(u, Set(w, h, k, rep));
    TallySet(w, h, k, rep, Empty);
    TallySet(w, h, k, rep, Black);
    TallySet(w, h, k, rep, White);
  }
}
