/** Rays from a cell in the eight directions, and runs of equal codes along them. */
module Rays {
  import opened Board

  predicate IsDirection(dr: int, dc: int)
  {
    -1 <= dr <= 1 && -1 <= dc <= 1 && !(dr == 0 && dc == 0)
  }

  /** The direction table of main.cpp:78-81 and main.cpp:102-105, in its scan order. */
  const Directions: seq<(int, int)> :=
    [(1, 0), (-1, 0), (0, 1), (0, -1), (1, 1), (1, -1), (-1, 1), (-1, -1)]

  lemma DirectionsAreDirections()
    ensures |Directions| == 8
    ensures forall t | 0 <= t < 8 :: IsDirection(Directions[t].0, Directions[t].1)
    ensures forall t, u | 0 <= t < u < 8 :: Directions[t] != Directions[u]
  {
  }

  /** The index of the opposite direction in the table. */
  function Reverse(t: int): (u: int)
    requires 0 <= t < 8
    ensures 0 <= u < 8
    ensures Directions[u] == (-Directions[t].0, -Directions[t].1)
  {
    [1, 0, 3, 2, 7, 6, 5, 4][t]
  }

  /** Coordinate `x` moved `n` steps by the unit step `d`. */
  function Shift(x: int, d: int, n: int): int
  {
    if d > 0 then x + n else if d < 0 then x - n else x
  }

  /** Steps left before coordinate `x` leaves the board moving by `d`. */
  function Reach(x: int, d: int): int
  {
    if d > 0 then 8 - x else if d < 0 then x + 1 else 0
  }

  /** Number of consecutive cells holding `v`, starting at (r, c) and moving by (dr, dc). */
  function RunLength(g: Grid, r: int, c: int, dr: int, dc: int, v: int): nat
    requires IsDirection(dr, dc)
    decreases Reach(r, dr) + Reach(c, dc)
  {
    if InBounds(r, c) && g[r][c] == v then 1 + RunLength(g, r + dr, c + dc, dr, dc, v) else 0
  }

  /** The first cell, from (r, c) along (dr, dc), that is off the board or does not hold `v`. */
  function RunEnd(g: Grid, r: int, c: int, dr: int, dc: int, v: int): (int, int)
    requires IsDirection(dr, dc)
    decreases Reach(r, dr) + Reach(c, dc)
  {
    if InBounds(r, c) && g[r][c] == v then RunEnd(g, r + dr, c + dc, dr, dc, v) else (r, c)
  }

  /** One step of a run. */
  lemma RunLengthNext(g: Grid, r: int, c: int, dr: int, dc: int, v: int)
    requires IsDirection(dr, dc)
    ensures RunLength(g, r, c, dr, dc, v)
         == if InBounds(r, c) && g[r][c] == v then 1 + RunLength(g, r + dr, c + dc, dr, dc, v) else 0
  {
  }

  /** The cell `s` steps from (r, c) is on the board and holds `v`. */
  predicate HoldsAt(g: Grid, r: int, c: int, dr: int, dc: int, s: int, v: int)
  {
    InBounds(Shift(r, dr, s), Shift(c, dc, s)) && g[Shift(r, dr, s)][Shift(c, dc, s)] == v
  }

  /** A run of length n: the first n cells hold `v` and the next one does not. */
  lemma RunCells(g: Grid, r: int, c: int, dr: int, dc: int, v: int)
    requires IsDirection(dr, dc)
    ensures forall s | 0 <= s < RunLength(g, r, c, dr, dc, v) :: HoldsAt(g, r, c, dr, dc, s, v)
    ensures !HoldsAt(g, r, c, dr, dc, RunLength(g, r, c, dr, dc, v), v)
  {
    RunHolds(g, r, c, dr, dc, v);
    RunStops(g, r, c, dr, dc, v);
  }

  lemma {:induction false} RunHolds(g: Grid, r: int, c: int, dr: int, dc: int, v: int)
    requires IsDirection(dr, dc)
    ensures forall s | 0 <= s < RunLength(g, r, c, dr, dc, v) :: HoldsAt(g, r, c, dr, dc, s, v)
    decreases Reach(r, dr) + Reach(c, dc)
  {
    if InBounds(r, c) && g[r][c] == v {
      var r1, c1 := r + dr, c + dc;
      RunHolds(g, r1, c1, dr, dc, v);
      var n := RunLength(g, r1, c1, dr, dc, v);
      forall s | 1 <= s <= n
        ensures HoldsAt(g, r, c, dr, dc, s, v) == HoldsAt(g, r1, c1, dr, dc, s - 1, v)
      {
        ShiftNext(r, dr, s - 1);
        ShiftNext(c, dc, s - 1);
      }
    }
  }

  lemma {:induction false} RunStops(g: Grid, r: int, c: int, dr: int, dc: int, v: int)
    requires IsDirection(dr, dc)
    ensures !HoldsAt(g, r, c, dr, dc, RunLength(g, r, c, dr, dc, v), v)
    decreases Reach(r, dr) + Reach(c, dc)
  {
    if InBounds(r, c) && g[r][c] == v {
      var r1, c1 := r + dr, c + dc;
      RunStops(g, r1, c1, dr, dc, v);
      var n := RunLength(g, r1, c1, dr, dc, v);
      ShiftNext(r, dr, n);
      ShiftNext(c, dc, n);
      assert HoldsAt(g, r, c, dr, dc, n + 1, v) == HoldsAt(g, r1, c1, dr, dc, n, v);
    }
  }

  lemma ShiftNext(x: int, d: int, n: int)
    requires -1 <= d <= 1
    ensures Shift(x + d, d, n) == Shift(x, d, n + 1)
  {
  }

  lemma ShiftStep(x: int, d: int, n: int)
    requires -1 <= d <= 1
    ensures Shift(x, d, n + 1) == Shift(x, d, n) + d
  {
  }

  /** Moving back s steps from n steps ahead leaves n - s steps ahead. */
  lemma ShiftReverse(x: int, d: int, n: int, s: int)
    requires -1 <= d <= 1
    ensures Shift(Shift(x, d, n), -d, s) == Shift(x, d, n - s)
  {
  }

  /** The run ends exactly its length away from where it starts. */
  lemma {:induction false} RunEndAt(g: Grid, r: int, c: int, dr: int, dc: int, v: int)
    requires IsDirection(dr, dc)
    ensures var n := RunLength(g, r, c, dr, dc, v);
      RunEnd(g, r, c, dr, dc, v) == (Shift(r, dr, n), Shift(c, dc, n))
    decreases Reach(r, dr) + Reach(c, dc)
  {
    if InBounds(r, c) && g[r][c] == v {
      var r1, c1 := r + dr, c + dc;
      RunEndAt(g, r1, c1, dr, dc, v);
      var n := RunLength(g, r1, c1, dr, dc, v);
      ShiftNext(r, dr, n);
      ShiftNext(c, dc, n);
    }
  }

  /** The cells 1 to n steps from (h, k), n the length of the run of `v` after it, all hold `v`. */
  lemma RunOnRay(g: Grid, h: int, k: int, dh: int, dk: int, v: int)
    requires IsDirection(dh, dk)
    ensures var n := RunLength(g, h + dh, k + dk, dh, dk, v);
      forall i, j | InBounds(i, j) && OnRay(h, k, dh, dk, 1, n, i, j) :: g[i][j] == v
  {
    var h1, k1 := h + dh, k + dk;
    var n := RunLength(g, h1, k1, dh, dk, v);
    RunHolds(g, h1, k1, dh, dk, v);
    forall i, j | InBounds(i, j) && OnRay(h, k, dh, dk, 1, n, i, j)
      ensures g[i][j] == v
    {
      var s := StepTo(h, k, dh, dk, i, j);
      ShiftNext(h, dh, s - 1);
      ShiftNext(k, dk, s - 1);
      assert HoldsAt(g, h1, k1, dh, dk, s - 1, v);
    }
  }

  /** Conversely, n cells holding `v` followed by one that does not make a run of exactly n. */
  lemma {:induction false} RunLengthIs(g: Grid, r: int, c: int, dr: int, dc: int, v: int, n: nat)
    requires IsDirection(dr, dc)
    requires forall s | 0 <= s < n :: HoldsAt(g, r, c, dr, dc, s, v)
    requires !HoldsAt(g, r, c, dr, dc, n, v)
    ensures RunLength(g, r, c, dr, dc, v) == n
    decreases n
  {
    if n == 0 {
      assert Shift(r, dr, 0) == r && Shift(c, dc, 0) == c;
    } else {
      assert HoldsAt(g, r, c, dr, dc, 0, v);
      var r1, c1 := r + dr, c + dc;
      forall s | 0 <= s < n - 1
        ensures HoldsAt(g, r1, c1, dr, dc, s, v)
      {
        assert HoldsAt(g, r, c, dr, dc, s + 1, v);
      }
      assert Shift(r + dr, dr, n - 1) == Shift(r, dr, n);
      RunLengthIs(g, r + dr, c + dc, dr, dc, v, n - 1);
    }
  }

  /** The step count from (h, k) to (r, c) along (dh, dk), when (r, c) is on that line. */
  function StepTo(h: int, k: int, dh: int, dk: int, r: int, c: int): int
  {
    if dh > 0 then r - h else if dh < 0 then h - r else if dk > 0 then c - k else k - c
  }

  /** (r, c) lies between `lo` and `hi` steps (inclusive) from (h, k) along (dh, dk). */
  predicate OnRay(h: int, k: int, dh: int, dk: int, lo: int, hi: int, r: int, c: int)
  {
    var s := StepTo(h, k, dh, dk, r, c);
    lo <= s <= hi && r == Shift(h, dh, s) && c == Shift(k, dk, s)
  }

  lemma OnRayAt(h: int, k: int, dh: int, dk: int, lo: int, hi: int, s: int)
    requires IsDirection(dh, dk)
    ensures OnRay(h, k, dh, dk, lo, hi, Shift(h, dh, s), Shift(k, dk, s)) <==> lo <= s <= hi
  {
  }

  /** Rays of two different directions from one cell share only that cell. */
  lemma RaysDisjoint(h: int, k: int, da: int, db: int, ea: int, eb: int, s: int, u: int)
    requires IsDirection(da, db) && IsDirection(ea, eb) && (da != ea || db != eb)
    requires 0 <= s && 1 <= u
    ensures Shift(h, da, s) != Shift(h, ea, u) || Shift(k, db, s) != Shift(k, eb, u)
  {
  }

  /** `g` and `u` agree on every board cell one or more steps from (h, k) along (dh, dk). */
  ghost predicate AgreeBeyond(g: Grid, u: Grid, h: int, k: int, dh: int, dk: int)
  {
    forall s | 1 <= s && InBounds(Shift(h, dh, s), Shift(k, dk, s)) ::
      g[Shift(h, dh, s)][Shift(k, dk, s)] == u[Shift(h, dh, s)][Shift(k, dk, s)]
  }

  /** A run depends only on the cells of its own ray. */
  lemma {:induction false} RunLengthFrame(g: Grid, u: Grid, h: int, k: int, dh: int, dk: int, v: int)
    requires IsDirection(dh, dk)
    requires AgreeBeyond(g, u, h, k, dh, dk)
    ensures RunLength(g, h + dh, k + dk, dh, dk, v) == RunLength(u, h + dh, k + dk, dh, dk, v)
    decreases Reach(h + dh, dh) + Reach(k + dk, dk)
  {
    var h1, k1 := h + dh, k + dk;
    assert Shift(h, dh, 1) == h1 && Shift(k, dk, 1) == k1;
    if InBounds(h1, k1) && g[h1][k1] == v {
      forall s | 1 <= s && InBounds(Shift(h1, dh, s), Shift(k1, dk, s))
        ensures g[Shift(h1, dh, s)][Shift(k1, dk, s)] == u[Shift(h1, dh, s)][Shift(k1, dk, s)]
      {
        assert Shift(h1, dh, s) == Shift(h, dh, s + 1) && Shift(k1, dk, s) == Shift(k, dk, s + 1);
      }
      RunLengthFrame(g, u, h1, k1, dh, dk, v);
    }
  }
}
