/** The scan of get_valid_moves (main.cpp:93-128) as a sequence of steps over positions (i, j, t):
    origin row i, origin column j, direction index t. */
module Scan {
  import opened Board
  import opened Rays
  import opened Moves

  /** Scan position (oi, oj, u) comes strictly before (i, j, t) in the loop order. */
  predicate Before(oi: int, oj: int, u: int, i: int, j: int, t: int)
  {
    oi < i || (oi == i && oj < j) || (oi == i && oj == j && u < t)
  }

  /** What the scan has built on reaching position (i, j, t): every listed cell is a legal move, none
      is listed twice, and every cell discovered from an earlier position is listed. */
  ghost predicate ScannedUpTo(g: Grid, rep: int, moves: seq<(int, int)>, i: int, j: int, t: int)
  {
    (forall m | m in moves :: IsLegal(g, rep, m.0, m.1)) &&
    (forall a, b | 0 <= a < b < |moves| :: moves[a] != moves[b]) &&
    (forall oi, oj, u, r, c | InBounds(oi, oj) && 0 <= u < 8 && Before(oi, oj, u, i, j, t) &&
                              Discovers(g, rep, oi, oj, u, r, c) :: (r, c) in moves)
  }

  /** The cell a scan along direction t from (i, j) would report: where the run of the opponent's code ends. */
  function Landing(g: Grid, rep: int, i: int, j: int, t: int): (int, int)
    requires 0 <= t < 8
  {
    DirectionsAreDirections();
    RunEnd(g, i + Directions[t].0, j + Directions[t].1, Directions[t].0, Directions[t].1, Opponent(rep))
  }

  /** Nothing has been scanned at the start. */
  lemma ScanStart(g: Grid, rep: int)
    ensures ScannedUpTo(g, rep, [], 0, 0, 0)
  {
  }

  /** A scan discovers at most one cell: the landing cell. */
  lemma DiscoversLanding(g: Grid, rep: int, i: int, j: int, t: int, r: int, c: int)
    requires InBounds(i, j) && 0 <= t < 8
    requires Discovers(g, rep, i, j, t, r, c)
    ensures (r, c) == Landing(g, rep, i, j, t)
  {
    DirectionsAreDirections();
    ScanFindsAtEnd(g, rep, i, j, Directions[t].0, Directions[t].1, r, c);
  }

  /** One pass of the direction loop: the landing cell is appended when it is discovered and not yet
      listed; afterwards the scan has covered position (i, j, t) too. */
  lemma {:induction false} ScanStep(g: Grid, rep: int, moves: seq<(int, int)>, i: int, j: int, t: int,
                                    next: seq<(int, int)>)
    requires InBounds(i, j) && 0 <= t < 8 && ScannedUpTo(g, rep, moves, i, j, t)
    requires var e := Landing(g, rep, i, j, t);
      next == if Discovers(g, rep, i, j, t, e.0, e.1) && e !in moves then moves + [e] else moves
    ensures ScannedUpTo(g, rep, next, i, j, t + 1)
  {
    var e := Landing(g, rep, i, j, t);
    if Discovers(g, rep, i, j, t, e.0, e.1) && e !in moves {
      DiscoveredIsLegal(g, rep, i, j, t, e.0, e.1);
      forall m | m in next
        ensures IsLegal(g, rep, m.0, m.1)
      {
        if m != e {
          assert m in moves;
        }
      }
      forall a, b | 0 <= a < b < |next|
        ensures next[a] != next[b]
      {
        if b == |moves| {
          assert next[a] in moves;
        }
      }
    }
    forall oi, oj, u, r, c | InBounds(oi, oj) && 0 <= u < 8 && Before(oi, oj, u, i, j, t + 1) &&
                            Discovers(g, rep, oi, oj, u, r, c)
      ensures (r, c) in next
    {
      if oi == i && oj == j && u == t {
        DiscoversLanding(g, rep, i, j, t, r, c);
      } else {
        assert Before(oi, oj, u, i, j, t);
      }
    }
  }

  /** A cell not holding `rep` is the origin of no scan. */
  lemma ScanSkipCell(g: Grid, rep: int, moves: seq<(int, int)>, i: int, j: int)
    requires InBounds(i, j) && g[i][j] != rep && ScannedUpTo(g, rep, moves, i, j, 0)
    ensures ScannedUpTo(g, rep, moves, i, j + 1, 0)
  {
  }

  /** After the eighth direction, the scan moves on to the next column. */
  lemma ScanNextCell(g: Grid, rep: int, moves: seq<(int, int)>, i: int, j: int)
    requires ScannedUpTo(g, rep, moves, i, j, 8)
    ensures ScannedUpTo(g, rep, moves, i, j + 1, 0)
  {
  }

  /** After the last column, the scan moves on to the next row. */
  lemma ScanNextRow(g: Grid, rep: int, moves: seq<(int, int)>, i: int)
    requires ScannedUpTo(g, rep, moves, i, 8, 0)
    ensures ScannedUpTo(g, rep, moves, i + 1, 0, 0)
  {
  }

  /** The complete scan lists every legal move of `rep`. */
  lemma ScanComplete(g: Grid, rep: int, moves: seq<(int, int)>)
    requires ScannedUpTo(g, rep, moves, 8, 0, 0)
    ensures forall r, c | IsLegal(g, rep, r, c) :: (r, c) in moves
  {
    forall r, c | IsLegal(g, rep, r, c)
      ensures (r, c) in moves
    {
      var t0 :| 0 <= t0 < 8 && Brackets(g, r, c, Directions[t0].0, Directions[t0].1, rep, Opponent(rep));
      var oi, oj := LegalIsDiscovered(g, rep, r, c, t0);
    }
  }
}
