/** The rules of Sudoku as pure definitions over a value snapshot of the
    board, with the facts the solver's proofs rest on: how the count-based
    consistency test relates to "no peer holds the same value", what the
    exact candidate list of a cell is, and why committing a value keeps
    candidate lists exact and the board conflict-free. */
module Rules {
  import opened Candidates

  /** A snapshot of the board, row by row: 0 is an empty cell, 1..9 a digit,
      any other value a character that is not a digit. */
  type Grid = seq<seq<int>>

  type Cell = (int, int)

  predicate InRange(r: int, c: int) {
    0 <= r < 9 && 0 <= c < 9
  }

  /** `3 * Math.floor(x / 3)`: the first row (column) of the box holding
      row (column) x, for x >= 0. */
  function BoxStart(x: int): (s: int)
    requires 0 <= x
    ensures s % 3 == 0 && s <= x < s + 3
    ensures x < 9 ==> 0 <= s <= 6
  {
    3 * (x / 3)
  }

  /** (i, j) lies in the row, the column or the 3x3 box of (r, c); a cell is
      its own peer. */
  predicate Peer(r: int, c: int, i: int, j: int) {
    i == r || j == c || (i / 3 == r / 3 && j / 3 == c / 3)
  }

  /** The box part of Peer, as the index ranges the box scans use. */
  lemma BoxBounds(r: int, c: int, i: int, j: int)
    requires InRange(r, c) && InRange(i, j)
    ensures (i / 3 == r / 3 && j / 3 == c / 3) <==>
            (BoxStart(r) <= i < BoxStart(r) + 3 && BoxStart(c) <= j < BoxStart(c) + 3)
  {
  }

  /** Position k = 9 * i + j of row-major order names cell (k / 9, k % 9). */
  lemma RowMajor(i: int, j: int)
    requires InRange(i, j)
    ensures (9 * i + j) / 9 == i && (9 * i + j) % 9 == j
  {
  }

  ghost predicate IsGrid(g: Grid) {
    |g| == 9 && forall i :: 0 <= i < 9 ==> |g[i]| == 9
  }

  /** No other cell in the row, column or box of (r, c) holds g[r][c]. */
  ghost predicate NoConflict(g: Grid, r: int, c: int)
    requires IsGrid(g) && InRange(r, c)
  {
    forall i, j :: InRange(i, j) && Peer(r, c, i, j) && (i != r || j != c) ==> g[i][j] != g[r][c]
  }

  /** No cell in the row, column or box of (r, c), itself included, holds d. */
  ghost predicate PeerFree(g: Grid, r: int, c: int, d: int)
    requires IsGrid(g) && InRange(r, c)
  {
    forall i, j :: InRange(i, j) && Peer(r, c, i, j) ==> g[i][j] != d
  }

  /** Every cell is empty or a digit. */
  ghost predicate WellFormed(g: Grid)
    requires IsGrid(g)
  {
    forall i, j :: InRange(i, j) ==> 0 <= g[i][j] <= 9
  }

  ghost predicate Complete(g: Grid)
    requires IsGrid(g)
  {
    forall i, j :: InRange(i, j) ==> g[i][j] != 0
  }

  /** Every filled cell is free of conflicts. */
  ghost predicate Consistent(g: Grid)
    requires IsGrid(g)
  {
    forall i, j :: InRange(i, j) && g[i][j] != 0 ==> NoConflict(g, i, j)
  }

  /** The check solve makes of one cell before solving: it is empty or a
      digit, and a digit that no peer also holds. */
  ghost predicate Passes(g: Grid, r: int, c: int)
    requires IsGrid(g) && InRange(r, c)
  {
    0 <= g[r][c] <= 9 && (g[r][c] != 0 ==> NoConflict(g, r, c))
  }

  /** The per-cell checks pass everywhere exactly when the board is well
      formed and conflict-free. */
  lemma PassesEverywhere(g: Grid)
    requires IsGrid(g)
    ensures (forall i, j :: InRange(i, j) ==> Passes(g, i, j)) <==> WellFormed(g) && Consistent(g)
  {
  }

  ghost predicate IsSolution(g: Grid) {
    IsGrid(g) && WellFormed(g) && Complete(g) && Consistent(g)
  }

  /** s keeps every filled cell of g. */
  ghost predicate Extends(s: Grid, g: Grid) {
    && IsGrid(s) && IsGrid(g)
    && forall i, j :: InRange(i, j) && g[i][j] != 0 ==> s[i][j] == g[i][j]
  }

  // ---------------------------------------------------------------------
  // The three scans of isValid and what their count means

  /** The cells the row scan visits, in order (Sudoku.js:138-142). */
  function RowCells(r: int): seq<Cell> {
    seq(9, j => (r, j))
  }

  /** The cells the column scan visits, in order (Sudoku.js:144-148). */
  function ColCells(c: int): seq<Cell> {
    seq(9, i => (i, c))
  }

  /** The cells the box scan visits, row by row (Sudoku.js:150-158). */
  function BoxCells(r: int, c: int): seq<Cell>
    requires InRange(r, c)
  {
    var br, bc := BoxStart(r), BoxStart(c);
    seq(9, k => (br + k / 3, bc + k % 3))
  }

  ghost predicate AllInRange(cells: seq<Cell>) {
    forall k :: 0 <= k < |cells| ==> InRange(cells[k].0, cells[k].1)
  }

  /** How many of the listed cells are on the board and hold v. */
  ghost function Occurrences(g: Grid, cells: seq<Cell>, v: int): nat
    requires IsGrid(g)
  {
    if cells == [] then 0
    else
      var last := cells[|cells| - 1];
      Occurrences(g, cells[..|cells| - 1], v) + (if InRange(last.0, last.1) && g[last.0][last.1] == v then 1 else 0)
  }

  /** One more step of a left-to-right scan adds the next cell's match. */
  lemma OccurrencesStep(g: Grid, cells: seq<Cell>, v: int, i: int)
    requires IsGrid(g) && 0 <= i < |cells| && InRange(cells[i].0, cells[i].1)
    ensures Occurrences(g, cells[..i + 1], v) ==
            Occurrences(g, cells[..i], v) + (if g[cells[i].0][cells[i].1] == v then 1 else 0)
  {
    assert cells[..i + 1][..i] == cells[..i];
  }

  lemma {:induction false} OccurrencesNone(g: Grid, cells: seq<Cell>, v: int)
    requires IsGrid(g) && AllInRange(cells)
    ensures Occurrences(g, cells, v) == 0 <==>
            forall k :: 0 <= k < |cells| ==> g[cells[k].0][cells[k].1] != v
  {
    if cells != [] {
      var front := cells[..|cells| - 1];
      OccurrencesNone(g, front, v);
      assert forall k :: 0 <= k < |front| ==> front[k] == cells[k];
    }
  }

  /** A scan that passes over cell p (at index p) counts it: the count is at
      least one, and exactly one when no other visited cell holds its value. */
  lemma {:induction false} OccurrencesOnce(g: Grid, cells: seq<Cell>, p: nat)
    requires IsGrid(g) && AllInRange(cells) && p < |cells|
    ensures Occurrences(g, cells, g[cells[p].0][cells[p].1]) >= 1
    ensures Occurrences(g, cells, g[cells[p].0][cells[p].1]) == 1 <==>
            forall k :: 0 <= k < |cells| && k != p ==> g[cells[k].0][cells[k].1] != g[cells[p].0][cells[p].1]
  {
    var front := cells[..|cells| - 1];
    assert forall k :: 0 <= k < |front| ==> front[k] == cells[k];
    if p == |cells| - 1 {
      OccurrencesNone(g, front, g[cells[p].0][cells[p].1]);
    } else {
      OccurrencesOnce(g, front, p);
    }
  }

  lemma BoxCellsAt(r: int, c: int, k: int)
    requires InRange(r, c) && 0 <= k < 9
    ensures InRange(BoxCells(r, c)[k].0, BoxCells(r, c)[k].1)
    ensures BoxCells(r, c)[k].0 / 3 == r / 3 && BoxCells(r, c)[k].1 / 3 == c / 3
    ensures BoxCells(r, c)[k] == (r, c) <==> k == 3 * (r % 3) + c % 3
  {
  }

  /** One step of the box scan's nested loops, at row offset a and column
      offset b, adds the match of that cell. */
  lemma BoxScanStep(g: Grid, r: int, c: int, v: int, a: int, b: int)
    requires IsGrid(g) && InRange(r, c) && 0 <= a < 3 && 0 <= b < 3
    ensures Occurrences(g, BoxCells(r, c)[..3 * a + b + 1], v) ==
            Occurrences(g, BoxCells(r, c)[..3 * a + b], v)
            + (if g[BoxStart(r) + a][BoxStart(c) + b] == v then 1 else 0)
  {
    assert (3 * a + b) / 3 == a && (3 * a + b) % 3 == b;
    OccurrencesStep(g, BoxCells(r, c), v, 3 * a + b);
  }

  lemma BoxCellsCover(r: int, c: int, i: int, j: int)
    requires InRange(r, c) && InRange(i, j) && i / 3 == r / 3 && j / 3 == c / 3
    ensures BoxCells(r, c)[3 * (i % 3) + j % 3] == (i, j)
  {
  }

  /** Every cell of the box scan is on the board. */
  lemma BoxCellsInRange(r: int, c: int)
    requires InRange(r, c)
    ensures AllInRange(BoxCells(r, c))
  {
    forall k | 0 <= k < 9 ensures InRange(BoxCells(r, c)[k].0, BoxCells(r, c)[k].1) {
      BoxCellsAt(r, c, k);
    }
  }

  /** isValid's test (Sudoku.js:134-161): the three scans each count the
      cell itself, so the total is at least 3, and it is exactly 3 iff no
      other cell of the row, column or box holds the same value. */
  lemma ScanCount(g: Grid, r: int, c: int)
    requires IsGrid(g) && InRange(r, c)
    ensures AllInRange(RowCells(r)) && AllInRange(ColCells(c)) && AllInRange(BoxCells(r, c))
    ensures var v := g[r][c];
            var n := Occurrences(g, RowCells(r), v) + Occurrences(g, ColCells(c), v)
                     + Occurrences(g, BoxCells(r, c), v);
            n >= 3 && (n == 3 <==> NoConflict(g, r, c))
  {
    var v := g[r][c];
    var row, col, box := RowCells(r), ColCells(c), BoxCells(r, c);
    BoxCellsInRange(r, c);
    var p := 3 * (r % 3) + c % 3;
    BoxCellsAt(r, c, p);
    OccurrencesOnce(g, row, c);
    OccurrencesOnce(g, col, r);
    OccurrencesOnce(g, box, p);
    var n := Occurrences(g, row, v) + Occurrences(g, col, v) + Occurrences(g, box, v);
    if NoConflict(g, r, c) {
      forall k | 0 <= k < 9 && k != p ensures g[box[k].0][box[k].1] != v {
        BoxCellsAt(r, c, k);
      }
      assert n == 3;
    }
    if n == 3 {
      forall i, j | InRange(i, j) && Peer(r, c, i, j) && (i != r || j != c)
        ensures g[i][j] != v
      {
        if i == r {
          assert row[j] == (i, j);
        } else if j == c {
          assert col[i] == (i, j);
        } else {
          BoxCellsCover(r, c, i, j);
          BoxCellsAt(r, c, 3 * (i % 3) + j % 3);
        }
      }
    }
  }

  // ---------------------------------------------------------------------
  // Solutions seen from a partial board

  /** A solution that keeps the filled cells of g gives each empty cell of g
      a value that no peer of that cell holds in g. */
  lemma SolutionPeerFree(s: Grid, g: Grid, r: int, c: int)
    requires IsSolution(s) && Extends(s, g) && InRange(r, c) && g[r][c] == 0
    ensures PeerFree(g, r, c, s[r][c])
  {
    forall i, j | InRange(i, j) && Peer(r, c, i, j) ensures g[i][j] != s[r][c] {
      if (i != r || j != c) && g[i][j] != 0 {
        assert NoConflict(s, r, c);
      }
    }
  }

  /** A board whose filled cells all agree with some solution has no
      conflict at a cell that holds the solution's value. */
  lemma ExtendedNoConflict(s: Grid, g: Grid, r: int, c: int)
    requires IsSolution(s) && IsGrid(g) && InRange(r, c)
    ensures Extends(s, g) && g[r][c] == s[r][c] ==> NoConflict(g, r, c)
  {
    if Extends(s, g) && g[r][c] == s[r][c] {
      forall i, j | InRange(i, j) && Peer(r, c, i, j) && (i != r || j != c)
        ensures g[i][j] != g[r][c]
      {
        if g[i][j] != 0 {
          assert NoConflict(s, r, c);
        }
      }
    }
  }

  // ---------------------------------------------------------------------
  // Exact candidate lists

  /** L is the candidate list of (r, c) that the board g calls for: empty
      for a filled cell; for an empty cell, in ascending order, exactly the
      digits that no peer holds. */
  ghost predicate ExactList(g: Grid, r: int, c: int, L: seq<int>)
    requires IsGrid(g) && InRange(r, c)
  {
    && IsCandidateList(L)
    && forall d :: d in L <==> g[r][c] == 0 && 1 <= d <= 9 && PeerFree(g, r, c, d)
  }

  /** The digits d..9 that no peer of (r, c) holds, ascending. */
  ghost function PeerFreeFrom(g: Grid, r: int, c: int, d: int): (s: seq<int>)
    requires IsGrid(g) && InRange(r, c) && 1 <= d <= 10
    ensures IsCandidateList(s)
    ensures forall x :: x in s ==> d <= x
    ensures forall x :: x in s <==> d <= x <= 9 && PeerFree(g, r, c, x)
    decreases 10 - d
  {
    if d == 10 then []
    else
      var rest := PeerFreeFrom(g, r, c, d + 1);
      assert forall k :: 0 <= k < |rest| ==> rest[k] in rest;
      (if PeerFree(g, r, c, d) then [d] else []) + rest
  }

  /** [1..9] with the values of the filled peers removed; [] for a filled
      cell. */
  ghost function Allowed(g: Grid, r: int, c: int): (a: seq<int>)
    requires IsGrid(g) && InRange(r, c)
    ensures ExactList(g, r, c, a)
  {
    if g[r][c] != 0 then [] else PeerFreeFrom(g, r, c, 1)
  }

  /** An exact list is the one list Allowed describes. */
  lemma ExactIsAllowed(g: Grid, r: int, c: int, L: seq<int>)
    requires IsGrid(g) && InRange(r, c) && ExactList(g, r, c, L)
    ensures L == Allowed(g, r, c)
  {
    AscendingUnique(L, Allowed(g, r, c));
  }

  /** A solution that keeps the filled cells of g takes, at every empty
      cell, a value from that cell's exact list. */
  lemma SolutionInExactList(s: Grid, g: Grid, r: int, c: int, L: seq<int>)
    requires IsSolution(s) && Extends(s, g) && InRange(r, c) && g[r][c] == 0
    requires ExactList(g, r, c, L)
    ensures s[r][c] in L
  {
    SolutionPeerFree(s, g, r, c);
  }

  // ---------------------------------------------------------------------
  // Building the lists (findPossible)

  /** No peer of (r, c) that comes before position k in row-major order
      holds d. */
  ghost predicate PeerFreeBefore(g: Grid, r: int, c: int, d: int, k: int)
    requires IsGrid(g) && InRange(r, c)
  {
    forall i, j :: InRange(i, j) && Peer(r, c, i, j) && 9 * i + j < k ==> g[i][j] != d
  }

  /** The list of (r, c) after findPossible has processed the cells before
      position k: [] if (r, c) is filled and already processed, otherwise
      [1..9] without the values of the processed peers. */
  ghost predicate PartialList(g: Grid, r: int, c: int, k: int, L: seq<int>)
    requires IsGrid(g) && InRange(r, c)
  {
    && IsCandidateList(L)
    && forall d :: d in L <==>
         (g[r][c] == 0 || 9 * r + c >= k) && 1 <= d <= 9 && PeerFreeBefore(g, r, c, d, k)
  }

  lemma PartialStart(g: Grid, r: int, c: int)
    requires IsGrid(g) && InRange(r, c)
    ensures PartialList(g, r, c, 0, AllDigits)
  {
    forall d ensures d in AllDigits <==> 1 <= d <= 9 {
      if 1 <= d <= 9 {
        assert AllDigits[d - 1] == d;
      }
    }
  }

  /** Taking the cell at position k = 9r + c into account adds one
      constraint to PeerFreeBefore, and only when it is a peer. */
  lemma PeerFreeBeforeStep(g: Grid, i: int, j: int, r: int, c: int, d: int)
    requires IsGrid(g) && InRange(r, c) && InRange(i, j)
    ensures PeerFreeBefore(g, i, j, d, 9 * r + c + 1) <==>
            PeerFreeBefore(g, i, j, d, 9 * r + c) && (Peer(i, j, r, c) ==> g[r][c] != d)
  {
    var k := 9 * r + c;
    if PeerFreeBefore(g, i, j, d, k) && (Peer(i, j, r, c) ==> g[r][c] != d) {
      forall p, q | InRange(p, q) && Peer(i, j, p, q) && 9 * p + q < k + 1 ensures g[p][q] != d {
        if 9 * p + q == k {
          assert p == r && q == c;
        }
      }
    }
  }

  /** One step of findPossible's second loop (Sudoku.js:87-90): processing
      (r, c) at position k = 9r + c. A filled cell clears its own list and
      filters its value out of its peers' lists; an empty one changes
      nothing. Either way the lists describe the processed cells up to k+1. */
  lemma PartialStep(g: Grid, r: int, c: int, i: int, j: int, L: seq<int>)
    requires IsGrid(g) && InRange(r, c) && InRange(i, j)
    requires PartialList(g, i, j, 9 * r + c, L)
    ensures PartialList(g, i, j, 9 * r + c + 1,
              if g[r][c] == 0 then L
              else if Peer(r, c, i, j) then Without(if i == r && j == c then [] else L, g[r][c])
              else L)
  {
    var k := 9 * r + c;
    var v := g[r][c];
    forall d ensures PeerFreeBefore(g, i, j, d, k + 1) <==>
                     PeerFreeBefore(g, i, j, d, k) && (Peer(i, j, r, c) ==> v != d)
    {
      PeerFreeBeforeStep(g, i, j, r, c, d);
    }
    assert Peer(i, j, r, c) <==> Peer(r, c, i, j);
    if v != 0 && i == r && j == c {
      assert Without([], v) == [];
    } else if v != 0 && Peer(r, c, i, j) {
      WithoutKeepsCandidates(L, v);
      forall d ensures d in Without(L, v) <==>
        (g[i][j] == 0 || 9 * i + j >= k + 1) && 1 <= d <= 9 && PeerFreeBefore(g, i, j, d, k + 1)
      {
      }
    } else {
      forall d ensures d in L <==>
        (g[i][j] == 0 || 9 * i + j >= k + 1) && 1 <= d <= 9 && PeerFreeBefore(g, i, j, d, k + 1)
      {
        assert 9 * i + j == k ==> i == r && j == c;
      }
    }
  }

  lemma PartialDone(g: Grid, r: int, c: int, L: seq<int>)
    requires IsGrid(g) && InRange(r, c) && PartialList(g, r, c, 81, L)
    ensures L == Allowed(g, r, c)
  {
    forall d ensures PeerFreeBefore(g, r, c, d, 81) <==> PeerFree(g, r, c, d) {
    }
    ExactIsAllowed(g, r, c, L);
  }

  // ---------------------------------------------------------------------
  // Committing a value (updateOne)

  /** h is g with the empty cell (r, c) set to v. */
  ghost predicate FilledAt(g: Grid, h: Grid, r: int, c: int, v: int) {
    && IsGrid(g) && IsGrid(h) && InRange(r, c)
    && g[r][c] == 0 && h[r][c] == v
    && forall i, j :: InRange(i, j) && (i != r || j != c) ==> h[i][j] == g[i][j]
  }

  /** The row-major positions of the empty cells of g. */
  ghost function Empties(g: Grid): set<int>
    requires IsGrid(g)
  {
    set k | 0 <= k < 81 && g[k / 9][k % 9] == 0
  }

  /** Filling an empty cell with a nonzero value removes exactly its
      position from the empty positions. */
  lemma FillEmpties(g: Grid, h: Grid, r: int, c: int, v: int)
    requires FilledAt(g, h, r, c, v) && v != 0
    ensures 9 * r + c in Empties(g) && Empties(h) == Empties(g) - {9 * r + c}
  {
    RowMajor(r, c);
    forall k ensures k in Empties(h) <==> k in Empties(g) - {9 * r + c} {
      if 0 <= k < 81 {
        RowMajor(k / 9, k % 9);
      }
    }
  }

  /** Committing a digit v at (r, c) and filtering v out of the lists of
      its peers keeps every other cell's list exact. */
  lemma FillKeepsExact(g: Grid, h: Grid, r: int, c: int, v: int, i: int, j: int, L: seq<int>)
    requires FilledAt(g, h, r, c, v) && 1 <= v <= 9
    requires InRange(i, j) && (i != r || j != c) && ExactList(g, i, j, L)
    ensures ExactList(h, i, j, if Peer(r, c, i, j) then Without(L, v) else L)
  {
    WithoutKeepsCandidates(L, v);
    forall d | 1 <= d <= 9
      ensures PeerFree(h, i, j, d) <==> PeerFree(g, i, j, d) && (Peer(r, c, i, j) ==> d != v)
    {
      if PeerFree(g, i, j, d) && (Peer(r, c, i, j) ==> d != v) {
        forall p, q | InRange(p, q) && Peer(i, j, p, q) ensures h[p][q] != d {
        }
      }
      if PeerFree(h, i, j, d) {
        forall p, q | InRange(p, q) && Peer(i, j, p, q) ensures g[p][q] != d {
        }
        if Peer(r, c, i, j) {
          assert Peer(i, j, r, c);
        }
      }
    }
  }

  /** Committing a value that no peer holds keeps a conflict-free board
      conflict-free. */
  lemma FillKeepsConsistent(g: Grid, h: Grid, r: int, c: int, v: int)
    requires FilledAt(g, h, r, c, v) && v != 0
    requires Consistent(g) && PeerFree(g, r, c, v)
    ensures Consistent(h)
  {
    forall i, j | InRange(i, j) && h[i][j] != 0 ensures NoConflict(h, i, j) {
      if i == r && j == c {
        assert NoConflict(h, i, j);
      } else {
        assert NoConflict(g, i, j);
        forall p, q | InRange(p, q) && Peer(i, j, p, q) && (p != i || q != j)
          ensures h[p][q] != h[i][j]
        {
          if p == r && q == c {
            assert Peer(r, c, i, j);
          }
        }
      }
    }
  }

  /** A cell whose exact list is the single value v is forced: every
      solution that keeps the filled cells of g also keeps v at (r, c). */
  lemma ForcedFill(g: Grid, h: Grid, r: int, c: int, v: int, s: Grid)
    requires FilledAt(g, h, r, c, v) && ExactList(g, r, c, [v])
    requires IsSolution(s) && Extends(s, g)
    ensures Extends(s, h)
  {
    SolutionInExactList(s, g, r, c, [v]);
  }

  /** h is what propagation may turn g into: it keeps g's filled cells,
      only writes digits, stays conflict-free if g was, and loses no
      solution of g. */
  ghost predicate Progress(g: Grid, h: Grid) {
    && Extends(h, g)
    && (forall i, j :: InRange(i, j) && h[i][j] != g[i][j] ==> 1 <= h[i][j] <= 9)
    && (Consistent(g) ==> Consistent(h))
    && (forall s :: IsSolution(s) && Extends(s, g) ==> Extends(s, h))
  }

  /** Filling a forced cell is progress. */
  lemma {:induction false} ForcedProgress(g: Grid, h: Grid, r: int, c: int, v: int)
    requires FilledAt(g, h, r, c, v) && ExactList(g, r, c, [v])
    ensures Progress(g, h)
  {
    assert v in [v];
    if Consistent(g) {
      FillKeepsConsistent(g, h, r, c, v);
    }
    forall s | IsSolution(s) && Extends(s, g) ensures Extends(s, h) {
      ForcedFill(g, h, r, c, v, s);
    }
  }

  lemma ProgressTrans(g0: Grid, g1: Grid, g2: Grid)
    requires Progress(g0, g1) && Progress(g1, g2)
    ensures Progress(g0, g2)
  {
  }

  // ---------------------------------------------------------------------
  // Search (recurse)

  /** A cell that was free of conflicts stays so when every cell before
      position pos (row-major) keeps its value, the cell itself among them,
      and every cell from pos on is free of conflicts in the new board. */
  lemma NoConflictKept(g: Grid, h: Grid, r: int, c: int, pos: int)
    requires IsGrid(g) && IsGrid(h) && InRange(r, c) && 9 * r + c < pos
    requires NoConflict(g, r, c)
    requires forall i, j :: InRange(i, j) && 9 * i + j < pos ==> h[i][j] == g[i][j]
    requires forall i, j :: InRange(i, j) && 9 * i + j >= pos ==> NoConflict(h, i, j)
    ensures NoConflict(h, r, c)
  {
    forall i, j | InRange(i, j) && Peer(r, c, i, j) && (i != r || j != c) ensures h[i][j] != h[r][c] {
      if 9 * i + j >= pos {
        assert NoConflict(h, i, j);
        assert Peer(i, j, r, c);
      }
    }
  }
}
