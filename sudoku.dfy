/** The solver of Sudoku.js: a class over the caller's 9x9 board, which it
    mutates in place, and its own 9x9 table of candidate lists. */
module SudokuSolver {
  import opened Candidates
  import opened Rules

  datatype Option<T> = None | Some(value: T)

  /** What `solve` ends with. The first two replace its two `alert`s before
      any solving; `SolvedByPropagation` is its silent return when no empty
      cell is left after propagation; the last two are the outcome of the
      search. */
  datatype Outcome =
    | MalformedCell(row: int, col: int)
    | ConflictingGivens(row: int, col: int)
    | SolvedByPropagation
    | SolvedBySearch
    | Unsolvable

  /** (i, j) lies in the first a rows of the box whose top left cell is
      (br, bc): the cells the box loops of updatePossible have passed after
      a rows. */
  predicate BoxRows(br: int, bc: int, a: int, i: int, j: int) {
    br <= i < br + a && bc <= j < bc + 3
  }

  class Sudoku {
    /** The cells' values: 0 for '', 1..9 for a digit, anything else for a
        character that is not a digit. */
    const board: array2<int>
    /** possible[r, c]: the candidate digits of cell (r, c). */
    const possible: array2<seq<int>>

    ghost predicate Valid()
      reads possible
    {
      && board.Length0 == 9 && board.Length1 == 9
      && possible.Length0 == 9 && possible.Length1 == 9
      && forall i, j :: InRange(i, j) ==> IsCandidateList(possible[i, j])
    }

    /** The board as a value. */
    ghost function Cells(): (g: Grid)
      reads board
      requires board.Length0 == 9 && board.Length1 == 9
      ensures IsGrid(g)
      ensures forall i, j :: InRange(i, j) ==> g[i][j] == board[i, j]
    {
      seq(9, i requires 0 <= i < 9 reads board =>
        seq(9, j requires 0 <= j < 9 reads board => board[i, j]))
    }

    /** Every candidate list is the exact one for the current board. */
    ghost predicate Exact()
      reads board, possible
      requires Valid()
    {
      forall i, j :: InRange(i, j) ==> ExactList(Cells(), i, j, possible[i, j])
    }

    /** Every empty cell from position pos on (row-major) has s's value among
        its candidates, where emptiness is read from g. */
    ghost predicate Covered(s: Grid, g: Grid, pos: int)
      reads possible
      requires Valid() && IsGrid(s) && IsGrid(g)
    {
      forall i, j :: InRange(i, j) && 9 * i + j >= pos && g[i][j] == 0 ==> s[i][j] in possible[i, j]
    }

    /** The search from position pos (row-major) succeeded over g: every cell
        from pos on is filled and free of conflicts, keeps its value where g
        had one, and otherwise holds one of its candidates. */
    ghost predicate SolvedFrom(g: Grid, pos: int)
      reads board, possible
      requires Valid() && IsGrid(g)
    {
      forall i, j :: InRange(i, j) && 9 * i + j >= pos ==>
        && board[i, j] != 0 && NoConflict(Cells(), i, j)
        && (g[i][j] != 0 ==> board[i, j] == g[i][j])
        && (g[i][j] == 0 ==> board[i, j] in possible[i, j])
    }

    constructor (board: array2<int>)
      requires board.Length0 == 9 && board.Length1 == 9
      ensures this.board == board && fresh(possible)
      ensures Valid() && Exact()
      ensures forall i, j :: InRange(i, j) ==> possible[i, j] == Allowed(Cells(), i, j)
    {
      this.board := board;
      possible := new seq<int>[9, 9];
      new;
      FindPossible();
    }

    /** Sudoku.js:78-93. */
    method FindPossible()
      requires board.Length0 == 9 && board.Length1 == 9
      requires possible.Length0 == 9 && possible.Length1 == 9
      modifies possible
      ensures Valid()
      ensures forall i, j :: InRange(i, j) ==> possible[i, j] == Allowed(Cells(), i, j)
    {
      ResetPossible();
      ghost var g := Cells();
      forall i, j | InRange(i, j) ensures PartialList(g, i, j, 0, possible[i, j]) {
        PartialStart(g, i, j);
      }
      for r := 0 to 9
        invariant Valid()
        invariant forall i, j :: InRange(i, j) ==> PartialList(g, i, j, 9 * r, possible[i, j])
      {
        for c := 0 to 9
          invariant Valid()
          invariant forall i, j :: InRange(i, j) ==> PartialList(g, i, j, 9 * r + c, possible[i, j])
        {
          label Before:
          ProcessCell(r, c);
          forall i, j | InRange(i, j) ensures PartialList(g, i, j, 9 * r + c + 1, possible[i, j]) {
            PartialStep(g, r, c, i, j, old@Before(possible[i, j]));
          }
        }
      }
      forall i, j | InRange(i, j) ensures possible[i, j] == Allowed(Cells(), i, j) {
        PartialDone(g, i, j, possible[i, j]);
      }
    }

    /** One step of findPossible's second loop (Sudoku.js:87-90): a filled
        cell gets an empty list and its value is filtered out of its peers'
        lists; an empty cell changes nothing. */
    method ProcessCell(r: int, c: int)
      requires Valid() && InRange(r, c)
      modifies possible
      ensures Valid()
      ensures forall i, j :: InRange(i, j) ==>
        possible[i, j] ==
          if board[r, c] == 0 then old(possible[i, j])
          else if Peer(r, c, i, j) then Without(if i == r && j == c then [] else old(possible[i, j]), board[r, c])
          else old(possible[i, j])
    {
      if board[r, c] != 0 {
        possible[r, c] := [];
        UpdatePossible(r, c);
      }
    }

    /** The first loop of findPossible (Sudoku.js:79-84): every list becomes
        [1..9]. */
    method ResetPossible()
      requires possible.Length0 == 9 && possible.Length1 == 9
      modifies possible
      ensures forall i, j :: InRange(i, j) ==> possible[i, j] == AllDigits
    {
      for r := 0 to 9
        invariant forall i, j :: InRange(i, j) && i < r ==> possible[i, j] == AllDigits
      {
        for c := 0 to 9
          invariant forall i, j :: InRange(i, j) && (i < r || (i == r && j < c)) ==> possible[i, j] == AllDigits
        {
          possible[r, c] := AllDigits;
        }
      }
    }

    /** Sudoku.js:113-132: filters the value of (r, c) out of the lists of
        its row, its column and its box, (r, c) itself included. */
    method UpdatePossible(r: int, c: int)
      requires Valid() && InRange(r, c)
      modifies possible
      ensures Valid()
      ensures forall i, j :: InRange(i, j) ==>
        possible[i, j] == if Peer(r, c, i, j) then Without(old(possible[i, j]), board[r, c]) else old(possible[i, j])
    {
      var num := board[r, c];
      FilterRow(r, num);
      FilterColumn(c, num);
      FilterBox(r, c, num);
      forall i, j | InRange(i, j)
        ensures possible[i, j] ==
                if Peer(r, c, i, j) then Without(old(possible[i, j]), num) else old(possible[i, j])
      {
        WithoutIdempotent(old(possible[i, j]), num);
        WithoutIdempotent(Without(old(possible[i, j]), num), num);
        BoxBounds(r, c, i, j);
      }
      forall i, j | InRange(i, j) && Peer(r, c, i, j) ensures IsCandidateList(possible[i, j]) {
        WithoutKeepsCandidates(old(possible[i, j]), num);
      }
    }

    /** The row loop of updatePossible (Sudoku.js:117-119). */
    method FilterRow(r: int, num: int)
      requires possible.Length0 == 9 && possible.Length1 == 9 && 0 <= r < 9
      modifies possible
      ensures forall i, j :: InRange(i, j) ==>
        possible[i, j] == if i == r then Without(old(possible[i, j]), num) else old(possible[i, j])
    {
      for col := 0 to 9
        invariant forall j :: 0 <= j < col ==> possible[r, j] == Without(old(possible[r, j]), num)
        invariant forall i, j :: InRange(i, j) && !(i == r && j < col) ==> possible[i, j] == old(possible[i, j])
      {
        possible[r, col] := Without(possible[r, col], num);
      }
    }

    /** The column loop of updatePossible (Sudoku.js:121-123). */
    method FilterColumn(c: int, num: int)
      requires possible.Length0 == 9 && possible.Length1 == 9 && 0 <= c < 9
      modifies possible
      ensures forall i, j :: InRange(i, j) ==>
        possible[i, j] == if j == c then Without(old(possible[i, j]), num) else old(possible[i, j])
    {
      for row := 0 to 9
        invariant forall i :: 0 <= i < row ==> possible[i, c] == Without(old(possible[i, c]), num)
        invariant forall i, j :: InRange(i, j) && !(j == c && i < row) ==> possible[i, j] == old(possible[i, j])
      {
        possible[row, c] := Without(possible[row, c], num);
      }
    }

    /** The box loops of updatePossible (Sudoku.js:125-131). */
    method FilterBox(r: int, c: int, num: int)
      requires possible.Length0 == 9 && possible.Length1 == 9 && InRange(r, c)
      modifies possible
      ensures forall i, j :: InRange(i, j) ==>
        possible[i, j] == if BoxRows(BoxStart(r), BoxStart(c), 3, i, j)
                          then Without(old(possible[i, j]), num) else old(possible[i, j])
    {
      var br, bc := BoxStart(r), BoxStart(c);
      for a := 0 to 3
        invariant forall i, j :: InRange(i, j) && BoxRows(br, bc, a, i, j) ==>
          possible[i, j] == Without(old(possible[i, j]), num)
        invariant forall i, j :: InRange(i, j) && !BoxRows(br, bc, a, i, j) ==>
          possible[i, j] == old(possible[i, j])
      {
        FilterBoxRow(br + a, bc, num);
      }
    }

    /** One row of the box loops of updatePossible (Sudoku.js:127-129): the
        three cells of row i from column bc on. */
    method FilterBoxRow(i: int, bc: int, num: int)
      requires possible.Length0 == 9 && possible.Length1 == 9 && 0 <= i < 9 && 0 <= bc <= 6
      modifies possible
      ensures forall p, q :: InRange(p, q) ==>
        possible[p, q] == if p == i && bc <= q < bc + 3 then Without(old(possible[p, q]), num) else old(possible[p, q])
    {
      for col := bc to bc + 3
        invariant forall q :: bc <= q < col ==> possible[i, q] == Without(old(possible[i, q]), num)
        invariant forall p, q :: InRange(p, q) && !(p == i && bc <= q < col) ==> possible[p, q] == old(possible[p, q])
      {
        possible[i, col] := Without(possible[i, col], num);
      }
    }

    /** Sudoku.js:134-161: counts the cells of the row, the column and the
        box that hold the value of (r, c), the cell itself once per scan;
        the cell is valid when the count is exactly 3. */
    method IsValid(r: int, c: int) returns (valid: bool)
      requires Valid() && InRange(r, c)
      ensures valid <==> NoConflict(Cells(), r, c)
    {
      var num := board[r, c];
      var count := CountInRow(r, num);
      var inColumn := CountInColumn(c, num);
      var inBox := CountInBox(r, c, num);
      count := count + inColumn + inBox;
      ScanCount(Cells(), r, c);
      valid := count == 3;
    }

    /** The row scan of isValid (Sudoku.js:138-142). */
    method CountInRow(r: int, num: int) returns (count: int)
      requires Valid() && 0 <= r < 9
      ensures count == Occurrences(Cells(), RowCells(r), num)
    {
      ghost var g := Cells();
      count := 0;
      assert RowCells(r)[..0] == [];
      for i := 0 to 9
        invariant count == Occurrences(g, RowCells(r)[..i], num)
      {
        OccurrencesStep(g, RowCells(r), num, i);
        if board[r, i] == num {
          count := count + 1;
        }
      }
      assert RowCells(r)[..9] == RowCells(r);
    }

    /** The column scan of isValid (Sudoku.js:144-148). */
    method CountInColumn(c: int, num: int) returns (count: int)
      requires Valid() && 0 <= c < 9
      ensures count == Occurrences(Cells(), ColCells(c), num)
    {
      ghost var g := Cells();
      count := 0;
      assert ColCells(c)[..0] == [];
      for i := 0 to 9
        invariant count == Occurrences(g, ColCells(c)[..i], num)
      {
        OccurrencesStep(g, ColCells(c), num, i);
        if board[i, c] == num {
          count := count + 1;
        }
      }
      assert ColCells(c)[..9] == ColCells(c);
    }

    /** The box scan of isValid (Sudoku.js:150-158). */
    method CountInBox(r: int, c: int, num: int) returns (count: int)
      requires Valid() && InRange(r, c)
      ensures count == Occurrences(Cells(), BoxCells(r, c), num)
    {
      ghost var g := Cells();
      count := 0;
      var row := BoxStart(r);
      var col := BoxStart(c);
      assert 0 <= row <= 6 && 0 <= col <= 6;
      assert BoxCells(r, c)[..0] == [];
      for i := 0 to 3
        invariant count == Occurrences(g, BoxCells(r, c)[..3 * i], num)
      {
        for j := 0 to 3
          invariant count == Occurrences(g, BoxCells(r, c)[..3 * i + j], num)
        {
          BoxScanStep(g, r, c, num, i, j);
          assert board[row + i, col + j] == g[row + i][col + j];
          if board[row + i, col + j] == num {
            count := count + 1;
          }
        }
      }
      assert BoxCells(r, c)[..9] == BoxCells(r, c);
    }

    /** Sudoku.js:102-105, one forced move: the empty cell (r, c) has a
        single candidate; pop it into the cell and filter it out of the
        cell's peers. */
    method CommitSingle(r: int, c: int)
      requires Valid() && Exact() && InRange(r, c) && board[r, c] == 0 && |possible[r, c]| == 1
      modifies board, possible
      ensures Valid() && Exact()
      ensures board[r, c] == old(possible[r, c][0]) && 1 <= board[r, c] <= 9
      ensures PeerFree(old(Cells()), r, c, board[r, c])
      ensures forall i, j :: InRange(i, j) && (i != r || j != c) ==> board[i, j] == old(board[i, j])
      ensures 9 * r + c in old(Empties(Cells())) && Empties(Cells()) == old(Empties(Cells())) - {9 * r + c}
      ensures Progress(old(Cells()), Cells())
    {
      ghost var g := Cells();
      assert ExactList(g, r, c, possible[r, c]);
      var n := |possible[r, c]|;
      var v := possible[r, c][n - 1];
      assert possible[r, c] == [v] && v in possible[r, c];
      possible[r, c] := possible[r, c][..n - 1];
      board[r, c] := v;
      UpdatePossible(r, c);
      ghost var h := Cells();
      assert FilledAt(g, h, r, c, v);
      forall i, j | InRange(i, j) ensures ExactList(h, i, j, possible[i, j]) {
        if i != r || j != c {
          FillKeepsExact(g, h, r, c, v, i, j, old(possible[i, j]));
        }
      }
      ForcedProgress(g, h, r, c, v);
      FillEmpties(g, h, r, c, v);
    }

    /** No empty cell before row-major position pos has a single candidate. */
    ghost predicate NoSingleBefore(pos: int)
      reads board, possible
      requires Valid()
    {
      forall i, j :: InRange(i, j) && 9 * i + j < pos && board[i, j] == 0 ==> |possible[i, j]| != 1
    }

    /** Sudoku.js:95-111: commits forced cells, pass after pass, until a
        whole pass commits nothing. */
    method UpdateOne()
      requires Valid() && Exact()
      modifies board, possible
      ensures Valid() && Exact()
      ensures forall i, j :: InRange(i, j) && board[i, j] == 0 ==> |possible[i, j]| != 1
      ensures Progress(old(Cells()), Cells())
    {
      ghost var g0 := Cells();
      var change := true;
      while change
        invariant Valid() && Exact() && Progress(g0, Cells())
        invariant !change ==> NoSingleBefore(81)
        decreases Empties(Cells()), change
      {
        ghost var g := Cells();
        change := Sweep();
        ProgressTrans(g0, g, Cells());
      }
    }

    /** One pass of updateOne over the board in row-major order (Sudoku.js:98-108):
        every empty cell with a single candidate at the time the pass
        reaches it is committed. */
    method Sweep() returns (change: bool)
      requires Valid() && Exact()
      modifies board, possible
      ensures Valid() && Exact() && Progress(old(Cells()), Cells())
      ensures Empties(Cells()) <= old(Empties(Cells()))
      ensures change <==> Empties(Cells()) < old(Empties(Cells()))
      ensures !change ==> NoSingleBefore(81)
    {
      ghost var g0 := Cells();
      ghost var e0 := Empties(Cells());
      change := false;
      assert Progress(g0, g0);
      for r := 0 to 9
        invariant Valid() && Exact() && Progress(g0, Cells())
        invariant Empties(Cells()) <= e0 && (change <==> Empties(Cells()) < e0)
        invariant !change ==> NoSingleBefore(9 * r)
      {
        for c := 0 to 9
          invariant Valid() && Exact() && Progress(g0, Cells())
          invariant Empties(Cells()) <= e0 && (change <==> Empties(Cells()) < e0)
          invariant !change ==> NoSingleBefore(9 * r + c)
        {
          if board[r, c] == 0 && |possible[r, c]| == 1 {
            ghost var g := Cells();
            CommitSingle(r, c);
            ProgressTrans(g0, g, Cells());
            change := true;
          } else if !change {
            forall i, j | InRange(i, j) && 9 * i + j < 9 * r + c + 1 && board[i, j] == 0 ensures |possible[i, j]| != 1 {
              assert 9 * i + j < 9 * r + c || (i == r && j == c);
            }
          }
        }
      }
    }

    /** Sudoku.js:51-76: backtracking over the cells from position 9r + c on,
        in row-major order. */
    method Recurse(r: int, c: int) returns (ok: bool)
      requires Valid() && 0 <= r < 9 && 0 <= c <= 9
      modifies board
      decreases 81 - (9 * r + c), 1
      ensures !ok ==> forall i, j :: InRange(i, j) ==> board[i, j] == old(board[i, j])
      ensures !ok ==> forall s :: IsSolution(s) && Extends(s, old(Cells())) ==> !Covered(s, old(Cells()), 9 * r + c)
      ensures ok ==> forall i, j :: InRange(i, j) && 9 * i + j < 9 * r + c ==> board[i, j] == old(board[i, j])
      ensures ok ==> SolvedFrom(old(Cells()), 9 * r + c)
    {
      var row, col := r, c;
      if col == 9 {
        row, col := row + 1, 0;
      }
      if row == 9 {
        return true;
      }
      if board[row, col] == 0 {
        ok := TryCandidates(row, col);
        return ok;
      }
      ghost var g0 := Cells();
      var valid := IsValid(row, col);
      if !valid {
        forall s | IsSolution(s) ensures !Extends(s, g0) {
          ExtendedNoConflict(s, g0, row, col);
        }
        return false;
      }
      ok := Recurse(row, col + 1);
      if ok {
        SearchStep(g0, g0, row, col);
      }
    }

    /** The candidate loop of recurse at an empty cell (Sudoku.js:66-75):
        tries the candidates in order and keeps the first one that is valid
        and for which the search of the following cells succeeds; when none
        does, the cell is emptied again and the search fails. */
    method TryCandidates(row: int, col: int) returns (ok: bool)
      requires Valid() && InRange(row, col) && board[row, col] == 0
      modifies board
      decreases 81 - (9 * row + col), 0
      ensures !ok ==> forall i, j :: InRange(i, j) ==> board[i, j] == old(board[i, j])
      ensures !ok ==> forall s :: IsSolution(s) && Extends(s, old(Cells())) ==> !Covered(s, old(Cells()), 9 * row + col)
      ensures ok ==> forall i, j :: InRange(i, j) && 9 * i + j < 9 * row + col ==> board[i, j] == old(board[i, j])
      ensures ok ==> SolvedFrom(old(Cells()), 9 * row + col)
      ensures ok ==> exists k :: 0 <= k < |possible[row, col]| && board[row, col] == possible[row, col][k]
                               && RuledOut(old(Cells()), row, col, possible[row, col][..k])
    {
      ghost var g0 := Cells();
      var candidates := possible[row, col];
      assert candidates[..0] == [];
      for k := 0 to |candidates|
        invariant forall i, j :: InRange(i, j) && (i != row || j != col) ==> board[i, j] == g0[i][j]
        invariant RuledOut(g0, row, col, candidates[..k])
      {
        board[row, col] := candidates[k];
        var valid := IsValid(row, col);
        ghost var g := Cells();
        ok := false;
        if valid {
          ok := Recurse(row, col + 1);
        }
        if ok {
          SearchStep(g0, g, row, col);
          return true;
        }
        RuleOut(g0, g, row, col, candidates, k);
      }
      board[row, col] := 0;
      assert candidates[..|candidates|] == candidates;
      forall s | IsSolution(s) && Extends(s, g0) ensures !Covered(s, g0, 9 * row + col) {
      }
      return false;
    }

    /** No solution over g0 that keeps to the candidates after position
        (row, col) puts any of cands at (row, col). */
    ghost predicate RuledOut(g0: Grid, row: int, col: int, cands: seq<int>)
      reads possible
      requires Valid() && IsGrid(g0) && InRange(row, col)
    {
      forall s :: IsSolution(s) && Extends(s, g0) && Covered(s, g0, 9 * row + col + 1) ==> s[row][col] !in cands
    }

    /** A candidate fails at (row, col), either because it conflicts there or
        because the search after it fails, so it is ruled out too. */
    lemma RuleOut(g0: Grid, g: Grid, row: int, col: int, cands: seq<int>, k: int)
      requires Valid() && IsGrid(g0) && InRange(row, col) && 0 <= k < |cands|
      requires FilledAt(g0, g, row, col, cands[k])
      requires RuledOut(g0, row, col, cands[..k])
      requires !NoConflict(g, row, col) ||
               forall s :: IsSolution(s) && Extends(s, g) ==> !Covered(s, g, 9 * row + col + 1)
      ensures RuledOut(g0, row, col, cands[..k + 1])
    {
      assert cands[..k + 1] == cands[..k] + [cands[k]];
      forall s | IsSolution(s) && Extends(s, g0) && Covered(s, g0, 9 * row + col + 1)
        ensures s[row][col] != cands[k]
      {
        ExtendedNoConflict(s, g, row, col);
        assert s[row][col] == cands[k] ==> Extends(s, g) && Covered(s, g, 9 * row + col + 1);
      }
    }

    /** The success case of one step of the search: the cell at (row, col)
        holds a conflict-free value (g's, or one of g0's candidates where g0
        had none) and the search from the next cell on succeeded over g. */
    lemma SearchStep(g0: Grid, g: Grid, row: int, col: int)
      requires Valid() && IsGrid(g0) && IsGrid(g) && InRange(row, col)
      requires NoConflict(g, row, col) && g[row][col] != 0
      requires g0[row][col] != 0 ==> g[row][col] == g0[row][col]
      requires g0[row][col] == 0 ==> g[row][col] in possible[row, col]
      requires forall i, j :: InRange(i, j) && (i != row || j != col) ==> g[i][j] == g0[i][j]
      requires forall i, j :: InRange(i, j) && 9 * i + j <= 9 * row + col ==> board[i, j] == g[i][j]
      requires SolvedFrom(g, 9 * row + col + 1)
      ensures SolvedFrom(g0, 9 * row + col)
    {
      NoConflictKept(g, Cells(), row, col, 9 * row + col + 1);
    }

    /** The success of the search from the first empty cell at position k
        over the propagated board g1 solves the board. */
    lemma SearchDone(g1: Grid, k: int)
      requires Valid() && IsGrid(g1) && WellFormed(g1) && Consistent(g1)
      requires forall i, j :: InRange(i, j) && 9 * i + j < k ==> g1[i][j] != 0 && board[i, j] == g1[i][j]
      requires SolvedFrom(g1, k)
      ensures IsSolution(Cells()) && Extends(Cells(), g1)
    {
      ghost var h := Cells();
      forall i, j | InRange(i, j) && 9 * i + j < k ensures NoConflict(h, i, j) {
        NoConflictKept(g1, h, i, j, k);
      }
    }

    /** Sudoku.js:11-28: the check of every cell in row-major order before
        solving; the first cell that holds a character other than a digit,
        or a digit some peer also holds, is reported. */
    method CheckGivens() returns (error: Option<Outcome>)
      requires Valid()
      ensures error.None? <==> WellFormed(Cells()) && Consistent(Cells())
      ensures error.Some? ==>
        && (error.value.MalformedCell? || error.value.ConflictingGivens?)
        && InRange(error.value.row, error.value.col)
        && forall i, j :: InRange(i, j) && 9 * i + j < 9 * error.value.row + error.value.col ==> Passes(Cells(), i, j)
      ensures error.Some? && error.value.MalformedCell? ==> !(0 <= board[error.value.row, error.value.col] <= 9)
      ensures error.Some? && error.value.ConflictingGivens? ==>
        1 <= board[error.value.row, error.value.col] <= 9 && !NoConflict(Cells(), error.value.row, error.value.col)
    {
      ghost var g := Cells();
      for row := 0 to 9
        invariant forall i, j :: InRange(i, j) && i < row ==> Passes(g, i, j)
      {
        for col := 0 to 9
          invariant forall i, j :: InRange(i, j) && (i < row || (i == row && j < col)) ==> Passes(g, i, j)
        {
          if !(0 <= board[row, col] <= 9) {
            return Some(MalformedCell(row, col));
          }
          if board[row, col] != 0 {
            var valid := IsValid(row, col);
            if !valid {
              return Some(ConflictingGivens(row, col));
            }
          }
        }
      }
      PassesEverywhere(g);
      return None;
    }

    /** Sudoku.js:31-42: the row-major position of the first empty cell, or
        81 when there is none. */
    method FirstEmpty() returns (k: int)
      requires Valid()
      ensures 0 <= k <= 81
      ensures forall i, j :: InRange(i, j) && 9 * i + j < k ==> board[i, j] != 0
      ensures k < 81 ==> board[k / 9, k % 9] == 0
    {
      k := 0;
      while k < 81 && board[k / 9, k % 9] != 0
        invariant 0 <= k <= 81
        invariant forall p :: 0 <= p < k ==> board[p / 9, p % 9] != 0
      {
        k := k + 1;
      }
      forall i, j | InRange(i, j) && 9 * i + j < k ensures board[i, j] != 0 {
        RowMajor(i, j);
        assert board[(9 * i + j) / 9, (9 * i + j) % 9] != 0;
      }
    }

    /** Sudoku.js:9-49: check the givens, propagate forced cells, then search
        from the first empty cell. */
    method Solve() returns (outcome: Outcome)
      requires Valid() && Exact()
      modifies board, possible
      ensures Valid()
      ensures outcome.MalformedCell? || outcome.ConflictingGivens? ==>
        && InRange(outcome.row, outcome.col)
        && (forall i, j :: InRange(i, j) ==> board[i, j] == old(board[i, j]) && possible[i, j] == old(possible[i, j]))
        && forall i, j :: InRange(i, j) && 9 * i + j < 9 * outcome.row + outcome.col ==> Passes(Cells(), i, j)
      ensures outcome.MalformedCell? ==> !(0 <= board[outcome.row, outcome.col] <= 9)
      ensures outcome.ConflictingGivens? ==>
        1 <= board[outcome.row, outcome.col] <= 9 && !NoConflict(Cells(), outcome.row, outcome.col)
      ensures !outcome.MalformedCell? && !outcome.ConflictingGivens? <==>
        WellFormed(old(Cells())) && Consistent(old(Cells()))
      ensures outcome.SolvedByPropagation? || outcome.SolvedBySearch? ==>
        IsSolution(Cells()) && Extends(Cells(), old(Cells()))
      ensures outcome.Unsolvable? ==>
        && Extends(Cells(), old(Cells())) && Consistent(Cells())
        && forall s :: IsSolution(s) ==> !Extends(s, old(Cells()))
      ensures IsSolution(old(Cells())) ==>
        outcome.SolvedByPropagation? && forall i, j :: InRange(i, j) ==> board[i, j] == old(board[i, j])
    {
      ghost var g0 := Cells();
      var error := CheckGivens();
      if error.Some? {
        return error.value;
      }
      UpdateOne();
      ghost var g1 := Cells();
      var k := FirstEmpty();
      if k == 81 {
        return SolvedByPropagation;
      }
      assert g1[k / 9][k % 9] == 0;
      forall s | IsSolution(s) && Extends(s, g1) ensures Covered(s, g1, k) {
        forall i, j | InRange(i, j) && 9 * i + j >= k && g1[i][j] == 0 ensures s[i][j] in possible[i, j] {
          SolutionInExactList(s, g1, i, j, possible[i, j]);
        }
      }
      assert 9 * (k / 9) + k % 9 == k;
      var ok := Recurse(k / 9, k % 9);
      if ok {
        SearchDone(g1, k);
        return SolvedBySearch;
      }
      return Unsolvable;
    }
  }
}
