/** `get_next_cell` of sudoku.py: the minimum-remaining-values choice of the next cell to branch on. */
module CellChoice {
  import opened Grid
  import opened Rules

  datatype Option<T> = None | Some(value: T)

  /** The value `(row, col, candidates)` that `get_next_cell` returns for the chosen cell. */
  datatype Choice = Choice(row: int, col: int, cands: seq<int>)

  /** What `get_next_cell` promises: `None` on a full board; otherwise an empty cell, its
      candidate list, a candidate count no larger than that of any other empty cell, and strictly
      smaller than that of every empty cell before it in row-major order (ties go to the first). */
  ghost predicate MinRemainingChoice(b: Board, cell: Option<Choice>)
    requires Shaped(b)
  {
    match cell
    case None => Full(b)
    case Some(Choice(r, c, cs)) =>
      InGrid(r, c) && b[r][c] == 0 && cs == Candidates(b, r, c) &&
      (forall i, j :: InGrid(i, j) && b[i][j] == 0 ==> |cs| <= |Candidates(b, i, j)|) &&
      (forall i, j :: InGrid(i, j) && b[i][j] == 0 && 9 * i + j < 9 * r + c ==> |cs| < |Candidates(b, i, j)|)
  }

  /** At most one answer meets that promise, so it fixes the result of `get_next_cell`. */
  lemma MinRemainingChoiceUnique(b: Board, x: Option<Choice>, y: Option<Choice>)
    requires Shaped(b) && MinRemainingChoice(b, x) && MinRemainingChoice(b, y)
    ensures x == y
  {
    if x.Some? && y.Some? {
      var Choice(r1, c1, cs1) := x.value;
      var Choice(r2, c2, cs2) := y.value;
      assert |cs1| <= |Candidates(b, r2, c2)| && |cs2| <= |Candidates(b, r1, c1)|;
      assert 9 * r1 + c1 == 9 * r2 + c2;
      CellIndex(9 * r1 + c1);
    }
  }

  /** One pass of the inner loop's body over cell (row, col): the cell replaces the best so far
      only when it is empty and there is no best yet or it has strictly fewer candidates. */
  function Step(b: Board, best: Option<Choice>, row: int, col: int): Option<Choice>
    requires Shaped(b) && InGrid(row, col)
  {
    if b[row][col] != 0 then best
    else
      var candidates := Candidates(b, row, col);
      if best.None? || |candidates| < |best.value.cands| then Some(Choice(row, col, candidates))
      else best
  }

  /** The best cell after the nested loops have looked at the first `k` cells in row-major order. */
  function Scan(b: Board, k: int): Option<Choice>
    requires Shaped(b) && 0 <= k <= 81
  {
    if k == 0 then None
    else Step(b, Scan(b, k - 1), (k - 1) / 9, (k - 1) % 9)
  }

  /** The promise of `get_next_cell`, restricted to the first `k` cells. */
  ghost predicate ScannedBest(b: Board, k: int, best: Option<Choice>)
    requires Shaped(b)
  {
    match best
    case None => forall i, j :: InGrid(i, j) && 9 * i + j < k ==> b[i][j] != 0
    case Some(Choice(r, c, cs)) =>
      InGrid(r, c) && 9 * r + c < k && b[r][c] == 0 && cs == Candidates(b, r, c) &&
      (forall i, j :: InGrid(i, j) && 9 * i + j < k && b[i][j] == 0 ==> |cs| <= |Candidates(b, i, j)|) &&
      (forall i, j :: InGrid(i, j) && 9 * i + j < 9 * r + c && b[i][j] == 0 ==> |cs| < |Candidates(b, i, j)|)
  }

  /** The `k`-th cell in row-major order is (k / 9, k % 9), and no other. */
  lemma CellIndex(k: int)
    requires 0 <= k < 81
    ensures InGrid(k / 9, k % 9) && 9 * (k / 9) + k % 9 == k
    ensures forall i, j :: InGrid(i, j) && 9 * i + j == k ==> i == k / 9 && j == k % 9
  {
  }

  lemma ScanStep(b: Board, k: int)
    requires Shaped(b) && 0 <= k < 81
    ensures Scan(b, k + 1) == Step(b, Scan(b, k), k / 9, k % 9)
  {
  }

  lemma RowMajorIndex(row: int, col: int)
    requires InGrid(row, col)
    ensures (9 * row + col) / 9 == row && (9 * row + col) % 9 == col
  {
  }

  /** Looking at one more cell keeps the promise, now over one more cell. */
  lemma StepKeepsBest(b: Board, k: int, best: Option<Choice>)
    requires Shaped(b) && 0 <= k < 81 && ScannedBest(b, k, best)
    ensures ScannedBest(b, k + 1, Step(b, best, k / 9, k % 9))
  {
    CellIndex(k);
  }

  lemma {:induction false} ScanIsBest(b: Board, k: int)
    requires Shaped(b) && 0 <= k <= 81
    ensures ScannedBest(b, k, Scan(b, k))
  {
    if k > 0 {
      var j := k - 1;
      var prev := Scan(b, j);
      ScanIsBest(b, j);
      StepKeepsBest(b, j, prev);
      assert Scan(b, k) == Step(b, prev, j / 9, j % 9);
    }
  }

  /** `get_next_cell(board)` as a value: the best cell once all 81 cells have been looked at. */
  function NextCell(b: Board): Option<Choice>
    requires Shaped(b)
  {
    Scan(b, 81)
  }

  /** The cell `get_next_cell` returns meets its promise. */
  lemma NextCellIsMinRemaining(b: Board)
    requires Shaped(b)
    ensures MinRemainingChoice(b, NextCell(b))
  {
    ScanIsBest(b, 81);
  }

  /** The facts about the returned cell that the search relies on. */
  lemma NextCellFacts(b: Board)
    requires Shaped(b)
    ensures NextCell(b).None? <==> Full(b)
    ensures NextCell(b).Some? ==>
      var Choice(row, col, cands) := NextCell(b).value;
      InGrid(row, col) && b[row][col] == 0 && Ascending(cands) &&
      (forall num :: num in cands <==> 1 <= num <= 9 && IsValid(row, col, num, b)) &&
      (forall k :: 0 <= k < |cands| ==> 1 <= cands[k] <= 9 && IsValid(row, col, cands[k], b))
  {
    NextCellIsMinRemaining(b);
    if NextCell(b).Some? {
      CandidatesSpec(b, NextCell(b).value.row, NextCell(b).value.col);
    }
  }

  /** `get_next_cell`: the nested loops over rows and columns keep the best empty cell seen so
      far; `best` stands for the pair `best_coord`, `best_candidates`, both `None` or both set. */
  method GetNextCell(b: Board) returns (cell: Option<Choice>)
    requires Shaped(b)
    ensures cell == NextCell(b)
  {
    var best: Option<Choice> := None;
    for row := 0 to 9
      invariant best == Scan(b, 9 * row)
    {
      for col := 0 to 9
        invariant best == Scan(b, 9 * row + col)
      {
        assert Scan(b, 9 * row + (col + 1)) == Step(b, best, row, col) by {
          ScanStep(b, 9 * row + col);
          RowMajorIndex(row, col);
        }
        if b[row][col] == 0 {
          var candidates := Candidates(b, row, col);
          if best.None? || |candidates| < |best.value.cands| {
            best := Some(Choice(row, col, candidates));
          }
        }
      }
    }
    cell := best;
  }
}
