/** `get_solutions` of sudoku.py: the depth-first enumeration of the completions of a board.
    The generator is modelled as the sequence of boards it yields, in order; each yield of the
    live board is taken as a copy of its contents at that moment. */
module Search {
  import opened Grid
  import opened Rules
  import opened CellChoice

  /** The boards `get_solutions(board)` yields, in order: the board itself when no cell is
      empty, and otherwise, for each candidate of the chosen cell in the listed order, the
      boards yielded with that candidate written into the cell. */
  function Solutions(b: Board): (sols: seq<Board>)
    requires Shaped(b)
    ensures forall s :: s in sols ==> Extends(s, b) && Full(s)
    decreases ZeroCells(b), 1
  {
    NextCellFacts(b);
    match NextCell(b)
    case None => [b]
    case Some(Choice(row, col, cands)) => SolutionsFor(b, row, col, cands)
  }

  /** The boards yielded by the candidate loop after it has tried the candidates `cands`. */
  function SolutionsFor(b: Board, row: int, col: int, cands: seq<int>): (sols: seq<Board>)
    requires Shaped(b) && InGrid(row, col) && b[row][col] == 0
    requires forall k :: 0 <= k < |cands| ==> 1 <= cands[k] <= 9
    ensures forall s :: s in sols ==> Extends(s, b) && Full(s) && s[row][col] in cands
    decreases ZeroCells(b), 0, |cands|
  {
    if cands == [] then []
    else
      var num := cands[|cands| - 1];
      var earlier := cands[..|cands| - 1];
      PlaceShrinks(b, row, col, num);
      SolutionsFor(b, row, col, earlier) + Solutions(Place(b, row, col, num))
  }

  lemma SolutionsOfChoice(b: Board, row: int, col: int, cands: seq<int>)
    requires Shaped(b) && NextCell(b) == Some(Choice(row, col, cands))
    ensures InGrid(row, col) && b[row][col] == 0
    ensures forall k :: 0 <= k < |cands| ==> 1 <= cands[k] <= 9
    ensures Solutions(b) == SolutionsFor(b, row, col, cands)
  {
    NextCellFacts(b);
  }

  lemma SolutionsForNext(b: Board, row: int, col: int, cands: seq<int>, i: int)
    requires Shaped(b) && InGrid(row, col) && b[row][col] == 0
    requires forall k :: 0 <= k < |cands| ==> 1 <= cands[k] <= 9
    requires 0 <= i < |cands|
    ensures SolutionsFor(b, row, col, cands[..i + 1]) ==
            SolutionsFor(b, row, col, cands[..i]) + Solutions(Place(b, row, col, cands[i]))
  {
    assert cands[..i + 1][..i] == cands[..i];
  }

  /** `get_solutions(board)`: writes each candidate of the chosen cell into the board in place,
      recurses, and resets the cell to 0. The boards it yields are returned in order; when it
      returns, the board is exactly as it was on entry. */
  method GetSolutions(board: array2<int>) returns (sols: seq<Board>)
    requires board.Length0 == 9 && board.Length1 == 9
    modifies board
    ensures Snapshot(board) == old(Snapshot(board))
    ensures sols == Solutions(old(Snapshot(board)))
    ensures forall s :: s in sols ==> Extends(s, old(Snapshot(board))) && Full(s)
    decreases ZeroCells(Snapshot(board))
  {
    ghost var start := Snapshot(board);
    var cell := GetNextCell(Snapshot(board));
    if cell.None? {
      sols := [Snapshot(board)];
      return;
    }
    var Choice(row, col, candidates) := cell.value;
    SolutionsOfChoice(start, row, col, candidates);
    sols := [];
    for i := 0 to |candidates|
      invariant forall p, q :: InGrid(p, q) ==> board[p, q] == start[p][q]
      invariant sols == SolutionsFor(start, row, col, candidates[..i])
    {
      var num := candidates[i];
      board[row, col] := num;
      SnapshotIs(board, Place(start, row, col, num));
      PlaceShrinks(start, row, col, num);
      var more := GetSolutions(board);
      SolutionsForNext(start, row, col, candidates, i);
      sols := sols + more;
      board[row, col] := 0;
    }
    assert candidates[..|candidates|] == candidates;
    SnapshotIs(board, start);
  }

  /** A full board is yielded as it is, once, whether or not its filled cells conflict: the
      search never checks the starting board. */
  lemma FullBoardYieldsItself(b: Board)
    requires Shaped(b) && Full(b)
    ensures Solutions(b) == [b]
  {
    NextCellFacts(b);
  }

  /** A chosen cell without candidates is a dead end: nothing is yielded below it. */
  lemma DeadEndYieldsNothing(b: Board)
    requires Shaped(b) && NextCell(b).Some? && NextCell(b).value.cands == []
    ensures Solutions(b) == []
  {
  }

  lemma DistinctConcat<T>(xs: seq<T>, ys: seq<T>)
    requires Distinct(xs) && Distinct(ys)
    requires forall x :: x in xs ==> x !in ys
    ensures Distinct(xs + ys)
  {
    var zs := xs + ys;
    forall i, j | 0 <= i < j < |zs|
      ensures zs[i] != zs[j]
    {
      if i < |xs| && j >= |xs| {
        assert zs[i] in xs && zs[j] == ys[j - |xs|];
      }
    }
  }

  /** No board is yielded twice: the branches of one cell differ in the value they write there. */
  lemma {:induction false} SolutionsDistinct(b: Board)
    requires Shaped(b)
    ensures Distinct(Solutions(b))
    decreases ZeroCells(b), 1
  {
    NextCellFacts(b);
    match NextCell(b)
    case None =>
    case Some(Choice(row, col, cands)) =>
      SolutionsForDistinct(b, row, col, cands);
  }

  lemma {:induction false} SolutionsForDistinct(b: Board, row: int, col: int, cands: seq<int>)
    requires Shaped(b) && InGrid(row, col) && b[row][col] == 0
    requires forall k :: 0 <= k < |cands| ==> 1 <= cands[k] <= 9
    requires Ascending(cands)
    ensures Distinct(SolutionsFor(b, row, col, cands))
    decreases ZeroCells(b), 0, |cands|
  {
    if cands != [] {
      var num, earlier := cands[|cands| - 1], cands[..|cands| - 1];
      PlaceShrinks(b, row, col, num);
      SolutionsForDistinct(b, row, col, earlier);
      SolutionsDistinct(Place(b, row, col, num));
      var xs, ys := SolutionsFor(b, row, col, earlier), Solutions(Place(b, row, col, num));
      forall x | x in xs
        ensures x !in ys
      {
        assert x[row][col] in earlier;
        assert num !in earlier;
        assert forall y :: y in ys ==> y[row][col] == num;
      }
      DistinctConcat(xs, ys);
    }
  }

  /** Soundness: from a consistent board, every yielded board is a solved Sudoku. */
  lemma {:induction false} SolutionsSound(b: Board)
    requires Consistent(b)
    ensures forall s :: s in Solutions(b) ==> Solved(s)
    decreases ZeroCells(b), 1
  {
    NextCellFacts(b);
    match NextCell(b)
    case None =>
    case Some(Choice(row, col, cands)) =>
      SolutionsForSound(b, row, col, cands);
  }

  lemma {:induction false} SolutionsForSound(b: Board, row: int, col: int, cands: seq<int>)
    requires Consistent(b) && InGrid(row, col) && b[row][col] == 0
    requires forall k :: 0 <= k < |cands| ==> 1 <= cands[k] <= 9 && IsValid(row, col, cands[k], b)
    ensures forall s :: s in SolutionsFor(b, row, col, cands) ==> Solved(s)
    decreases ZeroCells(b), 0, |cands|
  {
    if cands != [] {
      var num, earlier := cands[|cands| - 1], cands[..|cands| - 1];
      PlaceShrinks(b, row, col, num);
      PlaceKeepsConsistent(b, row, col, num);
      SolutionsForSound(b, row, col, earlier);
      SolutionsSound(Place(b, row, col, num));
    }
  }

  /** Completeness: every solved board that agrees with the starting board on its filled cells
      is yielded. */
  lemma {:induction false} SolutionsComplete(b: Board, t: Board)
    requires Shaped(b) && Solved(t) && Extends(t, b)
    ensures t in Solutions(b)
    decreases ZeroCells(b), 1
  {
    NextCellFacts(b);
    match NextCell(b)
    case None =>
      BoardExt(t, b);
    case Some(Choice(row, col, cands)) =>
      var num := t[row][col];
      assert IsValid(row, col, num, b) by {
        IsValidIffUnseen(row, col, num, b);
        forall i, j | InGrid(i, j) && SeesCell(row, col, i, j)
          ensures b[i][j] != num
        {
          if b[i][j] != 0 {
            assert (i, j) != (row, col);
            assert t[i][j] == b[i][j];
          }
        }
      }
      SolutionsForComplete(b, row, col, cands, t);
  }

  lemma {:induction false} SolutionsForComplete(b: Board, row: int, col: int, cands: seq<int>, t: Board)
    requires Shaped(b) && InGrid(row, col) && b[row][col] == 0
    requires forall k :: 0 <= k < |cands| ==> 1 <= cands[k] <= 9
    requires Solved(t) && Extends(t, b) && t[row][col] in cands
    ensures t in SolutionsFor(b, row, col, cands)
    decreases ZeroCells(b), 0, |cands|
  {
    var num, earlier := cands[|cands| - 1], cands[..|cands| - 1];
    PlaceShrinks(b, row, col, num);
    if t[row][col] == num {
      SolutionsComplete(Place(b, row, col, num), t);
    } else {
      assert t[row][col] in earlier;
      SolutionsForComplete(b, row, col, earlier, t);
    }
  }

  lemma {:induction false} DistinctCount<T>(s: seq<T>, x: T)
    requires Distinct(s) && x in s
    ensures multiset(s)[x] == 1
  {
    var last := s[|s| - 1];
    var init := s[..|s| - 1];
    assert s == init + [last];
    assert Distinct(init);
    if x == last {
      assert x !in init;
    } else {
      DistinctCount(init, x);
    }
  }

  /** From a consistent board, every yielded board holds each digit 1..9 exactly once in each
      row, column and 3x3 block. */
  lemma SolutionsHoldEveryDigit(b: Board, s: Board, k: int)
    requires Consistent(b) && s in Solutions(b) && 0 <= k < 9
    ensures Full(s)
    ensures Distinct(s[k]) && Distinct(Column(s, k)) && Distinct(Block(s, 3 * (k / 3), 3 * (k % 3)))
    ensures forall v :: 1 <= v <= 9 ==> v in s[k] && v in Column(s, k) && v in Block(s, 3 * (k / 3), 3 * (k % 3))
  {
    SolutionsSound(b);
    SolvedUnitsHoldEveryDigit(s, k);
  }

  /** From a consistent board the yielded boards are exactly its solved completions, and each
      of them is yielded exactly once. */
  lemma SolutionsExactlyCompletions(b: Board)
    requires Consistent(b)
    ensures forall t :: t in Solutions(b) <==> Solved(t) && Extends(t, b)
    ensures forall t :: Solved(t) && Extends(t, b) ==> multiset(Solutions(b))[t] == 1
  {
    SolutionsSound(b);
    SolutionsDistinct(b);
    forall t | Solved(t) && Extends(t, b)
      ensures t in Solutions(b) && multiset(Solutions(b))[t] == 1
    {
      SolutionsComplete(b, t);
      DistinctCount(Solutions(b), t);
    }
  }
}
