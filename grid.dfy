/** The 9x9 Sudoku board of sudoku.py: nine rows of nine integers, 0 marking an empty cell,
    together with the predicates that say when a board is consistent, complete and solved. */
module Grid {

  /** A board as a value: its rows from top to bottom, each row its cells from left to right. */
  type Board = seq<seq<int>>

  predicate InGrid(row: int, col: int) {
    0 <= row < 9 && 0 <= col < 9
  }

  /** The board has the fixed 9x9 shape every function of sudoku.py indexes into. */
  predicate Shaped(b: Board) {
    |b| == 9 && forall i :: 0 <= i < 9 ==> |b[i]| == 9
  }

  /** Two boards of that shape are equal when they agree cell by cell. */
  lemma BoardExt(b1: Board, b2: Board)
    requires Shaped(b1) && Shaped(b2)
    requires forall i, j :: InGrid(i, j) ==> b1[i][j] == b2[i][j]
    ensures b1 == b2
  {
    forall i | 0 <= i < 9
      ensures b1[i] == b2[i]
    {
      assert forall j :: 0 <= j < 9 ==> b1[i][j] == b2[i][j];
    }
  }

  /** The board with `num` written into cell (row, col), that is `board[row][col] = num`. */
  function Place(b: Board, row: int, col: int, num: int): (b': Board)
    requires Shaped(b) && InGrid(row, col)
    ensures Shaped(b')
    ensures b'[row][col] == num
    ensures forall i, j :: InGrid(i, j) && (i, j) != (row, col) ==> b'[i][j] == b[i][j]
  {
    b[row := b[row][col := num]]
  }

  /** No cell of the board is empty. */
  ghost predicate Full(b: Board)
    requires Shaped(b)
  {
    forall i, j :: InGrid(i, j) ==> b[i][j] != 0
  }

  /** The empty cells of the board; the search consumes one of them per level of recursion. */
  ghost function ZeroCells(b: Board): set<(int, int)>
    requires Shaped(b)
  {
    set i, j | 0 <= i < 9 && 0 <= j < 9 && b[i][j] == 0 :: (i, j)
  }

  /** Filling an empty cell with a non-zero value leaves strictly fewer empty cells. */
  lemma PlaceShrinks(b: Board, row: int, col: int, num: int)
    requires Shaped(b) && InGrid(row, col) && b[row][col] == 0 && num != 0
    ensures ZeroCells(Place(b, row, col, num)) < ZeroCells(b)
  {
    var b' := Place(b, row, col, num);
    assert (row, col) in ZeroCells(b);
    assert (row, col) !in ZeroCells(b');
    forall p | p in ZeroCells(b')
      ensures p in ZeroCells(b)
    {
      var (i, j) := p;
      assert b'[i][j] == 0;
    }
  }

  /** `s` agrees with `b` on every cell that is filled in `b`. */
  ghost predicate Extends(s: Board, b: Board) {
    Shaped(s) && Shaped(b) &&
    forall i, j :: InGrid(i, j) && b[i][j] != 0 ==> s[i][j] == b[i][j]
  }

  /** Cell (i, j) lies in the row, the column or the 3x3 block of cell (row, col). */
  predicate SeesCell(row: int, col: int, i: int, j: int) {
    i == row || j == col || (i / 3 == row / 3 && j / 3 == col / 3)
  }

  /** Every cell holds 0 or a digit, and no filled cell repeats its value in its row, its column
      or its 3x3 block: the uniqueness rule that every placement of the search preserves. */
  ghost predicate Consistent(b: Board) {
    Shaped(b) &&
    (forall i, j :: InGrid(i, j) ==> 0 <= b[i][j] <= 9) &&
    forall r1, c1, r2, c2 ::
      InGrid(r1, c1) && InGrid(r2, c2) && (r1, c1) != (r2, c2) && SeesCell(r1, c1, r2, c2) && b[r1][c1] != 0
      ==> b[r1][c1] != b[r2][c2]
  }

  /** A complete, valid Sudoku. */
  ghost predicate Solved(b: Board) {
    Consistent(b) && Full(b)
  }

  /** A copy of the mutable board's current contents. */
  function Snapshot(a: array2<int>): (b: Board)
    requires a.Length0 == 9 && a.Length1 == 9
    reads a
    ensures Shaped(b)
    ensures forall i, j :: InGrid(i, j) ==> b[i][j] == a[i, j]
  {
    seq(9, i requires 0 <= i < 9 reads a => seq(9, j requires 0 <= j < 9 reads a => a[i, j]))
  }

  /** The copy equals any board that agrees with the array cell by cell. */
  lemma SnapshotIs(a: array2<int>, b: Board)
    requires a.Length0 == 9 && a.Length1 == 9 && Shaped(b)
    requires forall i, j :: InGrid(i, j) ==> a[i, j] == b[i][j]
    ensures Snapshot(a) == b
  {
    BoardExt(Snapshot(a), b);
  }
}
