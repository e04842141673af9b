/** The constraint predicate of sudoku.py (`is_valid`), the candidate list that `get_next_cell`
    builds from it, and what the uniqueness rule implies about a solved board. */
module Rules {
  import opened Grid

  /** The column `[board[i][col] for i in range(0, 9)]`. */
  function Column(b: Board, col: int): seq<int>
    requires Shaped(b) && 0 <= col < 9
  {
    seq(9, i requires 0 <= i < 9 => b[i][col])
  }

  /** The 3x3 block with top-left cell (rowStart, colStart), read row by row as the nested
      comprehension over `i` and then `j` reads it. */
  function Block(b: Board, rowStart: int, colStart: int): seq<int>
    requires Shaped(b) && 0 <= rowStart <= 6 && 0 <= colStart <= 6
  {
    seq(9, k requires 0 <= k < 9 => b[rowStart + k / 3][colStart + k % 3])
  }

  lemma ColumnHas(b: Board, col: int, num: int)
    requires Shaped(b) && 0 <= col < 9
    ensures num in Column(b, col) <==> exists i :: 0 <= i < 9 && b[i][col] == num
  {
    if exists i :: 0 <= i < 9 && b[i][col] == num {
      var i :| 0 <= i < 9 && b[i][col] == num;
      assert Column(b, col)[i] == num;
    }
  }

  /** Position `k` of the block read row by row is cell (rowStart + k / 3, colStart + k % 3). */
  lemma BlockPosition(rowStart: int, colStart: int, i: int, j: int)
    requires rowStart <= i < rowStart + 3 && colStart <= j < colStart + 3
    ensures var k := 3 * (i - rowStart) + (j - colStart);
      0 <= k < 9 && rowStart + k / 3 == i && colStart + k % 3 == j
  {
  }

  lemma BlockHas(b: Board, row: int, col: int, num: int)
    requires Shaped(b) && InGrid(row, col)
    ensures num in Block(b, 3 * (row / 3), 3 * (col / 3)) <==>
            exists i, j :: InGrid(i, j) && i / 3 == row / 3 && j / 3 == col / 3 && b[i][j] == num
  {
    var rs, cs := 3 * (row / 3), 3 * (col / 3);
    var blk := Block(b, rs, cs);
    if num in blk {
      var k :| 0 <= k < 9 && blk[k] == num;
      var i, j := rs + k / 3, cs + k % 3;
      assert InGrid(i, j) && i / 3 == row / 3 && j / 3 == col / 3 && b[i][j] == num;
    }
    if exists i, j :: InGrid(i, j) && i / 3 == row / 3 && j / 3 == col / 3 && b[i][j] == num {
      var i, j :| InGrid(i, j) && i / 3 == row / 3 && j / 3 == col / 3 && b[i][j] == num;
      BlockPosition(rs, cs, i, j);
      assert blk[3 * (i - rs) + (j - cs)] == num;
    }
  }

  /** `is_valid(row, col, num, board)`: `num` is in neither the row, the column nor the 3x3
      block of (row, col). */
  function IsValid(row: int, col: int, num: int, b: Board): bool
    requires Shaped(b) && InGrid(row, col)
  {
    num !in b[row] && num !in Column(b, col) && num !in Block(b, 3 * (row / 3), 3 * (col / 3))
  }

  /** `num` may go at (row, col) exactly when no cell of that row, that column or that 3x3 block
      already holds it. */
  lemma IsValidIffUnseen(row: int, col: int, num: int, b: Board)
    requires Shaped(b) && InGrid(row, col)
    ensures IsValid(row, col, num, b) <==>
            forall i, j :: InGrid(i, j) && SeesCell(row, col, i, j) ==> b[i][j] != num
  {
    ColumnHas(b, col, num);
    BlockHas(b, row, col, num);
  }

  /** Strictly increasing, as the comprehension over `range(1, 10)` lists its values. */
  predicate Ascending(s: seq<int>) {
    forall i, j :: 0 <= i < j < |s| ==> s[i] < s[j]
  }

  /** The values `num` in `low..9` with `is_valid(row, col, num, board)`, in increasing order. */
  function CandidatesFrom(b: Board, row: int, col: int, low: int): seq<int>
    requires Shaped(b) && InGrid(row, col) && 1 <= low <= 10
    decreases 10 - low
  {
    if low == 10 then []
    else (if IsValid(row, col, low, b) then [low] else []) + CandidatesFrom(b, row, col, low + 1)
  }

  /** The values listed from `low` on are exactly the valid ones in `low..9`. */
  lemma {:induction false} CandidatesFromMembers(b: Board, row: int, col: int, low: int)
    requires Shaped(b) && InGrid(row, col) && 1 <= low <= 10
    ensures forall num :: num in CandidatesFrom(b, row, col, low) <==> low <= num <= 9 && IsValid(row, col, num, b)
    decreases 10 - low
  {
    if low < 10 {
      CandidatesFromMembers(b, row, col, low + 1);
      var rest := CandidatesFrom(b, row, col, low + 1);
      var head := if IsValid(row, col, low, b) then [low] else [];
      assert CandidatesFrom(b, row, col, low) == head + rest;
      forall num
        ensures num in head + rest <==> low <= num <= 9 && IsValid(row, col, num, b)
      {
        assert num in head + rest <==> num in head || num in rest;
      }
    }
  }

  /** The values listed from `low` on come in increasing order. */
  lemma {:induction false} CandidatesFromAscending(b: Board, row: int, col: int, low: int)
    requires Shaped(b) && InGrid(row, col) && 1 <= low <= 10
    ensures Ascending(CandidatesFrom(b, row, col, low))
    decreases 10 - low
  {
    if low < 10 {
      CandidatesFromAscending(b, row, col, low + 1);
      CandidatesFromMembers(b, row, col, low + 1);
      var rest := CandidatesFrom(b, row, col, low + 1);
      var head := if IsValid(row, col, low, b) then [low] else [];
      assert CandidatesFrom(b, row, col, low) == head + rest;
      forall i, j | 0 <= i < j < |head + rest|
        ensures (head + rest)[i] < (head + rest)[j]
      {
        if i < |head| {
          assert (head + rest)[j] == rest[j - |head|];
          assert rest[j - |head|] in rest;
        }
      }
    }
  }

  /** `[num for num in range(1, 10) if is_valid(row, col, num, board)]`. */
  function Candidates(b: Board, row: int, col: int): seq<int>
    requires Shaped(b) && InGrid(row, col)
  {
    CandidatesFrom(b, row, col, 1)
  }

  /** The candidate list holds exactly the digits that may go at (row, col), in increasing order. */
  lemma CandidatesSpec(b: Board, row: int, col: int)
    requires Shaped(b) && InGrid(row, col)
    ensures var cands := Candidates(b, row, col);
      (forall num :: num in cands <==> 1 <= num <= 9 && IsValid(row, col, num, b)) &&
      (forall k :: 0 <= k < |cands| ==> 1 <= cands[k] <= 9 && IsValid(row, col, cands[k], b)) &&
      Ascending(cands)
  {
    var cands := Candidates(b, row, col);
    CandidatesFromMembers(b, row, col, 1);
    CandidatesFromAscending(b, row, col, 1);
    forall k | 0 <= k < |cands|
      ensures 1 <= cands[k] <= 9 && IsValid(row, col, cands[k], b)
    {
      assert cands[k] in cands;
    }
  }

  lemma FirstIsMember(t: seq<int>)
    ensures t != [] ==> t[0] in t
  {
  }

  /** Two increasing lists with the same members are the same list, so `CandidatesSpec` fixes
      the candidate list. */
  lemma {:induction false} AscendingDeterminedByMembers(s: seq<int>, t: seq<int>)
    requires Ascending(s) && Ascending(t)
    requires forall x :: x in s <==> x in t
    ensures s == t
    decreases |s|
  {
    if s == [] {
      FirstIsMember(t);
    } else {
      assert s[0] in s;
      assert t != [] && t[0] in t;
      assert s[0] == t[0];
      forall x
        ensures x in s[1..] <==> x in t[1..]
      {
        if x in s[1..] {
          var k :| 1 <= k < |s| && s[k] == x;
          assert x in t && x != t[0];
        }
        if x in t[1..] {
          var k :| 1 <= k < |t| && t[k] == x;
          assert x in s && x != s[0];
        }
      }
      AscendingDeterminedByMembers(s[1..], t[1..]);
      assert s == [s[0]] + s[1..] && t == [t[0]] + t[1..];
    }
  }

  /** Placing a value that `is_valid` admits into an empty cell keeps the board consistent: the
      soundness step of every write `board[row][col] = num` of the search. */
  lemma PlaceKeepsConsistent(b: Board, row: int, col: int, num: int)
    requires Consistent(b) && InGrid(row, col) && b[row][col] == 0
    requires 1 <= num <= 9 && IsValid(row, col, num, b)
    ensures Consistent(Place(b, row, col, num))
  {
    IsValidIffUnseen(row, col, num, b);
    var b' := Place(b, row, col, num);
    forall r1, c1, r2, c2 |
      InGrid(r1, c1) && InGrid(r2, c2) && (r1, c1) != (r2, c2) && SeesCell(r1, c1, r2, c2) && b'[r1][c1] != 0
      ensures b'[r1][c1] != b'[r2][c2]
    {
      if (r1, c1) == (row, col) {
        assert SeesCell(row, col, r2, c2);
      } else if (r2, c2) == (row, col) {
        assert SeesCell(row, col, r1, c1);
      }
    }
  }

  /** All members of `s` are pairwise different. */
  predicate Distinct<T(==)>(s: seq<T>) {
    forall i, j :: 0 <= i < j < |s| ==> s[i] != s[j]
  }

  /** The set of values a sequence holds. */
  function Values(s: seq<int>): set<int> {
    set k | 0 <= k < |s| :: s[k]
  }

  lemma {:induction false} DistinctValuesCount(s: seq<int>)
    requires Distinct(s)
    ensures |Values(s)| == |s|
  {
    if s != [] {
      var init, last := s[..|s| - 1], s[|s| - 1];
      assert Distinct(init);
      DistinctValuesCount(init);
      assert Values(s) == Values(init) + {last} by {
        forall x | x in Values(s)
          ensures x in Values(init) + {last}
        {
          var k :| 0 <= k < |s| && s[k] == x;
          if k < |s| - 1 {
            assert init[k] == x;
          }
        }
      }
      assert last !in Values(init);
    }
  }

  /** The digits `1..n`. */
  function Digits(n: nat): (d: set<int>)
    ensures forall v :: v in d <==> 1 <= v <= n
    ensures |d| == n
  {
    if n == 0 then {} else Digits(n - 1) + {n}
  }

  /** Pigeonhole: `n` pairwise different values from `1..n` use up every value of `1..n`. */
  lemma DistinctDigitsCoverAll(s: seq<int>, n: nat)
    requires |s| == n && Distinct(s)
    requires forall k :: 0 <= k < |s| ==> 1 <= s[k] <= n
    ensures forall v :: 1 <= v <= n ==> v in s
  {
    DistinctValuesCount(s);
    var missing := Digits(n) - Values(s);
    assert Digits(n) == Values(s) + missing;
    assert |missing| == 0;
    forall v | 1 <= v <= n
      ensures v in s
    {
      assert v in Digits(n) && v !in missing;
      var k :| 0 <= k < |s| && s[k] == v;
    }
  }

  /** Two different cells that see each other hold different values on a solved board. */
  lemma SolvedPeersDiffer(s: Board, r1: int, c1: int, r2: int, c2: int)
    requires Solved(s) && InGrid(r1, c1) && InGrid(r2, c2)
    requires (r1, c1) != (r2, c2) && SeesCell(r1, c1, r2, c2)
    ensures s[r1][c1] != s[r2][c2]
  {
  }

  lemma SolvedRowDistinct(s: Board, k: int)
    requires Solved(s) && 0 <= k < 9
    ensures Distinct(s[k])
  {
    forall i, j | 0 <= i < j < 9
      ensures s[k][i] != s[k][j]
    {
      SolvedPeersDiffer(s, k, i, k, j);
    }
  }

  lemma SolvedColumnDistinct(s: Board, k: int)
    requires Solved(s) && 0 <= k < 9
    ensures Distinct(Column(s, k))
  {
    var column := Column(s, k);
    forall i, j | 0 <= i < j < 9
      ensures column[i] != column[j]
    {
      SolvedPeersDiffer(s, i, k, j, k);
    }
  }

  lemma SolvedBlockDistinct(s: Board, k: int)
    requires Solved(s) && 0 <= k < 9
    ensures Distinct(Block(s, 3 * (k / 3), 3 * (k % 3)))
  {
    var block := Block(s, 3 * (k / 3), 3 * (k % 3));
    forall i, j | 0 <= i < j < 9
      ensures block[i] != block[j]
    {
      var r1, c1 := 3 * (k / 3) + i / 3, 3 * (k % 3) + i % 3;
      var r2, c2 := 3 * (k / 3) + j / 3, 3 * (k % 3) + j % 3;
      assert i == 3 * (i / 3) + i % 3 && j == 3 * (j / 3) + j % 3;
      assert (r1, c1) != (r2, c2);
      assert r1 / 3 == k / 3 && r2 / 3 == k / 3 && c1 / 3 == k % 3 && c2 / 3 == k % 3;
      assert block[i] == s[r1][c1] && block[j] == s[r2][c2];
      SolvedPeersDiffer(s, r1, c1, r2, c2);
    }
  }

  /** A solved board holds each digit 1..9 exactly once in every row, every column and every
      block: the nine values of each are pairwise different and each digit occurs among them. */
  lemma SolvedUnitsHoldEveryDigit(s: Board, k: int)
    requires Solved(s) && 0 <= k < 9
    ensures Distinct(s[k]) && Distinct(Column(s, k)) && Distinct(Block(s, 3 * (k / 3), 3 * (k % 3)))
    ensures forall v :: 1 <= v <= 9 ==> v in s[k] && v in Column(s, k) && v in Block(s, 3 * (k / 3), 3 * (k % 3))
  {
    SolvedRowDistinct(s, k);
    SolvedColumnDistinct(s, k);
    SolvedBlockDistinct(s, k);
    DistinctDigitsCoverAll(s[k], 9);
    DistinctDigitsCoverAll(Column(s, k), 9);
    DistinctDigitsCoverAll(Block(s, 3 * (k / 3), 3 * (k % 3)), 9);
  }
}
