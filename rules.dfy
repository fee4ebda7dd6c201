/** The board rules of Kropki Sudoku, stated on immutable snapshots of the grids.

    A board is a 9×9 grid of integers, 0 meaning an empty cell. The horizontal dot grid is 9×8:
    entry (r, c) sits between cells (r, c) and (r, c + 1). The vertical dot grid is 8×9: entry
    (r, c) sits between cells (r, c) and (r + 1, c). Dot 1 is white (the values differ by one),
    dot 2 is black (one value is twice the other), every other dot value constrains nothing. */
module Rules {

  type Grid = seq<seq<int>>

  predicate IsGrid(g: Grid, rows: nat, cols: nat) {
    |g| == rows && forall r :: 0 <= r < rows ==> |g[r]| == cols
  }

  /** A 9×9 board, a 9×8 horizontal dot grid and an 8×9 vertical dot grid. */
  predicate Shaped(g: Grid, h: Grid, v: Grid) {
    IsGrid(g, 9, 9) && IsGrid(h, 9, 8) && IsGrid(v, 8, 9)
  }

  predicate InRange(r: int, c: int) {
    0 <= r < 9 && 0 <= c < 9
  }

  function Abs(x: int): nat {
    if x < 0 then -x else x
  }

  /** The relation a dot of type `dot` demands between the values on its two sides. */
  predicate DotHolds(dot: int, a: int, b: int) {
    (dot == 1 ==> Abs(a - b) == 1) && (dot == 2 ==> a == 2 * b || b == 2 * a)
  }

  /** One neighbour test of the legality check: a zero dot or an empty neighbour imposes nothing. */
  predicate DotOk(dot: int, num: int, neighbour: int) {
    dot == 0 || neighbour == 0 || DotHolds(dot, num, neighbour)
  }

  function Column(g: Grid, col: int): seq<int>
    requires IsGrid(g, 9, 9) && 0 <= col < 9
  {
    seq(9, i requires 0 <= i < 9 => g[i][col])
  }

  /** Does `num` occur in the 3×3 block whose top-left cell is (startRow, startCol)? */
  predicate InBlock(g: Grid, startRow: int, startCol: int, num: int)
    requires IsGrid(g, 9, 9) && 0 <= startRow <= 6 && 0 <= startCol <= 6
  {
    exists r, c :: startRow <= r < startRow + 3 && startCol <= c < startCol + 3 && g[r][c] == num
  }

  /** May `num` go into cell (row, col) of board `g`? Row, column and block must not already hold
      it, and each of the up to four neighbours across a nonzero dot that holds a value must stand
      in that dot's relation to `num`. */
  predicate IsValidAssignment(g: Grid, h: Grid, v: Grid, row: int, col: int, num: int)
    requires Shaped(g, h, v) && InRange(row, col)
  {
    num !in g[row] &&
    num !in Column(g, col) &&
    !InBlock(g, 3 * (row / 3), 3 * (col / 3), num) &&
    (col < 8 ==> DotOk(h[row][col], num, g[row][col + 1])) &&
    (col > 0 ==> DotOk(h[row][col - 1], num, g[row][col - 1])) &&
    (row < 8 ==> DotOk(v[row][col], num, g[row + 1][col])) &&
    (row > 0 ==> DotOk(v[row - 1][col], num, g[row - 1][col]))
  }

  /** Cells that share a row, a column or a 3×3 block (every cell is its own peer). */
  predicate Peer(r1: int, c1: int, r2: int, c2: int) {
    r1 == r2 || c1 == c2 || (r1 / 3 == r2 / 3 && c1 / 3 == c2 / 3)
  }

  /** Cells that touch horizontally or vertically, and so have a dot position between them. */
  predicate Adjacent(r1: int, c1: int, r2: int, c2: int) {
    (r1 == r2 && (c2 == c1 + 1 || c1 == c2 + 1)) || (c1 == c2 && (r2 == r1 + 1 || r1 == r2 + 1))
  }

  /** The dot between two cells (0 when they are not adjacent); symmetric in the two cells. */
  function DotBetween(h: Grid, v: Grid, r1: int, c1: int, r2: int, c2: int): int
    requires IsGrid(h, 9, 8) && IsGrid(v, 8, 9) && InRange(r1, c1) && InRange(r2, c2)
  {
    if r1 == r2 && c2 == c1 + 1 then h[r1][c1]
    else if r1 == r2 && c1 == c2 + 1 then h[r1][c2]
    else if c1 == c2 && r2 == r1 + 1 then v[r1][c1]
    else if c1 == c2 && r1 == r2 + 1 then v[r2][c1]
    else 0
  }

  /** No peer of (row, col) holds `num`. */
  ghost predicate PeersFree(g: Grid, row: int, col: int, num: int)
    requires IsGrid(g, 9, 9)
  {
    forall r, c :: 0 <= r < 9 && 0 <= c < 9 && Peer(row, col, r, c) ==> g[r][c] != num
  }

  /** Every filled neighbour of (row, col) stands in the relation of the dot between them to `num`. */
  ghost predicate DotsRespected(g: Grid, h: Grid, v: Grid, row: int, col: int, num: int)
    requires Shaped(g, h, v) && InRange(row, col)
  {
    forall r, c :: 0 <= r < 9 && 0 <= c < 9 && Adjacent(row, col, r, c) && g[r][c] != 0 ==>
      DotHolds(DotBetween(h, v, row, col, r, c), num, g[r][c])
  }

  /** Reference definition of legality in terms of peers and adjacent cells. */
  ghost predicate Admissible(g: Grid, h: Grid, v: Grid, row: int, col: int, num: int)
    requires Shaped(g, h, v) && InRange(row, col)
  {
    PeersFree(g, row, col, num) && DotsRespected(g, h, v, row, col, num)
  }

  lemma BlockRange(r: int, row: int)
    requires 0 <= r && 0 <= row
    ensures 3 * (row / 3) <= r < 3 * (row / 3) + 3 <==> r / 3 == row / 3
  {
  }

  /** The row, column and block tests of the legality check hold exactly when no peer holds `num`. */
  lemma PeerTestsIff(g: Grid, row: int, col: int, num: int)
    requires IsGrid(g, 9, 9) && InRange(row, col)
    ensures (num !in g[row] && num !in Column(g, col) && !InBlock(g, 3 * (row / 3), 3 * (col / 3), num)) <==>
            PeersFree(g, row, col, num)
  {
    var sr, sc := 3 * (row / 3), 3 * (col / 3);
    assert !InBlock(g, sr, sc, num) <==>
      forall r, c :: 0 <= r < 9 && 0 <= c < 9 && r / 3 == row / 3 && c / 3 == col / 3 ==> g[r][c] != num
    by {
      forall r, c | 0 <= r < 9 && 0 <= c < 9
        ensures (sr <= r < sr + 3 && sc <= c < sc + 3) <==> (r / 3 == row / 3 && c / 3 == col / 3)
      {
        BlockRange(r, row);
        BlockRange(c, col);
      }
    }
    assert num !in g[row] <==> forall c :: 0 <= c < 9 ==> g[row][c] != num;
    assert num !in Column(g, col) <==> forall r :: 0 <= r < 9 ==> g[r][col] != num by {
      assert forall r :: 0 <= r < 9 ==> Column(g, col)[r] == g[r][col];
    }
  }

  /** The four neighbour tests of the legality check hold exactly when every filled neighbour
      respects the dot between it and (row, col). */
  lemma DotTestsIff(g: Grid, h: Grid, v: Grid, row: int, col: int, num: int)
    requires Shaped(g, h, v) && InRange(row, col)
    ensures ((col < 8 ==> DotOk(h[row][col], num, g[row][col + 1])) &&
             (col > 0 ==> DotOk(h[row][col - 1], num, g[row][col - 1])) &&
             (row < 8 ==> DotOk(v[row][col], num, g[row + 1][col])) &&
             (row > 0 ==> DotOk(v[row - 1][col], num, g[row - 1][col]))) <==>
            DotsRespected(g, h, v, row, col, num)
  {
    if col < 8 && !DotOk(h[row][col], num, g[row][col + 1]) {
      assert Adjacent(row, col, row, col + 1);
    } else if col > 0 && !DotOk(h[row][col - 1], num, g[row][col - 1]) {
      assert Adjacent(row, col, row, col - 1);
    } else if row < 8 && !DotOk(v[row][col], num, g[row + 1][col]) {
      assert Adjacent(row, col, row + 1, col);
    } else if row > 0 && !DotOk(v[row - 1][col], num, g[row - 1][col]) {
      assert Adjacent(row, col, row - 1, col);
    }
  }

  /** The legality check is exactly the reference definition: `num` is refused precisely when a
      peer already holds it or an occupied neighbour across a dot breaks the dot's relation. */
  lemma ValidIffAdmissible(g: Grid, h: Grid, v: Grid, row: int, col: int, num: int)
    requires Shaped(g, h, v) && InRange(row, col)
    ensures IsValidAssignment(g, h, v, row, col, num) <==> Admissible(g, h, v, row, col, num)
  {
    PeerTestsIff(g, row, col, num);
    DotTestsIff(g, h, v, row, col, num);
  }

  /** Every filled cell holds 1..9, no two distinct peers hold the same value, and every dot
      between two filled cells holds. */
  ghost predicate Consistent(g: Grid, h: Grid, v: Grid)
    requires Shaped(g, h, v)
  {
    (forall r, c :: 0 <= r < 9 && 0 <= c < 9 ==> 0 <= g[r][c] <= 9) &&
    (forall r1, c1, r2, c2 ::
       (0 <= r1 < 9 && 0 <= c1 < 9 && 0 <= r2 < 9 && 0 <= c2 < 9 && (r1 != r2 || c1 != c2) &&
        Peer(r1, c1, r2, c2) && g[r1][c1] != 0) ==> g[r1][c1] != g[r2][c2]) &&
    (forall r1, c1, r2, c2 ::
       (0 <= r1 < 9 && 0 <= c1 < 9 && 0 <= r2 < 9 && 0 <= c2 < 9 &&
        Adjacent(r1, c1, r2, c2) && g[r1][c1] != 0 && g[r2][c2] != 0) ==>
       DotHolds(DotBetween(h, v, r1, c1, r2, c2), g[r1][c1], g[r2][c2]))
  }

  /** No cell is empty. */
  predicate Complete(g: Grid)
    requires IsGrid(g, 9, 9)
  {
    forall r, c :: 0 <= r < 9 && 0 <= c < 9 ==> g[r][c] != 0
  }

  /** The board with `num` written into cell (row, col). */
  function Place(g: Grid, row: int, col: int, num: int): (g': Grid)
    requires IsGrid(g, 9, 9) && InRange(row, col)
    ensures IsGrid(g', 9, 9) && g'[row][col] == num
    ensures forall r, c :: 0 <= r < 9 && 0 <= c < 9 && (r != row || c != col) ==> g'[r][c] == g[r][c]
  {
    g[row := g[row][col := num]]
  }

  /** Resetting a cell that was empty before a placement gives back the board as it was. */
  lemma PlaceUndo(g: Grid, row: int, col: int, num: int)
    requires IsGrid(g, 9, 9) && InRange(row, col) && g[row][col] == 0
    ensures Place(Place(g, row, col, num), row, col, 0) == g
  {
    assert g[row][col := num][col := 0] == g[row];
  }

  /** Writing a legal value 1..9 into an empty cell of a consistent board keeps it consistent. */
  lemma {:induction false} PlaceKeepsConsistent(g: Grid, h: Grid, v: Grid, row: int, col: int, num: int)
    requires Shaped(g, h, v) && InRange(row, col) && Consistent(g, h, v)
    requires g[row][col] == 0 && 1 <= num <= 9 && IsValidAssignment(g, h, v, row, col, num)
    ensures Consistent(Place(g, row, col, num), h, v)
  {
    ValidIffAdmissible(g, h, v, row, col, num);
    var g' := Place(g, row, col, num);
    forall r1, c1, r2, c2 |
      0 <= r1 < 9 && 0 <= c1 < 9 && 0 <= r2 < 9 && 0 <= c2 < 9 && (r1 != r2 || c1 != c2) &&
      Peer(r1, c1, r2, c2) && g'[r1][c1] != 0
      ensures g'[r1][c1] != g'[r2][c2]
    {
      if r2 == row && c2 == col {
        assert Peer(row, col, r1, c1);
      }
    }
    forall r1, c1, r2, c2 |
      0 <= r1 < 9 && 0 <= c1 < 9 && 0 <= r2 < 9 && 0 <= c2 < 9 &&
      Adjacent(r1, c1, r2, c2) && g'[r1][c1] != 0 && g'[r2][c2] != 0
      ensures DotHolds(DotBetween(h, v, r1, c1, r2, c2), g'[r1][c1], g'[r2][c2])
    {
      if r2 == row && c2 == col {
        assert Adjacent(row, col, r1, c1);
        assert DotBetween(h, v, r1, c1, r2, c2) == DotBetween(h, v, row, col, r1, c1);
      }
    }
  }

  /** Filling an empty cell never makes a nonzero value legal anywhere that was illegal before. */
  lemma {:induction false} PlaceOnlyRestricts(g: Grid, h: Grid, v: Grid, row: int, col: int, num: int,
                                               r: int, c: int, x: int)
    requires Shaped(g, h, v) && InRange(row, col) && InRange(r, c) && g[row][col] == 0 && x != 0
    requires IsValidAssignment(Place(g, row, col, num), h, v, r, c, x)
    ensures IsValidAssignment(g, h, v, r, c, x)
  {
    var g' := Place(g, row, col, num);
    ValidIffAdmissible(g', h, v, r, c, x);
    ValidIffAdmissible(g, h, v, r, c, x);
    forall r2, c2 | 0 <= r2 < 9 && 0 <= c2 < 9 && Adjacent(r, c, r2, c2) && g[r2][c2] != 0
      ensures DotHolds(DotBetween(h, v, r, c, r2, c2), x, g[r2][c2])
    {
      assert g'[r2][c2] == g[r2][c2];
    }
  }

  /** Legality at a cell depends only on its peers: rewriting a cell that is not a peer of (r, c)
      leaves every value's legality at (r, c) as it was. */
  lemma {:induction false} LegalityIgnoresNonPeers(g: Grid, h: Grid, v: Grid, row: int, col: int, num: int,
                                                    r: int, c: int, x: int)
    requires Shaped(g, h, v) && InRange(row, col) && InRange(r, c) && !Peer(r, c, row, col)
    ensures IsValidAssignment(Place(g, row, col, num), h, v, r, c, x) == IsValidAssignment(g, h, v, r, c, x)
  {
    var g' := Place(g, row, col, num);
    ValidIffAdmissible(g', h, v, r, c, x);
    ValidIffAdmissible(g, h, v, r, c, x);
    assert forall r2, c2 :: 0 <= r2 < 9 && 0 <= c2 < 9 && (Peer(r, c, r2, c2) || Adjacent(r, c, r2, c2)) ==>
      g'[r2][c2] == g[r2][c2];
  }

  /** Number of empty cells in a row. */
  function ZerosIn(s: seq<int>): nat {
    if s == [] then 0 else (if s[0] == 0 then 1 else 0) + ZerosIn(s[1..])
  }

  /** Number of empty cells on the board. */
  function Zeros(g: Grid): nat {
    if g == [] then 0 else ZerosIn(g[0]) + Zeros(g[1..])
  }

  lemma {:induction false} ZerosInUpdate(s: seq<int>, i: int, x: int)
    requires 0 <= i < |s| && s[i] == 0 && x != 0
    ensures ZerosIn(s[i := x]) + 1 == ZerosIn(s)
  {
    if i > 0 {
      assert s[i := x][1..] == s[1..][i - 1 := x];
      ZerosInUpdate(s[1..], i - 1, x);
    } else {
      assert s[i := x][1..] == s[1..];
    }
  }

  lemma {:induction false} ZerosRowUpdate(g: Grid, i: int, s: seq<int>)
    requires 0 <= i < |g|
    ensures Zeros(g[i := s]) + ZerosIn(g[i]) == Zeros(g) + ZerosIn(s)
  {
    if i > 0 {
      assert g[i := s][1..] == g[1..][i - 1 := s];
      ZerosRowUpdate(g[1..], i - 1, s);
    } else {
      assert g[i := s][1..] == g[1..];
    }
  }

  /** Filling an empty cell with a nonzero value leaves exactly one empty cell fewer: the measure
      under which the search terminates. */
  lemma PlaceFillsOneCell(g: Grid, row: int, col: int, num: int)
    requires IsGrid(g, 9, 9) && InRange(row, col) && g[row][col] == 0 && num != 0
    ensures Zeros(Place(g, row, col, num)) + 1 == Zeros(g)
  {
    ZerosInUpdate(g[row], col, num);
    ZerosRowUpdate(g, row, g[row][col := num]);
  }

  /** A board with no empty cell has no zeros to count, and conversely. */
  lemma {:induction false} ZerosZeroIffComplete(g: Grid)
    requires IsGrid(g, 9, 9)
    ensures Zeros(g) == 0 <==> Complete(g)
  {
    ZerosCountsEmptyCells(g);
  }

  lemma {:induction false} ZerosInZeroIff(s: seq<int>)
    ensures ZerosIn(s) == 0 <==> 0 !in s
  {
    if s != [] {
      ZerosInZeroIff(s[1..]);
      assert s == [s[0]] + s[1..];
    }
  }

  lemma {:induction false} ZerosCountsEmptyCells(g: Grid)
    ensures Zeros(g) == 0 <==> forall i :: 0 <= i < |g| ==> 0 !in g[i]
  {
    if g != [] {
      ZerosInZeroIff(g[0]);
      ZerosCountsEmptyCells(g[1..]);
      assert forall i :: 1 <= i < |g| ==> g[i] == g[1..][i - 1];
    }
  }
}
