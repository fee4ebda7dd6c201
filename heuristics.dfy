/** The degree used to break ties between cells with equally short domains: the number of filled
    cells among the peers of a cell, each filled cell counted once. */
module Heuristics {
  import opened Rules
  import opened Domains

  datatype Option<T> = None | Some(value: T)

  /** Filled peers of (row, col) in row r, columns c..8. */
  function FilledInRow(g: Grid, row: int, col: int, r: int, c: int): nat
    requires IsGrid(g, 9, 9) && 0 <= r < 9 && 0 <= c <= 9
    decreases 9 - c
  {
    if c == 9 then 0
    else (if Peer(r, c, row, col) && g[r][c] != 0 then 1 else 0) + FilledInRow(g, row, col, r, c + 1)
  }

  /** Filled peers of (row, col) in rows r..8. */
  function FilledFrom(g: Grid, row: int, col: int, r: int): nat
    requires IsGrid(g, 9, 9) && 0 <= r <= 9
    decreases 9 - r
  {
    if r == 9 then 0 else FilledInRow(g, row, col, r, 0) + FilledFrom(g, row, col, r + 1)
  }

  /** Filled cells that share a row, a column or a block with (row, col), scanned row by row. */
  function FilledPeers(g: Grid, row: int, col: int): nat
    requires IsGrid(g, 9, 9)
  {
    FilledFrom(g, row, col, 0)
  }

  /** How many of the columns c..8 of row r are peers of (row, col). */
  function PeerColumnsFrom(r: int, row: int, col: int, c: int): int {
    if r == row then 9 - c
    else if r / 3 == row / 3 then
      var s := 3 * (col / 3);
      if c <= s then 3 else if c < s + 3 then s + 3 - c else 0
    else if c <= col then 1
    else 0
  }

  /** How many cells of rows r..8 are peers of (row, col). */
  function PeerCellsFrom(row: int, col: int, r: int): int {
    var s := 3 * (row / 3);
    var bandRows := if r <= s then 3 else if r < s + 3 then s + 3 - r else 0;
    var own := if r <= row then 1 else 0;
    (9 - r) + 8 * own + 2 * (bandRows - own)
  }

  lemma {:induction false} FilledInRowBound(g: Grid, row: int, col: int, r: int, c: int)
    requires IsGrid(g, 9, 9) && InRange(row, col) && 0 <= r < 9 && 0 <= c <= 9
    ensures FilledInRow(g, row, col, r, c) <= PeerColumnsFrom(r, row, col, c)
    decreases 9 - c
  {
    if c < 9 {
      FilledInRowBound(g, row, col, r, c + 1);
      BlockRange(c, col);
    }
  }

  lemma {:induction false} FilledFromBound(g: Grid, row: int, col: int, r: int)
    requires IsGrid(g, 9, 9) && InRange(row, col) && 0 <= r <= 9
    ensures FilledFrom(g, row, col, r) <= PeerCellsFrom(row, col, r)
    decreases 9 - r
  {
    if r < 9 {
      FilledInRowBound(g, row, col, r, 0);
      FilledFromBound(g, row, col, r + 1);
      BlockRange(r, row);
    }
  }

  /** The union of a cell's row, column and block has 21 cells, so the degree is at most 21. */
  lemma FilledPeersAtMost21(g: Grid, row: int, col: int)
    requires IsGrid(g, 9, 9) && InRange(row, col)
    ensures FilledPeers(g, row, col) <= 21
  {
    FilledFromBound(g, row, col, 0);
  }

  /** (r1, c1) is at least as good a choice as (r2, c2): a shorter domain, or one as short and at
      least as many filled peers. */
  predicate AtLeastAsGood(g: Grid, doms: seq<seq<seq<int>>>, r1: int, c1: int, r2: int, c2: int)
    requires IsGrid(g, 9, 9) && IsDomainGrid(doms) && InRange(r1, c1) && InRange(r2, c2)
  {
    |doms[r1][c1]| < |doms[r2][c2]| ||
    (|doms[r1][c1]| == |doms[r2][c2]| && FilledPeers(g, r1, c1) >= FilledPeers(g, r2, c2))
  }

  /** (r1, c1) is a strictly better choice than (r2, c2). */
  predicate Better(g: Grid, doms: seq<seq<seq<int>>>, r1: int, c1: int, r2: int, c2: int)
    requires IsGrid(g, 9, 9) && IsDomainGrid(doms) && InRange(r1, c1) && InRange(r2, c2)
  {
    |doms[r1][c1]| < |doms[r2][c2]| ||
    (|doms[r1][c1]| == |doms[r2][c2]| && FilledPeers(g, r1, c1) > FilledPeers(g, r2, c2))
  }

  /** Position of (r, c) in row-major order. */
  function Index(r: int, c: int): int {
    9 * r + c
  }

  /** The empty cell (r, c) is the one the heuristic picks: no empty cell is a better choice, and
      every empty cell before it in row-major order is a strictly worse one. */
  predicate IsChoice(g: Grid, doms: seq<seq<seq<int>>>, r: int, c: int)
    requires IsGrid(g, 9, 9) && IsDomainGrid(doms) && InRange(r, c)
  {
    g[r][c] == 0 &&
    forall r2, c2 :: 0 <= r2 < 9 && 0 <= c2 < 9 && g[r2][c2] == 0 ==>
      AtLeastAsGood(g, doms, r, c, r2, c2) && (Index(r2, c2) < Index(r, c) ==> Better(g, doms, r, c, r2, c2))
  }

  /** What the row-major scan has established after looking at the first k cells: no choice yet
      (and the initial bounds 10 and -1) exactly while all of them are filled, otherwise the best
      of them so far with its domain length and degree. */
  predicate ScanState(g: Grid, doms: seq<seq<seq<int>>>, selected: Option<(int, int)>, minRemaining: int, maxDegree: int, k: int)
    requires IsGrid(g, 9, 9) && IsDomainGrid(doms)
  {
    (selected.None? ==>
      minRemaining == 10 && maxDegree == -1 &&
      forall r2, c2 :: 0 <= r2 < 9 && 0 <= c2 < 9 && Index(r2, c2) < k ==> g[r2][c2] != 0) &&
    (selected.Some? ==>
      var (r, c) := selected.value;
      InRange(r, c) && Index(r, c) < k && g[r][c] == 0 &&
      minRemaining == |doms[r][c]| && maxDegree == FilledPeers(g, r, c) &&
      forall r2, c2 :: 0 <= r2 < 9 && 0 <= c2 < 9 && Index(r2, c2) < k && g[r2][c2] == 0 ==>
        AtLeastAsGood(g, doms, r, c, r2, c2) && (Index(r2, c2) < Index(r, c) ==> Better(g, doms, r, c, r2, c2)))
  }

  /** Whether the scan replaces its current choice by the cell (row, col). */
  predicate Takes(g: Grid, doms: seq<seq<seq<int>>>, minRemaining: int, maxDegree: int, row: int, col: int)
    requires IsGrid(g, 9, 9) && IsDomainGrid(doms) && InRange(row, col)
  {
    g[row][col] == 0 &&
    (|doms[row][col]| < minRemaining || (|doms[row][col]| == minRemaining && FilledPeers(g, row, col) > maxDegree))
  }

  /** Row-major positions: the cells before position k + 1 are those before position k and the
      cell at position k. */
  lemma IndexNext(row: int, col: int, r2: int, c2: int)
    requires InRange(row, col) && InRange(r2, c2)
    ensures Index(r2, c2) < Index(row, col) + 1 <==> Index(r2, c2) < Index(row, col) || (r2 == row && c2 == col)
  {
  }

  /** Taking (row, col) when it beats the current choice keeps the scan's state. */
  lemma ScanTake(g: Grid, doms: seq<seq<seq<int>>>, selected: Option<(int, int)>, minRemaining: int, maxDegree: int,
                 row: int, col: int)
    requires IsGrid(g, 9, 9) && IsDomainGrid(doms) && InRange(row, col)
    requires ScanState(g, doms, selected, minRemaining, maxDegree, Index(row, col))
    requires Takes(g, doms, minRemaining, maxDegree, row, col)
    ensures ScanState(g, doms, Some((row, col)), |doms[row][col]|, FilledPeers(g, row, col), Index(row, col + 1))
  {
    forall r2, c2 | 0 <= r2 < 9 && 0 <= c2 < 9 && Index(r2, c2) < Index(row, col) + 1 && g[r2][c2] == 0
      ensures AtLeastAsGood(g, doms, row, col, r2, c2) &&
              (Index(r2, c2) < Index(row, col) ==> Better(g, doms, row, col, r2, c2))
    {
      IndexNext(row, col, r2, c2);
      if Index(r2, c2) < Index(row, col) {
        var (r, c) := selected.value;
        assert AtLeastAsGood(g, doms, r, c, r2, c2);
      }
    }
  }

  /** Passing over (row, col) when it does not beat the current choice keeps the scan's state. */
  lemma ScanKeep(g: Grid, doms: seq<seq<seq<int>>>, selected: Option<(int, int)>, minRemaining: int, maxDegree: int,
                 row: int, col: int)
    requires IsGrid(g, 9, 9) && IsDomainGrid(doms) && InRange(row, col)
    requires forall r, c :: 0 <= r < 9 && 0 <= c < 9 ==> IsDomain(doms[r][c])
    requires ScanState(g, doms, selected, minRemaining, maxDegree, Index(row, col))
    requires !Takes(g, doms, minRemaining, maxDegree, row, col)
    ensures ScanState(g, doms, selected, minRemaining, maxDegree, Index(row, col + 1))
  {
    var k := Index(row, col + 1);
    if selected.None? {
      DomainAtMostNine(doms[row][col]);
      forall r2, c2 | 0 <= r2 < 9 && 0 <= c2 < 9 && Index(r2, c2) < k
        ensures g[r2][c2] != 0
      {
        IndexNext(row, col, r2, c2);
      }
    } else {
      var (r, c) := selected.value;
      forall r2, c2 | 0 <= r2 < 9 && 0 <= c2 < 9 && Index(r2, c2) < k && g[r2][c2] == 0
        ensures AtLeastAsGood(g, doms, r, c, r2, c2) && (Index(r2, c2) < Index(r, c) ==> Better(g, doms, r, c, r2, c2))
      {
        IndexNext(row, col, r2, c2);
      }
    }
  }

  /** One cell of the scan: whether it takes (row, col) or passes over it, the scan's state holds
      one cell further. */
  lemma ScanStep(g: Grid, doms: seq<seq<seq<int>>>, selected: Option<(int, int)>, minRemaining: int, maxDegree: int,
                 row: int, col: int)
    requires IsGrid(g, 9, 9) && IsDomainGrid(doms) && InRange(row, col)
    requires forall r, c :: 0 <= r < 9 && 0 <= c < 9 ==> IsDomain(doms[r][c])
    requires ScanState(g, doms, selected, minRemaining, maxDegree, Index(row, col))
    ensures Takes(g, doms, minRemaining, maxDegree, row, col) ==>
      ScanState(g, doms, Some((row, col)), |doms[row][col]|, FilledPeers(g, row, col), Index(row, col + 1))
    ensures !Takes(g, doms, minRemaining, maxDegree, row, col) ==>
      ScanState(g, doms, selected, minRemaining, maxDegree, Index(row, col + 1))
  {
    if Takes(g, doms, minRemaining, maxDegree, row, col) {
      ScanTake(g, doms, selected, minRemaining, maxDegree, row, col);
    } else {
      ScanKeep(g, doms, selected, minRemaining, maxDegree, row, col);
    }
  }

  /** At the end of the scan there is no choice exactly when the board is full, and otherwise the
      choice is the heuristic's pick. */
  lemma ScanDone(g: Grid, doms: seq<seq<seq<int>>>, selected: Option<(int, int)>, minRemaining: int, maxDegree: int)
    requires IsGrid(g, 9, 9) && IsDomainGrid(doms)
    requires ScanState(g, doms, selected, minRemaining, maxDegree, 81)
    ensures selected.None? <==> Complete(g)
    ensures selected.Some? ==> InRange(selected.value.0, selected.value.1) && IsChoice(g, doms, selected.value.0, selected.value.1)
  {
  }
}
