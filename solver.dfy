/** The Kropki Sudoku solver of kropki.py: a board and a grid of candidate lists updated in place,
    forward checking after each placement, restoration after each backtrack, minimum-remaining-
    values cell selection with a degree tie-break, and recursive backtracking search. */
module Solver {
  import opened Rules
  import opened Domains
  import opened Heuristics
  import opened Passes

  class KropkiSudoku {
    var board: Grid
    const hdots: Grid
    const vdots: Grid
    var domains: seq<seq<seq<int>>>

    /** Shapes of the grids, and every candidate list strictly ascending within 1..9. */
    ghost predicate Valid()
      reads this
    {
      Shaped(board, hdots, vdots) && IsDomainGrid(domains) &&
      forall r, c :: 0 <= r < 9 && 0 <= c < 9 ==> IsDomain(domains[r][c])
    }

    /** Every legal digit of every empty cell is still a candidate. */
    ghost predicate Covers()
      reads this
      requires Valid()
    {
      CoversLegal(domains, board, hdots, vdots)
    }

    /** Copies the starting board, keeps the dot grids, and gives every empty cell all nine digits
        and every filled cell the digits equal to its value. */
    constructor (initial: Grid, horizontal: Grid, vertical: Grid)
      requires Shaped(initial, horizontal, vertical)
      ensures Valid() && Covers()
      ensures board == initial && hdots == horizontal && vdots == vertical
      ensures forall r, c :: 0 <= r < 9 && 0 <= c < 9 ==> domains[r][c] == InitialDomain(initial[r][c])
    {
      board := initial;
      hdots := horizontal;
      vdots := vertical;
      domains := seq(9, r requires 0 <= r < 9 => seq(9, c requires 0 <= c < 9 => InitialDomain(initial[r][c])));
      new;
      InitialDomainsCover(domains, board, hdots, vdots);
    }

    /** Prunes the domain of (row, col), if that cell is on the board and empty, by the dot of type
        `dot` between it and a cell just given `num`, and then records the cell as affected. */
    method UpdateDomainWithDotConstraint(row: int, col: int, num: int, dot: int, affected: seq<(int, int)>)
      returns (affected': seq<(int, int)>)
      requires Valid()
      modifies this
      ensures Valid() && board == old(board)
      ensures InRange(row, col) && board[row][col] == 0 ==>
        domains == SetDomain(old(domains), row, col, DotFilter(old(domains)[row][col], num, dot)) &&
        affected' == affected + [(row, col)]
      ensures !(InRange(row, col) && board[row][col] == 0) ==> domains == old(domains) && affected' == affected
      ensures domains == DotStep(board, old(domains), row, col, num, dot) && affected' == DotNoted(board, affected, row, col)
    {
      if 0 <= row < 9 && 0 <= col < 9 && board[row][col] == 0 {
        var domain := domains[row][col];
        if dot == 1 {
          domains := SetDomain(domains, row, col, Filter(domain, x => Abs(x - num) == 1));
        } else if dot == 2 {
          domains := SetDomain(domains, row, col, Filter(domain, x => x == 2 * num || num == 2 * x));
        } else {
          assert domains[row][col := domain] == domains[row];
        }
        affected' := affected + [(row, col)];
      } else {
        affected' := affected;
      }
    }

    /** The dot part of forward checking: each of the up to four neighbours of (row, col) is
        pruned by the dot between them, right, left, below and above in turn. */
    method PruneAcrossDots(row: int, col: int, num: int, affected: seq<(int, int)>) returns (affected': seq<(int, int)>)
      requires Valid() && InRange(row, col)
      modifies this
      ensures Valid() && board == old(board)
      ensures (domains, affected') == DotPass(board, hdots, vdots, old(domains), affected, row, col, num)
    {
      affected' := affected;
      if col < 8 {
        affected' := UpdateDomainWithDotConstraint(row, col + 1, num, hdots[row][col], affected');
      }
      if col > 0 {
        affected' := UpdateDomainWithDotConstraint(row, col - 1, num, hdots[row][col - 1], affected');
      }
      if row < 8 {
        affected' := UpdateDomainWithDotConstraint(row + 1, col, num, vdots[row][col], affected');
      }
      if row > 0 {
        affected' := UpdateDomainWithDotConstraint(row - 1, col, num, vdots[row - 1][col], affected');
      }
    }

    /** After `num` has been written at (row, col): takes `num` out of the domain of every empty
        cell in the same row, column and block, prunes the empty cells across the four dots, and
        reports failure exactly when one of the recorded cells is left with no candidate. */
    method ForwardCheck(row: int, col: int, num: int) returns (ok: bool)
      requires Valid() && InRange(row, col)
      modifies this
      ensures Valid() && board == old(board)
      ensures forall r, c :: 0 <= r < 9 && 0 <= c < 9 ==>
        domains[r][c] == Pruned(board, hdots, vdots, old(domains)[r][c], r, c, row, col, num)
      ensures !ok <==> (exists r, c :: 0 <= r < 9 && 0 <= c < 9 &&
                               Recorded(board, old(domains)[r][c], r, c, row, col, num) && domains[r][c] == [])
      ensures old(Covers()) && board[row][col] == num && num != 0 ==> Covers()
    {
      ghost var before := domains;
      var doms, affected := StripPeers(board, domains, row, col, num);
      domains := doms;

      ghost var peerPass, peerAffected := domains, affected;
      affected := PruneAcrossDots(row, col, num, affected);
      DotPassState(board, hdots, vdots, peerPass, peerAffected, row, col, num);
      ForwardCheckResult(board, hdots, vdots, before, peerPass, peerAffected, domains, affected, row, col, num);
      if old(Covers()) && board[row][col] == num && num != 0 {
        ForwardCheckKeepsCover(before, domains, board, hdots, vdots, row, col, num);
      }

      EmptyRecorded(board, before, domains, affected, row, col, num);
      var wiped := HasEmptyDomain(domains, affected);
      return !wiped;
    }


    /** After the value at (row, col) has been reset to 0: recomputes, from the board as it now is,
        the domain of every empty cell in the same row, column and block. */
    method RestoreDomains(row: int, col: int, num: int)
      requires Valid() && InRange(row, col)
      modifies this
      ensures Valid() && board == old(board)
      ensures forall r, c :: 0 <= r < 9 && 0 <= c < 9 ==>
        domains[r][c] == if board[r][c] == 0 && Peer(r, c, row, col) then LegalValues(board, hdots, vdots, r, c)
                         else old(domains)[r][c]
      ensures board[row][col] == 0 && old(CoversLegal(domains, Place(board, row, col, num), hdots, vdots)) ==> Covers()
    {
      ghost var before := domains;
      domains := RestorePeers(board, hdots, vdots, domains, row, col);
      if board[row][col] == 0 && CoversLegal(before, Place(board, row, col, num), hdots, vdots) {
        RestoreKeepsCover(before, domains, board, hdots, vdots, row, col, num);
      }
    }

    /** Number of filled cells that share a row, a column or a block with (row, col). */
    method CountConstraints(row: int, col: int) returns (constraints: nat)
      requires IsGrid(board, 9, 9)
      ensures constraints == FilledPeers(board, row, col)
    {
      ghost var g := board;
      constraints := 0;
      for r := 0 to 9
        invariant constraints + FilledFrom(g, row, col, r) == FilledPeers(g, row, col)
      {
        ghost var counted := constraints;
        for c := 0 to 9
          invariant constraints + FilledInRow(g, row, col, r, c) == counted + FilledInRow(g, row, col, r, 0)
        {
          if Peer(r, c, row, col) && board[r][c] != 0 {
            constraints := constraints + 1;
          }
        }
      }
    }

    /** Minimum remaining values with the degree as tie-break: None exactly when the board is
        full, otherwise the empty cell with the shortest domain, among those the one with most
        filled peers, and among those the first in row-major order. */
    method SelectUnassignedVariable() returns (selected: Option<(int, int)>)
      requires Valid()
      ensures selected.None? <==> Complete(board)
      ensures selected.Some? ==>
        InRange(selected.value.0, selected.value.1) && IsChoice(board, domains, selected.value.0, selected.value.1)
    {
      var minRemaining := 10;
      var maxDegree: int := -1;
      selected := None;
      for row := 0 to 9
        invariant ScanState(board, domains, selected, minRemaining, maxDegree, Index(row, 0))
      {
        for col := 0 to 9
          invariant ScanState(board, domains, selected, minRemaining, maxDegree, Index(row, col))
        {
          ScanStep(board, domains, selected, minRemaining, maxDegree, row, col);
          if board[row][col] == 0 {
            var remaining := |domains[row][col]|;
            var degree := CountConstraints(row, col);
            if remaining < minRemaining || (remaining == minRemaining && degree > maxDegree) {
              minRemaining, maxDegree := remaining, degree;
              selected := Some((row, col));
            }
          }
        }
      }
      ScanDone(board, domains, selected, minRemaining, maxDegree);
    }

    /** The search: picks the cell the heuristic prefers and tries each of its candidates in
        ascending order, undoing each failed attempt; succeeds at once on a full board. */
    method Solve() returns (solved: bool)
      requires Valid()
      modifies this
      decreases Zeros(board), 1
      ensures Valid()
      ensures solved ==> Complete(board) && Zeros(board) == 0
      ensures !solved ==> board == old(board)
      ensures forall r, c :: 0 <= r < 9 && 0 <= c < 9 && old(board)[r][c] != 0 ==> board[r][c] == old(board)[r][c]
      ensures Consistent(old(board), hdots, vdots) ==> Consistent(board, hdots, vdots)
      ensures Complete(old(board)) ==> solved && board == old(board)
      ensures old(Covers()) ==> Covers()
    {
      var selectedCell := SelectUnassignedVariable();
      if selectedCell.None? {
        ZerosZeroIffComplete(board);
        return true;
      }
      var (row, col) := selectedCell.value;
      // The domain is strictly ascending, so sorting it gives the same list.
      var candidates := domains[row][col];
      ghost var g0 := board;
      ghost var covered := Covers();
      for i := 0 to |candidates|
        invariant Valid() && board == g0
        invariant covered ==> Covers()
      {
        var found := TryValue(row, col, candidates[i]);
        if found {
          ZerosZeroIffComplete(board);
          return true;
        }
      }
      return false;
    }

    /** One attempt of the search at the empty cell (row, col): if `num` is legal there it is
        written, forward checking runs, and on success the search goes on; if that fails the cell
        is emptied again and the domains around it are recomputed. */
    method TryValue(row: int, col: int, num: int) returns (found: bool)
      requires Valid() && InRange(row, col) && board[row][col] == 0 && 1 <= num <= 9
      modifies this
      decreases Zeros(board), 0
      ensures Valid()
      ensures found ==> Complete(board)
      ensures !found ==> board == old(board)
      ensures forall r, c :: 0 <= r < 9 && 0 <= c < 9 && old(board)[r][c] != 0 ==> board[r][c] == old(board)[r][c]
      ensures Consistent(old(board), hdots, vdots) ==> Consistent(board, hdots, vdots)
      ensures old(Covers()) ==> Covers()
    {
      ghost var g0 := board;
      ghost var covered := Covers();
      if IsValidAssignment(board, hdots, vdots, row, col, num) {
        board := Place(board, row, col, num);
        if covered {
          PlaceKeepsCover(domains, g0, hdots, vdots, row, col, num);
        }
        var ok := ForwardCheck(row, col, num);
        if ok {
          PlaceFillsOneCell(g0, row, col, num);
          found := Solve();
          if found {
            if Consistent(g0, hdots, vdots) {
              PlaceKeepsConsistent(g0, hdots, vdots, row, col, num);
            }
            return;
          }
        }
        PlaceUndo(g0, row, col, num);
        board := Place(board, row, col, 0);
        RestoreDomains(row, col, num);
      }
      return false;
    }
  }
}
