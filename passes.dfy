/** The cell-by-cell passes forward checking and restoring make over a board, stated on
    snapshots of the domain grid: the row, column and block pass that strips a placed value from
    the peers' domains, the dot pass over the four neighbours, the restoring pass, and the proofs
    that each pass does to each cell exactly what the solver's contracts promise. */
module Passes {
  import opened Rules
  import opened Domains

  /** The domain `d` of cell (r, c) once `num` is taken out of it, if the cell is empty and `num`
      is there (`list.remove` under the guard forward checking uses). */
  function Stripped(g: Grid, d: seq<int>, r: int, c: int, num: int): (d': seq<int>)
    requires IsGrid(g, 9, 9) && InRange(r, c)
    ensures Ascending(d) && g[r][c] == 0 ==> num !in d'
  {
    if g[r][c] == 0 && num in d then RemoveFirst(d, num) else d
  }

  /** Cells the row-and-column pass visits in its first i rounds: (row, 0..i-1) and (0..i-1, col). */
  function LineCells(row: int, col: int, i: int): set<(int, int)> {
    set r, c | 0 <= r < 9 && 0 <= c < 9 && ((r == row && c < i) || (c == col && r < i)) :: (r, c)
  }

  /** Cells visited once the row-and-column pass is over and the block pass has reached (br, bc). */
  function BlockCells(row: int, col: int, br: int, bc: int): set<(int, int)> {
    set r, c | 0 <= r < 9 && 0 <= c < 9 &&
               (r == row || c == col || (3 * (row / 3) <= r < br && 3 * (col / 3) <= c < 3 * (col / 3) + 3) ||
                (r == br && 3 * (col / 3) <= c < bc)) :: (r, c)
  }

  lemma LineCellsStep(row: int, col: int, i: int)
    requires InRange(row, col) && 0 <= i < 9
    ensures LineCells(row, col, i) + {(row, i)} + {(i, col)} == LineCells(row, col, i + 1)
  {
  }

  lemma LineCellsDone(row: int, col: int)
    requires InRange(row, col)
    ensures LineCells(row, col, 9) == BlockCells(row, col, 3 * (row / 3), 3 * (col / 3))
  {
  }

  lemma BlockCellsStep(row: int, col: int, r: int, c: int)
    requires InRange(row, col) && InRange(r, c) && 3 * (col / 3) <= c
    ensures BlockCells(row, col, r, c) + {(r, c)} == BlockCells(row, col, r, c + 1)
  {
  }

  lemma BlockRowDone(row: int, col: int, r: int)
    requires InRange(row, col) && 3 * (row / 3) <= r
    ensures BlockCells(row, col, r, 3 * (col / 3) + 3) == BlockCells(row, col, r + 1, 3 * (col / 3))
  {
  }

  /** The two passes together visit exactly the peers of (row, col). */
  lemma BlockCellsDone(row: int, col: int, r: int, c: int)
    requires InRange(row, col) && InRange(r, c)
    ensures (r, c) in BlockCells(row, col, 3 * (row / 3) + 3, 3 * (col / 3)) <==> Peer(r, c, row, col)
  {
    BlockRange(r, row);
    BlockRange(c, col);
  }

  /** Forward checking part way through its peer pass: the cells in `done` have been visited, each
      empty one lost `num`, and `affected` lists the cells whose domain held it. */
  ghost predicate StripState(g: Grid, before: seq<seq<seq<int>>>, doms: seq<seq<seq<int>>>, done: set<(int, int)>,
                       affected: seq<(int, int)>, num: int)
    requires IsGrid(g, 9, 9) && IsDomainGrid(before)
  {
    IsDomainGrid(doms) &&
    (forall r, c :: 0 <= r < 9 && 0 <= c < 9 ==>
       doms[r][c] == if (r, c) in done then Stripped(g, before[r][c], r, c, num) else before[r][c]) &&
    (forall p :: p in affected <==> p in done && InRange(p.0, p.1) && g[p.0][p.1] == 0 && num in before[p.0][p.1])
  }

  /** Visiting one more cell of the peer pass, whether or not it was visited before. */
  lemma StripStep(g: Grid, before: seq<seq<seq<int>>>, doms: seq<seq<seq<int>>>, done: set<(int, int)>,
                  affected: seq<(int, int)>, num: int, r: int, c: int)
    requires IsGrid(g, 9, 9) && IsDomainGrid(before) && InRange(r, c)
    requires forall r, c :: 0 <= r < 9 && 0 <= c < 9 ==> IsDomain(before[r][c])
    requires StripState(g, before, doms, done, affected, num)
    ensures var strip := g[r][c] == 0 && num in doms[r][c];
      StripState(g, before, if strip then SetDomain(doms, r, c, RemoveFirst(doms[r][c], num)) else doms,
                 done + {(r, c)}, if strip then affected + [(r, c)] else affected, num)
  {
    if (r, c) in done {
      StripRevisit(g, before, doms, done, affected, num, r, c);
    } else if g[r][c] == 0 && num in doms[r][c] {
      StripRemove(g, before, doms, done, affected, num, r, c);
    } else {
      StripKeep(g, before, doms, done, affected, num, r, c);
    }
  }

  /** A cell visited before has already lost `num`. */
  lemma StripRevisit(g: Grid, before: seq<seq<seq<int>>>, doms: seq<seq<seq<int>>>, done: set<(int, int)>,
                     affected: seq<(int, int)>, num: int, r: int, c: int)
    requires IsGrid(g, 9, 9) && IsDomainGrid(before) && InRange(r, c) && IsDomain(before[r][c])
    requires StripState(g, before, doms, done, affected, num) && (r, c) in done
    ensures !(g[r][c] == 0 && num in doms[r][c])
    ensures StripState(g, before, doms, done + {(r, c)}, affected, num)
  {
    assert done + {(r, c)} == done;
  }

  /** A new empty cell holding `num` loses it and is recorded. */
  lemma StripRemove(g: Grid, before: seq<seq<seq<int>>>, doms: seq<seq<seq<int>>>, done: set<(int, int)>,
                    affected: seq<(int, int)>, num: int, r: int, c: int)
    requires IsGrid(g, 9, 9) && IsDomainGrid(before) && InRange(r, c)
    requires StripState(g, before, doms, done, affected, num) && (r, c) !in done
    requires g[r][c] == 0 && num in doms[r][c]
    ensures StripState(g, before, SetDomain(doms, r, c, RemoveFirst(doms[r][c], num)), done + {(r, c)}, affected + [(r, c)], num)
  {
    var doms' := SetDomain(doms, r, c, RemoveFirst(doms[r][c], num));
    var done' := done + {(r, c)};
    forall r2, c2 | 0 <= r2 < 9 && 0 <= c2 < 9
      ensures doms'[r2][c2] == if (r2, c2) in done' then Stripped(g, before[r2][c2], r2, c2, num) else before[r2][c2]
    {
      if (r2, c2) != (r, c) {
        assert doms'[r2][c2] == doms[r2][c2];
      }
    }
  }

  /** A new cell that is filled or lacks `num` is left as it is. */
  lemma StripKeep(g: Grid, before: seq<seq<seq<int>>>, doms: seq<seq<seq<int>>>, done: set<(int, int)>,
                  affected: seq<(int, int)>, num: int, r: int, c: int)
    requires IsGrid(g, 9, 9) && IsDomainGrid(before) && InRange(r, c)
    requires StripState(g, before, doms, done, affected, num) && (r, c) !in done
    requires !(g[r][c] == 0 && num in doms[r][c])
    ensures StripState(g, before, doms, done + {(r, c)}, affected, num)
  {
  }

  /** The cells listed in `cells`. */
  function Elements(cells: seq<(int, int)>): set<(int, int)> {
    set p | p in cells
  }

  /** One visit of the peer pass: `num` leaves the domain of (r, c) if the cell is empty and holds it,
      and the cell is then appended to the affected list. */
  function StripCell(g: Grid, state: (seq<seq<seq<int>>>, seq<(int, int)>), r: int, c: int, num: int)
    : (seq<seq<seq<int>>>, seq<(int, int)>)
    requires IsGrid(g, 9, 9) && IsDomainGrid(state.0)
  {
    var (doms, affected) := state;
    if InRange(r, c) && g[r][c] == 0 && num in doms[r][c]
    then (SetDomain(doms, r, c, Stripped(g, doms[r][c], r, c, num)), affected + [(r, c)])
    else state
  }

  /** The peer pass over the cells `cells`, in order, from the domains `before`. */
  function StripAll(g: Grid, before: seq<seq<seq<int>>>, cells: seq<(int, int)>, num: int)
    : (state: (seq<seq<seq<int>>>, seq<(int, int)>))
    requires IsGrid(g, 9, 9) && IsDomainGrid(before)
    ensures IsDomainGrid(state.0)
    decreases |cells|
  {
    if cells == [] then (before, [])
    else
      var last := cells[|cells| - 1];
      StripCell(g, StripAll(g, before, cells[..|cells| - 1], num), last.0, last.1, num)
  }

  lemma StripAllSnoc(g: Grid, before: seq<seq<seq<int>>>, cells: seq<(int, int)>, num: int, r: int, c: int)
    requires IsGrid(g, 9, 9) && IsDomainGrid(before)
    ensures StripAll(g, before, cells + [(r, c)], num) == StripCell(g, StripAll(g, before, cells, num), r, c, num)
    ensures Elements(cells + [(r, c)]) == Elements(cells) + {(r, c)}
  {
    assert (cells + [(r, c)])[..|cells|] == cells;
  }

  /** What the peer pass over `cells` has done: each listed cell lost `num` if empty, and the
      affected list holds exactly the listed empty cells whose domain held `num`. */
  lemma {:induction false} StripAllState(g: Grid, before: seq<seq<seq<int>>>, cells: seq<(int, int)>, num: int)
    requires IsGrid(g, 9, 9) && IsDomainGrid(before)
    requires forall r, c :: 0 <= r < 9 && 0 <= c < 9 ==> IsDomain(before[r][c])
    requires forall p :: p in cells ==> InRange(p.0, p.1)
    ensures StripState(g, before, StripAll(g, before, cells, num).0, Elements(cells), StripAll(g, before, cells, num).1, num)
    decreases |cells|
  {
    if cells == [] {
    } else {
      var init, last := cells[..|cells| - 1], cells[|cells| - 1];
      assert cells == init + [last];
      StripAllState(g, before, init, num);
      var (doms, affected) := StripAll(g, before, init, num);
      StripStep(g, before, doms, Elements(init), affected, num, last.0, last.1);
      StripAllSnoc(g, before, init, num, last.0, last.1);
    }
  }

  /** The block pass of forward checking, after the row and column pass. */
  method StripBlock(g: Grid, before: seq<seq<seq<int>>>, doms: seq<seq<seq<int>>>, affected: seq<(int, int)>,
                    ghost visited: seq<(int, int)>, row: int, col: int, num: int)
    returns (doms': seq<seq<seq<int>>>, affected': seq<(int, int)>, ghost visited': seq<(int, int)>)
    requires IsGrid(g, 9, 9) && IsDomainGrid(before) && InRange(row, col)
    requires (doms, affected) == StripAll(g, before, visited, num)
    requires Elements(visited) == BlockCells(row, col, 3 * (row / 3), 3 * (col / 3))
    ensures (doms', affected') == StripAll(g, before, visited', num)
    ensures Elements(visited') == BlockCells(row, col, 3 * (row / 3) + 3, 3 * (col / 3))
  {
    var startRow, startCol := 3 * (row / 3), 3 * (col / 3);
    doms', affected', visited' := doms, affected, visited;
    for r := startRow to startRow + 3
      invariant (doms', affected') == StripAll(g, before, visited', num)
      invariant Elements(visited') == BlockCells(row, col, r, startCol)
    {
      for c := startCol to startCol + 3
        invariant (doms', affected') == StripAll(g, before, visited', num)
        invariant Elements(visited') == BlockCells(row, col, r, c)
      {
        StripAllSnoc(g, before, visited', num, r, c);
        if g[r][c] == 0 && num in doms'[r][c] {
          doms' := SetDomain(doms', r, c, RemoveFirst(doms'[r][c], num));
          affected' := affected' + [(r, c)];
        }
        visited' := visited' + [(r, c)];
        BlockCellsStep(row, col, r, c);
      }
      BlockRowDone(row, col, r);
    }
  }

  /** The row, column and block pass of forward checking, on a copy of the domains: every empty
      peer of (row, col) loses `num`, and the cells whose domain held it are listed. */
  method StripPeers(g: Grid, before: seq<seq<seq<int>>>, row: int, col: int, num: int)
    returns (doms: seq<seq<seq<int>>>, affected: seq<(int, int)>)
    requires IsGrid(g, 9, 9) && IsDomainGrid(before) && InRange(row, col)
    requires forall r, c :: 0 <= r < 9 && 0 <= c < 9 ==> IsDomain(before[r][c])
    ensures StripState(g, before, doms, BlockCells(row, col, 3 * (row / 3) + 3, 3 * (col / 3)), affected, num)
  {
    affected := [];
    doms := before;
    ghost var visited: seq<(int, int)> := [];

    for i := 0 to 9
      invariant (doms, affected) == StripAll(g, before, visited, num)
      invariant Elements(visited) == LineCells(row, col, i)
    {
      StripAllSnoc(g, before, visited, num, row, i);
      if g[row][i] == 0 && num in doms[row][i] {
        doms := SetDomain(doms, row, i, RemoveFirst(doms[row][i], num));
        affected := affected + [(row, i)];
      }
      visited := visited + [(row, i)];
      StripAllSnoc(g, before, visited, num, i, col);
      if g[i][col] == 0 && num in doms[i][col] {
        doms := SetDomain(doms, i, col, RemoveFirst(doms[i][col], num));
        affected := affected + [(i, col)];
      }
      visited := visited + [(i, col)];
      LineCellsStep(row, col, i);
    }

    LineCellsDone(row, col);
    doms, affected, visited := StripBlock(g, before, doms, affected, visited, row, col, num);
    assert forall p :: p in visited ==> p in Elements(visited);
    StripAllState(g, before, visited, num);
  }

  /** One visit of the restoring pass: an empty cell (r, c) gets back every digit legal on `g`. */
  function RestoreCell(g: Grid, h: Grid, v: Grid, doms: seq<seq<seq<int>>>, r: int, c: int): (doms': seq<seq<seq<int>>>)
    requires Shaped(g, h, v) && IsDomainGrid(doms)
    ensures IsDomainGrid(doms')
  {
    if InRange(r, c) && g[r][c] == 0 then SetDomain(doms, r, c, LegalValues(g, h, v, r, c)) else doms
  }

  /** The restoring pass over the cells `cells`, in order, from the domains `before`. */
  function RestoreAll(g: Grid, h: Grid, v: Grid, before: seq<seq<seq<int>>>, cells: seq<(int, int)>): (doms: seq<seq<seq<int>>>)
    requires Shaped(g, h, v) && IsDomainGrid(before)
    ensures IsDomainGrid(doms)
    decreases |cells|
  {
    if cells == [] then before
    else
      var last := cells[|cells| - 1];
      RestoreCell(g, h, v, RestoreAll(g, h, v, before, cells[..|cells| - 1]), last.0, last.1)
  }

  lemma RestoreAllSnoc(g: Grid, h: Grid, v: Grid, before: seq<seq<seq<int>>>, cells: seq<(int, int)>, r: int, c: int)
    requires Shaped(g, h, v) && IsDomainGrid(before)
    ensures RestoreAll(g, h, v, before, cells + [(r, c)]) == RestoreCell(g, h, v, RestoreAll(g, h, v, before, cells), r, c)
    ensures Elements(cells + [(r, c)]) == Elements(cells) + {(r, c)}
  {
    assert (cells + [(r, c)])[..|cells|] == cells;
  }

  /** The restoring pass over `cells` recomputes the domain of each listed empty cell and leaves
      every other domain alone, whatever the order and repetitions of `cells`. */
  lemma {:induction false} RestoreAllCells(g: Grid, h: Grid, v: Grid, before: seq<seq<seq<int>>>, cells: seq<(int, int)>)
    requires Shaped(g, h, v) && IsDomainGrid(before)
    ensures forall r, c :: 0 <= r < 9 && 0 <= c < 9 ==>
      RestoreAll(g, h, v, before, cells)[r][c] ==
        if (r, c) in Elements(cells) && g[r][c] == 0 then LegalValues(g, h, v, r, c) else before[r][c]
    decreases |cells|
  {
    if cells != [] {
      var init, last := cells[..|cells| - 1], cells[|cells| - 1];
      assert cells == init + [last];
      RestoreAllCells(g, h, v, before, init);
      RestoreAllSnoc(g, h, v, before, init, last.0, last.1);
    }
  }

  /** Once the restoring pass has visited the row, column and block of (row, col), exactly the empty
      peers of (row, col) hold their legal digits. */
  lemma RestorePeersResult(g: Grid, h: Grid, v: Grid, before: seq<seq<seq<int>>>, cells: seq<(int, int)>, row: int, col: int)
    requires Shaped(g, h, v) && IsDomainGrid(before) && InRange(row, col)
    requires Elements(cells) == BlockCells(row, col, 3 * (row / 3) + 3, 3 * (col / 3))
    ensures forall r, c :: 0 <= r < 9 && 0 <= c < 9 ==>
      RestoreAll(g, h, v, before, cells)[r][c] ==
        if g[r][c] == 0 && Peer(r, c, row, col) then LegalValues(g, h, v, r, c) else before[r][c]
  {
    RestoreAllCells(g, h, v, before, cells);
    forall r, c | 0 <= r < 9 && 0 <= c < 9
      ensures (r, c) in Elements(cells) <==> Peer(r, c, row, col)
    {
      BlockCellsDone(row, col, r, c);
    }
  }

  /** The block pass of restoring, after the row and column pass. */
  method RestoreBlock(g: Grid, h: Grid, v: Grid, ghost before: seq<seq<seq<int>>>, doms: seq<seq<seq<int>>>,
                      ghost visited: seq<(int, int)>, row: int, col: int)
    returns (doms': seq<seq<seq<int>>>, ghost visited': seq<(int, int)>)
    requires Shaped(g, h, v) && IsDomainGrid(before) && InRange(row, col)
    requires doms == RestoreAll(g, h, v, before, visited)
    requires Elements(visited) == BlockCells(row, col, 3 * (row / 3), 3 * (col / 3))
    ensures doms' == RestoreAll(g, h, v, before, visited')
    ensures Elements(visited') == BlockCells(row, col, 3 * (row / 3) + 3, 3 * (col / 3))
  {
    var startRow, startCol := 3 * (row / 3), 3 * (col / 3);
    doms', visited' := doms, visited;
    for r := startRow to startRow + 3
      invariant doms' == RestoreAll(g, h, v, before, visited')
      invariant Elements(visited') == BlockCells(row, col, r, startCol)
    {
      for c := startCol to startCol + 3
        invariant doms' == RestoreAll(g, h, v, before, visited')
        invariant Elements(visited') == BlockCells(row, col, r, c)
      {
        RestoreAllSnoc(g, h, v, before, visited', r, c);
        if g[r][c] == 0 {
          doms' := SetDomain(doms', r, c, LegalValues(g, h, v, r, c));
        }
        visited' := visited' + [(r, c)];
        BlockCellsStep(row, col, r, c);
      }
      BlockRowDone(row, col, r);
    }
  }

  /** The row, column and block pass of restoring, on a copy of the domains: every empty peer of
      (row, col) gets back the digits legal on `g`. */
  method RestorePeers(g: Grid, h: Grid, v: Grid, before: seq<seq<seq<int>>>, row: int, col: int)
    returns (doms: seq<seq<seq<int>>>)
    requires Shaped(g, h, v) && IsDomainGrid(before) && InRange(row, col)
    ensures IsDomainGrid(doms)
    ensures forall r, c :: 0 <= r < 9 && 0 <= c < 9 ==>
      doms[r][c] == if g[r][c] == 0 && Peer(r, c, row, col) then LegalValues(g, h, v, r, c) else before[r][c]
  {
    doms := before;
    ghost var visited: seq<(int, int)> := [];
    for i := 0 to 9
      invariant doms == RestoreAll(g, h, v, before, visited)
      invariant Elements(visited) == LineCells(row, col, i)
    {
      RestoreAllSnoc(g, h, v, before, visited, row, i);
      if g[row][i] == 0 {
        doms := SetDomain(doms, row, i, LegalValues(g, h, v, row, i));
      }
      visited := visited + [(row, i)];
      RestoreAllSnoc(g, h, v, before, visited, i, col);
      if g[i][col] == 0 {
        doms := SetDomain(doms, i, col, LegalValues(g, h, v, i, col));
      }
      visited := visited + [(i, col)];
      LineCellsStep(row, col, i);
    }

    LineCellsDone(row, col);
    doms, visited := RestoreBlock(g, h, v, before, doms, visited, row, col);
    RestorePeersResult(g, h, v, before, visited, row, col);
  }

  /** The domains after pruning the cell (r, c), if it is on the board and empty, by the dot `dot`
      across from a cell given `num`. */
  function DotStep(g: Grid, doms: seq<seq<seq<int>>>, r: int, c: int, num: int, dot: int): (doms': seq<seq<seq<int>>>)
    requires IsGrid(g, 9, 9) && IsDomainGrid(doms)
    ensures IsDomainGrid(doms')
  {
    if InRange(r, c) && g[r][c] == 0 then SetDomain(doms, r, c, DotFilter(doms[r][c], num, dot)) else doms
  }

  /** The affected list after (r, c) is recorded, if it is on the board and empty. */
  function DotNoted(g: Grid, affected: seq<(int, int)>, r: int, c: int): seq<(int, int)>
    requires IsGrid(g, 9, 9)
  {
    if InRange(r, c) && g[r][c] == 0 then affected + [(r, c)] else affected
  }

  /** The neighbour of (row, col) the dot pass visits at step k: right, left, below, above. */
  function Neighbour(row: int, col: int, k: int): (int, int) {
    if k == 0 then (row, col + 1) else if k == 1 then (row, col - 1) else if k == 2 then (row + 1, col) else (row - 1, col)
  }

  /** Whether (r, c) is among the first k neighbours of (row, col) the dot pass visits. */
  predicate Handled(row: int, col: int, k: nat, r: int, c: int) {
    k > 0 && (Handled(row, col, k - 1, r, c) || (r, c) == Neighbour(row, col, k - 1))
  }

  /** After its four steps the dot pass has handled exactly the cells adjacent to (row, col). */
  lemma HandledAll(row: int, col: int, r: int, c: int)
    ensures Handled(row, col, 4, r, c) <==> Adjacent(row, col, r, c)
  {
    assert Handled(row, col, 4, r, c) <==> Handled(row, col, 3, r, c) || (r, c) == (row - 1, col);
    assert Handled(row, col, 3, r, c) <==> Handled(row, col, 2, r, c) || (r, c) == (row + 1, col);
    assert Handled(row, col, 2, r, c) <==> Handled(row, col, 1, r, c) || (r, c) == (row, col - 1);
    assert Handled(row, col, 1, r, c) <==> (r, c) == (row, col + 1);
  }

  /** Forward checking after k steps of its dot pass: each handled empty cell has had the domain it
      kept after the peer pass filtered by the dot between it and (row, col), and has been appended
      to the affected list. */
  ghost predicate DotState(g: Grid, h: Grid, v: Grid, peerPass: seq<seq<seq<int>>>, doms: seq<seq<seq<int>>>,
                           k: nat, affected0: seq<(int, int)>, affected: seq<(int, int)>,
                           row: int, col: int, num: int)
    requires Shaped(g, h, v) && IsDomainGrid(peerPass) && InRange(row, col)
  {
    IsDomainGrid(doms) &&
    (forall r, c :: 0 <= r < 9 && 0 <= c < 9 ==>
       doms[r][c] == if Handled(row, col, k, r, c) && g[r][c] == 0
                     then DotFilter(peerPass[r][c], num, DotBetween(h, v, row, col, r, c)) else peerPass[r][c]) &&
    (forall p :: p in affected <==> p in affected0 || (Handled(row, col, k, p.0, p.1) && InRange(p.0, p.1) && g[p.0][p.1] == 0))
  }

  /** Step k of the dot pass: the neighbour in direction k, if it is on the board, is pruned by the
      dot between it and (row, col). */
  function DotNext(g: Grid, h: Grid, v: Grid, state: (seq<seq<seq<int>>>, seq<(int, int)>),
                   row: int, col: int, num: int, k: int): (state': (seq<seq<seq<int>>>, seq<(int, int)>))
    requires Shaped(g, h, v) && IsDomainGrid(state.0) && InRange(row, col)
    ensures IsDomainGrid(state'.0)
  {
    if k == 0 then
      if col < 8 then (DotStep(g, state.0, row, col + 1, num, h[row][col]), DotNoted(g, state.1, row, col + 1)) else state
    else if k == 1 then
      if col > 0 then (DotStep(g, state.0, row, col - 1, num, h[row][col - 1]), DotNoted(g, state.1, row, col - 1)) else state
    else if k == 2 then
      if row < 8 then (DotStep(g, state.0, row + 1, col, num, v[row][col]), DotNoted(g, state.1, row + 1, col)) else state
    else
      if row > 0 then (DotStep(g, state.0, row - 1, col, num, v[row - 1][col]), DotNoted(g, state.1, row - 1, col)) else state
  }

  /** The dot pass of forward checking from the domains `doms`. */
  function DotPass(g: Grid, h: Grid, v: Grid, doms: seq<seq<seq<int>>>, affected: seq<(int, int)>,
                   row: int, col: int, num: int): (seq<seq<seq<int>>>, seq<(int, int)>)
    requires Shaped(g, h, v) && IsDomainGrid(doms) && InRange(row, col)
  {
    var s1 := DotNext(g, h, v, (doms, affected), row, col, num, 0);
    var s2 := DotNext(g, h, v, s1, row, col, num, 1);
    var s3 := DotNext(g, h, v, s2, row, col, num, 2);
    DotNext(g, h, v, s3, row, col, num, 3)
  }

  /** Pruning the neighbour visited at step k, when it is on the board. */
  lemma DotVisit(g: Grid, h: Grid, v: Grid, peerPass: seq<seq<seq<int>>>, doms: seq<seq<seq<int>>>,
                 affected0: seq<(int, int)>, affected: seq<(int, int)>, row: int, col: int, num: int, k: nat)
    requires Shaped(g, h, v) && IsDomainGrid(peerPass) && InRange(row, col) && k < 4
    requires InRange(Neighbour(row, col, k).0, Neighbour(row, col, k).1)
    requires DotState(g, h, v, peerPass, doms, k, affected0, affected, row, col, num)
    ensures var (r, c) := Neighbour(row, col, k);
      DotState(g, h, v, peerPass, DotStep(g, doms, r, c, num, DotBetween(h, v, row, col, r, c)), k + 1, affected0,
               DotNoted(g, affected, r, c), row, col, num)
  {
    var (r, c) := Neighbour(row, col, k);
    assert !Handled(row, col, k, r, c) by {
      if k > 0 { assert !Handled(row, col, k - 1, r, c) by { if k > 1 { assert !Handled(row, col, k - 2, r, c) by { if k > 2 { assert !Handled(row, col, k - 3, r, c); } } } } }
    }
    var doms' := DotStep(g, doms, r, c, num, DotBetween(h, v, row, col, r, c));
    forall r2, c2 | 0 <= r2 < 9 && 0 <= c2 < 9
      ensures doms'[r2][c2] == if Handled(row, col, k + 1, r2, c2) && g[r2][c2] == 0
                               then DotFilter(peerPass[r2][c2], num, DotBetween(h, v, row, col, r2, c2)) else peerPass[r2][c2]
    {
      if (r2, c2) == (r, c) {
      } else {
        assert doms'[r2][c2] == doms[r2][c2];
      }
    }
  }

  /** Skipping the neighbour of step k, when it is off the board. */
  lemma DotSkip(g: Grid, h: Grid, v: Grid, peerPass: seq<seq<seq<int>>>, doms: seq<seq<seq<int>>>,
                affected0: seq<(int, int)>, affected: seq<(int, int)>, row: int, col: int, num: int, k: nat)
    requires Shaped(g, h, v) && IsDomainGrid(peerPass) && InRange(row, col) && k < 4
    requires !InRange(Neighbour(row, col, k).0, Neighbour(row, col, k).1)
    requires DotState(g, h, v, peerPass, doms, k, affected0, affected, row, col, num)
    ensures DotState(g, h, v, peerPass, doms, k + 1, affected0, affected, row, col, num)
  {
  }

  /** One step of the dot pass handles one more neighbour. */
  lemma DotNextState(g: Grid, h: Grid, v: Grid, peerPass: seq<seq<seq<int>>>, state: (seq<seq<seq<int>>>, seq<(int, int)>),
                     affected0: seq<(int, int)>, row: int, col: int, num: int, k: nat)
    requires Shaped(g, h, v) && IsDomainGrid(peerPass) && InRange(row, col) && k < 4
    requires DotState(g, h, v, peerPass, state.0, k, affected0, state.1, row, col, num)
    ensures DotState(g, h, v, peerPass, DotNext(g, h, v, state, row, col, num, k).0, k + 1, affected0,
                     DotNext(g, h, v, state, row, col, num, k).1, row, col, num)
  {
    var (r, c) := Neighbour(row, col, k);
    if !InRange(r, c) {
      DotSkip(g, h, v, peerPass, state.0, affected0, state.1, row, col, num, k);
    } else if k == 0 {
      DotVisit(g, h, v, peerPass, state.0, affected0, state.1, row, col, num, k);
      assert DotBetween(h, v, row, col, r, c) == h[row][col];
    } else if k == 1 {
      DotVisit(g, h, v, peerPass, state.0, affected0, state.1, row, col, num, k);
      assert DotBetween(h, v, row, col, r, c) == h[row][col - 1];
    } else if k == 2 {
      DotVisit(g, h, v, peerPass, state.0, affected0, state.1, row, col, num, k);
      assert DotBetween(h, v, row, col, r, c) == v[row][col];
    } else {
      DotVisit(g, h, v, peerPass, state.0, affected0, state.1, row, col, num, k);
      assert DotBetween(h, v, row, col, r, c) == v[row - 1][col];
    }
  }

  /** The dot pass filters exactly the empty neighbours of (row, col), each by the dot between it
      and (row, col), and appends exactly those cells to the affected list. */
  lemma DotPassState(g: Grid, h: Grid, v: Grid, doms: seq<seq<seq<int>>>, affected: seq<(int, int)>,
                     row: int, col: int, num: int)
    requires Shaped(g, h, v) && IsDomainGrid(doms) && InRange(row, col)
    ensures DotState(g, h, v, doms, DotPass(g, h, v, doms, affected, row, col, num).0, 4,
                     affected, DotPass(g, h, v, doms, affected, row, col, num).1, row, col, num)
  {
    var s0 := (doms, affected);
    DotNextState(g, h, v, doms, s0, affected, row, col, num, 0);
    var s1 := DotNext(g, h, v, s0, row, col, num, 0);
    DotNextState(g, h, v, doms, s1, affected, row, col, num, 1);
    var s2 := DotNext(g, h, v, s1, row, col, num, 1);
    DotNextState(g, h, v, doms, s2, affected, row, col, num, 2);
    var s3 := DotNext(g, h, v, s2, row, col, num, 2);
    DotNextState(g, h, v, doms, s3, affected, row, col, num, 3);
  }

  /** The peer pass followed by the dot pass over the four neighbours gives every cell its pruned
      domain, and records exactly the cells forward checking is to test. */
  lemma ForwardCheckResult(g: Grid, h: Grid, v: Grid, before: seq<seq<seq<int>>>, peerPass: seq<seq<seq<int>>>,
                           peerAffected: seq<(int, int)>, doms: seq<seq<seq<int>>>,
                           affected: seq<(int, int)>, row: int, col: int, num: int)
    requires Shaped(g, h, v) && IsDomainGrid(before) && InRange(row, col)
    requires StripState(g, before, peerPass, BlockCells(row, col, 3 * (row / 3) + 3, 3 * (col / 3)), peerAffected, num)
    requires DotState(g, h, v, peerPass, doms, 4, peerAffected, affected, row, col, num)
    ensures IsDomainGrid(doms)
    ensures forall r, c :: 0 <= r < 9 && 0 <= c < 9 ==> doms[r][c] == Pruned(g, h, v, before[r][c], r, c, row, col, num)
    ensures forall p :: p in affected <==> InRange(p.0, p.1) && Recorded(g, before[p.0][p.1], p.0, p.1, row, col, num)
    ensures forall j :: 0 <= j < |affected| ==> InRange(affected[j].0, affected[j].1)
  {
    forall r, c | 0 <= r < 9 && 0 <= c < 9
      ensures doms[r][c] == Pruned(g, h, v, before[r][c], r, c, row, col, num)
    {
      BlockCellsDone(row, col, r, c);
      HandledAll(row, col, r, c);
    }
    forall p
      ensures p in affected <==> InRange(p.0, p.1) && Recorded(g, before[p.0][p.1], p.0, p.1, row, col, num)
    {
      if InRange(p.0, p.1) {
        BlockCellsDone(row, col, p.0, p.1);
        HandledAll(row, col, p.0, p.1);
      }
    }
  }

  /** Some cell of the affected list has an empty domain exactly when some recorded cell has. */
  lemma EmptyRecorded(g: Grid, before: seq<seq<seq<int>>>, doms: seq<seq<seq<int>>>, affected: seq<(int, int)>,
                      row: int, col: int, num: int)
    requires IsGrid(g, 9, 9) && IsDomainGrid(before) && IsDomainGrid(doms)
    requires forall p :: p in affected <==> InRange(p.0, p.1) && Recorded(g, before[p.0][p.1], p.0, p.1, row, col, num)
    requires forall j :: 0 <= j < |affected| ==> InRange(affected[j].0, affected[j].1)
    ensures (exists j :: 0 <= j < |affected| && InRange(affected[j].0, affected[j].1) && doms[affected[j].0][affected[j].1] == []) <==>
            (exists r, c :: 0 <= r < 9 && 0 <= c < 9 && Recorded(g, before[r][c], r, c, row, col, num) && doms[r][c] == [])
  {
    if exists r, c :: 0 <= r < 9 && 0 <= c < 9 && Recorded(g, before[r][c], r, c, row, col, num) && doms[r][c] == [] {
      var r, c :| 0 <= r < 9 && 0 <= c < 9 && Recorded(g, before[r][c], r, c, row, col, num) && doms[r][c] == [];
      assert (r, c) in affected;
      var j :| 0 <= j < |affected| && affected[j] == (r, c);
    }
    if exists j :: 0 <= j < |affected| && doms[affected[j].0][affected[j].1] == [] {
      var j :| 0 <= j < |affected| && doms[affected[j].0][affected[j].1] == [];
      assert affected[j] in affected;
    }
  }

  /** The final scan of forward checking: whether some cell of the affected list, in order, has
      been left with no candidate. */
  method HasEmptyDomain(doms: seq<seq<seq<int>>>, affected: seq<(int, int)>) returns (wiped: bool)
    requires IsDomainGrid(doms)
    requires forall j :: 0 <= j < |affected| ==> InRange(affected[j].0, affected[j].1)
    ensures wiped <==> exists j :: 0 <= j < |affected| && InRange(affected[j].0, affected[j].1) &&
                                   doms[affected[j].0][affected[j].1] == []
  {
    for k := 0 to |affected|
      invariant forall j :: 0 <= j < k ==> doms[affected[j].0][affected[j].1] != []
    {
      var (r, c) := affected[k];
      if doms[r][c] == [] {
        return true;
      }
    }
    return false;
  }
}
