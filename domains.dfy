/** Candidate lists ("domains"): how they start, how forward checking prunes them and how they are
    recomputed after a backtrack. Every list the solver builds is strictly ascending within 1..9. */
module Domains {
  import opened Rules

  predicate Ascending(s: seq<int>) {
    forall i, j :: 0 <= i < j < |s| ==> s[i] < s[j]
  }

  /** The shape every domain keeps: strictly ascending, each value within 1..9. */
  predicate IsDomain(d: seq<int>) {
    Ascending(d) && forall i :: 0 <= i < |d| ==> 1 <= d[i] <= 9
  }

  lemma {:induction false} AscendingWithinBound(d: seq<int>, lo: int)
    requires Ascending(d) && forall i :: 0 <= i < |d| ==> lo <= d[i] <= 9
    ensures |d| <= if lo <= 10 then 10 - lo else 0
  {
    if d != [] {
      assert forall i :: 0 <= i < |d| - 1 ==> d[1..][i] == d[i + 1];
      AscendingWithinBound(d[1..], d[0] + 1);
    }
  }

  /** A domain never lists more than the nine digits. */
  lemma DomainAtMostNine(d: seq<int>)
    requires IsDomain(d)
    ensures |d| <= 9
  {
    AscendingWithinBound(d, 1);
  }

  /** `range(lo, hi)`: the integers lo, lo + 1, ..., hi - 1. */
  function Range(lo: int, hi: int): (r: seq<int>)
    decreases hi - lo
    ensures |r| == if lo <= hi then hi - lo else 0
    ensures forall i :: 0 <= i < |r| ==> r[i] == lo + i
  {
    if lo >= hi then [] else [lo] + Range(lo + 1, hi)
  }

  lemma DigitsAreDomain()
    ensures IsDomain(Range(1, 10))
    ensures forall x :: x in Range(1, 10) <==> 1 <= x <= 9
  {
    var r := Range(1, 10);
    forall x | 1 <= x <= 9 ensures x in r {
      assert r[x - 1] == x;
    }
  }

  lemma AscendingTail(s: seq<int>)
    requires s != []
    ensures Ascending(s) ==> Ascending(s[1..]) && forall x :: x in s[1..] ==> s[0] < x
  {
    if Ascending(s) {
      forall x | x in s[1..] ensures s[0] < x {
        var k :| 0 <= k < |s| - 1 && s[1..][k] == x;
        assert s[k + 1] == x;
      }
    }
  }

  /** A list comprehension `[x for x in s if keep(x)]`. */
  function Filter(s: seq<int>, keep: int -> bool): (r: seq<int>)
    ensures forall x :: x in r <==> x in s && keep(x)
    ensures |r| <= |s|
    ensures Ascending(s) ==> Ascending(r)
    ensures IsDomain(s) ==> IsDomain(r)
  {
    if s == [] then []
    else
      var rest := Filter(s[1..], keep);
      assert s == [s[0]] + s[1..];
      AscendingTail(s);
      AscendingCons(s[0], rest);
      if keep(s[0]) then [s[0]] + rest else rest
  }

  lemma AscendingCons(x: int, s: seq<int>)
    ensures Ascending(s) && (forall y :: y in s ==> x < y) ==> Ascending([x] + s)
  {
    if Ascending(s) && forall y :: y in s ==> x < y {
      var t := [x] + s;
      forall i, j | 0 <= i < j < |t| ensures t[i] < t[j] {
        if i == 0 {
          assert t[j] == s[j - 1] && s[j - 1] in s;
        }
      }
    }
  }

  /** Python's `list.remove(x)`: drops the first occurrence of `x`. */
  function RemoveFirst(d: seq<int>, x: int): (r: seq<int>)
    requires x in d
    ensures |r| == |d| - 1
    ensures forall y :: y in r ==> y in d
    ensures forall y :: y in d && y != x ==> y in r
    ensures Ascending(d) ==> Ascending(r) && x !in r
    ensures IsDomain(d) ==> IsDomain(r)
  {
    assert d == [d[0]] + d[1..];
    if d[0] == x then
      AscendingTail(d);
      d[1..]
    else
      var rest := RemoveFirst(d[1..], x);
      AscendingTail(d);
      AscendingCons(d[0], rest);
      [d[0]] + rest
  }

  /** The pruning a dot imposes on the domain of the cell across it from a cell just given `num`:
      a white dot (1) keeps the values one away from `num`, a black dot (2) keeps its double and
      its half, and any other dot leaves the list as it is. */
  function DotFilter(d: seq<int>, num: int, dot: int): (r: seq<int>)
    ensures forall y :: y in r <==> y in d && DotHolds(dot, y, num)
    ensures IsDomain(d) ==> IsDomain(r)
    ensures dot != 1 && dot != 2 ==> r == d
  {
    if dot == 1 then Filter(d, x => Abs(x - num) == 1)
    else if dot == 2 then Filter(d, x => x == 2 * num || num == 2 * x)
    else d
  }

  /** The initial domain of a cell holding `value` on the starting board: every digit when the
      cell is empty, otherwise the digits equal to its value. */
  function InitialDomain(value: int): (d: seq<int>)
    ensures IsDomain(d)
    ensures value == 0 ==> d == Range(1, 10)
    ensures forall x :: x in d <==> 1 <= x <= 9 && (value == 0 || value == x)
  {
    DigitsAreDomain();
    assert value == 0 ==> Filter(Range(1, 10), x => value == 0 || value == x) == Range(1, 10) by {
      if value == 0 {
        FilterAll(Range(1, 10), x => value == 0 || value == x);
      }
    }
    Filter(Range(1, 10), x => value == 0 || value == x)
  }

  lemma {:induction false} FilterAll(s: seq<int>, keep: int -> bool)
    requires forall x :: x in s ==> keep(x)
    ensures Filter(s, keep) == s
  {
    if s != [] {
      var head := s[0];
      assert head in s;
      assert keep(head);
      assert forall x :: x in s[1..] ==> x in s;
      FilterAll(s[1..], keep);
      assert s == [head] + s[1..];
    }
  }

  /** `[x for x in range(1, 10) if is_valid_assignment(r, c, x)]`: the ascending list of the
      digits legal at (r, c) on board g. */
  function LegalValues(g: Grid, h: Grid, v: Grid, r: int, c: int): (d: seq<int>)
    requires Shaped(g, h, v) && InRange(r, c)
    ensures IsDomain(d)
    ensures forall x :: x in d <==> 1 <= x <= 9 && IsValidAssignment(g, h, v, r, c, x)
  {
    DigitsAreDomain();
    Filter(Range(1, 10), x => IsValidAssignment(g, h, v, r, c, x))
  }

  /** The domain of cell (r, c) once forward checking has run for `num` placed at (row, col):
      `g` is the board after the placement and `d` the cell's domain before. An empty peer loses
      `num`; an empty cell across a dot from (row, col) is then filtered by that dot. */
  function Pruned(g: Grid, h: Grid, v: Grid, d: seq<int>, r: int, c: int, row: int, col: int, num: int): (p: seq<int>)
    requires Shaped(g, h, v) && InRange(r, c) && InRange(row, col)
    ensures IsDomain(d) ==> IsDomain(p)
    ensures IsDomain(d) ==> forall y :: y in p ==> y in d
  {
    if g[r][c] != 0 then d
    else
      var d1 := if Peer(r, c, row, col) && num in d then RemoveFirst(d, num) else d;
      if Adjacent(row, col, r, c) then DotFilter(d1, num, DotBetween(h, v, row, col, r, c)) else d1
  }

  /** The cells forward checking records as affected: empty peers whose domain held `num`, and every
      empty cell adjacent to (row, col), whatever its dot. */
  predicate Recorded(g: Grid, d: seq<int>, r: int, c: int, row: int, col: int, num: int)
    requires IsGrid(g, 9, 9) && InRange(r, c)
  {
    g[r][c] == 0 && ((Peer(r, c, row, col) && num in d) || Adjacent(row, col, r, c))
  }

  /** Forward checking takes `num` out of every empty peer's domain, and an empty cell across a dot
      keeps only values in the dot's relation to `num`; filled cells keep their domain. */
  lemma ForwardCheckPrunes(g: Grid, h: Grid, v: Grid, d: seq<int>, r: int, c: int, row: int, col: int, num: int)
    requires Shaped(g, h, v) && InRange(r, c) && InRange(row, col) && IsDomain(d)
    ensures g[r][c] != 0 ==> Pruned(g, h, v, d, r, c, row, col, num) == d
    ensures g[r][c] == 0 && Peer(r, c, row, col) ==> num !in Pruned(g, h, v, d, r, c, row, col, num)
    ensures g[r][c] == 0 && Adjacent(row, col, r, c) ==>
      forall y :: y in Pruned(g, h, v, d, r, c, row, col, num) ==> DotHolds(DotBetween(h, v, row, col, r, c), y, num)
  {
  }

  /** Forward checking never removes a legal value: after a nonzero `num` is placed at (row, col),
      every value of an empty cell's domain that is still legal there survives the pruning. */
  lemma {:induction false} ForwardCheckKeepsLegal(g: Grid, h: Grid, v: Grid, d: seq<int>, r: int, c: int,
                                                   row: int, col: int, num: int, x: int)
    requires Shaped(g, h, v) && InRange(r, c) && InRange(row, col) && IsDomain(d)
    requires g[row][col] == num && num != 0 && g[r][c] == 0
    requires x in d && IsValidAssignment(g, h, v, r, c, x)
    ensures x in Pruned(g, h, v, d, r, c, row, col, num)
  {
    ValidIffAdmissible(g, h, v, r, c, x);
    if Peer(r, c, row, col) {
      assert Peer(r, c, row, col);
      assert x != num;
    }
    if Adjacent(row, col, r, c) {
      assert Adjacent(r, c, row, col);
      assert DotBetween(h, v, r, c, row, col) == DotBetween(h, v, row, col, r, c);
    }
  }

  /** Per-cell domains of the whole board, as a 9×9 snapshot. */
  predicate IsDomainGrid(doms: seq<seq<seq<int>>>) {
    |doms| == 9 && forall r :: 0 <= r < 9 ==> |doms[r]| == 9
  }

  /** The domains with the one at (r, c) replaced by `d`. */
  function SetDomain(doms: seq<seq<seq<int>>>, r: int, c: int, d: seq<int>): (doms': seq<seq<seq<int>>>)
    requires IsDomainGrid(doms) && InRange(r, c)
    ensures IsDomainGrid(doms') && doms'[r][c] == d
    ensures forall r2, c2 :: 0 <= r2 < 9 && 0 <= c2 < 9 && (r2 != r || c2 != c) ==> doms'[r2][c2] == doms[r2][c2]
  {
    doms[r := doms[r][c := d]]
  }

  /** The domains never lose a legal value: every digit that may go into an empty cell of `g` is
      listed in that cell's domain. */
  ghost predicate CoversLegal(doms: seq<seq<seq<int>>>, g: Grid, h: Grid, v: Grid)
    requires IsDomainGrid(doms) && Shaped(g, h, v)
  {
    forall r, c, x ::
      (0 <= r < 9 && 0 <= c < 9 && g[r][c] == 0 && 1 <= x <= 9 && IsValidAssignment(g, h, v, r, c, x)) ==>
      x in doms[r][c]
  }

  /** Initially every empty cell may take any digit, so the initial domains cover the legal values. */
  lemma InitialDomainsCover(doms: seq<seq<seq<int>>>, g: Grid, h: Grid, v: Grid)
    requires IsDomainGrid(doms) && Shaped(g, h, v)
    requires forall r, c :: 0 <= r < 9 && 0 <= c < 9 ==> doms[r][c] == InitialDomain(g[r][c])
    ensures CoversLegal(doms, g, h, v)
  {
  }

  /** Writing a nonzero value into an empty cell keeps the domains covering the legal values. */
  lemma {:induction false} PlaceKeepsCover(doms: seq<seq<seq<int>>>, g: Grid, h: Grid, v: Grid, row: int, col: int, num: int)
    requires IsDomainGrid(doms) && Shaped(g, h, v) && InRange(row, col)
    requires CoversLegal(doms, g, h, v) && g[row][col] == 0 && num != 0
    ensures CoversLegal(doms, Place(g, row, col, num), h, v)
  {
    var g' := Place(g, row, col, num);
    forall r, c, x | 0 <= r < 9 && 0 <= c < 9 && g'[r][c] == 0 && 1 <= x <= 9 && IsValidAssignment(g', h, v, r, c, x)
      ensures x in doms[r][c]
    {
      PlaceOnlyRestricts(g, h, v, row, col, num, r, c, x);
    }
  }

  /** Forward checking after placing a nonzero `num` at (row, col) keeps the domains covering the
      legal values: it only removes values the placement made illegal. */
  lemma {:induction false} ForwardCheckKeepsCover(doms: seq<seq<seq<int>>>, doms': seq<seq<seq<int>>>, g: Grid, h: Grid, v: Grid,
                                                   row: int, col: int, num: int)
    requires IsDomainGrid(doms) && IsDomainGrid(doms') && Shaped(g, h, v) && InRange(row, col)
    requires forall r, c :: 0 <= r < 9 && 0 <= c < 9 ==> IsDomain(doms[r][c])
    requires g[row][col] == num && num != 0 && CoversLegal(doms, g, h, v)
    requires forall r, c :: 0 <= r < 9 && 0 <= c < 9 ==> doms'[r][c] == Pruned(g, h, v, doms[r][c], r, c, row, col, num)
    ensures CoversLegal(doms', g, h, v)
  {
    forall r, c, x | 0 <= r < 9 && 0 <= c < 9 && g[r][c] == 0 && 1 <= x <= 9 && IsValidAssignment(g, h, v, r, c, x)
      ensures x in doms'[r][c]
    {
      ForwardCheckKeepsLegal(g, h, v, doms[r][c], r, c, row, col, num, x);
    }
  }

  /** Undoing a placement at (row, col) and recomputing the domains of the empty cells among its
      peers restores the covering: the legality of every other cell did not depend on (row, col). */
  lemma {:induction false} RestoreKeepsCover(doms: seq<seq<seq<int>>>, doms': seq<seq<seq<int>>>, g: Grid, h: Grid, v: Grid,
                                              row: int, col: int, num: int)
    requires IsDomainGrid(doms) && IsDomainGrid(doms') && Shaped(g, h, v) && InRange(row, col)
    requires g[row][col] == 0 && CoversLegal(doms, Place(g, row, col, num), h, v)
    requires forall r, c :: 0 <= r < 9 && 0 <= c < 9 ==>
      doms'[r][c] == if g[r][c] == 0 && Peer(r, c, row, col) then LegalValues(g, h, v, r, c) else doms[r][c]
    ensures CoversLegal(doms', g, h, v)
  {
    var g' := Place(g, row, col, num);
    forall r, c, x | 0 <= r < 9 && 0 <= c < 9 && g[r][c] == 0 && 1 <= x <= 9 && IsValidAssignment(g, h, v, r, c, x)
      ensures x in doms'[r][c]
    {
      if !Peer(r, c, row, col) {
        LegalityIgnoresNonPeers(g, h, v, row, col, num, r, c, x);
        assert g'[r][c] == 0;
      }
    }
  }
}
