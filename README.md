# Kropki Sudoku solver — a verified model

This project models the `KropkiSudoku` class of `kropki.py`: a backtracking solver for Kropki
Sudoku. A board is a 9×9 grid of digits, where 0 marks an empty cell. A 9×8 grid holds the
horizontal dots and an 8×9 grid holds the vertical dots. A white dot (1) means the two cells
differ by one. A black dot (2) means one cell holds twice the other. Any other dot value
constrains nothing.

The solver keeps a candidate list ("domain") for every cell. It chooses the next cell with the
minimum-remaining-values heuristic and breaks ties by degree, the number of filled peers. It
tries each candidate that passes the legality check. After each placement, forward checking
prunes the domains of the peers and of the neighbours across dots. After each failed attempt,
the cell is emptied and the domains of its peers are recomputed.

The model has five modules:

- `Rules` holds the legality check `is_valid_assignment` as written. It also gives an
  independent reference definition (`Admissible`: no peer holds the value, and every filled
  neighbour respects the dot between them) and proves the two equal. It defines board
  consistency and completeness, and the count of empty cells that measures the search.
- `Domains` holds the candidate lists. It defines how they start, Python's `list.remove`, the
  dot filters and the recomputed legal values. `Pruned` states, cell by cell, what forward
  checking leaves. `CoversLegal` is the invariant that no legal digit of an empty cell is ever
  missing from its domain.
- `Heuristics` holds the degree count, the proof that it is at most 21, and the exact
  characterisation of the cell the selection scan picks.
- `Passes` holds the loops of forward checking and of restoring. Each runs on a copy of the
  domain grid and is proved against a fold function, which states what the pass does to each
  cell.
- `Solver` holds the class `KropkiSudoku`. Its fields are `board` and `domains`, which the
  methods update, and the two dot grids. Its methods are the source's methods.

The search is proved sound and terminating:

- a `true` result means the board is full;
- pre-filled cells are never changed;
- a consistent board stays consistent;
- a `false` result leaves the board exactly as it was;
- the domains keep covering every legal value, across placement, forward checking and restoring.

Termination is shown by the number of empty cells, which every recursive call lowers by one.

Two behaviours of the code that a reader might not expect, both modelled as written:

- A complete starting board is reported solved whether or not it is consistent, because the
  selection finds no empty cell and `solve` returns true at once. `Solver.KropkiSudoku.Solve`
  proves this (`Complete(old(board)) ==> solved && board == old(board)`). Its consistency
  guarantee is therefore conditional on a consistent start.
- The degree counts each filled cell once, even a cell that is in both the row and the block
  (kropki.py:331-338). It does not add the row, column and block counts separately.

## Model

| member | source | states |
|---|---|---|
| Solver.KropkiSudoku.constructor | kropki.py:179-188 | the board is the initial board, the dot grids are kept, and every cell's domain is all nine digits when it is empty and the digits equal to its value otherwise; the domains are strictly ascending within 1..9 and cover every legal value |
| Domains.InitialDomain | kropki.py:187-188 | a digit x is in the initial domain of a cell with value `value` exactly when 1 <= x <= 9 and (value == 0 or value == x); an empty cell gets 1..9 in order |
| Rules.IsValidAssignment | kropki.py:190-247 | the legality check as written: the row, column and block tests, then the four neighbour tests across nonzero dots; what it accepts is stated by `Rules.ValidIffAdmissible` |
| Rules.ValidIffAdmissible | kropki.py:190-247 | the legality check accepts `num` exactly when no cell in the same row, column or block holds it and every filled neighbour across a nonzero dot stands in that dot's relation to it (both directions) |
| Rules.PeerTestsIff | kropki.py:193-207 | the row, column and block tests together pass exactly when no peer of the cell holds `num` |
| Rules.DotTestsIff | kropki.py:209-245 | the four neighbour tests pass exactly when every filled adjacent cell satisfies the dot between it and the cell; a zero dot or an empty neighbour imposes nothing |
| Solver.KropkiSudoku.ForwardCheck | kropki.py:249-284 | the board is unchanged; every cell's new domain is `Pruned` of its old one (an empty peer loses `num`, an empty neighbour is then filtered by its dot, filled cells keep theirs); the result is false exactly when some recorded cell is left empty; the domains keep covering the legal values when `num` was just placed |
| Passes.StripPeers | kropki.py:253-267 | after the row, column and block loops every visited empty cell has lost `num` and nothing else changed; the affected list holds exactly the empty peers whose domain held `num` |
| Passes.StripBlock | kropki.py:262-267 | the block loop of the peer pass, visiting the block's cells row by row, leaves the domains and the affected list given by the peer-pass fold over every cell visited so far, and afterwards the visited cells are the row, the column and the whole block |
| Passes.StripAllState | kropki.py:253-267 | the peer pass over any list of cells, in order, strips `num` from exactly the listed empty cells and records exactly those whose domain held it |
| Domains.RemoveFirst | kropki.py:256 | `list.remove` drops one occurrence: the length falls by one, no new value appears, every other value stays, and on an ascending list the value is gone and the list stays a domain |
| Solver.KropkiSudoku.UpdateDomainWithDotConstraint | kropki.py:286-294 | an empty cell on the board has its domain filtered by the dot and is appended to the affected list, whatever the dot's type; an off-board or filled cell leaves domains and list unchanged; the board never changes |
| Domains.DotFilter | kropki.py:290-293 | after a white dot exactly the values one away from `num` remain, after a black dot exactly its double and half remain, and any other dot leaves the list unchanged |
| Solver.KropkiSudoku.PruneAcrossDots | kropki.py:269-277 | the four dot updates, right, left, below and above, run in that order on the neighbours inside the board, and leave the domains and the affected list that the fold `DotPass` describes |
| Passes.DotPassState | kropki.py:269-277 | after the four dot steps exactly the empty adjacent cells have had their domains filtered by the dot between them and `num`, and have been appended to the affected list |
| Passes.ForwardCheckResult | kropki.py:253-277 | the peer pass followed by the dot pass gives every cell its `Pruned` domain, and the affected list holds exactly the recorded cells, all inside the board |
| Passes.HasEmptyDomain | kropki.py:280-284 | the scan over the affected list finds an empty domain exactly when one exists in the list |
| Passes.EmptyRecorded | kropki.py:280-284 | an affected cell has an empty domain exactly when a recorded cell of the board has one |
| Domains.ForwardCheckPrunes | kropki.py:253-294 | after forward checking a filled cell keeps its domain, an empty peer no longer lists `num`, and every value left in an empty neighbour satisfies the dot with `num` |
| Domains.ForwardCheckKeepsLegal | kropki.py:253-294 | forward checking never removes a value that is still legal in an empty cell after `num` is placed |
| Domains.ForwardCheckKeepsCover | kropki.py:249-284 | if the domains covered every legal value before forward checking of a placed nonzero `num`, they still do after it |
| Solver.KropkiSudoku.RestoreDomains | kropki.py:296-308 | the board is unchanged; every empty cell in the row, column or block of (row, col) gets exactly its legal digits in ascending order, and every other cell keeps its domain; the cover invariant broken by the placement is re-established once the cell is reset |
| Passes.RestorePeers | kropki.py:298-308 | the row, column and block loops of restoring leave every empty peer with its legal values and every other cell as it was |
| Passes.RestoreBlock | kropki.py:304-308 | the block loop of restoring, visiting the block's cells row by row, leaves the domains given by the restoring fold over every cell visited so far, and afterwards the visited cells are the row, the column and the whole block |
| Domains.LegalValues | kropki.py:300 | a digit is in the recomputed domain exactly when it is in 1..9 and legal at the cell, and the list is a domain |
| Domains.RestoreKeepsCover | kropki.py:296-308 | undoing a placement and recomputing the peers' domains restores the cover invariant, because legality at a non-peer cell does not depend on the reset cell |
| Rules.LegalityIgnoresNonPeers | kropki.py:190-247 | rewriting a cell that is not a peer of (r, c) does not change any value's legality at (r, c) |
| Rules.PlaceOnlyRestricts | kropki.py:190-247 | filling an empty cell never makes a nonzero value legal anywhere it was illegal before |
| Domains.PlaceKeepsCover | kropki.py:348-349 | writing a nonzero value into an empty cell keeps the domains covering the legal values |
| Solver.KropkiSudoku.SelectUnassignedVariable | kropki.py:310-329 | the result is None exactly when the board is full; otherwise it is an empty cell with no other empty cell a better choice (shorter domain, or one as short with more filled peers), and strictly better than every empty cell before it in row-major order |
| Heuristics.ScanTake | kropki.py:317-327 | taking a cell that beats the current bounds keeps the scan's invariant one cell further |
| Heuristics.ScanKeep | kropki.py:317-327 | passing over a filled cell or one that does not beat the bounds keeps the scan's invariant; since a domain has at most nine values, an empty cell always beats the initial bound of 10 |
| Heuristics.ScanStep | kropki.py:319-327 | one cell of the scan, taken or passed over as the comparison of lines 323-324 decides, keeps the scan's invariant one cell further |
| Heuristics.ScanDone | kropki.py:310-329 | after all 81 cells no cell is selected exactly when the board is full, and otherwise the selection is the heuristic's pick |
| Solver.KropkiSudoku.CountConstraints | kropki.py:331-338 | the count is the number of filled cells sharing a row, a column or a block with the cell, each counted once |
| Heuristics.FilledPeersAtMost21 | kropki.py:331-338 | the degree of a cell is at most 21, the size of the union of its row, column and block |
| Solver.KropkiSudoku.Solve | kropki.py:340-356 | the domains stay well formed; true means the board is full and the count of empty cells, the termination measure, is 0; false means the board is as it was; pre-filled cells never change; a consistent board stays consistent; a full board is reported solved unchanged; the cover invariant is preserved; the recursion terminates on the number of empty cells |
| Solver.KropkiSudoku.TryValue | kropki.py:348-354 | one iteration of the candidate loop: on success the board is full, on failure the cell is empty again and the board is as before, filled cells are never changed, consistency and the cover invariant are preserved |
| Rules.PlaceKeepsConsistent | kropki.py:348-349 | writing a legal digit 1..9 into an empty cell of a consistent board keeps it consistent |
| Rules.PlaceFillsOneCell | kropki.py:349-351 | writing a nonzero value into an empty cell lowers the number of empty cells by exactly one |
| Rules.PlaceUndo | kropki.py:349-353 | resetting the cell to 0 after a placement into an empty cell gives back the board as it was |
| Rules.ZerosZeroIffComplete | kropki.py:342-344 | the board has no empty cells exactly when the count of empty cells is 0; `Solve` uses it to state that success leaves no empty cell to count |
| Domains.DomainAtMostNine | kropki.py:313-324 | a domain, strictly ascending within 1..9, has at most nine values, so every empty cell beats the initial bound of 10 |

## Left out

- Reading the input file, writing the output file, `print_solution` and `main` (kropki.py:358-403) are I/O and not part of this model. The old version commented out at the top of kropki.py is not part of this model either.
- Solver.KropkiSudoku.Solve: only soundness and termination are proved. Completeness is not proved, that is, that `false` means no solution extends the board.
- Solver.KropkiSudoku.constructor: Python copies the rows of the initial board and keeps references to the dot grids. The model works on immutable grids, so aliasing of the dot grids is not modelled.
- The length guards on the dot grids in `forward_check` (kropki.py:270-276) are dropped. The class invariant fixes the shapes of the grids (9×9 board, 9×8 and 8×9 dots), so those guards always hold.
- Boards and domains are values that the methods reassign, not nested lists mutated in place. The row, column and block loops of forward checking and restoring run as the helper methods `Passes.StripPeers`, `Passes.RestorePeers` and `Passes.HasEmptyDomain` on a copy of the domain grid. The model therefore does not capture aliasing between the lists of different cells.
- Solver.KropkiSudoku.Solve: `sorted(domains[row][col])` is modelled as the domain itself. The invariant keeps every domain strictly ascending, so sorting does not change it.
- Solver.KropkiSudoku.TryValue requires the candidate to be within 1..9. Candidates come from a domain, and the invariant keeps every domain within 1..9.
- Solver.KropkiSudoku.Solve requires the board and dot grids to have their 9×9, 9×8 and 8×9 shapes and every domain to be well formed (`Valid()`). Python raises an index error on grids that are too small. On larger grids it ignores the extra rows and dot entries, and the row test at kropki.py:194 also scans any extra entries of a board row. The model does not cover such inputs.
- Python integers and `abs` are modelled by unbounded integers and `Abs`. No width limits apply.
