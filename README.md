# Sudoku constraint propagation and backtracking search

A Dafny model of the solving engine of `SUDOKUSOLVER.py`, with proofs about it:

- **Topology.** The 81 cells are named `A1`..`I9`. There are 27 groups: nine rows, nine columns and nine 3×3 blocks.
- **Loading.** The board is read from a sequence of integer tokens, one per cell in row-major order.
- **Fixpoint propagator** (`apply_constraints`). It repeatedly strips each singleton's value from the rest of its groups until nothing changes.
- **Cascade propagator** (`propagate_constraints`). It removes an assigned value from every peer of the cell and recurses into any peer left with one candidate. It fails when a peer runs empty.
- **Backtracking search** (`look_forward`). It picks a minimum-remaining-values cell and tries each candidate on a copy of the store.

The store is a dictionary from cell name to candidate set in the solver. Here it is an `array<set<int>>` of length 81, indexed by a cell's position in row-major order. `Topology.Name` gives the name back. Contracts talk about the array's contents `a[..]`.

Modules, in order:

- `Topology` (`topology.dfy`): cells and groups.
- `DomainStore` (`store.dfy`): the store, the loader, and the predicates used in contracts:
  - `Within`: every set only shrank.
  - `Live`: no empty set.
  - `Assigned`: no set with two or more values.
  - `Settled`: no singleton's value is held by a peer.
  - `Admits`: a grid picks one candidate per cell.
  - `KeepsSolutions`: no consistent grid was lost, and every live, settled narrowing of the old store is a narrowing of the new one.
- `Fixpoint` (`fixpoint.dfy`): `apply_constraints`.
- `Cascade` (`cascade.dfy`): `propagate_constraints`.
- `Search` (`search.dfy`): `look_forward`.
- `Solver` (`solver.dfy`): the main program's chain of load, propagate and search.

### How the loops are split into methods

`apply_constraints` is one `while` loop holding two nested `for` loops, plus an inner loop for each singleton found. It is modelled as four methods, one per loop level:

- `ApplyConstraints`: the `while`.
- `Pass`: the loop over groups.
- `SweepGroup`: the loop over one group's cells.
- `Eliminate`: the loop that strips one value.

The body of `look_forward`'s loop over values is the method `Branch`. It copies the store, fixes the cell, propagates, and recurses.

Cells are visited in row-major order and groups in the solver's order. The values of the branching cell are tried in ascending order.

Termination rests on the total number of candidates in the store (`DomainStore.Total`):
- every recursive call of `Propagate` and `LookForward` is made on a store with fewer candidates;
- every pass of `ApplyConstraints` after the first follows a removal.

## Model

| member | source | states |
|---|---|---|
| Topology.Name | SUDOKUSOLVER.py:5 | the name of a cell is two characters: its column letter `A`..`I`, then its row digit `1`..`9` |
| Topology.NamesDistinct | SUDOKUSOLVER.py:5 | the 81 cell names are pairwise different |
| Topology.Member | SUDOKUSOLVER.py:10-21 | computes the k-th cell of group g: of a row, the cell in column k; of a column, the cell in row k; of a block, the cell at block-row `k/3`, block-column `k%3` |
| Topology.Group | SUDOKUSOLVER.py:10-21 | the list for group g has nine cells, pairwise different, each lying in that row, column or block |
| Topology.Groups | SUDOKUSOLVER.py:10-21 | there are 27 groups, rows first, then columns, then blocks; each lists nine different cells of that row, column or block |
| Topology.MemberInGroup | SUDOKUSOLVER.py:10-21 | the k-th cell listed for a row, column or block lies in that row, column or block, at the expected position |
| Topology.MemberInBlock | SUDOKUSOLVER.py:17-21 | the k-th cell of block b is at row `(b/3)*3 + k/3` and column `(b%3)*3 + k%3`, and lies in block b |
| Topology.SlotOf | SUDOKUSOLVER.py:10-21 | every cell that lies in a group by its coordinates is listed in that group |
| Topology.MembersDistinct | SUDOKUSOLVER.py:10-21 | the nine cells listed for a group are pairwise different |
| Topology.InGroupIff | SUDOKUSOLVER.py:10-21 | a cell is in a group's list exactly when it shares that row, column or block |
| Topology.GroupPeers | SUDOKUSOLVER.py:10-21 | two different positions of a group hold peers |
| Topology.PeerGroup | SUDOKUSOLVER.py:10-21 | every pair of peers is listed together in some group |
| Topology.GroupsOfCell | SUDOKUSOLVER.py:10-21 | every cell lies in exactly three groups: its row, its column and its block |
| DomainStore.Interpret | SUDOKUSOLVER.py:43-44 | the candidate set of one token: never empty; a single candidate exactly when the token is below 10, and then the token itself; the nine digits for a blank; a non-digit only for a token of 0 or less |
| DomainStore.LoadBoard | SUDOKUSOLVER.py:37-44 | with at least 81 tokens, cell c holds `{t}` for a token `t < 10` and `{1..9}` otherwise; with fewer, loading fails at the first missing line |
| DomainStore.FilledGridLoads | SUDOKUSOLVER.py:37-44 | a board that gives every cell a valid digit loads as a store that is fully assigned and settled, and that admits exactly that grid |
| DomainStore.TotalWithin | SUDOKUSOLVER.py:62-73 | shrinking sets never raises the candidate total; shrinking one set lowers it, which is the termination measure |
| DomainStore.WithinSingleton | SUDOKUSOLVER.py:70-72 | a set that only shrank from a singleton is empty or still that singleton |
| DomainStore.SolvedStore | SUDOKUSOLVER.py:106-108 | a live, fully assigned, settled store admits exactly one grid, and that grid is consistent |
| Fixpoint.DiscardKeepsSolutions | SUDOKUSOLVER.py:70-72 | removing a singleton's value from a peer loses no consistent grid, and every live, settled narrowing of the store is a narrowing of the result |
| Fixpoint.KeepsSolutionsTrans | SUDOKUSOLVER.py:61-77 | losing nothing is transitive across successive removals |
| Fixpoint.Stripped | SUDOKUSOLVER.py:70-72 | the store after the inner loop has visited the first `upto` cells of group g, each of them except the k-th having lost v |
| Fixpoint.StrippedCells | SUDOKUSOLVER.py:70-72 | stripping a singleton's value from its group changes exactly the group's other cells, each losing only that value |
| Fixpoint.StrippedWithin | SUDOKUSOLVER.py:70-72 | stripping only shrinks sets |
| Fixpoint.StrippedOwn | SUDOKUSOLVER.py:70-72 | stripping leaves the singleton's own cell alone |
| Fixpoint.StrippedKeepsStep | SUDOKUSOLVER.py:70-72 | one more iteration of the inner loop loses no consistent grid and no live, settled narrowing |
| Fixpoint.StrippedKeeps | SUDOKUSOLVER.py:70-72 | stripping a singleton's value from its group loses no consistent grid and no live, settled narrowing |
| Fixpoint.StrippedChanges | SUDOKUSOLVER.py:70-73 | stripping changes the store exactly when some other cell of the group holds the value, which is when `dirty` is set |
| Fixpoint.StrippedTotal | SUDOKUSOLVER.py:70-73 | a stripping that changes the store lowers the candidate total |
| Fixpoint.HeldElsewhereStep | SUDOKUSOLVER.py:70-73 | one more position of the group holds the value elsewhere exactly when the new position does |
| Fixpoint.Eliminate | SUDOKUSOLVER.py:69-73 | the inner loop leaves the store stripped of the singleton's value across its group; it reports a removal exactly when another cell of the group held the value |
| Fixpoint.SweepStep | SUDOKUSOLVER.py:66-73 | one singleton's elimination within a group visit keeps the visit's invariant: sets only shrink, nothing a solution needs is lost, cells outside the group keep their values; a removal lowers the total, no removal leaves the singleton settled against its group, and a settled store sees no removal |
| Fixpoint.SweepGroup | SUDOKUSOLVER.py:65-73 | visiting one group only shrinks sets, keeps every consistent grid, and keeps every live, settled narrowing of the old store a narrowing of the new one; the 72 cells outside the group are unchanged; if it removed nothing, the store is unchanged and the group settled |
| Fixpoint.Pass | SUDOKUSOLVER.py:63-73 | a pass over all groups only shrinks sets and keeps every consistent grid and every live, settled narrowing; `dirty` means the total dropped; a clean pass leaves the store unchanged and settled; a settled store gives a clean pass |
| Fixpoint.ApplyConstraints | SUDOKUSOLVER.py:61-77 | afterwards every set is a subset of its old set, no singleton's value remains in a peer, no consistent grid is lost, and every live, settled narrowing of the input is a narrowing of the result; so a live result is the greatest live, settled narrowing of the input. A settled store is left unchanged, so a second call changes nothing |
| Cascade.VisitedAll | SUDOKUSOLVER.py:154-159 | visiting every group that contains the cell clears the value from all its peers |
| Cascade.DiscardShrinks | SUDOKUSOLVER.py:157-159 | one removal lowers the total, and creates an empty set exactly when the peer runs empty |
| Cascade.DiscardKeeps | SUDOKUSOLVER.py:157-159 | one removal from a peer keeps every grid, and every live, settled narrowing, that gives the cell the value; if the peer runs empty, no grid and no such narrowing does |
| Cascade.DiscardSingles | SUDOKUSOLVER.py:177-184 | one removal keeps earlier propagated singles propagated; only the peer itself can become a pending single |
| Cascade.Discard | SUDOKUSOLVER.py:156-176 | one step of the peer loop keeps the cascade's invariant, or ends it with a failure that rules out the value |
| Cascade.Resumed | SUDOKUSOLVER.py:177-184 | after a successful recursive cascade from a peer reduced to one value, the invariant holds for the next peer, narrowings that fix the cell included |
| Cascade.Failed | SUDOKUSOLVER.py:183-184 | a failed recursive cascade means some set ran empty, and that no grid and no live, settled narrowing gives the cell the value |
| Cascade.Propagate | SUDOKUSOLVER.py:140-185 | only removes values; returns false exactly when a set ran empty. On success the value has left every peer, every peer reduced to one value has had it removed from its own peers, and every grid and every live, settled narrowing that gives the cell the value is kept. On failure no consistent grid and no live, settled narrowing gives the cell the value |
| Search.SelectCell | SUDOKUSOLVER.py:106-111 | none exactly when no cell has two or more candidates; otherwise the first cell in row-major order whose count is the least among such cells |
| Search.HasMin | SUDOKUSOLVER.py:118 | a non-empty candidate set has a least value, tried first |
| Search.AssignKeepsSettled | SUDOKUSOLVER.py:123-128 | fixing a cell to one of its candidates and propagating successfully keeps a live, settled store live and settled |
| Search.BranchSucceeds | SUDOKUSOLVER.py:123-133 | a completed branch narrows the original store, creates no new empty set, and keeps the branching cell fixed to its value |
| Search.BranchExcluded | SUDOKUSOLVER.py:128-134 | a branch whose propagation fails, or whose search finds nothing, rules the value out for the cell |
| Search.LeastBranch | SUDOKUSOLVER.py:118-133 | trying values in ascending order, the first branch that succeeds fixes the cell to a value no larger than in any admitted consistent grid |
| Search.Branch | SUDOKUSOLVER.py:122-133 | one branch, on a copy: a result is fully assigned, narrows the input, creates no new empty set and keeps the cell's value; no result means no consistent grid gives the cell that value |
| Search.LookForward | SUDOKUSOLVER.py:85-137 | does not modify its input. A result is fully assigned, narrows the input and creates no new empty set. An input with no multi-candidate cell is returned itself. From a live, settled input a result is settled. A result exists whenever some consistent grid is admitted. The branching cell ends with a value no larger than in any admitted consistent grid |
| Solver.Loaded | SUDOKUSOLVER.py:37-44 | the store a board of tokens describes: no cell empty, and a cell a singleton exactly when its token is below 10 |
| Solver.ClashLeavesEmpty | SUDOKUSOLVER.py:61-77 | fixpoint propagation of a fully given board with two equal peers leaves every set with at most one value and some set empty |
| Solver.ClashingGridAccepted | SUDOKUSOLVER.py:228-232 | the board of 81 ones is fully given and has equal peers |
| Solver.SolveAsWritten | SUDOKUSOLVER.py:228-235 | the main program as written: loading fails exactly when a line is missing; a reported store is fully assigned and narrows the board; a fully given board with equal peers is reported with an empty cell |
| Solver.HasEmptyCell | SUDOKUSOLVER.py:106-108 | true exactly when some set is empty |
| Solver.Solve | SUDOKUSOLVER.py:228-235 | the corrected main program: a store is reported exactly when some consistent grid respects the board, and the store reported is live, fully assigned and settled, and its grid is consistent and respects every token |

## Findings

| source | as written | input that shows it | evidently intended | confidence | as-written member | corrected member |
|---|---|---|---|---|---|---|
| SUDOKUSOLVER.py:106-108 | `look_forward` returns any store with no cell holding two or more candidates, even one with an empty cell, and the main program then takes its success branch at line 235 (which prints "Solution found:" and the board when `step_by_step` is off) | a board of 81 lines each holding `1`: every cell is given, `apply_constraints` empties cells, and `look_forward` returns that store | a store with an empty cell is a dead end and the board has no solution | medium, not executed | Solver.SolveAsWritten | Solver.Solve |

`Solver.SolveAsWritten` runs the chain as written. Its last `ensures` says that a fully given board with two equal peers is reported with an empty cell. `Solver.ClashingGridAccepted` shows that the board of 81 ones is such a board.

`Solver.Solve` adds the missing check after the fixpoint propagator: a board left with an empty set has no solution. With that check the result is sound and complete. A store is reported exactly when some consistent grid respects the board, and the reported store is one.

`Search.LookForward` itself is modelled as written. Its contract claims a settled result only from a live, settled input.

## Left out

- Reading the board file (SUDOKUSOLVER.py:39-42): opening the file, `readline`, `strip` and `int`. The model takes the parsed tokens as a sequence of integers.
  - A missing line, where `int('')` raises, is the `MissingLine` error.
  - A line that is not an integer, where `int` raises `ValueError`, is not modelled.
  - A missing board file, where `open` raises, is not modelled.
- Verbose printing (SUDOKUSOLVER.py:45-46, 74-76, 113-115, 119-120, 160-161, 173-175, 180-182). It has no effect on the store.
- The step-by-step display: `move` with terminal escapes, `time.sleep`, screen clearing, and `stylized_board` (SUDOKUSOLVER.py:80-82, 102-105, 163-169, 188-216, 224-226, 234-242). This is display and pacing only.
- Python's set iteration order is not modelled. `look_forward` tries candidates in ascending order. `next(iter(...))` on a singleton is its one element.
- The dictionary keyed by cell names is an array indexed by row-major position. `Topology.Name` maps a position to its name.
- Python's recursion limit is not modelled. The Dafny proofs show that both recursions terminate.
- Search.LookForward: the contract does not claim that the result has no empty set. This is the behaviour described under Findings.
- Search.LookForward: the contract does not claim which branch produced the result. It states the branching cell, and that the value it ends with is no larger than in any consistent grid the input admits.
- Search.LookForward: when no cell has two or more candidates, the input array itself is returned, aliased, as in the solver. Every other result is a fresh copy.

### Input conventions

- There is no blank marker. Any token of 10 or more is a blank, and any token below 10 is a given. So 0 and negative numbers become the singletons `{0}` and `{-n}`. `DomainStore.Interpret` does the same.
- The only input error the model represents is a missing line. Tokens after the 81st are never read.
- The loader accepts any token below 10, so candidate sets are sets of integers rather than of digits. `DomainStore.SolvedStore` and `DomainStore.Interpret` say when the values are digits.
- Nothing checks the fixpoint propagator's output for empty sets before the search; see Findings.
