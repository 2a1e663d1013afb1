# Sudoku solver engine, modelled in Dafny

This project models the engine of a small backtracking Sudoku solver that lives in
one JavaScript file, `main.js`. A board ("node") is a sequence of 81 cells in
row-major order. Each cell is the ordered list of digits still possible there.
The engine has six parts:

- **Group indexer** (`row`, `col`, `box`, `getFieldByIndex`, `getFieldByNumber`):
  module `Groups`.
- **Propagator** (`prune`, `pruneNode`): one pass of naked-single elimination.
  Module `Propagator`.
- **Validator** (`validate`, `validateNode`): checks all 27 rows, columns and boxes
  for an empty cell or a digit fixed twice. Module `Validator`.
- **Branching step and search** (`move`, `solve`): a stack of boards (the "history")
  with a step counter. Module `Search`.
- **Codec** (`toArr`, `toStr`): the 81-character puzzle text. Module `Codec`.
- **Driver** (`solver`): the outer loop, bounded by a fuel argument. Module `Solver`.

Two support modules hold shared vocabulary:

- `Seqs` defines subsequences, strictly increasing lists and duplicate-free lists.
- `Board` defines cells, boards and the three board relations the proofs use:
  - `WellFormed`: 81 cells, each a strictly increasing list of digits 1..9.
  - `Refines`: cell by cell, one board keeps a subsequence of the other's candidates.
  - `Admits`: a full solution is still allowed by the board.

Cells are lists, not sets. The branching step takes the *last* candidate of a cell,
and every operation keeps list order, so "has fewer candidates" is stated as "is a
subsequence of".

Every operation is a pure function. Two behaviours of the JavaScript are modelled
as results:

- A throw on an empty history becomes `Failure(Unsolvable)`.
- Running out of fuel in the unbounded `while` loop becomes `Failure(EffortExceeded)`.

`solve`'s recursion is proved to terminate by a lexicographic measure: 101 − i while
i ≤ 101, then the history length.

## Model

| member | source | states |
|---|---|---|
| Groups.Row | main.js:24 | The row of a board index 0..80 lies in 0..8. |
| Groups.Col | main.js:25 | The column lies in 0..8, and row and column together give back the index (i = 9·row + col). |
| Groups.Box | main.js:26 | Box is defined as band·3 + stack. The contract proves it equals the source's closed formula (i mod 9) div 3 + 3·(i div 27) and lies in 0..8. |
| Groups.Members | main.js:33-34 | The positions the filter keeps are exactly the indices of group n, each below the board length, in ascending order. |
| Groups.FieldByNumber | main.js:33-34 | The t-th returned cell is the board cell at the t-th index of the group: board order, nothing else kept. |
| Groups.FieldByNumberMembers | main.js:33-34 | A cell is in the returned field iff some index of group n holds it. |
| Groups.GroupSizeNine | main.js:33-34 | On an 81-cell board, each row, column and box 0..8 has exactly nine cells. |
| Groups.FieldByIndex | main.js:29-30 | The field of cell i contains cell i itself. A cell is in it iff some index in the same group as i holds it. |
| Board.Singles | main.js:44-45 | Flattening the one-candidate cells yields digit x iff [x] is one of the cells. |
| Board.TotalCount | main.js:92 | The source's `node.flat().length`, the number of candidates over the whole board. No contract of its own; `Board.TotalCountSingletons` and `Board.RefinesTotalCount` characterise it. |
| Board.Complete | main.js:92 | The completion test `node.flat().length === 81`, also the loop condition at main.js:100. No contract of its own; `Board.TotalCountSingletons` and `Validator.CompleteIffSolved` characterise it. |
| Board.TotalCountSingletons | main.js:92 | With no empty cell, the flattened length is at least the cell count. It equals the cell count iff every cell has exactly one candidate. |
| Seqs.RemoveAll | main.js:46 | The filter keeps a subsequence of the cell. A digit survives iff it was in the cell and is not banned. |
| Seqs.ToSet | main.js:52 | The set has the same members as the list and is no larger than it. |
| Seqs.DistinctIffSetSize | main.js:52 | A list has no repeated element iff its set is as large as the list. This is the duplicate test `validate` uses. |
| Propagator.PeerCells | main.js:39-43 | The concatenated row, column and box fields hold exactly the cells at indices sharing a group with i (i included). |
| Propagator.Prune | main.js:37-47 | The result is a subsequence of cell i. A digit stays iff it was a candidate and no cell sharing a row, column or box with i, cell i included, is fixed to it. |
| Propagator.PruneNode | main.js:58-59 | Length is kept and one-candidate cells are unchanged. Every other cell becomes a subsequence of itself, keeping exactly the digits not fixed at a peer on the board as it was before the pass. |
| Propagator.PruneNodeShrinks | main.js:58-59 | The pass refines the board: no cell's candidate count grows, and the total count does not grow. |
| Propagator.PruneNodeWellFormed | main.js:58-59 | If every cell was a strictly increasing list of digits 1..9, that still holds after the pass. |
| Propagator.PruneNodeKeepsSolutions | main.js:37-47 | A full solution the board allowed before the pass is still allowed after it. |
| Validator.SinglesDistinct | main.js:51-52 | The flattened one-candidate cells have no repeated digit iff no two cells are fixed to the same digit. |
| Validator.Validate | main.js:50-55 | True iff no cell is empty and no two cells are fixed to the same digit. |
| Validator.GroupValid | main.js:50-55 | One group passes `validate` iff, on board indices, its cells are non-empty and no two of them are fixed to the same digit. |
| Validator.ValidateNode | main.js:62-70 | The model of `validateNode`: all nine rows, nine columns and nine boxes pass `validate`. No contract of its own; `Validator.ValidateNodeGroups` and `Validator.ValidateNodeExact` characterise it. |
| Validator.ValidateNodeGroups | main.js:62-70 | `validateNode` holds iff all 27 groups (9 of each kind) pass. |
| Validator.ValidateNodeExact | main.js:62-70 | On 81 cells, `validateNode` holds iff no cell is empty and no two cells sharing a row, column or box are fixed to the same digit. |
| Validator.AdmitsImpliesValid | main.js:62-70 | A board that still allows a full solution passes `validateNode`. |
| Validator.CompleteIffSolved | main.js:92 | On a board passing `validateNode`, the completion test (81 candidates in total) holds iff every cell has exactly one candidate. |
| Search.MinOpen | main.js:75-77 | Zero iff no cell has more than one candidate. Otherwise it is a candidate count above 1 that some cell has and that no open cell goes below. |
| Search.FirstWithCount | main.js:78 | The first index whose cell has exactly L candidates. |
| Search.BranchIndex | main.js:75-78 | The chosen cell is open and has the minimum count among open cells. Every earlier open cell has strictly more candidates, so it is the lowest such index. |
| Search.Branch | main.js:79-82 | Only the chosen cell differs. The first board keeps all its candidates but the last; the second keeps only the last. The two lists joined give back the original. |
| Search.BranchRefines | main.js:79-82 | Both branch boards refine the board they came from. |
| Search.Move | main.js:74-84 | Both boards `move` returns refine the input board. What happens to the branching cell is stated by `Search.MoveSplitsCell`. |
| Search.MoveSplitsCell | main.js:72-84 | The second board (`nextNode`) has the branching cell solved to its last candidate. On a cell of strictly increasing digits, the first board (`updatedNode`) no longer allows that candidate there. |
| Search.MoveWellFormed | main.js:81-83 | Well-formed boards stay well-formed in both results. |
| Search.MoveKeepsSolutions | main.js:74-84 | Any full solution the board allowed is still allowed by at least one of the two results. |
| Search.IncompleteHasOpenCell | main.js:91-93 | A valid board failing the completion test has a cell with more than one candidate, so `move` cannot fail there. |
| Search.SolveStep | main.js:90-94 | An invalid top board is popped (length −1). A valid complete top, or the step counter above 100, stops. Otherwise the top is replaced by the two `move` boards (length +1), every entry below is unchanged, and both new boards refine the old top. |
| Search.Solve | main.js:89-95 | A successful result has a non-empty stack whose top passes `validateNode`, and a complete top has only one-candidate cells. An emptied stack gives `Unsolvable`, and that is the only failure: reaching the step ceiling is a success. |
| Search.StepRefines | main.js:90-94 | One step keeps every board of the stack a refinement of a common base board. |
| Search.SolveRefines | main.js:89-95 | The whole search keeps every board of the stack a refinement of a common base board. |
| Search.PopKeepsSolutions | main.js:91 | Popping a top board that does not allow a solution keeps a board that does. |
| Search.PushKeepsSolutions | main.js:93-94 | Replacing the top by two boards, one of which allows a solution whenever the old top did, keeps a board that allows it. |
| Search.StepKeepsSolutions | main.js:90-94 | If some board of the stack allows a solution, some board still does after one step. |
| Search.SolveKeepsSolutions | main.js:89-95 | While some board of the stack allows a solution, the search succeeds, and some board of the result still allows it. |
| Codec.ToArr | main.js:4-7 | Length is kept. A '.' becomes a cell of nine candidates; a digit character becomes the one-candidate cell of that digit. Every cell is a strictly increasing digit list. |
| Codec.ToStr | main.js:10-11 | Length is kept. The character is '.' iff the cell has several candidates and '?' iff it has none. A one-candidate cell prints as its digit. |
| Codec.StrArrRoundTrip | main.js:4-11 | For any text over '1'..'9' and '.', encoding the decoded board gives back the text. |
| Codec.ArrStrRoundTrip | main.js:4-11 | A board whose cells are all fully open or solved survives encoding then decoding. |
| Solver.OpenPuzzleIncomplete | main.js:99-100 | A puzzle with a '.' does not pass the completion test when decoded, so the loop runs the search. |
| Solver.FinalBoardConsistent | main.js:100-101 | A complete board that passes `validateNode` prints as digits only, with no digit twice in a row, column or box. |
| Solver.FinalBoardKeeps | main.js:100-101 | Such a board, refining a base board, prints every solved cell of the base unchanged. |
| Solver.SolverLoop | main.js:99-101 | The result has 81 characters. If the top board is consistent whenever it is complete, a success is a full grid that breaks no Sudoku rule and keeps every solved cell of any board all of the stack refines. While some board allows a solution, the loop never reports `Unsolvable`. |
| Solver.Solver | main.js:98-102 | A successful result has 81 characters. |
| Solver.SolverSound | main.js:98-102 | For a puzzle with at least one '.', a successful result contains digits only, keeps every given, and has no digit twice in a row, column or box. |
| Solver.SolverCompleteInput | main.js:99-101 | A puzzle with no '.' comes back unchanged for any fuel. The completion test precedes any validation, so this holds even for a grid that breaks the rules. |
| Solver.SolverFindsSolvable | main.js:98-102 | A puzzle that some full solution agrees with at its givens is never reported `Unsolvable`; only fuel can stop it. |

## Left out

- `printf` (main.js:14-21), the `fs` import (main.js:1) and the commented-out driver code
  (main.js:104-111): console and file I/O only.
- The `sort` comparator in `move` (main.js:75-77) is replaced by a direct minimum
  (`Search.MinOpen`) over cells with more than one candidate. The cell index chosen
  afterwards is the same.
- `Codec.ToArr`: requires every character to be '.' or '1'..'9'. `parseInt` on other
  characters yields `NaN` or 0 in the source, which the model does not represent.
  `Solver.Solver` also requires exactly 81 characters. The source checks neither. A
  malformed string there gives either a meaningless board or a `TypeError`. For
  example, 80 digits from a solved grid give a board that passes `validateNode` but has
  no open cell, so `move` reads `[0].length` of an empty list (main.js:75-77). The
  code never reports a malformed string, so the model has no `Malformed` outcome.
- The outer `while` loop of `solver` (main.js:100) has no bound. The model runs at most
  `fuel` rounds of `solve` and reports `EffortExceeded` when they are spent.
- In the source, the step ceiling of `solve` (`i > 100`, main.js:92) silently returns
  the stack, and the loop calls `solve` again with the counter reset. It is not a
  reported failure. The model follows the code: `Search.Solve` returns `Success` at the
  ceiling, and only fuel yields `EffortExceeded`.
- On an emptied history, the source reads `tree.slice(-1)[0]` and `validateNode` then
  throws on `undefined`. The model reports this as `Failure(Unsolvable)`.
- `Propagator.Prune`: the source's peer fields include cell i itself (the filter
  `field(i) === field(j)` matches j = i), so the model does too. Cell i counts as its
  own peer. This changes nothing for the cells `pruneNode` prunes: those are the cells
  that are not fixed (empty, or with several candidates), so cell i never bans a digit.
- `Solver.Solver`: its own contract states only the result length. Soundness, the
  complete-input case and the never-`Unsolvable` property are in the lemmas
  `Solver.SolverSound`, `Solver.SolverCompleteInput` and `Solver.SolverFindsSolvable`.
- `Solver.SolverSound`: stated only for puzzles with an unknown cell. A puzzle with no
  '.' is returned as given without validation (`Solver.SolverCompleteInput`), so
  consistency cannot be promised there.
