# Triangular peg solitaire solver, modelled in Dafny

The modelled program solves triangular peg solitaire of any side length. The board is a triangle of
`size` rows, and its slots are numbered 1 .. T(size) row by row from the apex, where T(n) = n(n+1)/2.
One slot starts empty. A move jumps a peg over a neighbouring peg into an empty slot two steps away,
along a row, a column or the diagonal, and removes the peg jumped over. The program searches
breadth-first for a sequence of moves that leaves one peg, and returns it.

The model has three modules, following the program's layers:

- `TriangleCoordinates` (`coordinates.dfy`): triangular numbers, and the translation between a
  slot index and its 0-based (row, column) coordinate (`get_board_coors`). It also covers the two
  lookup tables built from it and the table of row-ending slots. Every loop of the source is a
  method with loop invariants. `TriangleNumber` is proved equal to the row sum 1 + 2 + ... + n.
  The table of row-ending slots is proved against `TriangleNumber`. The scan and the two
  coordinate tables are proved against `Slot(row, column) = T(row) + column + 1`.
- `PegBoard` (`board.dfy`): the `Board` record and the predicate `Valid`, which is the invariant
  every reachable board keeps. `Valid` says:
  - `data` has T(size) entries;
  - `trueCount` is the number of pegs;
  - `emptyPositions` is the set of empty slots;
  - the two tables are inverse bijections between 1 .. T(size) and the triangle's coordinates.

  This module also holds the starting board, move generation (`get_actions`), the move itself
  (`action`) and the terminal test. A board is an immutable value: the source clones the board
  before it writes, so `Action` returns a new value and leaves its argument alone. A move is
  specified by `LegalMove`:
  - `from` and `to` are two steps apart in one of the six lattice directions;
  - `to` is empty;
  - `from` and the slot halfway between them hold pegs.

  The middle slot is computed independently, as the coordinate average, by `MiddleSlot`.
- `PegSearch` (`search.dfy`): the search. `Replay` plays a move list from the start board. A node
  is *reached* when its move list replays to its board, and a move list *solves* the start board
  when it replays to a board with one peg. `SearchForSolution` keeps the source's queue as a
  sequence. It is proved:
  - sound: a returned node is terminal and reached;
  - of optimal length: every solution has `trueCount - 1` moves, and so does the result;
  - complete: `None` only when no solution exists. Every solution runs through a queued node, so
    an empty queue means there is none;
  - terminating: the total weight of the queued boards strictly decreases with every round.

The source is `src/main.rs`. Three facts about the code shape the model:

- For sizes 1 and 2, `get_actions` computes `self.size - 3` on an unsigned integer
  (src/main.rs:165), which underflows. `Board::new(1, 1, ..)` also starts with `true_count` 0, so
  that board is never terminal. `GetActions` and `SearchForSolution` therefore require `size >= 3`.
- A size-3 board with one empty slot holds 5 pegs, so by `PegSearch.SolutionLength` every
  solution from it has exactly 4 moves.
- Empty slots plus pegs equals T(size) after `action` only for legal moves, because `action`
  never checks that `from` holds a peg (see Findings).

## Model

| member | source | states |
|---|---|---|
| TriangleCoordinates.TriangleNumber | src/main.rs:71-79 | T(n) = n(n+1)/2 is the number of slots of a side-n triangle: it equals the row sum 1 + 2 + ... + n |
| TriangleCoordinates.RowLengthSumClosedForm | src/main.rs:71-79 | the closed form n(n+1)/2 equals the row sum 1 + 2 + ... + n, by induction on n |
| TriangleCoordinates.TriangleNumberLess | src/main.rs:384-390 | T is strictly increasing, so the row-ending slots T(1) .. T(size) are distinct keys |
| TriangleCoordinates.SlotInRange | src/main.rs:331-361 | the slot of (row, column) lies after the rows above it and within its own row: T(row) < slot <= T(row + 1), and 1 <= slot <= T(size) |
| TriangleCoordinates.SlotInjective | src/main.rs:331-361 | two coordinates of the triangle with the same slot index are the same coordinate |
| TriangleCoordinates.PositionThirteenIsRowFourColumnTwo | src/main.rs:53-59 | on the side-5 board, slot 13 is (4, 2) and no other coordinate |
| TriangleCoordinates.CreateTriangleMap | src/main.rs:384-390 | the table maps T(n) to n for every 1 <= n <= size, and holds nothing else |
| TriangleCoordinates.GetBoardCoors | src/main.rs:331-361 | for 1 <= position <= T(size) the scan returns (row, column) with column <= row < size and position = T(row) + column + 1; a position past T(size) matches no row and yields (0, position - T(size)) |
| TriangleCoordinates.CreateBoardPositionMap | src/main.rs:365-371 | the forward table has exactly the keys 1 .. T(size), each mapped to the coordinate whose slot it is |
| TriangleCoordinates.CreateReverseBoardPositionMap | src/main.rs:375-381 | the reverse table has exactly the triangle's coordinates as keys, each mapped to its slot in 1 .. T(size) |
| TriangleCoordinates.MapsAreInverse | src/main.rs:363-381 | the forward and reverse tables are inverse to each other in both directions |
| PegBoard.NewBoard | src/main.rs:83-106 | the start board has a peg in every slot but the chosen one, the empty set is that slot alone, the peg count is T(size) - 1, and it is valid whenever the tables agree |
| PegBoard.StartBoardIsValid | src/main.rs:427-430 | the board built from the two created tables satisfies the board invariant |
| PegBoard.EmptyPlusPegs | src/main.rs:41-50 | on a valid board, the number of empty slots plus the peg count is T(size) |
| PegBoard.JumpOccupancy | src/main.rs:209-211 | emptying two pegged slots and filling an empty one removes exactly one peg, and the empty set loses the filled slot and gains the two emptied ones |
| PegBoard.LegalMoveInto | src/main.rs:123-183 | a move into an empty slot is legal exactly when one of the source's six patterns (two above/right, two left/above-left, two below) finds pegs at the source and the middle |
| PegBoard.MovesIntoAreLegal | src/main.rs:123-183 | the moves the three blocks push for an empty slot are exactly the legal moves into it, at most six |
| PegBoard.PushIfPegs | src/main.rs:130-135 | the pair (from, to) is appended exactly when both the source slot and the middle slot hold pegs |
| PegBoard.GetActionsInto | src/main.rs:123-183 | the moves found for one empty slot are exactly the legal moves into it, at most six |
| PegBoard.GetActions | src/main.rs:121-188 | the list holds a pair exactly when it is a legal move on the board, with at most six per empty slot |
| PegBoard.MiddleSlot | src/main.rs:191-319 | the slot jumped over is on the board and differs from both ends, which differ from each other |
| PegBoard.MiddleCoordinate | src/main.rs:198-318 | whichever of the six direction branches is taken, the coordinate jumped over is the one halfway between the two ends |
| PegBoard.Jump | src/main.rs:191-319 | the resulting board empties `from` and the middle slot, fills `to`, counts one peg fewer, moves `to` out of the empty set and `from` and the middle slot into it, and leaves every other slot and both tables as they were |
| PegBoard.JumpKeepsValid | src/main.rs:191-319 | a legal move keeps the board invariant and adds exactly one empty slot |
| PegBoard.Action | src/main.rs:191-319 | the move is applied, giving `Jump`, exactly when `to` is empty and the middle slot (found per direction, proved equal to the coordinate average) holds a peg; otherwise None |
| PegBoard.JumpFromEmptySlotMiscounts | src/main.rs:191-196 | when `from` is already empty, the move is still applied: the peg count drops while the number of pegs does not, so the result is not valid |
| PegBoard.CheckedAction | src/main.rs:191-319 | with the missing peg check on `from`, the move is applied exactly when it is legal, and the result is valid |
| PegBoard.IsTerminal | src/main.rs:321-327 | on a valid board, the test for one peg left holds exactly when every slot but one is empty |
| PegSearch.Replay | src/main.rs:16-20 | replaying a move list keeps the board valid and the size fixed, and removes one peg per move |
| PegSearch.ReplayConcat | src/main.rs:406-411 | replaying p then q is replaying q from where p ends |
| PegSearch.ReplayAppend | src/main.rs:406-411 | a legal move appended to a replayable move list replays to the moved board |
| PegSearch.SolutionLength | src/main.rs:392-394 | every solution has trueCount - 1 moves, so no solution is shorter than another |
| PegSearch.SolutionContinues | src/main.rs:400-412 | a solution through a non-terminal reached node continues with a legal move on its board |
| PegSearch.NextChildOnTheWay | src/main.rs:405-412 | a solution through a non-terminal node runs on through one of the children queued for it |
| PegSearch.CoveredByChild | src/main.rs:399-413 | proof step of the completeness invariant of the search loop: a queued child on the way to a solution covers it |
| PegSearch.CoveredByRest | src/main.rs:399-413 | proof step of the completeness invariant of the search loop: a node behind the popped one on the way to a solution still covers it |
| PegSearch.ChildrenCover | src/main.rs:399-413 | replacing the popped node by its children keeps every solution covered by some queued node |
| PegSearch.ExpansionReaches | src/main.rs:399-413 | after the round, every queued node is still reached by its move list |
| PegSearch.RepeatedMonotone | src/main.rs:395-416 | proof step of the termination measure of the search loop: the weight of n children grows with n |
| PegSearch.FrontierWeightConcat | src/main.rs:395-416 | proof step of the termination measure of the search loop: the queue's weight is additive over concatenation |
| PegSearch.FrontierWeightUniform | src/main.rs:395-416 | proof step of the termination measure of the search loop: children with equally many pegs weigh that board weight each |
| PegSearch.ChildrenWeighLess | src/main.rs:405-412 | at most `bound` children, each with one peg fewer, weigh less than their parent |
| PegSearch.ExpansionWeighsLess | src/main.rs:399-413 | each round strictly lowers the queue's weight, so the search ends |
| PegSearch.ChildForReaches | src/main.rs:406-411 | the child for a legal move extends the move list by that move, has one peg fewer and is reached |
| PegSearch.QueueChild | src/main.rs:406-411 | for a legal move, `action` returns a board (so the `unwrap` never fails), and the pushed node is exactly that board with the move appended to the move list |
| PegSearch.QueueChildren | src/main.rs:405-412 | the queue is extended, in order, by one reached child per legal move |
| PegSearch.StartFrontier | src/main.rs:396-398 | the first queue, holding the start node alone, is reached and covers every solution |
| PegSearch.EmptyFrontier | src/main.rs:414-415 | an empty queue that covers every solution means there is no solution |
| PegSearch.SearchForSolution | src/main.rs:395-416 | a returned node is terminal, reached from the start and has trueCount - 1 moves; None means no move list solves the start board |

## Left out

- `main` and `Board::_print` (command-line parsing, printing) are not modelled. `StartBoardIsValid` states what `main` relies on when it builds the tables and the start board.
- PegBoard.NewBoard: requires `1 <= emptyPosition <= T(size)`. The source panics outside that range: slot 0 underflows `empty_position - 1` (src/main.rs:89), and a slot past T(size) indexes `data` out of range (src/main.rs:96). `main` passes its argument unchecked.
- TriangleCoordinates.GetBoardCoors: requires `size >= 1` and `position >= 1`. The source panics otherwise: with size 0 the row-ending table has no key 1 (src/main.rs:353), and position 0 underflows `position - prev_number` (src/main.rs:356). Positions past T(size) are modelled.
- The `triangle_numbers` field of `Board` is used only by `_print`, so it is not part of the model.
- Machine integers: `usize` is modelled as unbounded `nat`. Overflow of `size * (size + 1)` is not modelled. The underflow of `size - 3` for sizes 1 and 2 is excluded by the requirement `size >= 3`.
- `HashSet` and `HashMap` are modelled as `set` and `map`. Iteration over the set of empty slots visits them in an unspecified order, which is modelled by choosing an element (`:|`). The order of the returned move list, and so which of several equally short solutions the search returns, is not specified.
- PegBoard.Action: requires `from` and `to` to be two steps apart in a lattice direction (`IsJump`) and at least one peg. For any other pair, the source picks a middle slot by its branch fallbacks or panics on a missing table key, and with no peg `true_count -= 1` underflows. The search calls `action` only on moves from `get_actions`, which all satisfy this.
- `Valid` requires the two tables to be inverse bijections over the triangle, not to be the exact tables the builders produce. The board lemmas therefore hold for any such pair of tables, which includes the real ones (`MapsAreInverse`).
- `Node::new` is the constructor of the `Node` datatype.
- Running time and memory are not modelled: the full copy of the board on every move, and revisiting the same board reached by different move orders (the search keeps no visited set).

## Findings

| source | as written | input that shows it | evidently intended | confidence | as-written member | corrected member |
|---|---|---|---|---|---|---|
| src/main.rs:191-196 | `action` decrements `true_count` and applies the move without checking that `from` holds a peg | size 5, slot 1 empty; after moves (4, 1) and (11, 4), `action(7, 2)` jumps from the empty slot 7 over slot 4 into slot 2. It returns a board whose `true_count` is 11 while 12 pegs remain | a move is applied only when `from`, the middle slot and the empty `to` make it legal, so that empty slots plus pegs stay T(size) | low; not executed, and unreachable from `search_for_solution`, which only passes moves from `get_actions` | PegBoard.JumpFromEmptySlotMiscounts | PegBoard.CheckedAction |
