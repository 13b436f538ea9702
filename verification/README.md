# Connect 4 engine and project-section toggle

This project models, in Dafny, the game logic of a portfolio site's Connect 4 component, where a human (red, player 1) plays against a computer (yellow, player −1). It also models the small expand/collapse toggle of the site's project cards.

The model has five modules:

- `Board` (board.dfy): the 7 × 6 board indexed `board[col][row]`, finding a column's landing row, and dropping a disc.
  - Row 0 is the **top** of a column. A disc lands just above the topmost occupied cell (row 5 in an empty column), so on a settled board a column fills from row 5 upward.
  - The game's "full" test looks only at each column's top cell.
- `Lines` (lines.dfy): `countConsecutive`, the longest run of a player's cells along one ray from a start cell to the board's edge. Also `checkWin`, the longest such run over the 39 rays the game scans: 7 columns, 6 rows and both diagonal families. The model proves that `checkWin` is exactly the length of the longest straight line of the player's discs anywhere on the board.
- `Search` (search.dfy): `minimax`, a full-width, fixed-depth search with no pruning.
  - A node first tests whether the side **to move** already has four in line. If so it reports +1 when that side is the root player, −1 otherwise.
  - Otherwise depth 0, or a board with no legal column, reports 0.
  - Otherwise it expands every legal column with the other side to move and one ply less.
  - The reported column is one of the children with the maximum utility (at the root player's nodes) or the minimum (at the opponent's). A random draw breaks ties.
  - The reported utility is that extreme when it is exactly ±1, and otherwise the sum of the children's utilities divided by 7, even when fewer columns are legal.
  - The computer's move is `minimax(board, -1, -1, 5)`.
- `Game` (game.dfy): the status machine (playing, human wins, computer wins, draw).
  - Covers the human's click, the computer's turn and reset.
  - An invariant holds for every state the game rests in: a settled board, no line of four and a free column while playing, and discs that alternate with the human first.
- `Sections` (sections.dfy): the map from project id to its expanded section names, `toggleSection` and `isExpanded`.

Utilities are Dafny `real`s, and `Math.random()` is a parameter `rand` in [0, 1).

## Model

| member | source | states |
|---|---|---|
| Board.GetTopRow | src/components/Connect4.tsx:21-27 | the landing row is −1 exactly when the column is out of range or its top cell is occupied; otherwise it is a row in 0..5, every cell from the top down to it is empty, and it is row 5 or sits directly above an occupied cell |
| Board.MakeMove | src/components/Connect4.tsx:30-45 | success exactly when the column is legal; a failed drop returns row −1 and the input board; a successful one writes the player's value into the returned row, which was empty, and leaves every other cell as it was |
| Board.MoveLandsOnLowestFree | src/components/Connect4.tsx:21-27 | on a settled board, the cells of the column that were empty are exactly those at or above the landing row |
| Board.MovePreservesSettled | src/components/Connect4.tsx:36-40 | a drop keeps every cell value in {1, −1, 0} and every column "empty cells, then occupied cells" |
| Board.FullMeansEveryCellOccupied | src/components/Connect4.tsx:201 | on a settled board, "every top cell is occupied" holds exactly when all 42 cells are occupied |
| Board.LegalMoveUnlessFull | src/components/Connect4.tsx:138-153 | some column accepts a disc exactly when the board is not full by the top-cell test |
| Board.MoveAddsOneDisc | src/components/Connect4.tsx:36-40 | a legal drop adds one disc of the mover, removes one empty cell, and leaves the count of the other side's discs unchanged |
| Board.EmptyBoardHasNoDiscs | src/components/Connect4.tsx:10-14 | the initial board holds no disc of either side |
| Lines.Scan | src/components/Connect4.tsx:56-71 | the scan's result lies between the best run seen so far and the sequence length |
| Lines.ScanIsLongestRun | src/components/Connect4.tsx:56-71 | the scan's result is the length of the longest run of the player's value: such a run exists, and none one longer does |
| Lines.CountConsecutive | src/components/Connect4.tsx:48-72 | the count lies between 0 and the number of in-bounds cells on the ray |
| Lines.CountConsecutiveIsLongestRun | src/components/Connect4.tsx:48-72 | the count is exactly the longest run of the player's cells on the ray from the start cell to the board's edge |
| Lines.ScanAllIsMax | src/components/Connect4.tsx:76-116 | the fold over the 39 scanned rays is at least every ray's count, and is one of them or the initial 0 |
| Lines.CheckWin | src/components/Connect4.tsx:75-117 | the measure lies in [0, 7] |
| Lines.CheckWinIsLongestLine | src/components/Connect4.tsx:75-117 | some straight line of the measure's length holds only the player's discs, and no longer line does |
| Lines.WinIffFourInLine | src/components/Connect4.tsx:129 | the measure is at least 4 exactly when four of the player's discs lie consecutively on a column, row or diagonal |
| Lines.EmptyBoardMeasuresZero | src/components/Connect4.tsx:10-14 | the measure of either player on the empty board is 0 |
| Lines.MoveKeepsLines | src/components/Connect4.tsx:36-40 | a drop keeps every existing line, and creates no new line for the side that did not move |
| Lines.MoveKeepsMeasure | src/components/Connect4.tsx:36-40 | a drop never lowers a player's measure and leaves the non-mover's measure unchanged |
| Search.Minimax | src/components/Connect4.tsx:120-182 | the utility lies in [−1, 1] and at least one column is tied for the choice; recursion ends because depth decreases |
| Search.MinimaxLeaves | src/components/Connect4.tsx:127-135 | a node where the side to move has four in line is worth +1 for the root player's side and −1 otherwise; otherwise depth 0 or a board with no legal column is worth 0 |
| Search.MinimaxSelects | src/components/Connect4.tsx:137-173 | a column is among the tied choices exactly when it is legal and its child utility is at least (root player's nodes) or at most (opponent's nodes) that of every legal column |
| Search.MinimaxValue | src/components/Connect4.tsx:155-179 | a chosen column is legal, and the node's utility is that child's utility when it is ±1, and otherwise the sum of all legal children's utilities divided by 7 |
| Search.ExpandedNode | src/components/Connect4.tsx:137-156 | the node expands to a non-empty list of children holding every legal column and only legal columns, each with its child utility; the node is decided from that list, whose total is the sum over the legal columns |
| Search.UtilitiesAt | src/components/Connect4.tsx:138-149 | the table of child utilities holds, for every legal column, the search one ply shallower with the other side to move after the drop, and 0 for every other column |
| Search.DecideTies | src/components/Connect4.tsx:158-171 | the tied columns are exactly the columns of the children whose utility equals the extreme |
| Search.TotalBounded | src/components/Connect4.tsx:155-156 | the sum of n child utilities, each in [−1, 1], lies in [−n, n], so with at most 7 children the sum divided by 7 stays in [−1, 1] |
| Search.OpponentFacingWinIsLost | src/components/Connect4.tsx:127-149 | when the root player already has four in line, the opponent still has a column and has no four itself, the opponent's node is worth +1 to the root: every child is a won leaf |
| Search.WinningChildIsChosen | src/components/Connect4.tsx:158-177 | at the root player's node, a child worth +1 makes the node worth +1, and every tied column is legal and worth +1 |
| Search.ImmediateWinIsTaken | src/components/Connect4.tsx:127-177 | when the side to move can complete four with a drop that leaves the other side a legal reply, the search at depth 2 or more is worth +1 and picks a column worth +1 |
| Search.Pick | src/components/Connect4.tsx:172-173 | the draw selects one of the tied columns |
| Search.EveryTieCanBePicked | src/components/Connect4.tsx:172-173 | every tied column is selected by some draw in [0, 1) |
| Game.Reset | src/components/Connect4.tsx:247-257 | reset yields a board with every cell empty |
| Game.ResetStartsGame | src/components/Connect4.tsx:10-18 | the initial and reset state is playing, human to move, computer idle, no last move, no discs, and satisfies the game invariant |
| Game.ClickColumn | src/components/Connect4.tsx:185-208 | a click on a finished game, or on a column that does not accept a disc, changes nothing |
| Game.AiTurn | src/components/Connect4.tsx:211-237 | the computer's turn changes nothing on a finished game or while the human is to move |
| Game.AiColumn | src/components/Connect4.tsx:216 | the column the computer plays is one of the columns the depth-5 search from the current board reports as tied for best |
| Game.DropPreservesInv | src/components/Connect4.tsx:191-207 | a legal drop by the side to move, followed by the win and draw tests, keeps the game invariant |
| Game.AfterDropSettles | src/components/Connect4.tsx:194-207 | after a legal drop the status is the mover's win exactly when four of its discs lie in line, draw exactly when they do not and all cells are occupied, and otherwise play goes on with the other side to move |
| Game.ClickPreservesInv | src/components/Connect4.tsx:185-208 | every click keeps the game invariant |
| Game.AiTurnPreservesInv | src/components/Connect4.tsx:211-237 | every computer turn keeps the game invariant |
| Game.ClickOutcome | src/components/Connect4.tsx:185-208 | a click changes the state exactly when the game is on, it is the human's turn and the column is legal; it then drops the human's disc, records the last move, and sets human-wins exactly when four lie in line, draw exactly when they do not and all cells are occupied, and otherwise passes the turn |
| Game.AiTurnOutcome | src/components/Connect4.tsx:211-237 | on the computer's turn the chosen column is legal and its utility at depth 5 is at least every legal column's; the disc is dropped there and the status is settled by the win test, then the draw test |
| Game.AiSeesImmediateWin | src/components/Connect4.tsx:216 | when the computer can complete four with a drop that leaves the human a reply, the position is worth +1 and the column it plays is worth +1 |
| Sections.Without | src/components/ProjectsPage.tsx:46 | the filtered list holds exactly the entries other than the section, and is no longer than the input |
| Sections.IsExpanded | src/components/ProjectsPage.tsx:51-53 | a section is expanded exactly when it is in the project's list, and a project with no entry has none expanded |
| Sections.Toggle | src/components/ProjectsPage.tsx:42-49 | the toggled section flips; every other section of that project and every other project's entry is unchanged; a project with no entry gets one holding just that section |
| Sections.ToggleTwiceRestoresMembership | src/components/ProjectsPage.tsx:42-49 | toggling the same section twice restores which sections of every project are expanded |
| Sections.ToggleTwiceMayReorder | src/components/ProjectsPage.tsx:45-47 | toggling the first of two expanded sections twice moves it to the end, so the list is not restored |
| Sections.ToggleKeepsNoDup | src/components/ProjectsPage.tsx:45-47 | a project's list without duplicates stays without duplicates |
| Sections.WithoutAbsent | src/components/ProjectsPage.tsx:46 | filtering out a section that is not in the list returns the list unchanged |

## Left out

- Rendering, CSS classes, `getStatusMessage`, `getCellColor` and `isLastMove`: presentation only. The last move is recorded in the state but not displayed.
- React state hooks, the effect's dependency list, the 1-second `setTimeout` and its cleanup. The computer's turn is one synchronous step. Raising and lowering `isAiThinking` around it is collapsed into the net effect, which leaves the flag lowered.
- `Math.random()`: a parameter `rand` in [0, 1).
- Lines.Scan: its own contract states only bounds; that it is exactly the longest run is stated by Lines.ScanIsLongestRun.
- Lines.CountConsecutive: its own contract states only bounds; that it is exactly the longest run on the ray is stated by Lines.CountConsecutiveIsLongestRun.
- Lines.CheckWin: its own contract states only the range [0, 7]; that it is exactly the longest line is stated by Lines.CheckWinIsLongestLine.
- Search.Minimax: its own contract states only the utility bounds and a non-empty choice. The leaves, the selection rule and the node value are stated by Search.MinimaxLeaves, Search.MinimaxSelects and Search.MinimaxValue.
- Game.ClickColumn: its own contract states only when a click changes nothing; the full transition is stated by Game.ClickOutcome.
- Game.AiTurn: its own contract states only when the turn changes nothing (a finished game, or the human to move); the transition on the computer's turn is stated by Game.AiTurnOutcome.
- Game.Reset: its own contract states only the empty board; the rest of the reset state is stated by Game.ResetStartsGame.
- Search.Minimax: the source draws a random tie-break at every node, but only the root's column is ever used. So the model keeps the set of tied columns at every node and draws only at the root (`Game.AiColumn`). The utilities do not depend on the draws.
- JavaScript doubles: utilities are exact reals. Rounding of `totalUtility / 7` and of the equality test against the extreme is not modelled.
- Game.AiTurn: a computer drop into an illegal column leaves the board as it was, as in the source. `Game.AiTurnOutcome` shows this branch is unreachable from states satisfying the invariant.
- The modal state of the projects page, the other pages, and the project data records: UI flags and static data with no logic.
- Project ids: the source converts string ids with `Number(...)`. The model takes ids as integers.

Three points where the code differs from a plain reading of the game:

- A column fills from index 5 toward index 0.
- The search tests the side to move for four in line, so a win made on the last ply before the depth limit is not seen. Neither is a winning drop that fills the board.
- The comments call the search alpha-beta, but it never prunes.
