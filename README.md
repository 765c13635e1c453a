# Tic-tac-toe game logic with move-history time travel

This project models the game logic of a browser tic-tac-toe game and proves
properties of it. The DOM rendering is not modelled. The game's state is a
history of board snapshots, a cursor (`stepNumber`) and a turn flag
(`isXNext`). Two user actions change that state:

- a click on a cell (`handleClick`);
- a click on an entry of the move list (`jumpTo`).

Win detection (`calculateWinner`) checks the eight fixed lines in order. The
location helpers (`getRow`, `getCol`) turn a cell number into a 1-based row
and column.

Files and modules:

- `board.dfy`, module `Board`: marks, cells (`None` stands for JavaScript
  `null`), the 9-cell board, and the count of filled cells.
- `win_detection.dfy`, module `WinDetection`: `calculateWinner` as a loop
  with an early return (`CalculateWinner`). The loop is proved equal to a
  reference function `Winner`. Lemmas characterise `Winner` by quantifiers
  over the eight lines.
- `location.dfy`, module `Location`: `getRow` and `getCol`.
- `move_list.dfy`, module `MoveList`: the button label chosen for each move
  list entry, with the decimal form of the move number.
- `transitions.dfy`, module `Transitions`: the state record and the two
  transitions as pure functions (`Click`, `Jump`). It also holds the
  invariant of reachable states (`Inv`) and the lemmas about them.
- `game.dfy`, module `GameComponent`: the component as a class `Game`. Its
  three fields are replaced by `HandleClick` and `JumpTo`. Each method is
  proved equal to the matching transition and to keep `Inv`.

Two facts about the code shape the model:

- `jumpTo` truncates the history to `step + 1` entries at once
  (src/index.js:92, 96), so a jump discards the later moves immediately.
- `calculateWinner` returns only the winning mark, never the winning line.

## Model

| member | source | states |
|---|---|---|
| `WinDetection.CalculateWinner` | src/index.js:164-182 | The loop over the eight lines, with its early return, yields exactly `Winner(squares)`, the outcome of checking rows, then columns, then diagonals in order |
| `WinDetection.WinnerFromSpec` | src/index.js:175-181 | Checking from line `k` on gives null iff none of the remaining lines is won; it gives mark `p` iff some remaining line is owned by `p` and no line checked before it is won |
| `WinDetection.WinnerNoneIff` | src/index.js:175-181 | `calculateWinner` returns null iff no line has all three cells holding the same mark |
| `WinDetection.WinnerSomeIff` | src/index.js:165-179 | It returns mark `p` iff some line is owned by `p` and no earlier line in the fixed order is won: the first won line decides |
| `WinDetection.WinnerOwnsLine` | src/index.js:177-178 | A non-null result always owns some line entirely |
| `WinDetection.NewLineOwnedByMover` | src/index.js:74-78 | On a board with no winner, writing mark `p` into an empty cell can only complete lines that `p` owns |
| `WinDetection.WinnerExamples` | src/index.js:164-182 | Worked boards: top row of X gives X; main diagonal of X gives X; empty board gives null; a full drawn board gives null; rows of O and of X give O, the row checked first |
| `Location.GetRow` | src/index.js:184-196 | The row is in 1..3; for cells 0..8 it is `i / 3 + 1`; any value outside 0..5 gives 3 |
| `Location.GetCol` | src/index.js:198-210 | The column is in 1..3; for cells 0..8 it is `i % 3 + 1`; any value outside {0,1,3,4,6,7} gives 3 |
| `Location.LocationRecoversCell` | src/index.js:184-210 | For a cell 0..8, `(row - 1) * 3 + (col - 1)` is the cell again |
| `Location.LocationInjective` | src/index.js:184-210 | Two different cells never get the same row and column |
| `MoveList.Decimal` | src/index.js:103 | The decimal form of a number is a non-empty string of digits without leading zeros: it starts with '0' only for zero |
| `MoveList.MoveLabel` | src/index.js:102-104 | The label is "Go to game start" exactly for entry 0; for entry N ≥ 1 it is "Go to move #" followed by digits without a leading zero that read back as N |
| `MoveList.DecimalRoundTrip` | src/index.js:103 | The decimal digits written for the move number read back as that number |
| `MoveList.MoveLabelInjective` | src/index.js:102-104 | Different move list entries get different labels |
| `Transitions.Prefix` | src/index.js:69 | `slice(0, n)` yields a prefix of the history whose length is the smaller of `n` and the history's length |
| `Transitions.Click` | src/index.js:67-89 | A click either leaves the state as it was or yields a history that strictly extends the old history truncated at the cursor; the history is never empty |
| `Transitions.Jump` | src/index.js:91-98 | A jump keeps a prefix of the history, and keeps a non-empty history non-empty |
| `Transitions.ClickIgnoredIff` | src/index.js:73-76 | A click leaves history, turn and step unchanged iff the current board has a winner or cell `i` is filled |
| `Transitions.ClickAccepted` | src/index.js:69-88 | An accepted click: history becomes the old `history[0..stepNumber]` plus one snapshot; that board equals the current board except cell `i`, which holds the mark of the player to move; `location == i`, `player == squares[i]`; the step goes up by 1 and the turn flips |
| `Transitions.ClickKeepsEarlierSnapshots` | src/index.js:69-81 | Every snapshot at or before the cursor is unchanged by a click |
| `Transitions.JumpDiscardsFuture` | src/index.js:91-97 | For a step below the history's length, the new history is the old first `step + 1` entries, and the entry jumped to becomes the current board |
| `Transitions.InitialInv` | src/index.js:56-64 | The initial state satisfies the invariant: one empty snapshot with no move, X to move, step 0 |
| `Transitions.InvCurrent` | src/index.js:69-70 | Under the invariant, the board a click works on is `history[stepNumber]` |
| `Transitions.ClickPreservesInv` | src/index.js:78-88 | A click keeps the history length equal to `stepNumber + 1`, `isXNext == (stepNumber % 2 == 0)`, and that each entry records one legal move of the right player |
| `Transitions.JumpPreservesInv` | src/index.js:91-97 | A jump to an offered entry keeps the same invariant |
| `Transitions.JumpToCursorIsNoOp` | src/index.js:91-97 | In a reachable state, a jump to the entry at the cursor changes nothing |
| `Transitions.InvFilledCount` | src/index.js:74-85 | Snapshot `k` of a reachable history has exactly `k` filled cells |
| `Transitions.InvAtMostNineMoves` | src/index.js:74-88 | A reachable state has at most nine moves and ten snapshots |
| `Transitions.InvWonLinesBelongToLastMover` | src/index.js:74-85 | In a reachable history, every won line of snapshot `k` is owned by the player of move `k` |
| `Transitions.InvWinnerIsLastMover` | src/index.js:74-85 | In a reachable history, the reported winner of a snapshot is the player who just moved, and the other player owns no line |
| `Transitions.RunPreservesInv` | src/index.js:67-97 | Any legal sequence of clicks and jumps keeps the invariant |
| `Transitions.ReachableInv` | src/index.js:56-97 | Every state reached from the initial state has a history of `stepNumber + 1` entries and `isXNext == (stepNumber % 2 == 0)` |
| `Transitions.BranchOverwritesFuture` | src/index.js:67-97 | X at 0, O at 1, jump to the start, X at 4: two snapshots remain; the second has X at 4 and cells 0 and 1 empty |
| `GameComponent.Game.constructor` | src/index.js:54-65 | The component starts in the initial state, which satisfies the invariant |
| `GameComponent.Game.HandleClick` | src/index.js:67-89 | The fields become `Click` of the old fields, and the invariant is kept. An ignored click changes nothing. An accepted one keeps the history up to the cursor |
| `GameComponent.Game.JumpTo` | src/index.js:91-98 | The fields become `Jump` of the old fields: history is the first `step + 1` entries, the step is `step`, and `isXNext == (step % 2 == 0)`. The invariant is kept |
| `GameComponent.Game.CurrentSquares` | src/index.js:126-127 | The board shown, `history[stepNumber]`, is the board a click works on |

## Left out

- React rendering (`Square`, `Board`, `Game.render`, the JSX of the move list), the CSS import and `ReactDOM.render`: presentation and DOM plumbing.
- The status line ("Winner: …" / "Next player: …"): presentation that depends only on `calculateWinner` and `isXNext`.
- The location text of each move list entry (`"<player> @ location: <row>, <col>"`): presentation; the row and column it shows are modelled by `GetRow` and `GetCol`.
- `setState` batching and asynchrony: each transition is one atomic replacement of the whole state.
- Boards are immutable sequence values. The `slice()` copy made before the write is therefore implicit, and array aliasing is not modelled. The fact it protects, that earlier snapshots never change, is proved as `ClickKeepsEarlierSnapshots`.
- `Transitions.Click`: the cell number is limited to 0..8. This is the only range the board passes; the model does not cover JavaScript writing past the end of the array for other values.
- `GameComponent.Game.JumpTo`: requires `step < |history|`, the only steps the move list offers. The pure `Transitions.Jump` follows `slice` for every natural `step`.
- JavaScript numbers are modelled as unbounded integers; move numbers never come near 2^53.
