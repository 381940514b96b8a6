# Tic-tac-toe engine: win detection, minimax search and the round controller

This project models the browser tic-tac-toe game in `script.js`. The human plays X and the computer plays O. The model has three modules:

- `Grid` (grid.dfy) covers the 9-cell row-major board (`null` is `Empty`):
  - the fixed table of the eight winning lines;
  - `checkWinner`, a `some` over that table;
  - the list of empty cells that the search tries (`availSpots`);
  - the trial placement of a mark.
- `Search` (search.dfy) covers full-depth minimax without pruning, where O maximizes and X minimizes:
  - `Minimax` is a pure recursive definition. X owning a line gives -10 and is checked first; O owning a line gives 10; a board without empty cells gives 0.
  - Otherwise `Minimax` tries every empty cell in ascending order and keeps the first strictly best score: greater for O, smaller for X.
  - `MinimaxInPlace` and `ScoreMoves` are the search as the program runs it. Each candidate mark goes onto the shared array and is taken back after the recursive call. `SelectBest` is the selection scan with its sentinel.
  - The in-place search is proved to return the pure definition's result and to leave the array as it found it. These properties are then proved about the pure definition:
    - the exact terminal scores;
    - the chosen cell is empty;
    - the score is the maximum for O and the minimum for X;
    - on ties the lowest cell wins;
    - two concrete positions: a forced win and a forced block.
- `Controller` (controller.dfy) covers the round controller:
  - The three module-level variables `boardState`, `currentPlayer` and `gameActive` are the fields of the class `Game`. Its methods `HandleCellClick`, `ComputerMove` and `ResetGame` update them in place.
  - Each method is proved against a function on the value `State`: `Click`, `ComputerReply` or `Initial`.
  - Lemmas about those functions state the controller's behaviour:
    - an ignored click changes nothing;
    - a move never overwrites a taken cell;
    - the alert matches the outcome, a line being announced as a win before the board is checked for a draw;
    - the turn passes X → O → X;
    - X has as many marks as O or one more, and no board has a line for both marks;
    - the invariant "a round that is on is neither won nor full" is preserved.

An `alert` is kept as a value of the datatype `Alert`, which the click and move methods return. The 500 ms `setTimeout` before the computer's move is modelled as a direct call at the end of the click.

## Model

| member | source | states |
|---|---|---|
| Grid.CheckWinner | script.js:113-118 | the `some` over the table of lines: `p` owns a winning line; its meaning is proved in `Grid.CheckWinnerIff` and `Grid.CheckWinnerLines` |
| Grid.CheckWinnerIff | script.js:113-118 | `checkWinner(b, p)` holds exactly when some line of the eight-line table has all three of its cells held by `p` |
| Grid.CheckWinnerLines | script.js:8-12 | the same test written out on the grid: a full row 0-1-2, 3-4-5 or 6-7-8, a full column 0-3-6, 1-4-7 or 2-5-8, or a full diagonal 0-4-8 or 2-4-6 of `p`, in both directions |
| Grid.PlacingKeepsOtherLines | script.js:20 | putting one mark on the board never creates a line for the other mark |
| Grid.IsFull | script.js:29 | `every(cell => cell)` (also at line 53): no cell is empty; `Grid.FullIffNoAvail` ties it to the candidate list |
| Grid.Avail | script.js:62 | every candidate move is an empty cell |
| Grid.AvailSpec | script.js:62 | the candidates are exactly the empty cells, each listed, in strictly ascending index order |
| Grid.FullIffNoAvail | script.js:68 | there are no candidates exactly when every cell is taken |
| Grid.Place | script.js:77 | placing a mark on an empty cell uses up exactly one empty cell, so the search terminates |
| Grid.Other | script.js:35 | the turn always passes to the other mark |
| Search.FirstBest | script.js:91-108 | the position kept by the scan: no score is strictly better for `p`, and it is strictly better than every earlier score, so ties keep the first |
| Search.SelectBest | script.js:91-108 | the selection loops, with sentinels -11 and 11, return the first best position (strict `>` for O, strict `<` for X) |
| Search.Minimax | script.js:61-111 | every score the search returns is -10, 0 or 10 |
| Search.MinimaxTerminal | script.js:64-70 | X owning a line scores -10 whichever mark is to move, even if O also owns a line; otherwise an O line scores 10; otherwise a full board scores 0; no cell is chosen exactly on such boards |
| Search.ChildScores | script.js:74-89 | one score per candidate, each -10, 0 or 10 |
| Search.ChildScoresAt | script.js:76-84 | the score recorded for candidate `j` is the search of the board where the mark to move took that cell, with the other mark to move |
| Search.ChildScoresPrefix | script.js:88 | each pass of the loop appends the score of one more candidate |
| Search.MinimaxChoice | script.js:74-110 | on a board still in play the chosen cell is empty and its score is the result; no empty cell scores strictly better for the mark to move; every lower empty cell scores strictly worse |
| Search.MinimaxPicksEmpty | script.js:110 | on a board still in play the search names a cell, and that cell is empty |
| Search.MaximizerChoice | script.js:92-99 | for O the score is the maximum of the child scores, and the cell is the lowest empty cell reaching it |
| Search.MinimizerChoice | script.js:100-107 | for X the score is the minimum of the child scores, and the cell is the lowest empty cell reaching it |
| Search.MaximizerKeepsLowest | script.js:95 | when the lowest empty cell reaches O's best score, O's search picks it |
| Search.MinimizerTakesWin | script.js:103 | when X can complete a line at once, X's search scores -10 |
| Search.ForcedWin | script.js:61-111 | with O on 0 and 1 and X on 3 and 4, O's search completes the top row at 2 |
| Search.ForcedBlock | script.js:61-111 | with X on 0 and 1 and O on 3, O's search blocks at 2, because any other cell lets X win there |
| Search.LetsXWinAtTwo | script.js:64-65 | in that position, any O move from cell 4 on scores -10 |
| Search.MinimaxInPlace | script.js:61-111 | the in-place search returns exactly the pure definition's result, and the board array is as it was on entry |
| Search.ScoreMoves | script.js:74-89 | the place/search/undo loop yields the pure child scores in candidate order, and every trial placement is undone |
| Controller.ComputerReply | script.js:42-59 | the computer's move as a function of the state: O goes into the cell O's search names; a line for O ends the round with "Computer wins!" and O still to move; otherwise a full board ends it as a draw; otherwise play goes on; whenever O did not win, X is to move. Its properties are proved in `Controller.ComputerReplyMove` and `Controller.ComputerReplyEffect` |
| Controller.Click | script.js:14-40 | a click as a function of the state: ignored when the round is over or the cell is taken; otherwise the current mark goes into the cell; a line ends the round as that mark's win, turn unchanged; otherwise a full board ends it as a draw; otherwise the turn passes, and when it passes to O the computer replies at once. Its properties are proved in the `Controller.Click…` lemmas |
| Controller.InitialPlayable | script.js:4-6 | the initial state has every cell empty, X to move, the round on, and satisfies the controller invariant |
| Controller.ComputerReplyMove | script.js:43-44 | the computer adds an O to exactly one cell, which was empty: the lowest empty cell whose score is best for O, the cell `minimax` names |
| Controller.ComputerReplyEffect | script.js:47-58 | after the computer's move the invariant holds and X owns no line; "Computer wins!" exactly when O owns a line; a draw exactly when the board is full and O has no line; the round stays on exactly when nothing is announced; the turn returns to X unless O won |
| Controller.ClickIgnored | script.js:18 | a click when the round is over, or on a taken cell, changes nothing and announces nothing |
| Controller.ClickKeepsConsistent | script.js:14-40 | a click preserves the invariant that a round that is on is neither won nor full |
| Controller.ClickTurnTaking | script.js:20-44 | from a state with X to move, when the round goes on: X is in the clicked cell, O is in one other formerly empty cell, nothing else changed, and X is to move again |
| Controller.ClickKeepsTakenCells | script.js:18-20 | a taken cell is never overwritten |
| Controller.ClickAnnounces | script.js:23-33 | a click that is not ignored is announced as the clicking mark's win exactly when it completes a line for that mark; a win names the clicking mark, which owns a line and keeps the turn, while the other mark owns none; because the win check comes first, a draw is a full board on which neither mark owns a line; "Computer wins!" means O owns a line; a click that wins or fills the board leaves the old board plus the clicking mark in the clicked cell, the turn unchanged and the round over; a round never ends without an announcement |
| Controller.ClickKeepsSingleWinner | script.js:23-33 | a click never produces a board on which X and O both own a line |
| Grid.CountMarkUpdate | script.js:20 | filling an empty cell with a mark adds one to that mark's count and leaves the other mark's count unchanged (also the write at line 44) |
| Controller.InitialBalanced | script.js:6 | the initial board holds no X and no O, so it is balanced |
| Controller.ClickKeepsBalanced | script.js:20-58 | from a state with X to move, a click keeps X's count equal to O's or one more, and equal while the round is on |
| Controller.Game.constructor | script.js:4-6 | the page starts with all nine cells empty, X to move and the round on |
| Controller.Game.HandleCellClick | script.js:14-40 | the new fields and the alert are those of `Click` on the old fields, and the invariant is kept |
| Controller.Game.ComputerMove | script.js:42-59 | the new fields and the alert are those of `ComputerReply` on the old fields, and the invariant is kept |
| Controller.Game.ResetGame | script.js:124-129 | whatever the state before, a fresh empty board, X to move and the round on |

## Left out

- The DOM is not modelled: element lookups, writing `textContent`, the event listeners, and parsing `data-index`. A click is a method taking a cell index 0..8.
- `alert` output is not modelled. Each announcement is returned as an `Alert` value instead.
- The 500 ms `setTimeout` before the computer's move is modelled as a synchronous call. So the window in which the human can click while `currentPlayer` is 'O', or press reset before a stale computer move fires, is not modelled.
- Search.SelectBest: the `-Infinity`/`Infinity` starting scores are the integers -11 and 11, so the method requires every score to lie in -10..10. Every child score of the search does (`Search.ChildScores`).
- Search.Minimax leaves out the `undefined` index of a terminal result, which becomes the absent index `None`.
- Controller.ComputerReply and Controller.Game.ComputerMove require a round that is on, a board that is neither won nor full, and O to move. In that state the search always names a cell. Writing O into the `undefined` cell that script.js's `computerMove` would get from a terminal board is not modelled.
- Controller.Game.HandleCellClick requires the controller invariant: while the round is on the board is neither won nor full. Every reachable state meets it (`Controller.InitialPlayable`, `Controller.ClickKeepsConsistent`, `Controller.ComputerReplyEffect`).
- `checkWin` is written inline as `CheckWinner(board, currentPlayer)`.
- The value of perfect play from the empty board is not stated. The code does not claim it, and proving it means evaluating the full game tree.
- The mark-count invariant (`Controller.Balanced`) and the single-winner property (`Controller.SingleWinner`) are proved only for the synchronous model. In script.js the human can click during the 500 ms before `computerMove` runs, while `currentPlayer` is 'O'. That click writes an 'O' at script.js:20, the pending `computerMove` writes a second 'O' at script.js:44, and the board ends up with one more O than X.
