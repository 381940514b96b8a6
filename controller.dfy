/** The round controller: the board, whose turn it is and whether the round
    is still on, updated by a click of the human (X) and by the computer's
    reply (O). */
module Controller {
  import opened Grid
  import opened Search

  /** What the round announces: "X wins!" / "O wins!", "Computer wins!",
      "It's a draw!", or nothing. */
  datatype Alert = NoAlert | PlayerWins(winner: Mark) | ComputerWins | ItsADraw

  /** The three pieces of controller state, as a value. */
  datatype State = State(board: Board, currentPlayer: Mark, gameActive: bool)

  /** While the round is on, the board is neither won nor full. */
  predicate Consistent(s: State)
  {
    s.gameActive ==> !Terminal(s.board)
  }

  /** Consistent, and the human (X) is the one to move while the round is on. */
  predicate Playable(s: State)
  {
    Consistent(s) && (s.gameActive ==> s.currentPlayer == X)
  }

  /** The state at load time and after a reset. */
  const Initial: State := State(EmptyBoard, X, true)

  /** The computer's move: O goes where O's search says; a line for the
      current player ends the round without changing the turn, otherwise a
      full board ends it as a draw, and in both of these last cases the turn
      goes back to X. */
  function ComputerReply(s: State): (State, Alert)
    requires Consistent(s) && s.gameActive && s.currentPlayer == O
  {
    MinimaxPicksEmpty(s.board, O);
    var bestMove := Minimax(s.board, O).index.value;
    var b := Place(s.board, bestMove, O);
    if CheckWinner(b, s.currentPlayer) then (State(b, s.currentPlayer, false), ComputerWins)
    else if IsFull(b) then (State(b, X, false), ItsADraw)
    else (State(b, X, true), NoAlert)
  }

  /** A click on cell `i`, followed at once by the computer's move when the
      turn passes to O. */
  function Click(s: State, i: Index): (State, Alert)
    requires Consistent(s)
  {
    if !s.gameActive || s.board[i] != Empty then (s, NoAlert)
    else
      var b := Place(s.board, i, s.currentPlayer);
      if CheckWinner(b, s.currentPlayer) then (State(b, s.currentPlayer, false), PlayerWins(s.currentPlayer))
      else if IsFull(b) then (State(b, s.currentPlayer, false), ItsADraw)
      else
        PlacingKeepsOtherLines(s.board, i, s.currentPlayer, Other(s.currentPlayer));
        var next := State(b, Other(s.currentPlayer), true);
        if next.currentPlayer == O then ComputerReply(next) else (next, NoAlert)
  }

  /** The initial state has every cell empty, X to move, the round on, and
      is playable. */
  lemma InitialPlayable()
    ensures forall i: Index :: Initial.board[i] == Empty
    ensures Initial.currentPlayer == X && Initial.gameActive
    ensures Playable(Initial)
  {
    CheckWinnerLines(EmptyBoard, X);
    CheckWinnerLines(EmptyBoard, O);
  }

  /** The computer fills exactly one empty cell, with O: the lowest cell
      whose search score is best for O. */
  lemma ComputerReplyMove(s: State)
    requires Consistent(s) && s.gameActive && s.currentPlayer == O
    ensures exists c: Index ::
      (s.board[c] == Empty && ComputerReply(s).0.board == s.board[c := Full(O)] &&
       (forall e: Index :: s.board[e] == Empty ==> ChildScore(s.board, O, e) <= ChildScore(s.board, O, c)) &&
       (forall e: Index :: s.board[e] == Empty && e < c ==> ChildScore(s.board, O, e) < ChildScore(s.board, O, c)))
  {
    MaximizerChoice(s.board);
    var c := Minimax(s.board, O).index.value;
    assert ComputerReply(s).0.board == s.board[c := Full(O)];
  }

  /** After the computer's move the state is consistent, X owns no line, the
      alert says how the round stands, and the turn returns to X unless the
      computer won. */
  lemma ComputerReplyEffect(s: State)
    requires Consistent(s) && s.gameActive && s.currentPlayer == O
    ensures var (t, a) := ComputerReply(s);
      Consistent(t) &&
      !CheckWinner(t.board, X) &&
      (a == ComputerWins <==> CheckWinner(t.board, O)) &&
      (a == ItsADraw <==> !CheckWinner(t.board, O) && IsFull(t.board)) &&
      (t.gameActive <==> a == NoAlert) &&
      t.currentPlayer == (if a == ComputerWins then O else X)
  {
    MinimaxPicksEmpty(s.board, O);
    var c := Minimax(s.board, O).index.value;
    PlacingKeepsOtherLines(s.board, c, O, X);
  }

  /** A click leaves the state consistent. */
  lemma ClickKeepsConsistent(s: State, i: Index)
    requires Consistent(s)
    ensures Consistent(Click(s, i).0)
  {
    if s.gameActive && s.board[i] == Empty {
      var b := Place(s.board, i, s.currentPlayer);
      if !CheckWinner(b, s.currentPlayer) && !IsFull(b) {
        PlacingKeepsOtherLines(s.board, i, s.currentPlayer, Other(s.currentPlayer));
        var next := State(b, Other(s.currentPlayer), true);
        if next.currentPlayer == O {
          ComputerReplyEffect(next);
        }
      }
    }
  }

  /** A click when the round is over, or on a taken cell, changes nothing. */
  lemma ClickIgnored(s: State, i: Index)
    requires Consistent(s)
    requires !s.gameActive || s.board[i] != Empty
    ensures Click(s, i) == (s, NoAlert)
  {
  }

  /** Turn taking: from a playable state a click leaves a playable state;
      when the round goes on, X's mark is on the clicked cell, the computer's
      O on one other formerly empty cell, nothing else changed, and it is X's
      turn again. */
  lemma ClickTurnTaking(s: State, i: Index)
    requires Playable(s) && s.gameActive && s.board[i] == Empty
    ensures Playable(Click(s, i).0)
    ensures var t := Click(s, i).0;
      t.gameActive ==>
        t.currentPlayer == X &&
        exists c: Index :: c != i && s.board[c] == Empty && t.board == s.board[i := Full(X)][c := Full(O)]
  {
    ClickKeepsConsistent(s, i);
    var b := Place(s.board, i, X);
    if !CheckWinner(b, X) && !IsFull(b) {
      PlacingKeepsOtherLines(s.board, i, X, O);
      ComputerReplyEffect(State(b, O, true));
      ComputerReplyMove(State(b, O, true));
    }
  }

  /** A click never overwrites a taken cell. */
  lemma ClickKeepsTakenCells(s: State, i: Index)
    requires Consistent(s)
    ensures forall j: Index :: s.board[j] != Empty ==> Click(s, i).0.board[j] == s.board[j]
  {
    if s.gameActive && s.board[i] == Empty {
      var b := Place(s.board, i, s.currentPlayer);
      if !CheckWinner(b, s.currentPlayer) && !IsFull(b) {
        PlacingKeepsOtherLines(s.board, i, s.currentPlayer, Other(s.currentPlayer));
        var next := State(b, Other(s.currentPlayer), true);
        if next.currentPlayer == O {
          ComputerReplyMove(next);
        }
      }
    }
  }

  /** The alert of a click matches the new state. A click that completes a
      line for the mark placed is announced as that mark's win, and only such
      a click; the other mark then owns no line. The win check comes before
      the draw check, so a draw is a full board on which neither mark owns a
      line. A click that wins or fills the board leaves exactly that mark in
      that cell, the turn unchanged and the round over. A round never ends
      without an announcement. */
  lemma ClickAnnounces(s: State, i: Index)
    requires Consistent(s)
    ensures var (t, a) := Click(s, i);
      (a.PlayerWins? ==>
         (a.winner == s.currentPlayer && CheckWinner(t.board, a.winner) &&
          !CheckWinner(t.board, Other(a.winner)) &&
          !t.gameActive && t.currentPlayer == a.winner)) &&
      (s.gameActive && s.board[i] == Empty ==>
         (a == PlayerWins(s.currentPlayer) <==>
          CheckWinner(Place(s.board, i, s.currentPlayer), s.currentPlayer))) &&
      (s.gameActive && s.board[i] == Empty &&
       (CheckWinner(Place(s.board, i, s.currentPlayer), s.currentPlayer) ||
        IsFull(Place(s.board, i, s.currentPlayer))) ==>
         t == State(Place(s.board, i, s.currentPlayer), s.currentPlayer, false)) &&
      (a == ComputerWins ==> CheckWinner(t.board, O) && !t.gameActive) &&
      (a == ItsADraw ==>
         (IsFull(t.board) && !CheckWinner(t.board, X) && !CheckWinner(t.board, O) && !t.gameActive)) &&
      (s.gameActive && !t.gameActive ==> a != NoAlert)
  {
    if s.gameActive && s.board[i] == Empty {
      var b := Place(s.board, i, s.currentPlayer);
      PlacingKeepsOtherLines(s.board, i, s.currentPlayer, Other(s.currentPlayer));
      if !CheckWinner(b, s.currentPlayer) && !IsFull(b) {
        var next := State(b, Other(s.currentPlayer), true);
        if next.currentPlayer == O {
          ComputerReplyEffect(next);
        }
      }
    }
  }

  /** No board has a line for both marks at once. */
  predicate SingleWinner(b: Board)
  {
    !(CheckWinner(b, X) && CheckWinner(b, O))
  }

  /** A click never produces a board on which both marks own a line. */
  lemma ClickKeepsSingleWinner(s: State, i: Index)
    requires Consistent(s) && SingleWinner(s.board)
    ensures SingleWinner(Click(s, i).0.board)
  {
    if s.gameActive && s.board[i] == Empty {
      var b := Place(s.board, i, s.currentPlayer);
      PlacingKeepsOtherLines(s.board, i, s.currentPlayer, Other(s.currentPlayer));
      if !CheckWinner(b, s.currentPlayer) && !IsFull(b) {
        var next := State(b, Other(s.currentPlayer), true);
        if next.currentPlayer == O {
          ComputerReplyEffect(next);
        }
      }
    }
  }

  /** The mark counts of a round played from X's turn: X has as many marks
      as O or one more, and exactly as many while the round is on. */
  predicate Balanced(s: State)
  {
    var d := CountMark(s.board, X) - CountMark(s.board, O);
    (d == 0 || d == 1) && (s.gameActive ==> d == 0)
  }

  /** The initial state is balanced. */
  lemma InitialBalanced()
    ensures Balanced(Initial) && CountMark(Initial.board, X) == 0 && CountMark(Initial.board, O) == 0
  {
    CountMarkAbsent(EmptyBoard, X);
    CountMarkAbsent(EmptyBoard, O);
  }

  /** From a playable balanced state a click leaves a balanced state: X's
      mark and, when the round goes on, the computer's O keep the counts in step. */
  lemma ClickKeepsBalanced(s: State, i: Index)
    requires Playable(s) && Balanced(s)
    ensures Balanced(Click(s, i).0)
  {
    if s.gameActive && s.board[i] == Empty {
      var b := Place(s.board, i, X);
      CountMarkUpdate(s.board, i, X, X);
      CountMarkUpdate(s.board, i, X, O);
      if !CheckWinner(b, X) && !IsFull(b) {
        PlacingKeepsOtherLines(s.board, i, X, O);
        var next := State(b, O, true);
        ComputerReplyMove(next);
        var c: Index :| b[c] == Empty && ComputerReply(next).0.board == b[c := Full(O)];
        CountMarkUpdate(b, c, O, X);
        CountMarkUpdate(b, c, O, O);
      }
    }
  }

  /** The controller object: the game's three module-level variables. */
  class Game {
    var boardState: array<Cell>
    var currentPlayer: Mark
    var gameActive: bool

    ghost predicate Valid()
      reads this, boardState
    {
      boardState.Length == 9 && Consistent(Snapshot())
    }

    /** The controller state as a value. */
    ghost function Snapshot(): State
      reads this, boardState
      requires boardState.Length == 9
    {
      State(boardState[..], currentPlayer, gameActive)
    }

    /** The state at load time: an empty board, X to move, the round on. */
    constructor ()
      ensures Valid() && Snapshot() == Initial && fresh(boardState)
    {
      boardState := new Cell[9](_ => Empty);
      currentPlayer := X;
      gameActive := true;
      new;
      assert boardState[..] == EmptyBoard;
      InitialPlayable();
    }

    /** A click on cell `clickedIndex`: ignored when the round is over or the
        cell is taken; otherwise the current player's mark goes there, a line
        ends the round, a full board ends it as a draw, and otherwise the turn
        passes, the computer replying when it passes to O. */
    method HandleCellClick(clickedIndex: Index) returns (alert: Alert)
      requires Valid()
      modifies this, boardState
      ensures Valid() && boardState == old(boardState)
      ensures (Snapshot(), alert) == Click(old(Snapshot()), clickedIndex)
    {
      if !gameActive || boardState[clickedIndex] != Empty {
        return NoAlert;
      }
      ghost var s := Snapshot();
      boardState[clickedIndex] := Full(currentPlayer);
      assert boardState[..] == Place(s.board, clickedIndex, currentPlayer);
      if CheckWinner(boardState[..], currentPlayer) {
        gameActive := false;
        return PlayerWins(currentPlayer);
      }
      if IsFull(boardState[..]) {
        gameActive := false;
        return ItsADraw;
      }
      PlacingKeepsOtherLines(s.board, clickedIndex, currentPlayer, Other(currentPlayer));
      currentPlayer := Other(currentPlayer);
      alert := NoAlert;
      if currentPlayer == O {
        alert := ComputerMove();
      }
    }

    /** The computer's move: O's search runs on the live board (which it
        leaves as it found it), O goes into the chosen cell, and the same
        win and draw checks follow; the turn returns to X unless O won. */
    method ComputerMove() returns (alert: Alert)
      requires Valid() && gameActive && currentPlayer == O
      modifies this, boardState
      ensures Valid() && boardState == old(boardState)
      ensures (Snapshot(), alert) == ComputerReply(old(Snapshot()))
    {
      ghost var s := Snapshot();
      var best := MinimaxInPlace(boardState, O);
      MinimaxPicksEmpty(s.board, O);
      ComputerReplyEffect(s);
      var bestMove := best.index.value;
      boardState[bestMove] := Full(O);
      assert boardState[..] == Place(s.board, bestMove, O);
      if CheckWinner(boardState[..], currentPlayer) {
        gameActive := false;
        return ComputerWins;
      }
      alert := NoAlert;
      if IsFull(boardState[..]) {
        gameActive := false;
        alert := ItsADraw;
      }
      currentPlayer := X;
    }

    /** Reset: a fresh empty board, X to move, the round on, whatever the
        state before. */
    method ResetGame()
      modifies this
      ensures Valid() && Snapshot() == Initial && fresh(boardState)
    {
      boardState := new Cell[9](_ => Empty);
      currentPlayer := X;
      gameActive := true;
      assert boardState[..] == EmptyBoard;
      InitialPlayable();
    }
  }
}
