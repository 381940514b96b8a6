/** Full-depth minimax without pruning: a pure recursive definition, the
    in-place search over an array that the computer runs, and the selection
    scan that picks the best candidate. O maximizes and X minimizes. */
module Search {
  import opened Grid

  datatype Option<T> = None | Some(value: T)

  /** What one search returns: the score of the board for the mark to move
      and, unless the board is terminal, the cell chosen. */
  datatype Move = Move(score: int, index: Option<Index>)

  /** The selection test: O keeps a strictly greater score, X a strictly smaller one. */
  predicate Better(p: Mark, a: int, b: int)
  {
    if p == O then a > b else a < b
  }

  /** The position the left-to-right scan keeps: the first one holding the
      best score for `p` (later ties do not replace it). */
  function FirstBest(s: seq<int>, p: Mark): (k: nat)
    requires |s| > 0
    ensures k < |s|
    ensures forall j :: 0 <= j < |s| ==> !Better(p, s[j], s[k])
    ensures forall j :: 0 <= j < k ==> Better(p, s[k], s[j])
  {
    if |s| == 1 then 0
    else
      var k := FirstBest(s[..|s| - 1], p);
      if Better(p, s[|s| - 1], s[k]) then |s| - 1 else k
  }

  /** The score of `b` with `p` to move, and the cell it picks. X owning a line
      is checked first, then O owning a line, then a board with no empty cell. */
  function Minimax(b: Board, p: Mark): (m: Move)
    decreases CountEmpty(b), 1
    ensures m.score == -10 || m.score == 0 || m.score == 10
  {
    var availSpots := Avail(b);
    if CheckWinner(b, X) then Move(-10, None)
    else if CheckWinner(b, O) then Move(10, None)
    else if |availSpots| == 0 then Move(0, None)
    else
      var scores := ChildScores(b, p, availSpots);
      var k := FirstBest(scores, p);
      Move(scores[k], Some(availSpots[k]))
  }

  /** The terminal cases, X's line first: X owning a line scores -10 whichever
      mark is to move and even if O owns a line too; otherwise O owning a
      line scores 10; otherwise a full board scores 0. Exactly on these
      boards no cell is chosen. */
  lemma MinimaxTerminal(b: Board, p: Mark)
    ensures CheckWinner(b, X) ==> Minimax(b, p) == Move(-10, None)
    ensures !CheckWinner(b, X) && CheckWinner(b, O) ==> Minimax(b, p) == Move(10, None)
    ensures !CheckWinner(b, X) && !CheckWinner(b, O) && IsFull(b) ==> Minimax(b, p) == Move(0, None)
    ensures Minimax(b, p).index.None? <==> Terminal(b)
  {
    FullIffNoAvail(b);
  }

  /** The scores of the boards reached by `p` taking each cell of `spots`,
      searched with the other mark to move. */
  function ChildScores(b: Board, p: Mark, spots: seq<Index>): (s: seq<int>)
    requires forall j :: 0 <= j < |spots| ==> b[spots[j]] == Empty
    decreases CountEmpty(b), 0, |spots|
    ensures |s| == |spots|
    ensures forall j :: 0 <= j < |s| ==> s[j] == -10 || s[j] == 0 || s[j] == 10
  {
    if spots == [] then []
    else [Minimax(Place(b, spots[0], p), Other(p)).score] + ChildScores(b, p, spots[1..])
  }

  /** The score of the board reached when `p` takes the empty cell `e`. */
  function ChildScore(b: Board, p: Mark, e: Index): int
    requires b[e] == Empty
  {
    Minimax(Place(b, e, p), Other(p)).score
  }

  /** Entry `j` of the child scores is the search of the board where `p`
      took `spots[j]`. */
  lemma {:induction false} ChildScoresAt(b: Board, p: Mark, spots: seq<Index>, j: nat)
    requires forall i :: 0 <= i < |spots| ==> b[spots[i]] == Empty
    requires j < |spots|
    ensures ChildScores(b, p, spots)[j] == ChildScore(b, p, spots[j])
  {
    if j > 0 {
      ChildScoresAt(b, p, spots[1..], j - 1);
    }
  }

  /** The non-terminal branch of Minimax, by itself. */
  lemma MinimaxUnfold(b: Board, p: Mark)
    requires !Terminal(b)
    ensures |Avail(b)| > 0
    ensures var k := FirstBest(ChildScores(b, p, Avail(b)), p);
      Minimax(b, p) == Move(ChildScores(b, p, Avail(b))[k], Some(Avail(b)[k]))
  {
    FullIffNoAvail(b);
  }

  /** Scoring one more candidate appends its child score. */
  lemma {:induction false} ChildScoresSnoc(b: Board, p: Mark, spots: seq<Index>, e: Index)
    requires forall i :: 0 <= i < |spots| ==> b[spots[i]] == Empty
    requires b[e] == Empty
    ensures ChildScores(b, p, spots + [e]) == ChildScores(b, p, spots) + [ChildScore(b, p, e)]
  {
    if spots != [] {
      assert (spots + [e])[1..] == spots[1..] + [e];
      ChildScoresSnoc(b, p, spots[1..], e);
    }
  }

  /** The child scores of the first `i + 1` candidates extend those of the first `i`. */
  lemma ChildScoresPrefix(b: Board, p: Mark, spots: seq<Index>, i: nat)
    requires forall j :: 0 <= j < |spots| ==> b[spots[j]] == Empty
    requires i < |spots|
    ensures ChildScores(b, p, spots[..i + 1]) == ChildScores(b, p, spots[..i]) + [ChildScore(b, p, spots[i])]
  {
    assert spots[..i + 1] == spots[..i] + [spots[i]];
    ChildScoresSnoc(b, p, spots[..i], spots[i]);
  }

  /** On a board still in play the search picks an empty cell whose child
      score is best for `p`, and among equally good cells the lowest one. */
  lemma MinimaxChoice(b: Board, p: Mark)
    requires !Terminal(b)
    ensures Minimax(b, p).index.Some?
    ensures var c := Minimax(b, p).index.value;
      b[c] == Empty && Minimax(b, p).score == ChildScore(b, p, c)
    ensures forall e: Index :: b[e] == Empty ==>
      !Better(p, ChildScore(b, p, e), Minimax(b, p).score)
    ensures forall e: Index :: b[e] == Empty && e < Minimax(b, p).index.value ==>
      Better(p, Minimax(b, p).score, ChildScore(b, p, e))
  {
    MinimaxUnfold(b, p);
    AvailSpec(b);
    var spots := Avail(b);
    var scores := ChildScores(b, p, spots);
    var k := FirstBest(scores, p);
    ChildScoresAt(b, p, spots, k);
    forall e: Index | b[e] == Empty
      ensures !Better(p, ChildScore(b, p, e), scores[k])
      ensures e < spots[k] ==> Better(p, scores[k], ChildScore(b, p, e))
    {
      assert e in spots;
      var j :| 0 <= j < |spots| && spots[j] == e;
      ChildScoresAt(b, p, spots, j);
      if e < spots[k] {
        assert j < k;
      }
    }
  }

  /** On a board still in play the search names a cell, and it is empty. */
  lemma MinimaxPicksEmpty(b: Board, p: Mark)
    requires !Terminal(b)
    ensures Minimax(b, p).index.Some? && b[Minimax(b, p).index.value] == Empty
  {
    MinimaxChoice(b, p);
  }

  /** O's search: the score is the maximum of the child scores and the cell
      is the lowest empty cell reaching it. */
  lemma MaximizerChoice(b: Board)
    requires !Terminal(b)
    ensures Minimax(b, O).index.Some?
    ensures var m := Minimax(b, O);
      b[m.index.value] == Empty && m.score == ChildScore(b, O, m.index.value) &&
      (forall e: Index :: b[e] == Empty ==> ChildScore(b, O, e) <= m.score) &&
      (forall e: Index :: b[e] == Empty && e < m.index.value ==> ChildScore(b, O, e) < m.score)
  {
    MinimaxChoice(b, O);
  }

  /** X's search: the score is the minimum of the child scores and the cell
      is the lowest empty cell reaching it. */
  lemma MinimizerChoice(b: Board)
    requires !Terminal(b)
    ensures Minimax(b, X).index.Some?
    ensures var m := Minimax(b, X);
      b[m.index.value] == Empty && m.score == ChildScore(b, X, m.index.value) &&
      (forall e: Index :: b[e] == Empty ==> ChildScore(b, X, e) >= m.score) &&
      (forall e: Index :: b[e] == Empty && e < m.index.value ==> ChildScore(b, X, e) > m.score)
  {
    MinimaxChoice(b, X);
  }

  /** If `e` is the lowest empty cell and no other empty cell scores better
      for O, O's search picks `e`. */
  lemma MaximizerKeepsLowest(b: Board, e: Index)
    requires !Terminal(b) && b[e] == Empty
    requires forall d: Index :: d < e ==> b[d] != Empty
    requires forall d: Index :: b[d] == Empty ==> ChildScore(b, O, d) <= ChildScore(b, O, e)
    ensures Minimax(b, O).index == Some(e)
  {
    MaximizerChoice(b);
  }

  /** When X can complete a line at once, X's search scores -10. */
  lemma MinimizerTakesWin(b: Board, e: Index)
    requires !Terminal(b) && b[e] == Empty
    requires CheckWinner(Place(b, e, X), X)
    ensures Minimax(b, X).score == -10
  {
    MinimizerChoice(b);
  }

  /** With O at 0 and 1 and X at 3 and 4, O completes the top row at 2. */
  lemma ForcedWin(b: Board)
    requires b == [Full(O), Full(O), Empty, Full(X), Full(X), Empty, Empty, Empty, Empty]
    ensures Minimax(b, O).index == Some(2)
  {
    assert !Terminal(b) by {
      CheckWinnerLines(b, X);
      CheckWinnerLines(b, O);
    }
    assert ChildScore(b, O, 2) == 10 by {
      var won := Place(b, 2, O);
      CheckWinnerLines(won, X);
      CheckWinnerLines(won, O);
    }
    MaximizerKeepsLowest(b, 2);
  }

  /** With X at 0 and 1 and O at 3, O blocks the top row at 2: every other
      cell lets X win at 2. */
  lemma ForcedBlock(b: Board)
    requires b == [Full(X), Full(X), Empty, Full(O), Empty, Empty, Empty, Empty, Empty]
    ensures Minimax(b, O).index == Some(2)
  {
    assert !Terminal(b) by {
      CheckWinnerLines(b, X);
      CheckWinnerLines(b, O);
    }
    forall d: Index | b[d] == Empty
      ensures ChildScore(b, O, d) <= ChildScore(b, O, 2)
    {
      if d != 2 {
        LetsXWinAtTwo(b, d);
      }
    }
    MaximizerKeepsLowest(b, 2);
  }

  /** Helper of ForcedBlock: O taking any cell from 4 on leaves X a win at 2. */
  lemma LetsXWinAtTwo(b: Board, c: Index)
    requires b == [Full(X), Full(X), Empty, Full(O), Empty, Empty, Empty, Empty, Empty]
    requires 4 <= c
    ensures ChildScore(b, O, c) == -10
  {
    var b1 := Place(b, c, O);
    assert b1[0] == b1[1] == Full(X) && b1[2] == Empty && b1[3] == Full(O);
    assert !Terminal(b1) by {
      CheckWinnerLines(b1, X);
      CheckWinnerLines(b1, O);
    }
    assert CheckWinner(Place(b1, 2, X), X) by {
      CheckWinnerLines(Place(b1, 2, X), X);
    }
    MinimizerTakesWin(b1, 2);
  }

  /** The two selection loops of `minimax` in script.js: scan the scores in order,
      starting from a sentinel worse than any score, and keep a candidate
      only when it is strictly better. */
  method SelectBest(scores: seq<int>, p: Mark) returns (bestMove: nat)
    requires |scores| > 0
    requires forall j :: 0 <= j < |scores| ==> -10 <= scores[j] <= 10
    ensures bestMove == FirstBest(scores, p)
  {
    var bestScore := if p == O then -11 else 11;
    bestMove := 0;
    for i := 0 to |scores|
      invariant i == 0 ==> bestScore == (if p == O then -11 else 11)
      invariant 0 < i ==> bestMove == FirstBest(scores[..i], p) && bestScore == scores[bestMove]
    {
      assert scores[..i + 1][..i] == scores[..i];
      if Better(p, scores[i], bestScore) {
        bestScore := scores[i];
        bestMove := i;
      }
    }
    assert scores[..|scores|] == scores;
  }

  /** The search as the computer runs it on the shared array. The array is
      as it was on entry, and the result is the pure definition's. */
  method MinimaxInPlace(newBoard: array<Cell>, player: Mark) returns (m: Move)
    requires newBoard.Length == 9
    modifies newBoard
    decreases CountEmpty(newBoard[..]), 1
    ensures newBoard[..] == old(newBoard[..])
    ensures m == Minimax(old(newBoard[..]), player)
  {
    ghost var b0: Board := newBoard[..];
    var availSpots := Avail(newBoard[..]);
    if CheckWinner(newBoard[..], X) {
      return Move(-10, None);
    } else if CheckWinner(newBoard[..], O) {
      return Move(10, None);
    } else if |availSpots| == 0 {
      return Move(0, None);
    }
    assert !Terminal(b0) by {
      FullIffNoAvail(b0);
    }
    MinimaxUnfold(b0, player);
    var scores := ScoreMoves(newBoard, player, availSpots);
    var bestMove := SelectBest(scores, player);
    m := Move(scores[bestMove], Some(availSpots[bestMove]));
  }

  /** The loop of the search: each candidate is placed on the shared array,
      searched with the other mark to move, and taken back before the next
      one; the scores are the pure definition's, in candidate order, and the
      array ends as it began. */
  method ScoreMoves(newBoard: array<Cell>, player: Mark, availSpots: seq<Index>) returns (scores: seq<int>)
    requires newBoard.Length == 9
    requires forall j :: 0 <= j < |availSpots| ==> newBoard[availSpots[j]] == Empty
    modifies newBoard
    decreases CountEmpty(newBoard[..]), 0
    ensures newBoard[..] == old(newBoard[..])
    ensures scores == ChildScores(old(newBoard[..]), player, availSpots)
  {
    ghost var b0: Board := newBoard[..];
    scores := [];
    for i := 0 to |availSpots|
      invariant newBoard[..] == b0
      invariant scores == ChildScores(b0, player, availSpots[..i])
    {
      var spot := availSpots[i];
      newBoard[spot] := Full(player);
      assert newBoard[..] == Place(b0, spot, player);
      var result := MinimaxInPlace(newBoard, Other(player));
      newBoard[spot] := Empty;
      assert newBoard[..] == b0;
      scores := scores + [result.score];
      ChildScoresPrefix(b0, player, availSpots, i);
    }
    assert availSpots[..|availSpots|] == availSpots;
  }
}
