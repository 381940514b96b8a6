/** The 3x3 board: cells, marks, the eight winning lines, win detection and
    the list of empty cells that the search tries. */
module Grid {

  /** The two player marks: the human plays X, the computer plays O. */
  datatype Mark = X | O

  /** A cell of the board; an unset cell (`null` in script.js) is Empty. */
  datatype Cell = Empty | Full(mark: Mark)

  /** A cell position, row-major: 0 1 2 is the top row, 6 7 8 the bottom row. */
  type Index = i: int | 0 <= i < 9

  /** A board is always exactly nine cells. */
  type Board = b: seq<Cell> | |b| == 9 witness seq(9, _ => Empty)

  const EmptyBoard: Board := seq(9, _ => Empty)

  /** The mark whose turn comes after `p`. */
  function Other(p: Mark): (q: Mark)
    ensures q != p
  {
    if p == X then O else X
  }

  /** One row, column or diagonal, as three cell positions. */
  datatype Line = Line(a: Index, b: Index, c: Index)

  /** The fixed table of winning lines: three rows, three columns, two diagonals. */
  const WinningCombinations: seq<Line> := [
    Line(0, 1, 2), Line(3, 4, 5), Line(6, 7, 8),
    Line(0, 3, 6), Line(1, 4, 7), Line(2, 5, 8),
    Line(0, 4, 8), Line(2, 4, 6)
  ]

  /** All three cells of `l` hold the mark `p`. */
  predicate Completes(b: Board, l: Line, p: Mark)
  {
    b[l.a] == Full(p) && b[l.b] == Full(p) && b[l.c] == Full(p)
  }

  /** The `some` over a table of lines, scanned from the front. */
  function AnyCompletes(b: Board, lines: seq<Line>, p: Mark): bool
  {
    if lines == [] then false
    else Completes(b, lines[0], p) || AnyCompletes(b, lines[1..], p)
  }

  lemma {:induction false} AnyCompletesIff(b: Board, lines: seq<Line>, p: Mark)
    ensures AnyCompletes(b, lines, p) <==> exists k :: 0 <= k < |lines| && Completes(b, lines[k], p)
  {
    if lines != [] {
      AnyCompletesIff(b, lines[1..], p);
      assert forall k :: 1 <= k < |lines| ==> lines[1..][k - 1] == lines[k];
    }
  }

  /** `p` owns a winning line (script.js's `checkWinner`). */
  predicate CheckWinner(b: Board, p: Mark)
  {
    AnyCompletes(b, WinningCombinations, p)
  }

  /** `checkWinner(b, p)` holds exactly when some line of the table has all
      three of its cells held by `p`. */
  lemma CheckWinnerIff(b: Board, p: Mark)
    ensures CheckWinner(b, p) <==>
      exists k :: 0 <= k < |WinningCombinations| && Completes(b, WinningCombinations[k], p)
  {
    AnyCompletesIff(b, WinningCombinations, p);
  }

  /** Win detection spelled out on the grid: a full row, a full column or a
      full diagonal of `p`. */
  lemma CheckWinnerLines(b: Board, p: Mark)
    ensures CheckWinner(b, p) <==>
      (b[0] == b[1] == b[2] == Full(p)) || (b[3] == b[4] == b[5] == Full(p)) ||
      (b[6] == b[7] == b[8] == Full(p)) ||
      (b[0] == b[3] == b[6] == Full(p)) || (b[1] == b[4] == b[7] == Full(p)) ||
      (b[2] == b[5] == b[8] == Full(p)) ||
      (b[0] == b[4] == b[8] == Full(p)) || (b[2] == b[4] == b[6] == Full(p))
  {
    var W := WinningCombinations;
    assert W[0] == Line(0, 1, 2) && W[1] == Line(3, 4, 5) && W[2] == Line(6, 7, 8);
    assert W[3] == Line(0, 3, 6) && W[4] == Line(1, 4, 7) && W[5] == Line(2, 5, 8);
    assert W[6] == Line(0, 4, 8) && W[7] == Line(2, 4, 6);
    CheckWinnerIff(b, p);
    if CheckWinner(b, p) {
      var k :| 0 <= k < |W| && Completes(b, W[k], p);
      assert k in {0, 1, 2, 3, 4, 5, 6, 7};
    }
  }

  /** Placing `p` cannot give the other mark a line it did not already own. */
  lemma PlacingKeepsOtherLines(b: Board, c: Index, p: Mark, q: Mark)
    requires q != p
    ensures CheckWinner(b[c := Full(p)], q) ==> CheckWinner(b, q)
  {
    var b' := b[c := Full(p)];
    CheckWinnerIff(b', q);
    CheckWinnerIff(b, q);
    if CheckWinner(b', q) {
      var k :| 0 <= k < |WinningCombinations| && Completes(b', WinningCombinations[k], q);
      assert Completes(b, WinningCombinations[k], q);
    }
  }

  /** Every cell is taken (script.js's `every(cell => cell)`). */
  predicate IsFull(b: Board)
  {
    forall i: Index :: b[i] != Empty
  }

  /** A board on which the round is over: a line for either mark, or no empty cell. */
  predicate Terminal(b: Board)
  {
    CheckWinner(b, X) || CheckWinner(b, O) || IsFull(b)
  }

  /** The empty cells at positions `i` and later, in ascending order. */
  function AvailFrom(b: Board, i: nat): (r: seq<Index>)
    requires i <= 9
    decreases 9 - i
    ensures forall j :: 0 <= j < |r| ==> i <= r[j] && b[r[j]] == Empty
  {
    if i == 9 then []
    else if b[i] == Empty then [i] + AvailFrom(b, i + 1)
    else AvailFrom(b, i + 1)
  }

  lemma {:induction false} AvailFromComplete(b: Board, i: nat, c: Index)
    requires i <= c && b[c] == Empty
    decreases 9 - i
    ensures c in AvailFrom(b, i)
  {
    if c > i {
      AvailFromComplete(b, i + 1, c);
    }
  }

  lemma {:induction false} AvailFromSorted(b: Board, i: nat)
    requires i <= 9
    decreases 9 - i
    ensures forall j, k :: 0 <= j < k < |AvailFrom(b, i)| ==> AvailFrom(b, i)[j] < AvailFrom(b, i)[k]
  {
    if i < 9 {
      AvailFromSorted(b, i + 1);
    }
  }

  /** The candidate moves (script.js's `availSpots`): every one is an empty cell. */
  function Avail(b: Board): (r: seq<Index>)
    ensures forall j :: 0 <= j < |r| ==> b[r[j]] == Empty
  {
    AvailFrom(b, 0)
  }

  /** The candidates are exactly the empty cells, in ascending index order. */
  lemma AvailSpec(b: Board)
    ensures forall j :: 0 <= j < |Avail(b)| ==> b[Avail(b)[j]] == Empty
    ensures forall c: Index :: b[c] == Empty ==> c in Avail(b)
    ensures forall j, k :: 0 <= j < k < |Avail(b)| ==> Avail(b)[j] < Avail(b)[k]
  {
    forall c: Index | b[c] == Empty
      ensures c in Avail(b)
    {
      AvailFromComplete(b, 0, c);
    }
    AvailFromSorted(b, 0);
  }

  /** No candidate move is left exactly when the board is full. */
  lemma FullIffNoAvail(b: Board)
    ensures IsFull(b) <==> |Avail(b)| == 0
  {
    AvailSpec(b);
    if !IsFull(b) {
      var c: Index :| b[c] == Empty;
      assert c in Avail(b);
    }
  }

  /** The number of empty cells: the quantity the search uses up. */
  function CountEmpty(s: seq<Cell>): nat
  {
    if s == [] then 0 else (if s[0] == Empty then 1 else 0) + CountEmpty(s[1..])
  }

  lemma {:induction false} CountEmptyUpdate(s: seq<Cell>, c: nat, v: Cell)
    requires c < |s| && s[c] == Empty && v != Empty
    ensures CountEmpty(s[c := v]) == CountEmpty(s) - 1
  {
    if c > 0 {
      assert s[c := v][1..] == s[1..][c - 1 := v];
      CountEmptyUpdate(s[1..], c - 1, v);
    } else {
      assert s[c := v][1..] == s[1..];
    }
  }

  /** The number of cells holding the mark `m`. */
  function CountMark(s: seq<Cell>, m: Mark): nat
  {
    if s == [] then 0 else (if s[0] == Full(m) then 1 else 0) + CountMark(s[1..], m)
  }

  /** A mark that appears in no cell has count zero. */
  lemma {:induction false} CountMarkAbsent(s: seq<Cell>, m: Mark)
    requires forall k :: 0 <= k < |s| ==> s[k] != Full(m)
    ensures CountMark(s, m) == 0
  {
    if s != [] {
      CountMarkAbsent(s[1..], m);
    }
  }

  /** Filling an empty cell with `p` adds one to the count of `p` and leaves
      the count of the other mark unchanged. */
  lemma {:induction false} CountMarkUpdate(s: seq<Cell>, c: nat, p: Mark, m: Mark)
    requires c < |s| && s[c] == Empty
    ensures CountMark(s[c := Full(p)], m) == CountMark(s, m) + (if p == m then 1 else 0)
  {
    if c > 0 {
      assert s[c := Full(p)][1..] == s[1..][c - 1 := Full(p)];
      CountMarkUpdate(s[1..], c - 1, p, m);
    } else {
      assert s[c := Full(p)][1..] == s[1..];
    }
  }

  /** Putting `p` into the empty cell `c` (the trial placement of the search
      and the move of a player); it uses up exactly one empty cell. */
  function Place(b: Board, c: Index, p: Mark): (r: Board)
    requires b[c] == Empty
    ensures CountEmpty(r) == CountEmpty(b) - 1
  {
    CountEmptyUpdate(b, c, Full(p));
    b[c := Full(p)]
  }
}
