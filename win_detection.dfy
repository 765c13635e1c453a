/** Win detection: `calculateWinner` checks the eight fixed lines of the
    board in order and reports the mark of the first line whose three cells
    hold the same mark.  Only the mark is reported, never the line. */
module WinDetection {
  import opened Board

  /** A line is three cell numbers. */
  type Line = (Index, Index, Index)

  /** The eight lines in the order they are checked: the rows, the columns,
      then the two diagonals. */
  const Lines: seq<Line> := [
    (0, 1, 2),
    (3, 4, 5),
    (6, 7, 8),
    (0, 3, 6),
    (1, 4, 7),
    (2, 5, 8),
    (0, 4, 8),
    (2, 4, 6)
  ]

  /** The test the loop makes on one line: its first cell is set and the
      other two equal it. */
  predicate LineWon(b: Board, l: Line)
  {
    b[l.0] != None && b[l.0] == b[l.1] && b[l.0] == b[l.2]
  }

  /** All three cells of line `l` hold the mark `p`. */
  predicate OwnedBy(b: Board, l: Line, p: Player)
  {
    b[l.0] == Some(p) && b[l.1] == Some(p) && b[l.2] == Some(p)
  }

  /** The outcome of checking the lines from number `k` on. */
  function WinnerFrom(b: Board, k: nat): Cell
    requires k <= |Lines|
    decreases |Lines| - k
  {
    if k == |Lines| then None
    else if LineWon(b, Lines[k]) then b[Lines[k].0]
    else WinnerFrom(b, k + 1)
  }

  /** The value `calculateWinner` computes for board `b`. */
  function Winner(b: Board): Cell
  {
    WinnerFrom(b, 0)
  }

  /** `calculateWinner`: the loop over the lines with an early return. */
  method CalculateWinner(squares: Board) returns (r: Cell)
    ensures r == Winner(squares)
  {
    var i := 0;
    while i < |Lines|
      invariant 0 <= i <= |Lines|
      invariant WinnerFrom(squares, i) == Winner(squares)
    {
      var (a, b, c) := Lines[i];
      if squares[a] != None && squares[a] == squares[b] && squares[a] == squares[c] {
        return squares[a];
      }
      i := i + 1;
    }
    return None;
  }

  lemma WonLineOwned(b: Board, l: Line)
    requires LineWon(b, l)
    ensures OwnedBy(b, l, b[l.0].value)
  {
  }

  /** Checking from line `k` on finds nothing exactly when none of the
      remaining lines is won, and otherwise reports the owner of the first
      won line among them. */
  lemma {:induction false} WinnerFromSpec(b: Board, k: nat, p: Player)
    requires k <= |Lines|
    ensures WinnerFrom(b, k) == None <==>
              forall j :: k <= j < |Lines| ==> !LineWon(b, Lines[j])
    ensures WinnerFrom(b, k) == Some(p) <==>
              exists j :: k <= j < |Lines| && OwnedBy(b, Lines[j], p) &&
                          forall j' :: k <= j' < j ==> !LineWon(b, Lines[j'])
    decreases |Lines| - k
  {
    if k < |Lines| {
      WinnerFromSpec(b, k + 1, p);
      if LineWon(b, Lines[k]) {
        WonLineOwned(b, Lines[k]);
      } else if WinnerFrom(b, k) == Some(p) {
        var j :| k + 1 <= j < |Lines| && OwnedBy(b, Lines[j], p) &&
                 forall j' :: k + 1 <= j' < j ==> !LineWon(b, Lines[j']);
        assert forall j' :: k <= j' < j ==> !LineWon(b, Lines[j']);
      }
    }
  }

  /** `calculateWinner` returns null exactly when no line holds three
      equal marks. */
  lemma WinnerNoneIff(b: Board)
    ensures Winner(b) == None <==>
              forall j, p :: 0 <= j < |Lines| ==> !OwnedBy(b, Lines[j], p)
  {
    WinnerFromSpec(b, 0, X);
    if Winner(b) != None {
      var j :| 0 <= j < |Lines| && LineWon(b, Lines[j]);
      WonLineOwned(b, Lines[j]);
    }
  }

  /** `calculateWinner` returns mark `p` exactly when some line is owned by
      `p` and no line checked before it is won. */
  lemma WinnerSomeIff(b: Board, p: Player)
    ensures Winner(b) == Some(p) <==>
              exists j :: 0 <= j < |Lines| && OwnedBy(b, Lines[j], p) &&
                          forall j' :: 0 <= j' < j ==> !LineWon(b, Lines[j'])
  {
    WinnerFromSpec(b, 0, p);
  }

  /** A reported mark always owns some line. */
  lemma WinnerOwnsLine(b: Board)
    requires Winner(b) != None
    ensures exists j :: 0 <= j < |Lines| && OwnedBy(b, Lines[j], Winner(b).value)
  {
    WinnerSomeIff(b, Winner(b).value);
  }

  /** A new mark can only win on a line through the cell it was written in. */
  lemma {:induction false} NewLineOwnedByMover(prev: Board, i: Index, p: Player, j: nat)
    requires Winner(prev) == None && prev[i] == None
    requires j < |Lines| && LineWon(prev[i := Some(p)], Lines[j])
    ensures OwnedBy(prev[i := Some(p)], Lines[j], p)
  {
    var next: Board := prev[i := Some(p)];
    var l := Lines[j];
    WinnerNoneIff(prev);
    WonLineOwned(next, l);
    if l.0 != i && l.1 != i && l.2 != i {
      assert OwnedBy(prev, l, next[l.0].value);
      assert false;
    }
  }

  /** The worked examples: a won top row, a won main diagonal, the empty
      board, a drawn full board, and two won rows where the first one
      checked decides. */
  lemma WinnerExamples()
    ensures Winner([Some(X), Some(X), Some(X), None, None, None, None, None, None]) == Some(X)
    ensures Winner([Some(X), Some(O), Some(X), Some(O), Some(X), Some(O), None, None, Some(X)]) == Some(X)
    ensures Winner(EmptyBoard) == None
    ensures Winner([Some(X), Some(O), Some(X), Some(X), Some(O), Some(O), Some(O), Some(X), Some(X)]) == None
    ensures Winner([Some(O), Some(O), Some(O), Some(X), Some(X), Some(X), None, None, None]) == Some(O)
  {
  }
}
