/** The state of the `Game` component and its two transitions, as pure
    functions from the old state to the new one.

    The state is the record `{history, isXNext, stepNumber}`; each history
    entry is a snapshot `{squares, location, player}`.  A click on a cell
    (`handleClick`) and a click on a move list entry (`jumpTo`) each replace
    the whole state at once. */
module Transitions {
  import opened Board
  import opened WinDetection

  /** One history entry: the board after a move, the cell the move wrote
      in and the mark it wrote (both `null` for the first entry). */
  datatype Snapshot = Snapshot(squares: Board, location: Option<Index>, player: Cell)

  datatype GameState = GameState(history: seq<Snapshot>, isXNext: bool, stepNumber: nat)

  const StartSnapshot := Snapshot(EmptyBoard, None, None)

  /** The state the `Game` constructor sets up. */
  const Initial := GameState([StartSnapshot], true, 0)

  /** JavaScript's `h.slice(0, n)`: the first `n` entries, or all of them
      when there are fewer. */
  function Prefix(h: seq<Snapshot>, n: nat): (p: seq<Snapshot>)
    ensures p <= h
    ensures |p| == if n <= |h| then n else |h|
  {
    if n <= |h| then h[..n] else h
  }

  /** The mark of the player to move: `isXNext ? 'X' : 'O'`. */
  function MarkFor(isXNext: bool): Player
  {
    if isXNext then X else O
  }

  /** The board `handleClick` works on: the last entry of the history
      truncated to `stepNumber + 1` entries. */
  function Current(s: GameState): Board
    requires |s.history| >= 1
  {
    var h := Prefix(s.history, s.stepNumber + 1);
    h[|h| - 1].squares
  }

  /** The two reasons `handleClick` ignores a click: the game is already
      won, or the cell is already filled. */
  predicate Ignored(s: GameState, i: Index)
    requires |s.history| >= 1
  {
    Winner(Current(s)) != None || Current(s)[i] != None
  }

  /** `handleClick(i)`. */
  function Click(s: GameState, i: Index): (r: GameState)
    requires |s.history| >= 1
    ensures |r.history| >= 1
    ensures r == s || Prefix(s.history, s.stepNumber + 1) < r.history
  {
    var history := Prefix(s.history, s.stepNumber + 1);
    var squares := history[|history| - 1].squares;
    if Winner(squares) != None || squares[i] != None then
      s
    else
      var next := squares[i := Some(MarkFor(s.isXNext))];
      GameState(history + [Snapshot(next, Some(i), next[i])], !s.isXNext, s.stepNumber + 1)
  }

  /** `jumpTo(step)`: move the cursor, derive the turn from the parity of
      `step`, and keep only the first `step + 1` history entries. */
  function Jump(s: GameState, step: nat): (r: GameState)
    ensures r.history <= s.history
    ensures |s.history| >= 1 ==> |r.history| >= 1
  {
    GameState(Prefix(s.history, step + 1), step % 2 == 0, step)
  }

  // ---------------------------------------------------------------------
  // handleClick

  /** A click leaves the state exactly as it was if and only if the game is
      already won or the cell is already filled. */
  lemma ClickIgnoredIff(s: GameState, i: Index)
    requires |s.history| >= 1
    ensures Click(s, i) == s <==> Ignored(s, i)
  {
  }

  /** An accepted click appends one snapshot to the history truncated at the
      cursor; its board is the current board with only cell `i` changed, to
      the mark of the player to move; the turn flips and the step advances. */
  lemma ClickAccepted(s: GameState, i: Index)
    requires |s.history| >= 1 && !Ignored(s, i)
    ensures var r := Click(s, i);
      var h := Prefix(s.history, s.stepNumber + 1);
      |r.history| == |h| + 1 && r.history[..|h|] == h &&
      (forall j :: 0 <= j < 9 && j != i ==> r.history[|h|].squares[j] == Current(s)[j]) &&
      r.history[|h|].squares[i] == Some(MarkFor(s.isXNext)) &&
      r.history[|h|].location == Some(i) &&
      r.history[|h|].player == r.history[|h|].squares[i] &&
      r.stepNumber == s.stepNumber + 1 && r.isXNext == !s.isXNext
  {
    var h := Prefix(s.history, s.stepNumber + 1);
    assert Click(s, i).history[..|h|] == h;
  }

  /** No click changes a snapshot at or before the cursor. */
  lemma ClickKeepsEarlierSnapshots(s: GameState, i: Index, k: nat)
    requires |s.history| >= 1
    requires k <= s.stepNumber && k < |s.history|
    ensures k < |Click(s, i).history| && Click(s, i).history[k] == s.history[k]
  {
    var h := Prefix(s.history, s.stepNumber + 1);
    assert k < |h| && h[k] == s.history[k];
  }

  // ---------------------------------------------------------------------
  // jumpTo

  /** Jumping to an existing entry keeps exactly the entries up to it; the
      entry jumped to becomes the current board. */
  lemma JumpDiscardsFuture(s: GameState, step: nat)
    requires step < |s.history|
    ensures var r := Jump(s, step);
      r.history == s.history[..step + 1] &&
      |r.history| == step + 1 &&
      Current(r) == s.history[step].squares
  {
  }

  // ---------------------------------------------------------------------
  // The invariant of reachable states

  /** The mark written by move number `k` (counting from 1): X moves first
      and the players alternate. */
  function MarkOfMove(k: nat): Player
  {
    if k % 2 == 1 then X else O
  }

  /** Snapshot `snap`, number `k` of the history, records a legal move made
      on the board of `prev`: the game was not yet won, the cell was empty,
      and exactly that cell received the mark of move `k`. */
  predicate MoveRecorded(prev: Snapshot, snap: Snapshot, k: nat)
  {
    snap.location.Some? &&
    snap.player == Some(MarkOfMove(k)) &&
    Winner(prev.squares) == None &&
    prev.squares[snap.location.value] == None &&
    snap.squares == prev.squares[snap.location.value := snap.player]
  }

  /** What holds of every state the game reaches: the history ends at the
      cursor, the turn follows the parity of the cursor, the history starts
      from the empty board and each later entry records one legal move. */
  ghost predicate Inv(s: GameState)
  {
    |s.history| == s.stepNumber + 1 &&
    s.isXNext == (s.stepNumber % 2 == 0) &&
    s.history[0] == StartSnapshot &&
    forall k :: 1 <= k < |s.history| ==> MoveRecorded(s.history[k - 1], s.history[k], k)
  }

  lemma InitialInv()
    ensures Inv(Initial)
  {
  }

  /** Under the invariant, the board `handleClick` works on is the entry at
      the cursor, the one the component displays. */
  lemma InvCurrent(s: GameState)
    requires Inv(s)
    ensures Current(s) == s.history[s.stepNumber].squares
  {
  }

  lemma ClickPreservesInv(s: GameState, i: Index)
    requires Inv(s)
    ensures Inv(Click(s, i))
  {
    var r := Click(s, i);
    if !Ignored(s, i) {
      var n := s.stepNumber + 1;
      assert s.history[..n] == s.history;
      forall k | 1 <= k < |r.history|
        ensures MoveRecorded(r.history[k - 1], r.history[k], k)
      {
        if k < n {
          assert r.history[k - 1] == s.history[k - 1] && r.history[k] == s.history[k];
        }
      }
    }
  }

  lemma JumpPreservesInv(s: GameState, step: nat)
    requires Inv(s) && step < |s.history|
    ensures Inv(Jump(s, step))
  {
    var r := Jump(s, step);
    forall k | 1 <= k < |r.history|
      ensures MoveRecorded(r.history[k - 1], r.history[k], k)
    {
      assert r.history[k - 1] == s.history[k - 1] && r.history[k] == s.history[k];
    }
  }

  /** Jumping to the entry already at the cursor changes nothing. */
  lemma JumpToCursorIsNoOp(s: GameState)
    requires Inv(s)
    ensures Jump(s, s.stepNumber) == s
  {
    assert s.history[..s.stepNumber + 1] == s.history;
  }

  /** Snapshot `k` of a reachable history has exactly `k` filled cells. */
  lemma {:induction false} InvFilledCount(s: GameState, k: nat)
    requires Inv(s) && k < |s.history|
    ensures FilledCount(s.history[k].squares) == k
  {
    if k == 0 {
      FilledCountEmpty(s.history[0].squares);
    } else {
      InvFilledCount(s, k - 1);
      assert MoveRecorded(s.history[k - 1], s.history[k], k);
      var l := s.history[k].location.value;
      FilledCountWrite(s.history[k - 1].squares, l, MarkOfMove(k));
    }
  }

  /** A game lasts at most nine moves. */
  lemma InvAtMostNineMoves(s: GameState)
    requires Inv(s)
    ensures s.stepNumber <= 9 && |s.history| <= 10
  {
    InvFilledCount(s, s.stepNumber);
  }

  /** In a reachable history every won line of snapshot `k` belongs to the
      player who made move `k`: the two players never both own a line. */
  lemma InvWonLinesBelongToLastMover(s: GameState, k: nat, j: nat)
    requires Inv(s) && k < |s.history| && j < |Lines|
    requires LineWon(s.history[k].squares, Lines[j])
    ensures k >= 1 && OwnedBy(s.history[k].squares, Lines[j], MarkOfMove(k))
  {
    if k == 0 {
      assert false;
    }
    assert MoveRecorded(s.history[k - 1], s.history[k], k);
    var l := s.history[k].location.value;
    NewLineOwnedByMover(s.history[k - 1].squares, l, MarkOfMove(k), j);
  }

  /** In a reachable history the winner reported for snapshot `k` is the
      player who made move `k`, and the other player owns no line. */
  lemma InvWinnerIsLastMover(s: GameState, k: nat)
    requires Inv(s) && k < |s.history|
    requires Winner(s.history[k].squares) != None
    ensures k >= 1 && Winner(s.history[k].squares) == Some(MarkOfMove(k))
    ensures forall j :: 0 <= j < |Lines| ==>
              !OwnedBy(s.history[k].squares, Lines[j], Opponent(MarkOfMove(k)))
  {
    var b := s.history[k].squares;
    WinnerOwnsLine(b);
    var j :| 0 <= j < |Lines| && OwnedBy(b, Lines[j], Winner(b).value);
    InvWonLinesBelongToLastMover(s, k, j);
    forall j' | 0 <= j' < |Lines|
      ensures !OwnedBy(b, Lines[j'], Opponent(MarkOfMove(k)))
    {
      if OwnedBy(b, Lines[j'], Opponent(MarkOfMove(k))) {
        InvWonLinesBelongToLastMover(s, k, j');
      }
    }
  }

  // ---------------------------------------------------------------------
  // Runs of events from the initial state

  /** A user action: a click on a cell, or a click on a move list entry. */
  datatype Event = ClickAt(cell: Index) | JumpTo(step: nat)

  function Apply(s: GameState, e: Event): (r: GameState)
    requires |s.history| >= 1
    ensures |r.history| >= 1
  {
    match e
    case ClickAt(i) => Click(s, i)
    case JumpTo(step) => Jump(s, step)
  }

  /** The move list only offers entries of the current history. */
  predicate Offered(s: GameState, e: Event)
  {
    e.JumpTo? ==> e.step < |s.history|
  }

  /** Every event of `evs`, applied in turn from `s`, is one the interface
      offers. */
  predicate Legal(s: GameState, evs: seq<Event>)
    requires |s.history| >= 1
    decreases |evs|
  {
    evs == [] || (Offered(s, evs[0]) && Legal(Apply(s, evs[0]), evs[1..]))
  }

  function Run(s: GameState, evs: seq<Event>): (r: GameState)
    requires |s.history| >= 1
    ensures |r.history| >= 1
    decreases |evs|
  {
    if evs == [] then s else Run(Apply(s, evs[0]), evs[1..])
  }

  lemma {:induction false} RunPreservesInv(s: GameState, evs: seq<Event>)
    requires Inv(s) && Legal(s, evs)
    ensures Inv(Run(s, evs))
    decreases |evs|
  {
    if evs != [] {
      match evs[0] {
        case ClickAt(i) => ClickPreservesInv(s, i);
        case JumpTo(step) => JumpPreservesInv(s, step);
      }
      RunPreservesInv(Apply(s, evs[0]), evs[1..]);
    }
  }

  /** Every state reached from the initial state satisfies the invariant;
      in particular `|history| == stepNumber + 1` and
      `isXNext == (stepNumber % 2 == 0)`. */
  lemma ReachableInv(evs: seq<Event>)
    requires Legal(Initial, evs)
    ensures Inv(Run(Initial, evs))
    ensures |Run(Initial, evs).history| == Run(Initial, evs).stepNumber + 1
    ensures Run(Initial, evs).isXNext == (Run(Initial, evs).stepNumber % 2 == 0)
  {
    InitialInv();
    RunPreservesInv(Initial, evs);
  }

  /** Time travel then a move starts a new branch: X at 0, O at 1, back to
      the start, X at 4 leaves two entries, the second one with X at 4 and
      the old O move gone. */
  lemma BranchOverwritesFuture()
    ensures var r := Run(Initial, [ClickAt(0), ClickAt(1), JumpTo(0), ClickAt(4)]);
      |r.history| == 2 && r.stepNumber == 1 && !r.isXNext &&
      r.history[1].squares[4] == Some(X) && r.history[1].squares[1] == None &&
      r.history[1].squares[0] == None
  {
    var s1 := Click(Initial, 0);
    var s2 := Click(s1, 1);
    var s3 := Jump(s2, 0);
    assert s3 == Initial;
    var s4 := Click(s3, 4);
    assert Run(Initial, [ClickAt(0), ClickAt(1), JumpTo(0), ClickAt(4)]) == s4;
  }
}
