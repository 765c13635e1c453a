/** The `Game` component: it owns the game state and replaces its three
    fields on each click, as `setState` does.  Each method is proved to
    leave the fields equal to the corresponding transition of `Transitions`
    applied to the old fields, and to keep the invariant of reachable
    states. */
module GameComponent {
  import opened Board
  import opened WinDetection
  import opened Transitions

  class Game {
    var history: seq<Snapshot>
    var isXNext: bool
    var stepNumber: nat

    /** The fields as one state value. */
    function State(): GameState
      reads this
    {
      GameState(history, isXNext, stepNumber)
    }

    ghost predicate Valid()
      reads this
    {
      Inv(State())
    }

    /** One empty snapshot, X to move, the cursor at the start. */
    constructor ()
      ensures State() == Initial
      ensures Valid()
    {
      history := [Snapshot(EmptyBoard, None, None)];
      isXNext := true;
      stepNumber := 0;
    }

    /** `handleClick(i)`: ignored when the game is won or the cell is
        filled; otherwise records the move on a copy of the current board. */
    method HandleClick(i: Index)
      requires Valid()
      modifies this
      ensures State() == Click(old(State()), i)
      ensures Valid()
      ensures old(Ignored(State(), i)) ==> unchanged(this)
      ensures !old(Ignored(State(), i)) ==>
                history[..old(stepNumber) + 1] == old(history)[..old(stepNumber) + 1]
    {
      ghost var before := State();
      var h := Prefix(history, stepNumber + 1);
      var current := h[|h| - 1];
      var squares := current.squares;
      var winner := CalculateWinner(squares);
      if winner != None || squares[i] != None {
        return;
      }
      squares := squares[i := Some(MarkFor(isXNext))];
      history, isXNext, stepNumber :=
        h + [Snapshot(squares, Some(i), squares[i])], !isXNext, stepNumber + 1;
      ClickPreservesInv(before, i);
      assert history[..before.stepNumber + 1] == h;
    }

    /** `jumpTo(step)`: the move list only offers entries of the history. */
    method JumpTo(step: nat)
      requires Valid() && step < |history|
      modifies this
      ensures State() == Jump(old(State()), step)
      ensures Valid()
      ensures history == old(history)[..step + 1]
      ensures stepNumber == step && isXNext == (step % 2 == 0)
    {
      ghost var before := State();
      history, stepNumber, isXNext := Prefix(history, step + 1), step, step % 2 == 0;
      JumpPreservesInv(before, step);
    }

    /** The board the component displays: `history[stepNumber]`. */
    method CurrentSquares() returns (squares: Board)
      requires Valid()
      ensures squares == Current(State())
    {
      InvCurrent(State());
      squares := history[stepNumber].squares;
    }
  }
}
