/** Cells, marks and the 9-cell board of the tic-tac-toe game.

    A cell of the board holds either nothing (JavaScript `null` in the
    original) or one of the two marks 'X' and 'O'.  Cells are numbered 0..8
    in row-major order. */
module Board {

  datatype Option<+T> = None | Some(value: T)

  /** The two marks a player can write. */
  datatype Player = X | O

  /** A cell is `None` while empty and `Some(p)` once player `p` wrote in it. */
  type Cell = Option<Player>

  /** A cell number 0..8; the board component only ever passes these. */
  type Index = i: int | 0 <= i < 9

  /** A board always has exactly nine cells. */
  type Board = s: seq<Cell> | |s| == 9
    witness [None, None, None, None, None, None, None, None, None]

  /** The board of a new game: `Array(9).fill(null)`. */
  const EmptyBoard: Board := [None, None, None, None, None, None, None, None, None]

  /** The other player. */
  function Opponent(p: Player): (q: Player)
    ensures q != p
  {
    if p == X then O else X
  }

  /** The number of cells of `s` that hold a mark. */
  function FilledCount(s: seq<Cell>): (n: nat)
    ensures n <= |s|
  {
    if s == [] then 0 else FilledCount(s[..|s| - 1]) + (if s[|s| - 1].Some? then 1 else 0)
  }

  lemma {:induction false} FilledCountEmpty(s: seq<Cell>)
    requires forall j :: 0 <= j < |s| ==> s[j] == None
    ensures FilledCount(s) == 0
  {
    if s != [] {
      FilledCountEmpty(s[..|s| - 1]);
    }
  }

  /** Writing a mark into an empty cell fills exactly one more cell. */
  lemma {:induction false} FilledCountWrite(s: seq<Cell>, i: nat, p: Player)
    requires i < |s| && s[i] == None
    ensures FilledCount(s[i := Some(p)]) == FilledCount(s) + 1
  {
    var t := s[i := Some(p)];
    assert t[..|t| - 1] == if i == |s| - 1 then s[..|s| - 1] else s[..|s| - 1][i := Some(p)];
    if i < |s| - 1 {
      FilledCountWrite(s[..|s| - 1], i, p);
    }
  }
}
