/**
  The Sudoku board: a 9 x 9 grid of spaces, indexed column first, that the
  game edits in place. Edits go through the board, which refuses to touch
  a fixed space; a reset empties every space, fixed ones included. The
  status, the error flag and the win condition are never stored: they are
  the functions `Status`, `HasErrors` and `GameIsFinished` of the current
  grid.
 */
module Boards {
  import opened Spaces
  import opened Grids

  class Board {
    var spaces: Grid

    ghost predicate Valid()
      reads this
    {
      WellFormed(spaces)
    }

    /** The board takes the layout the game built; it fills in no value of its own. */
    constructor (spaces: Grid)
      requires WellFormed(spaces)
      ensures Valid() && this.spaces == spaces
    {
      this.spaces := spaces;
    }

    /**
      Enters `value` in space (`col`, `row`). A fixed space is refused and
      the grid stays as it was; otherwise only that space's value changes,
      and the game has started.
     */
    method ChangeValue(col: int, row: int, value: int) returns (changed: bool)
      requires Valid()
      requires 0 <= col < BoardLimit && 0 <= row < BoardLimit && 1 <= value <= 9
      modifies this
      ensures Valid()
      ensures changed <==> !old(spaces[col][row].fixed)
      ensures !changed ==> spaces == old(spaces)
      ensures changed ==> spaces == WithActual(old(spaces), col, row, Some(value))
      ensures spaces[col][row].expected == old(spaces[col][row].expected)
      ensures spaces[col][row].fixed == old(spaces[col][row].fixed)
      ensures forall c, r :: InGrid(spaces, c, r) && (c != col || r != row) ==> spaces[c][r] == old(spaces[c][r])
      ensures changed ==> spaces[col][row].actual == Some(value) && Status(spaces) != NonStarted
    {
      var space := spaces[col][row];
      if space.fixed {
        return false;
      }
      spaces := spaces[col := spaces[col][row := space.SetActual(value)]];
      assert InGrid(spaces, col, row) && !spaces[col][row].fixed;
      return true;
    }

    /**
      Empties space (`col`, `row`). A fixed space is refused and the grid
      stays as it was; otherwise only that space's value changes.
     */
    method ClearValue(col: int, row: int) returns (cleared: bool)
      requires Valid()
      requires 0 <= col < BoardLimit && 0 <= row < BoardLimit
      modifies this
      ensures Valid()
      ensures cleared <==> !old(spaces[col][row].fixed)
      ensures !cleared ==> spaces == old(spaces)
      ensures cleared ==> spaces == WithActual(old(spaces), col, row, None)
      ensures spaces[col][row].expected == old(spaces[col][row].expected)
      ensures spaces[col][row].fixed == old(spaces[col][row].fixed)
      ensures forall c, r :: InGrid(spaces, c, r) && (c != col || r != row) ==> spaces[c][r] == old(spaces[c][r])
      ensures cleared ==> spaces[col][row].actual == None && Status(spaces) != Complete
    {
      var space := spaces[col][row];
      if space.fixed {
        return false;
      }
      spaces := spaces[col := spaces[col][row := space.ClearSpace()]];
      assert InGrid(spaces, col, row) && spaces[col][row].actual.None?;
      return true;
    }

    /**
      Empties every space, column by column and row by row, with no fixed
      guard. Expected values and fixed flags stay; the game is back to not
      started.
     */
    method Reset()
      requires Valid()
      modifies this
      ensures Valid()
      ensures spaces == Cleared(old(spaces))
      ensures forall c, r :: InGrid(spaces, c, r) ==>
                spaces[c][r].actual == None &&
                spaces[c][r].expected == old(spaces[c][r].expected) &&
                spaces[c][r].fixed == old(spaces[c][r].fixed)
      ensures Status(spaces) == NonStarted && !HasErrors(spaces)
    {
      ghost var target := Cleared(spaces);
      var c := 0;
      while c < |spaces|
        invariant 0 <= c <= |spaces| == |target|
        invariant forall k :: 0 <= k < |spaces| ==> |spaces[k]| == |target[k]|
        invariant spaces[..c] == target[..c]
        invariant spaces[c..] == old(spaces)[c..]
      {
        var r := 0;
        while r < |spaces[c]|
          invariant c < |spaces| == |target|
          invariant 0 <= r <= |spaces[c]|
          invariant forall k :: 0 <= k < |spaces| ==> |spaces[k]| == |target[k]|
          invariant spaces[..c] == target[..c]
          invariant spaces[c][..r] == target[c][..r]
          invariant spaces[c][r..] == old(spaces)[c][r..]
          invariant spaces[c + 1..] == old(spaces)[c + 1..]
        {
          spaces := spaces[c := spaces[c][r := spaces[c][r].ClearSpace()]];
          r := r + 1;
        }
        assert spaces[c] == spaces[c][..r] == target[c];
        assert spaces[..c + 1] == spaces[..c] + [spaces[c]];
        assert target[..c + 1] == target[..c] + [target[c]];
        c := c + 1;
      }
    }
  }
}
