/**
  One cell ("space") of the Sudoku grid: the value the solution expects
  there, whether the cell is a given that the player may not edit, and the
  value the player has entered, if any.
 */
module Spaces {

  /** An optional value: `None` is an empty cell, `Some(v)` a cell holding `v`. */
  datatype Option<+T> = None | Some(value: T)

  datatype Space = Space(expected: int, fixed: bool, actual: Option<int>) {

    /** The player's entry `v` goes into the cell; modelled with no fixed-cell guard. */
    function SetActual(v: int): Space {
      this.(actual := Some(v))
    }

    /** The cell becomes empty; modelled with no fixed-cell guard either. */
    function ClearSpace(): Space {
      this.(actual := None)
    }
  }

  /** An editable cell the player has filled: what makes a game count as started. */
  predicate IsEdited(s: Space) {
    !s.fixed && s.actual.Some?
  }

  /** A cell, fixed or not, that holds no value. */
  predicate IsEmpty(s: Space) {
    s.actual.None?
  }

  /** A cell holding a value other than the one the solution expects. */
  predicate IsWrong(s: Space) {
    s.actual.Some? && s.actual.value != s.expected
  }
}
