# Sudoku board model

A model of the board of a console Sudoku game. The board is a 9 x 9 grid
of spaces, indexed column first. Each space holds three things: the value
the solution expects there, a flag saying whether it is a fixed given, and
the value the player has entered, if any.

The board changes spaces in place in three ways:

- an edit enters a value;
- a clear empties a space;
- a reset empties every space.

Edits and clears refuse fixed spaces. A reset does not.

The board also answers three queries: its status (not started, incomplete
or complete), whether it shows an error, and whether the game is won. It
never stores these answers. It computes them from the whole grid each time,
by flattening the columns into one stream of spaces and asking whether any
space, or none, matches a condition.

Layout:

- `spaces.dfy` (module `Spaces`): the space as a value. It also holds the
  three per-space conditions the queries test: edited, empty and wrong.
- `grids.dfy` (module `Grids`): the three queries as functions over the
  grid. They are written as the board's stream walk (`Flatten`, `AnyMatch`,
  `NoneMatch`). Their contracts give the same answer in terms of
  coordinates. This module also defines the value-level edits used in the
  contracts.
- `board.dfy` (module `Boards`): the `Board` class. Its field `spaces`
  holds the grid, and its methods `ChangeValue`, `ClearValue` and `Reset`
  update that field.
- `properties.dfy` (module `GameProperties`): lemmas that relate several
  operations.

The game's driver always builds a 9 x 9 grid. It only passes columns and
rows in 0..8 and values in 1..9. The board itself checks none of this. The
model states these facts as `requires` clauses: `Board.Valid()` for the
shape, and explicit ranges on the methods.

The model assumes nothing about whether a space already holds a value when
the board is built: the constructor accepts any 9 x 9 grid, filled or not,
and stores it unchanged. It does assume that setting and clearing a space
carry no fixed-space guard of their own: both change only the entered
value, whatever the fixed flag (see "Left out").

Two consequences of the board's rules:

- Clearing a space of a complete board does not always make it incomplete.
  If the cleared space was the only editable space holding a value, the
  status becomes not started, because fixed spaces never count towards
  starting the game. `GameProperties.ClearingCompleteBoard` states both
  outcomes.
- A reset can change a fixed space. The board applies `clearSpace` to every
  space with no guard of its own, and the model takes clearing to empty any
  space, so `Board.Reset` empties fixed spaces too.

## Model

| member | source | states |
|---|---|---|
| `Grids.Flatten` | src/br/com/model/Board.java:31 | the flattened stream contains exactly the spaces at the grid's coordinates |
| `Grids.AnyMatch` | src/br/com/model/Board.java:37 | true iff some space of the stream satisfies the condition |
| `Grids.NoneMatch` | src/br/com/model/Board.java:31 | true iff no space of the stream satisfies the condition |
| `Grids.AnyMatchGrid` | src/br/com/model/Board.java:31 | asking the flattened stream is the same as asking every coordinate of the grid |
| `Boards.Board.constructor` | src/br/com/model/Board.java:16-18 | stores the given grid unchanged and fills in no value; requires the 9 x 9 shape the driver always builds (src/br/com/Main.java:79-91) |
| `Grids.Status` | src/br/com/model/Board.java:26-38 | tests the stream with `Spaces.IsEdited` (line 31) and `Spaces.IsEmpty` (line 37). NonStarted iff no editable space holds a value (fixed spaces ignored). Otherwise Incomplete iff some space, fixed or not, is empty, and Complete iff every space holds a value. |
| `Grids.HasErrors` | src/br/com/model/Board.java:41-48 | tests the stream with `Spaces.IsWrong` (line 47). True iff the game has started and some space holds a value different from its expected value; so never when not started, and possibly on an incomplete board |
| `Grids.GameIsFinished` | src/br/com/model/Board.java:78-80 | true iff every space holds exactly its expected value and at least one space is editable |
| `Boards.Board.ChangeValue` | src/br/com/model/Board.java:51-59 | on a fixed space returns false and the grid is unchanged. Otherwise returns true and only that space's value becomes the given value. Expected values and fixed flags never change, and afterwards the game has started. |
| `Boards.Board.ClearValue` | src/br/com/model/Board.java:62-70 | on a fixed space returns false and the grid is unchanged. Otherwise returns true and only that space becomes empty, so the board is no longer complete. Expected values and fixed flags never change. |
| `Boards.Board.Reset` | src/br/com/model/Board.java:73-75 | every space, fixed ones included, becomes empty. Expected values and fixed flags stay, and the game is not started and shows no error. |
| `GameProperties.EditStartsGame` | src/br/com/model/Board.java:31-33 | after a value is entered in an editable space the status is never NonStarted, whatever the value |
| `GameProperties.FillingLastEmptySpaceCompletes` | src/br/com/model/Board.java:37 | filling the only empty space, when it is editable, turns a board that was not complete into a complete one |
| `GameProperties.ClearingCompleteBoard` | src/br/com/model/Board.java:31-37 | clearing an editable space of a complete board gives Incomplete iff another editable space holds a value, and NonStarted iff none does |
| `GameProperties.ResetIdempotent` | src/br/com/model/Board.java:73-75 | resetting twice gives the same grid as resetting once |
| `GameProperties.ResetRestartsGame` | src/br/com/model/Board.java:73-75 | a reset board is not started, shows no error and is not finished |
| `GameProperties.AllFixedNeverFinished` | src/br/com/model/Board.java:31-33 | a board whose spaces are all fixed is always NonStarted, shows no error and can never be finished |
| `GameProperties.CorrectEntriesHaveNoErrors` | src/br/com/model/Board.java:41-48 | a board whose entered values all equal their expected values shows no error, complete or not |
| `GameProperties.OneWrongEntry` | src/br/com/model/Board.java:78-80 | a full board with one wrong entry in an editable space is Complete, shows an error and is not finished; correcting that entry finishes it |

## Left out

- The console driver in `src/br/com/Main.java`, all of it: the menu loop, reading input, the retry loop for valid numbers, printing, exiting, the global board reference, drawing the board, and parsing the start-up layout from the command-line arguments. It is input and output. The model keeps only what the driver guarantees: a 9 x 9 grid, and coordinates and values in range.
- The space class and the status enumeration are not modelled. The space is modelled as a plain value whose `setActual` and `clearSpace` change only its entered value, with no fixed-space guard; if the space class guards fixed spaces itself, a reset would leave them alone, which this model does not capture. Status labels are left out.
- `getSpaces`, which hands out the board's own lists: callers can mutate the board through them, which a value-typed grid cannot express. The spaces are modelled as values inside the board's field, so object identity and aliasing between spaces are not modelled either.
- Out-of-range coordinates, where the code fails with an index error: these are excluded by the `requires` clauses instead of being modelled as failures, because the driver never passes them.
- Java's 32-bit `int` and boxed `Integer` values: the model uses unbounded integers. Only values 1..9 are ever entered, so overflow and boxed-value identity do not arise.
