/**
  The whole-grid queries of the Sudoku board, as functions over the grid's
  contents. A grid is a sequence of columns, each a sequence of spaces, so
  `g[c][r]` is the space in column `c`, row `r`. The queries walk the grid
  the way the board does: flatten the columns into one stream of spaces and
  ask whether any (or no) space matches a condition. Their contracts give
  the same answers in terms of coordinates.
 */
module Grids {
  import opened Spaces

  type Grid = seq<seq<Space>>

  /** The number of columns, and of rows in each column, the game always uses. */
  const BoardLimit: nat := 9

  datatype GameStatus = NonStarted | Incomplete | Complete

  /** The shape the game always builds: 9 columns of 9 rows. */
  predicate WellFormed(g: Grid) {
    |g| == BoardLimit && forall c :: 0 <= c < |g| ==> |g[c]| == BoardLimit
  }

  predicate InGrid(g: Grid, c: int, r: int) {
    0 <= c < |g| && 0 <= r < |g[c]|
  }

  /**
    The columns laid end to end, as a stream over the grid visits them. The
    contract states only membership in both directions, which is all that
    `AnyMatch` and `NoneMatch` depend on; order and repeats are not stated.
   */
  function Flatten(g: Grid): (cells: seq<Space>)
    ensures forall c, r :: InGrid(g, c, r) ==> g[c][r] in cells
    ensures forall s :: s in cells ==> exists c, r :: InGrid(g, c, r) && g[c][r] == s
  {
    if |g| == 0 then []
    else
      var rest := Flatten(g[1..]);
      assert forall c, r :: InGrid(g, c, r) && c > 0 ==> InGrid(g[1..], c - 1, r);
      assert forall c, r :: InGrid(g[1..], c, r) ==> InGrid(g, c + 1, r);
      g[0] + rest
  }

  /** Whether some space of the stream satisfies `p`. */
  function AnyMatch(cells: seq<Space>, p: Space -> bool): (found: bool)
    ensures found <==> exists i :: 0 <= i < |cells| && p(cells[i])
  {
    if |cells| == 0 then false
    else if p(cells[0]) then true
    else
      var rest := AnyMatch(cells[1..], p);
      assert forall i :: 1 <= i < |cells| ==> cells[i] == cells[1..][i - 1];
      rest
  }

  /** Whether no space of the stream satisfies `p`. */
  function NoneMatch(cells: seq<Space>, p: Space -> bool): (none: bool)
    ensures none <==> forall i :: 0 <= i < |cells| ==> !p(cells[i])
  {
    !AnyMatch(cells, p)
  }

  /** Asking the flattened stream is asking every coordinate of the grid. */
  lemma AnyMatchGrid(g: Grid, p: Space -> bool)
    ensures AnyMatch(Flatten(g), p) <==> exists c, r :: InGrid(g, c, r) && p(g[c][r])
  {
  }

  /**
    The game status. It is not started while no editable space holds a
    value (fixed spaces do not count); once started it is incomplete while
    any space, fixed or not, is empty, and complete otherwise.
   */
  function Status(g: Grid): (st: GameStatus)
    ensures st == NonStarted <==>
              forall c, r :: InGrid(g, c, r) ==> g[c][r].fixed || g[c][r].actual.None?
    ensures st == Incomplete <==>
              (exists c, r :: InGrid(g, c, r) && !g[c][r].fixed && g[c][r].actual.Some?) &&
              (exists c, r :: InGrid(g, c, r) && g[c][r].actual.None?)
    ensures st == Complete <==>
              (exists c, r :: InGrid(g, c, r) && !g[c][r].fixed && g[c][r].actual.Some?) &&
              (forall c, r :: InGrid(g, c, r) ==> g[c][r].actual.Some?)
  {
    AnyMatchGrid(g, IsEdited);
    AnyMatchGrid(g, IsEmpty);
    if NoneMatch(Flatten(g), IsEdited) then NonStarted
    else if AnyMatch(Flatten(g), IsEmpty) then Incomplete
    else Complete
  }

  /**
    Whether the board shows an error: never before the game has started;
    afterwards, whenever some space holds a value other than the expected
    one, even if the board is not yet full.
   */
  function HasErrors(g: Grid): (errors: bool)
    ensures errors <==>
              Status(g) != NonStarted &&
              exists c, r :: InGrid(g, c, r) && g[c][r].actual.Some? && g[c][r].actual.value != g[c][r].expected
  {
    AnyMatchGrid(g, IsWrong);
    if Status(g) == NonStarted then false
    else AnyMatch(Flatten(g), IsWrong)
  }

  /**
    The win condition: the board is complete and has no error. Hence every
    space holds exactly its expected value, and at least one editable space
    was filled by the player.
   */
  function GameIsFinished(g: Grid): (finished: bool)
    ensures finished <==>
              (exists c, r :: InGrid(g, c, r) && !g[c][r].fixed) &&
              (forall c, r :: InGrid(g, c, r) ==> g[c][r].actual == Some(g[c][r].expected))
  {
    !HasErrors(g) && Status(g) == Complete
  }

  /** The grid with the actual value of space (`c`, `r`) replaced by `a`. */
  function WithActual(g: Grid, c: int, r: int, a: Option<int>): (g': Grid)
    requires InGrid(g, c, r)
    ensures |g'| == |g| && forall k :: 0 <= k < |g| ==> |g'[k]| == |g[k]|
    ensures g'[c][r] == g[c][r].(actual := a)
    ensures forall k, j :: InGrid(g, k, j) && (k != c || j != r) ==> g'[k][j] == g[k][j]
  {
    g[c := g[c][r := g[c][r].(actual := a)]]
  }

  /** The grid with every space emptied, fixed spaces included. */
  function Cleared(g: Grid): (g': Grid)
    ensures |g'| == |g| && forall k :: 0 <= k < |g| ==> |g'[k]| == |g[k]|
    ensures forall c, r :: InGrid(g, c, r) ==> g'[c][r] == g[c][r].ClearSpace()
  {
    seq(|g|, c requires 0 <= c < |g| =>
      seq(|g[c]|, r requires 0 <= r < |g[c]| => g[c][r].ClearSpace()))
  }
}
