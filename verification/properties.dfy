/**
  Properties of the board that relate several operations: how an edit, a
  clear or a reset moves the game between its statuses, and when the win
  condition can and cannot hold.
 */
module GameProperties {
  import opened Spaces
  import opened Grids

  /** After a successful edit the game has started, whatever the value entered. */
  lemma EditStartsGame(g: Grid, c: int, r: int, v: int)
    requires InGrid(g, c, r) && !g[c][r].fixed
    ensures Status(WithActual(g, c, r, Some(v))) != NonStarted
  {
  }

  /** Filling the one empty space turns a board that was not complete into a complete one. */
  lemma FillingLastEmptySpaceCompletes(g: Grid, c: int, r: int, v: int)
    requires InGrid(g, c, r) && !g[c][r].fixed && g[c][r].actual.None?
    requires forall k, j :: InGrid(g, k, j) && (k != c || j != r) ==> g[k][j].actual.Some?
    ensures Status(g) != Complete
    ensures Status(WithActual(g, c, r, Some(v))) == Complete
  {
  }

  /**
    Clearing an editable space of a complete board makes it incomplete when
    some other editable space still holds a value, and not started otherwise.
   */
  lemma ClearingCompleteBoard(g: Grid, c: int, r: int)
    requires InGrid(g, c, r) && !g[c][r].fixed && Status(g) == Complete
    ensures Status(WithActual(g, c, r, None)) == Incomplete <==>
              exists k, j :: InGrid(g, k, j) && (k != c || j != r) && !g[k][j].fixed && g[k][j].actual.Some?
    ensures Status(WithActual(g, c, r, None)) == NonStarted <==>
              forall k, j :: InGrid(g, k, j) && (k != c || j != r) ==> g[k][j].fixed || g[k][j].actual.None?
  {
  }

  /** Resetting twice leaves the same grid as resetting once. */
  lemma ResetIdempotent(g: Grid)
    ensures Cleared(Cleared(g)) == Cleared(g)
  {
    var once := Cleared(g);
    var twice := Cleared(once);
    forall c | 0 <= c < |g| ensures twice[c] == once[c] {
      assert forall r :: 0 <= r < |g[c]| ==> InGrid(once, c, r) && twice[c][r] == once[c][r];
    }
  }

  /** A reset board is not started, shows no error and is not finished. */
  lemma ResetRestartsGame(g: Grid)
    ensures Status(Cleared(g)) == NonStarted
    ensures !HasErrors(Cleared(g)) && !GameIsFinished(Cleared(g))
  {
  }

  /** A board whose spaces are all fixed never starts, so it can never be won. */
  lemma AllFixedNeverFinished(g: Grid)
    requires forall c, r :: InGrid(g, c, r) ==> g[c][r].fixed
    ensures Status(g) == NonStarted && !HasErrors(g) && !GameIsFinished(g)
  {
  }

  /** A board whose entries all agree with the solution has no error, complete or not. */
  lemma CorrectEntriesHaveNoErrors(g: Grid)
    requires forall c, r :: InGrid(g, c, r) && g[c][r].actual.Some? ==> g[c][r].actual.value == g[c][r].expected
    ensures !HasErrors(g)
  {
  }

  /**
    A full board with exactly one wrong entry, in an editable space, is
    complete and shows an error, so it is not won; correcting that entry wins it.
   */
  lemma OneWrongEntry(g: Grid, c: int, r: int, v: int)
    requires InGrid(g, c, r) && !g[c][r].fixed
    requires g[c][r].actual == Some(v) && v != g[c][r].expected
    requires forall k, j :: InGrid(g, k, j) && (k != c || j != r) ==> g[k][j].actual == Some(g[k][j].expected)
    ensures Status(g) == Complete && HasErrors(g) && !GameIsFinished(g)
    ensures GameIsFinished(WithActual(g, c, r, Some(g[c][r].expected)))
  {
  }
}
