/** The swap with validate-and-revert (`intercambiarFrutas`) and the
    two-click selection rule (`manejarClick`). The outcome of
    `hayCombinacionValida` is the parameter `valido`. */
module Intercambio {
  import opened Tablero
  import opened Deteccion

  function Abs(x: int): nat {
    if x < 0 then -x else x
  }

  /** `Math.abs(fila1 - fila2) + Math.abs(col1 - col2) === 1`. */
  predicate Adjacent(f1: int, c1: int, f2: int, c2: int) {
    Abs(f1 - f2) + Abs(c1 - c2) == 1
  }

  /** Which branch of `intercambiarFrutas` was taken. */
  datatype Outcome =
    | OutOfBounds   // a coordinate is off the board
    | EmptyCell     // a cell is `null`
    | NotAdjacent   // the cells are not neighbours
    | Reverted      // swapped, then swapped back: no valid combination
    | Kept          // swapped, with a valid combination

  /** The guards of `intercambiarFrutas` that hold before anything is
      swapped. */
  predicate CanSwap(g: Grid, f1: int, c1: int, f2: int, c2: int)
    requires WellFormed(g)
  {
    InBounds(f1, c1) && InBounds(f2, c2) && g[f1][c1].Some? && g[f2][c2].Some? && Adjacent(f1, c1, f2, c2)
  }

  /** The destructuring swap of two cells followed by the writes that give
      the fruit now at `(f1, c1)` that cell and the fruit now at `(f2, c2)`
      that cell. The revert is the same operation once more. */
  function Swap(g: Grid, f1: int, c1: int, f2: int, c2: int): (h: Grid)
    requires WellFormed(g) && CanSwap(g, f1, c1, f2, c2)
    ensures WellFormed(h)
  {
    var a := g[f1][c1].value;
    var b := g[f2][c2].value;
    Put(Put(g, f1, c1, Some(b.(fila := f1, col := c1))), f2, c2, Some(a.(fila := f2, col := c2)))
  }

  /** `intercambiarFrutas(f1, c1, f2, c2)`: the branch taken and the board
      afterwards. */
  function Exchange(g: Grid, f1: int, c1: int, f2: int, c2: int, valido: bool): (Outcome, Grid)
    requires WellFormed(g)
  {
    if !(InBounds(f1, c1) && InBounds(f2, c2)) then (OutOfBounds, g)
    else if g[f1][c1].None? || g[f2][c2].None? then (EmptyCell, g)
    else if !Adjacent(f1, c1, f2, c2) then (NotAdjacent, g)
    else
      var h := Swap(g, f1, c1, f2, c2);
      if valido then (Kept, h) else (Reverted, Swap(h, f1, c1, f2, c2))
  }

  /** The state `manejarClick` leaves: the board, `frutaSeleccionada`, and
      the outcome of the swap it attempted, if any. */
  datatype Click = Click(tablero: Grid, seleccion: Cell, intento: Option<Outcome>)

  /** `manejarClick(fila, col)` with `sel` the current `frutaSeleccionada`.
      The first cell of the swap is where the selected fruit says it is.
      A kept swap reaches the call of the undefined `eliminarFrutasCombinadas`,
      which throws before the selection is reset: the selection then still
      refers to the selected fruit, which now sits at `(fila, col)` and says so. */
  function HandleClick(g: Grid, sel: Cell, fila: int, col: int, valido: bool): (k: Click)
    requires WellFormed(g)
    ensures WellFormed(k.tablero)
  {
    if sel.Some? then
      var f1, c1 := sel.value.fila, sel.value.col;
      if Adjacent(f1, c1, fila, col) then
        var (res, h) := Exchange(g, f1, c1, fila, col, valido);
        if res == Kept then Click(h, Lookup(h, fila, col), Some(res))
        else Click(h, None, Some(res))
      else Click(g, None, None)
    else Click(g, Lookup(g, fila, col), None)
  }

  // The swap.

  /** A swap is refused, and the board left as it is, exactly when one of
      the three guards fails; each guard has its own outcome. */
  lemma ExchangeGuards(g: Grid, f1: int, c1: int, f2: int, c2: int, valido: bool)
    requires WellFormed(g)
    ensures var (res, h) := Exchange(g, f1, c1, f2, c2, valido);
            && (res == OutOfBounds <==> !(InBounds(f1, c1) && InBounds(f2, c2)))
            && (res == EmptyCell <==> InBounds(f1, c1) && InBounds(f2, c2) && (g[f1][c1].None? || g[f2][c2].None?))
            && (res in {OutOfBounds, EmptyCell, NotAdjacent} <==> !CanSwap(g, f1, c1, f2, c2))
            && (!CanSwap(g, f1, c1, f2, c2) ==> h == g)
  {
  }

  /** The swap exchanges the two fruits, gives each its new cell, and
      touches no other cell. */
  lemma SwapExchanges(g: Grid, f1: int, c1: int, f2: int, c2: int)
    requires WellFormed(g) && CanSwap(g, f1, c1, f2, c2)
    ensures var h := Swap(g, f1, c1, f2, c2);
            && h[f1][c1] == Some(g[f2][c2].value.(fila := f1, col := c1))
            && h[f2][c2] == Some(g[f1][c1].value.(fila := f2, col := c2))
            && forall r, c :: InBounds(r, c) && (r, c) != (f1, c1) && (r, c) != (f2, c2) ==> h[r][c] == g[r][c]
  {
  }

  /** The revert puts both fruits back and writes the call's coordinates
      into them, so on a position-consistent board it restores the board
      exactly. */
  lemma SwapTwiceRestores(g: Grid, f1: int, c1: int, f2: int, c2: int)
    requires WellFormed(g) && CanSwap(g, f1, c1, f2, c2)
    ensures CanSwap(Swap(g, f1, c1, f2, c2), f1, c1, f2, c2)
    ensures var h := Swap(Swap(g, f1, c1, f2, c2), f1, c1, f2, c2);
            && h[f1][c1] == Some(g[f1][c1].value.(fila := f1, col := c1))
            && h[f2][c2] == Some(g[f2][c2].value.(fila := f2, col := c2))
            && forall r, c :: InBounds(r, c) && (r, c) != (f1, c1) && (r, c) != (f2, c2) ==> h[r][c] == g[r][c]
    ensures Consistent(g) ==> Swap(Swap(g, f1, c1, f2, c2), f1, c1, f2, c2) == g
  {
    var h := Swap(Swap(g, f1, c1, f2, c2), f1, c1, f2, c2);
    if Consistent(g) {
      GridEquality(h, g);
    }
  }

  /** When the combination check is falsy the board is as before the call:
      cells, and the `fila`/`col` of both fruits. */
  lemma RejectedSwapRestores(g: Grid, f1: int, c1: int, f2: int, c2: int)
    requires WellFormed(g) && Consistent(g)
    ensures Exchange(g, f1, c1, f2, c2, false).1 == g
  {
    if CanSwap(g, f1, c1, f2, c2) {
      SwapTwiceRestores(g, f1, c1, f2, c2);
    }
  }

  /** Every branch keeps a board position-consistent and its kinds valid. */
  lemma ExchangeKeepsInvariants(g: Grid, f1: int, c1: int, f2: int, c2: int, valido: bool)
    requires WellFormed(g) && Consistent(g) && KindsValid(g)
    ensures var h := Exchange(g, f1, c1, f2, c2, valido).1;
            Consistent(h) && KindsValid(h)
  {
    if CanSwap(g, f1, c1, f2, c2) {
      SwapTwiceRestores(g, f1, c1, f2, c2);
    }
  }

  /** The test the comment in `hayCombinacionValida` describes: the guards
      pass and detection on the swapped board reports something. */
  predicate SwapMakesMatch(g: Grid, f1: int, c1: int, f2: int, c2: int)
    requires WellFormed(g)
  {
    CanSwap(g, f1, c1, f2, c2) && Matches(Swap(g, f1, c1, f2, c2)) != []
  }

  /** With that test as the validity result, a swap is kept exactly when the
      guards pass and the swapped board has a triple (not necessarily one the
      swap created), a kept swap leaves a board on which detection reports
      something, and every other call leaves a position-consistent board as
      it was. */
  lemma CheckedExchange(g: Grid, f1: int, c1: int, f2: int, c2: int)
    requires WellFormed(g) && Consistent(g)
    ensures var (res, h) := Exchange(g, f1, c1, f2, c2, SwapMakesMatch(g, f1, c1, f2, c2));
            && (res == Kept <==> SwapMakesMatch(g, f1, c1, f2, c2))
            && (res == Kept ==> exists p :: p in Matches(h) && TripleStart(h, p))
            && (res != Kept ==> h == g)
  {
    var valido := SwapMakesMatch(g, f1, c1, f2, c2);
    var (res, h) := Exchange(g, f1, c1, f2, c2, valido);
    RejectedSwapRestores(g, f1, c1, f2, c2);
    if res == Kept {
      var p := Matches(h)[0];
      MatchesExactlyTripleStarts(h, p);
    }
  }

  // The selection rule.

  /** With nothing selected, a click stores the clicked cell's contents and
      does not touch the board. */
  lemma FirstClickSelects(g: Grid, fila: int, col: int, valido: bool)
    requires WellFormed(g)
    ensures HandleClick(g, None, fila, col, valido) == Click(g, Lookup(g, fila, col), None)
  {
  }

  /** With a fruit selected, the next click attempts a swap exactly when the
      clicked cell is a neighbour of where the selected fruit says it is. The
      selection is cleared unless the swap is kept; after a kept swap it is
      the fruit that was at the selected fruit's cell, now at the clicked
      cell. */
  lemma SecondClickResolves(g: Grid, sel: Fruit, fila: int, col: int, valido: bool)
    requires WellFormed(g)
    ensures var k := HandleClick(g, Some(sel), fila, col, valido);
            && (k.intento != Some(Kept) ==> k.seleccion == None)
            && (k.intento == Some(Kept) ==>
                  InBounds(sel.fila, sel.col) && g[sel.fila][sel.col].Some? &&
                  k.seleccion == Some(g[sel.fila][sel.col].value.(fila := fila, col := col)))
            && (k.intento.Some? <==> Adjacent(sel.fila, sel.col, fila, col))
            && (k.intento.None? ==> k.tablero == g)
            && (k.intento.Some? ==> (k.intento.value, k.tablero) == Exchange(g, sel.fila, sel.col, fila, col, valido))
  {
  }

  /** Clicking the same cell twice on a position-consistent board never
      swaps: the second click only clears the selection. */
  lemma SameCellTwiceNeverSwaps(g: Grid, fila: int, col: int, valido: bool)
    requires WellFormed(g) && Consistent(g)
    ensures var k1 := HandleClick(g, None, fila, col, valido);
            var k2 := HandleClick(k1.tablero, k1.seleccion, fila, col, valido);
            k2 == Click(g, None, None)
  {
  }
}
