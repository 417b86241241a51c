# Fruit match-3 board logic in Dafny

This project models the board logic of the fruit-swapping match-3 game in
`js/game.js`. The board `tablero` is an 8×8 grid. Each cell holds `null` or a
fruit record `{tipo, fila, col}`, where `tipo` is one of the five entries of
`frutas`. The player clicks two neighbouring fruits to swap them. A detector
reports where triples of equal fruits start. Removal, column gravity and
refill then run in a cascade until detection comes back empty.

## Structure

| module | file | source |
|---|---|---|
| `Tablero` | Tablero.dfy | the constants, the fruit record, cells, the value view of the board, `Math.random()` to kind |
| `Deteccion` | Deteccion.dfy | `detectarCombinaciones` as a specification function and its properties |
| `Intercambio` | Intercambio.dfy | `intercambiarFrutas` and `manejarClick` as functions on board values |
| `Eliminacion` | Eliminacion.dfy | `eliminarCombinaciones`: its two passes |
| `Gravedad` | Gravedad.dfy | the column scan shared by `caerFrutas` and `aplicarGravedad` |
| `Relleno` | Relleno.dfy | `rellenarTablero`, `inicializarTablero`, `crearFruta` |
| `Cascada` | Cascada.dfy | `verificarCombinacionesAutomaticas` as a fuel-bounded loop |
| `Juego` | Juego.dfy | the class holding the globals and the imperative loops |

The program keeps its state in globals: `tablero`, `frutaSeleccionada` and
`bloqueado`. Here they are the fields of class `Juego.Juego`. The board is an
`array2<Cell>`, and `Cell = Option<Fruit>`. Each method runs the loops of its
JavaScript function on the array. Its `ensures` ties the new board
(`Board()`, the array as a `seq<seq<Cell>>`) to a specification function of
the old board. The properties are proved about those functions as lemmas.

A fruit is a value (`Fruit(tipo, fila, col)`). A write such as
`fruta1.fila = fila2` becomes a rewrite of the cell with an updated record.
`tipo` is an index into `frutas`. The two animation fields, `yActual` and
`opacidad`, are not modelled.

Two inputs come from outside the modelled code:
- `Math.random()` is the stream `azar: nat -> Aleatorio` of reals in `[0, 1)`.
  The field `tiradas` counts how many of its values have been used. A kind is
  `Floor(u * 5)`.
- The value of `hayCombinacionValida(fruta1, fruta2)` is the parameter
  `valido`. Its body returns the result of `verificarCombinacionesAutomaticas()`,
  which has no `return`, so as written it is always falsy. The guard and
  revert properties are proved for any value. `Intercambio.CheckedExchange`
  proves what happens when the value is detection on the swapped board, as
  the comment in that function describes.

## Model

| member | source | states |
|---|---|---|
| `Tablero.TipoAleatorio` | js/game.js:29 | the kind drawn from a random value lies in `[0, 5)` and is the floor of `u * frutas.length` |
| `Relleno.NewFruit` | js/game.js:13-21 | a created fruit stores the cell it was created for and a valid kind |
| `Relleno.InitialIsValid` | js/game.js:24-33 | the new board is full, each fruit stores its own cell, each kind indexes `frutas` |
| `Relleno.RefillFills` | js/game.js:337-352 | after refilling no cell is `null`; cells that held fruit are untouched; each new fruit stores its own cell and a valid kind |
| `Relleno.RefillKeepsInvariants` | js/game.js:337-352 | refilling keeps every fruit's stored position equal to its cell, and every kind valid |
| `Relleno.RefillFullIsIdentity` | js/game.js:354-357 | a full board is left as it is and `nuevasFrutas` is 0 |
| `Relleno.EmptyCountZeroIffFull` | js/game.js:339-343 | the number of cells the refill fills is 0 exactly when the board has no `null` |
| `Relleno.DrawIndexInjective` | js/game.js:337-343 | no two empty cells get the same random value: each one consumes its own draw |
| `Relleno.DrawIndexBound` | js/game.js:337-343 | every draw made by one refill lies below the number of cells it fills |
| `Relleno.FillColumnAt` | js/game.js:338-350 | a row of a refilled column is the old fruit, or a new fruit drawn after the empty cells above it |
| `Relleno.RefillByColumns` | js/game.js:337-352 | filling the columns left to right, each top to bottom, gives the refilled board |
| `Deteccion.MatchesCount` | js/game.js:202-226 | each coordinate is reported once per direction in which a triple starts there, and nothing else is reported |
| `Deteccion.MatchesExactlyTripleStarts` | js/game.js:205-221 | a coordinate is reported exactly when it is on the board and starts a horizontal or a vertical triple |
| `Deteccion.RowsMatchesCount` | js/game.js:205-224 | the scan of the first rows reports each cell of those rows once per triple starting there |
| `Deteccion.RowMatchesCount` | js/game.js:206-223 | the scan of a row prefix reports each cell of that prefix once per triple starting there |
| `Deteccion.EmptyCellsNeverMatch` | js/game.js:207-219 | a reported cell holds a fruit, and so do the other two cells of its triple |
| `Deteccion.EmptyBoardHasNoMatches` | js/game.js:203-225 | an all-`null` board gives an empty list |
| `Deteccion.MatchesInRowMajorOrder` | js/game.js:205-206 | the list is in row-major order |
| `Deteccion.RowsMatchesSorted` | js/game.js:205-224 | the scan of the first rows is sorted and stays above the next row |
| `Deteccion.RowMatchesSorted` | js/game.js:206-223 | the scan of a row prefix is sorted and stays left of the next column |
| `Deteccion.RunOfThreeHasOneStart` | js/game.js:210-213 | for a run of exactly three in a row (neither neighbour continues it), the only horizontal triple starting within two columns of it is the one at its first cell |
| `Deteccion.RunOfFourHasTwoStarts` | js/game.js:210-213 | for a run of exactly four in a row, the horizontal triples starting near it are exactly the ones at its first and second cells |
| `Intercambio.ExchangeGuards` | js/game.js:102-112 | the call is refused, with the board unchanged, exactly when a coordinate is off the board, a cell is `null` or the cells are not at distance 1; each guard has its own outcome |
| `Intercambio.SwapExchanges` | js/game.js:116-122 | the swap exchanges the two fruits, writes each one's new cell into it, and touches no other cell |
| `Intercambio.SwapTwiceRestores` | js/game.js:132-138 | the revert puts both fruits back with the call's coordinates; on a position-consistent board the board is exactly as before |
| `Intercambio.RejectedSwapRestores` | js/game.js:129-139 | when the combination check is falsy, the cells and both fruits' `fila`/`col` are as before the call |
| `Intercambio.ExchangeKeepsInvariants` | js/game.js:100-154 | every branch keeps stored positions equal to cells, and kinds valid |
| `Intercambio.CheckedExchange` | js/game.js:191-199 | with detection on the swapped board as the check, a swap is kept exactly when the guards pass and the swapped board has a triple, and otherwise the board is unchanged. The triple need not be new: on a board that already holds one, every guarded swap is kept |
| `Intercambio.FirstClickSelects` | js/game.js:94-96 | with nothing selected, a click stores the clicked cell's contents and does not touch the board |
| `Intercambio.SecondClickResolves` | js/game.js:79-93 | with a fruit selected, the next click attempts a swap exactly when the clicked cell is at distance 1. The selection is cleared unless the swap is kept. After a kept swap, the throw at js/game.js:127 skips line 89, so the selection is still set. It is the fruit from the selected fruit's cell, now holding the clicked cell's coordinates |
| `Intercambio.SameCellTwiceNeverSwaps` | js/game.js:75-97 | clicking the same cell twice never swaps and leaves nothing selected |
| `Eliminacion.CollectedMembers` | js/game.js:233-242 | a fruit is collected exactly when some listed in-bounds coordinate holds it |
| `Eliminacion.CollectedTargets` | js/game.js:245-250 | the cells the second pass nulls are those named by the fruits at the listed in-bounds coordinates |
| `Eliminacion.RemoveStep` | js/game.js:246-249 | one step of the second pass nulls the named cell if it is on the board and not empty |
| `Eliminacion.EliminateExactly` | js/game.js:229-253 | on a position-consistent board, removal nulls exactly the listed in-bounds cells and nothing else changes |
| `Eliminacion.EliminateDependsOnSet` | js/game.js:233-250 | removal depends only on which coordinates are listed, not on their order or repetition |
| `Eliminacion.EliminateDuplicate` | js/game.js:233-250 | listing a coordinate twice gives the same board as listing it once |
| `Eliminacion.EliminateIgnoresOutOfBounds` | js/game.js:235 | an off-board coordinate is ignored |
| `Eliminacion.EliminateKeepsInvariants` | js/game.js:245-250 | removal keeps stored positions equal to cells, and kinds valid |
| `Gravedad.NearestAbove` | js/game.js:161-171 | the search finds the nearest fruit above a row, with only `null` cells in between, or nothing |
| `Gravedad.SettleStep` | js/game.js:159-173 | one row of the scan, then the rest of the scan, is the scan of the whole column |
| `Gravedad.SettleIsCompact` | js/game.js:158-174 | after gravity every `null` in a column is above every fruit |
| `Gravedad.SettleKeepsFruits` | js/game.js:158-174 | gravity keeps the fruits of a column, their kinds and their top-to-bottom order |
| `Gravedad.SettleUpdatesFila` | js/game.js:164-168 | a fruit that moved stores its new row in `fila` |
| `Gravedad.SettleKeepsConsistent` | js/game.js:280-302 | gravity keeps stored positions equal to cells in a column |
| `Gravedad.CompactIsFixed` | js/game.js:280-302 | a column with no `null` below a fruit is unchanged and nothing moves |
| `Gravedad.MovesIffNotCompact` | js/game.js:280-307 | `frutasCaidas` for a column is 0 exactly when the column has no `null` below a fruit, which is exactly when gravity leaves it unchanged |
| `Gravedad.SettleIdempotent` | js/game.js:158-174 | settling a settled column changes nothing |
| `Gravedad.GravityColumns` | js/game.js:280-302 | per column: fruits and their order kept, `null`s on top, moved fruits carry their new row |
| `Gravedad.GravityByColumn` | js/game.js:280-302 | no fruit changes column: each column of the result is that column settled |
| `Gravedad.GravityKeepsInvariants` | js/game.js:280-302 | gravity keeps stored positions equal to cells, and kinds valid |
| `Gravedad.GravityOfFullIsIdentity` | js/game.js:280-307 | a board with no `null` is unchanged and `frutasCaidas` is 0 |
| `Gravedad.NoMovesIffUnchanged` | js/game.js:278-307 | `frutasCaidas` is 0 exactly when gravity changes nothing |
| `Gravedad.GravityIdempotent` | js/game.js:280-302 | applying gravity twice is applying it once |
| `Cascada.RemovalOfMatches` | js/game.js:362-364 | the cascade's removal nulls exactly the cells that start a triple |
| `Cascada.RoundKeepsInvariants` | js/game.js:364-367 | removal, gravity and refill leave a full board with stored positions equal to cells |
| `Cascada.LoopUnlocks` | js/game.js:361-372 | the loop unlocks exactly when it stops because its test holds |
| `Cascada.LoopKeeps` | js/game.js:361-372 | what every round keeps, the loop keeps |
| `Cascada.CascadeUnlocksIffSettled` | js/game.js:361-372 | `bloqueado` is cleared exactly when detection returns an empty list, and the board it stops on has no triple |
| `Cascada.CascadeKeepsInvariants` | js/game.js:361-372 | the cascade keeps stored positions equal to cells and kinds valid, and after a round the board is full |
| `Cascada.NoMatchesOnlyUnlocks` | js/game.js:369-371 | with nothing detected, the cascade only unlocks |
| `Cascada.CascadeRound` | js/game.js:362-368 | with matches, the cascade removes them, applies gravity, refills and starts again |
| `Juego.Juego.constructor` | js/game.js:8-10 | the globals start empty, unlocked and unselected, then the board is built |
| `Juego.Juego.InicializarTablero` | js/game.js:24-35 | the board built is the full initial board, using one random value per cell in row-major order |
| `Juego.Juego.LlenarFila` | js/game.js:27-32 | one row is filled left to right, each cell with a fruit at that cell |
| `Juego.Juego.DetectarCombinaciones` | js/game.js:202-226 | the scan returns the detector's list for the board it is given and leaves that board unchanged |
| `Juego.Juego.DetectarEnFila` | js/game.js:206-223 | the scan of one row returns that row's starts, horizontal before vertical per cell |
| `Juego.Juego.EliminarCombinaciones` | js/game.js:229-253 | locks, and the board becomes the removal of the listed coordinates |
| `Juego.Juego.FrutasEn` | js/game.js:231-242 | `frutasAEliminar` is the list of fruits at the listed in-bounds coordinates |
| `Juego.Juego.Anular` | js/game.js:245-250 | the cells the collected fruits name are nulled |
| `Juego.Juego.AplicarGravedad` | js/game.js:276-308 | locks, applies gravity to every column, and `frutasCaidas` counts the moves |
| `Juego.Juego.CaerColumnas` | js/game.js:280-302 | the column loop applies gravity to the whole board and counts the moves |
| `Juego.Juego.CaerColumna` | js/game.js:281-301 | one column, scanned bottom up, becomes that column settled; no other column changes |
| `Juego.Juego.CaerEn` | js/game.js:282-299 | one row of the scan: an empty cell takes the nearest fruit above, which is emptied |
| `Juego.Juego.RellenarTablero` | js/game.js:334-358 | the board becomes its refill; `nuevasFrutas` is the number of `null` cells, and as many random values are used |
| `Juego.Juego.RellenarColumna` | js/game.js:338-351 | one column is filled top to bottom; no other column changes |
| `Juego.Juego.RellenarCelda` | js/game.js:339-343 | an empty cell gets a new fruit of the next drawn kind; a full one is kept |
| `Juego.Juego.CaerFrutas` | js/game.js:157-188 | gravity, then refill of the cells left empty |
| `Juego.Juego.IntercambiarFrutas` | js/game.js:100-154 | the outcome and the board are those of the swap with guards and revert |
| `Juego.Juego.Intercambiar` | js/game.js:116-122 | the destructuring swap and the writes of `fila`/`col` |
| `Juego.Juego.ManejarClick` | js/game.js:75-97 | the board, the selection and the attempted swap follow the selection rule, including the selection left set after a kept swap |
| `Juego.Juego.VerificarCombinacionesAutomaticas` | js/game.js:361-372 | the board, the draws, `bloqueado` and whether it settled are those of the bounded cascade |
| `Juego.Juego.Pasada` | js/game.js:362-371 | one pass: with nothing detected it stops, otherwise it runs a round |
| `Juego.Juego.RondaDeCascada` | js/game.js:363-368 | a pass with matches continues from the board its round leaves |
| `Juego.Juego.Ronda` | js/game.js:364-367 | removal, then gravity, then refill, run in sequence |
| `Juego.Juego.EliminarYCaer` | js/game.js:364-365 | removal, then gravity in its callback |

## Left out

- Drawing (`dibujarTablero`, the canvas context, fonts) and every call to it: rendering only.
- The click listener's pixel-to-cell mapping (js/game.js:58-72): DOM input. Only its bounds check matters to the logic, and `manejarClick` handles off-board coordinates on its own.
- The fade and fall animations (`animarDesvanecimiento`, `animarCaida`), `yActual` and `opacidad`: floating-point display state.
- `setTimeout` and the animation-completion callbacks: removal, gravity and refill run synchronously, and each callback runs as the next step in sequence. The counters `frutasCaidas` and `nuevasFrutas` are their values when the loops end, before any animation callback decrements them.
- `Math.random()`: it is the input stream `azar`.
- `console.log` and `console.error`: logging only.
- `Juego.Juego.VerificarCombinacionesAutomaticas`: runs at most `combustible` passes. The refills are random, so the cascade need not terminate. `asentado` reports whether it stopped because detection came back empty.
- `Juego.Juego.CaerFrutas`: its refill is modelled by `rellenarTablero`'s fruit creation. As written, js/game.js:181 calls `crearFruta(fila, col)`, which gives a fruit whose `tipo` is the row number, whose `fila` is the column and whose `col` is undefined. The model does not represent those values.
- `Juego.Juego.IntercambiarFrutas`: in the accept branch, js/game.js:127 calls `eliminarFrutasCombinadas`, which is not defined anywhere, so the call throws. `caerFrutas` (line 128) and the redraw never run, and the exception leaves `manejarClick` before it resets the selection. The model keeps the swapped board and stops there, and `manejarClick` keeps the selection.
- `Juego.Juego.IntercambiarFrutas`: only the value `valido` of `hayCombinacionValida` is modelled. The function returns the value of `verificarCombinacionesAutomaticas()`, which is always `undefined`, so as written the swap is always reverted. That call also has side effects, run on the swapped board, that the model leaves out:
  - If the swapped board has a triple, it sets `bloqueado` and collects the fruits at the triples' start cells.
  - Meanwhile the swap is reverted, and the revert writes the fruits' original coordinates back into them.
  - 500 ms later the collected fruits are nulled at the cells they now store, which are their restored cells. Gravity, the refill and the cascade then run.
  - So in the program as written, a swap that makes a triple is reverted and still removes fruit.
  - If the swapped board has no triple, the call only clears `bloqueado`.
- `Intercambio.RejectedSwapRestores`: the exact restore needs every fruit to store its own cell. The revert writes the call's coordinates into the fruits, so a fruit with a stale position would come back corrected. `Intercambio.SwapTwiceRestores` states what happens in general.
- `Juego.Juego.ManejarClick`: `frutaSeleccionada` is a copy of the selected fruit, not a shared reference. After a kept swap, the model sets it to the fruit now at the clicked cell. That fruit is the selected one with its new coordinates, so the copy matches the object the reference points to. The program can still move the selected fruit between the two clicks, and the model does not follow:
  - `bloqueado` is never read, so a click can land while a removal timer is pending (js/game.js:245), for example the one left by the check inside `hayCombinacionValida`.
  - When that timer fires, gravity writes a new `fila` into the selected object (js/game.js:289), and the cascade can do the same later.
  - The model's copy keeps the old `fila`. The second click is then tested for adjacency against where the fruit was, not where it is.
- `bloqueado` is written but never read, so no click is refused while it is set. The model keeps it as a field and proves nothing about locked input.
- There is no score in the program, so none is modelled.
- The program reports only the start cell of each triple and removes only those cells. The model follows the program, not a full-run detector.
- `inicializarTablero` does not avoid an initial board that already has triples. The model makes no claim about it.
