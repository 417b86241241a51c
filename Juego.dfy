/** The game state of `game.js`: the global `tablero`, `frutaSeleccionada`
    and `bloqueado`, updated in place by the operations below. The board is
    an `array2`; `Board()` is its value, on which the specification
    functions of the other modules are stated. `tiradas` counts the values
    of the random stream `azar` used so far. */
module Juego {
  import opened Tablero
  import opened Deteccion
  import opened Eliminacion
  import opened Gravedad
  import opened Relleno
  import opened Intercambio
  import opened Cascada

  class Juego {
    var tablero: array2<Cell>
    var frutaSeleccionada: Cell
    var bloqueado: bool
    var tiradas: nat
    const azar: nat -> Aleatorio

    /** `tablero` has `filas` rows of `columnas` cells. */
    ghost predicate Valid()
      reads this`tablero
    {
      tablero.Length0 == Filas && tablero.Length1 == Columnas
    }

    /** The board as a value. */
    ghost function Board(): (g: Grid)
      reads this`tablero, tablero
      requires Valid()
      ensures WellFormed(g)
      ensures forall r, c :: 0 <= r < Filas && 0 <= c < Columnas ==> g[r][c] == tablero[r, c]
    {
      var a := tablero;
      seq(Filas, r requires 0 <= r < Filas reads a =>
        seq(Columnas, c requires 0 <= c < Columnas reads a => a[r, c]))
    }

    /** The script's start: the globals as declared, then
        `inicializarTablero()`. */
    constructor (azar: nat -> Aleatorio)
      ensures Valid() && fresh(tablero)
      ensures Board() == Initial(azar, 0) && tiradas == Filas * Columnas
      ensures frutaSeleccionada == None && !bloqueado
      ensures this.azar == azar
    {
      this.azar := azar;
      tablero := new Cell[0, 0];
      frutaSeleccionada := None;
      bloqueado := false;
      tiradas := 0;
      new;
      InicializarTablero();
    }

    /** `inicializarTablero()`: a new board, one drawn fruit per cell in
        row-major order. */
    method InicializarTablero()
      modifies this
      ensures Valid() && fresh(tablero)
      ensures Board() == Initial(azar, old(tiradas)) && tiradas == old(tiradas) + Filas * Columnas
      ensures frutaSeleccionada == old(frutaSeleccionada) && bloqueado == old(bloqueado)
    {
      var t0 := tiradas;
      tablero := new Cell[Filas, Columnas];
      for fila := 0 to Filas
        invariant Valid() && fresh(tablero)
        invariant tiradas == t0 + fila * Columnas
        invariant forall r, c :: 0 <= r < fila && 0 <= c < Columnas ==>
                    tablero[r, c] == Some(NewFruit(azar, t0 + r * Columnas + c, r, c))
        invariant frutaSeleccionada == old(frutaSeleccionada) && bloqueado == old(bloqueado)
      {
        LlenarFila(fila);
      }
      GridEquality(Board(), Initial(azar, t0));
    }

    /** The inner loop of `inicializarTablero()`: row `fila`, left to right,
        one `crearFruta(fila, col)` per cell. */
    method LlenarFila(fila: int)
      requires Valid() && 0 <= fila < Filas
      modifies this`tiradas, tablero
      ensures tiradas == old(tiradas) + Columnas
      ensures forall c :: 0 <= c < Columnas ==> tablero[fila, c] == Some(NewFruit(azar, old(tiradas) + c, fila, c))
      ensures forall r, c :: 0 <= r < Filas && 0 <= c < Columnas && r != fila ==> tablero[r, c] == old(tablero[r, c])
    {
      for col := 0 to Columnas
        invariant tiradas == old(tiradas) + col
        invariant forall c :: 0 <= c < col ==> tablero[fila, c] == Some(NewFruit(azar, old(tiradas) + c, fila, c))
        invariant forall r, c :: 0 <= r < Filas && 0 <= c < Columnas && r != fila ==> tablero[r, c] == old(tablero[r, c])
      {
        tablero[fila, col] := Some(Fruit(TipoAleatorio(azar(tiradas)), fila, col));
        tiradas := tiradas + 1;
      }
    }

    /** `detectarCombinaciones()`: the row-major scan. */
    method DetectarCombinaciones(ghost g: Grid) returns (combinaciones: seq<Pos>)
      requires Valid() && g == Board()
      ensures combinaciones == Matches(g) && Board() == g
    {
      combinaciones := [];
      for fila := 0 to tablero.Length0
        invariant combinaciones == RowsMatches(g, fila)
      {
        var enFila := DetectarEnFila(fila, g);
        combinaciones := combinaciones + enFila;
      }
    }

    /** What the scan pushes while it visits row `fila`, left to right:
        the cell once for a horizontal triple starting there, then once for
        a vertical one. */
    method DetectarEnFila(fila: int, ghost g: Grid) returns (combinaciones: seq<Pos>)
      requires Valid() && 0 <= fila < Filas && g == Board()
      ensures combinaciones == RowMatches(g, fila, |g[fila]|)
    {
      combinaciones := [];
      for col := 0 to tablero.Length1
        invariant combinaciones == RowMatches(g, fila, col)
      {
        var fruta := tablero[fila, col];
        if fruta.Some? {
          var horizontal := col + 2 < Columnas
            && tablero[fila, col + 1].Some? && tablero[fila, col + 1].value.tipo == fruta.value.tipo
            && tablero[fila, col + 2].Some? && tablero[fila, col + 2].value.tipo == fruta.value.tipo;
          assert horizontal == HorizontalTriple(g, fila, col);
          if horizontal {
            combinaciones := combinaciones + [Pos(fila, col)];
          }
          var vertical := fila + 2 < Filas
            && tablero[fila + 1, col].Some? && tablero[fila + 1, col].value.tipo == fruta.value.tipo
            && tablero[fila + 2, col].Some? && tablero[fila + 2, col].value.tipo == fruta.value.tipo;
          assert vertical == VerticalTriple(g, fila, col);
          if vertical {
            combinaciones := combinaciones + [Pos(fila, col)];
          }
        }
        assert RowMatches(g, fila, col + 1) == RowMatches(g, fila, col) + CellMatches(g, fila, col);
      }
    }

    /** `eliminarCombinaciones(combinaciones, callback)` up to the callback:
        lock, collect the fruits at the listed in-bounds cells, then, once
        the timer fires, null the cell each collected fruit names. */
    method EliminarCombinaciones(combinaciones: seq<Pos>)
      requires Valid()
      modifies this, tablero
      ensures Valid() && tablero == old(tablero)
      ensures Board() == Eliminate(old(Board()), combinaciones)
      ensures bloqueado
      ensures frutaSeleccionada == old(frutaSeleccionada) && tiradas == old(tiradas)
    {
      bloqueado := true;
      var frutasAEliminar := FrutasEn(combinaciones);
      ghost var g := Board();
      Anular(frutasAEliminar);
      CollectedTargets(g, combinaciones);
    }

    /** The first pass of `eliminarCombinaciones`: `frutasAEliminar`. */
    method FrutasEn(combinaciones: seq<Pos>) returns (frutas: seq<Fruit>)
      requires Valid()
      ensures frutas == Collected(Board(), combinaciones)
    {
      ghost var g := Board();
      frutas := [];
      for i := 0 to |combinaciones|
        invariant frutas == Collected(g, combinaciones[..i])
      {
        var p := combinaciones[i];
        if 0 <= p.fila < Filas && 0 <= p.col < Columnas {
          var fruta := tablero[p.fila, p.col];
          if fruta.Some? {
            frutas := frutas + [fruta.value];
          }
        }
        CollectedStep(g, combinaciones, i);
      }
      assert combinaciones[..|combinaciones|] == combinaciones;
    }

    /** The second pass of `eliminarCombinaciones`: null the cell each fruit
        names, when it is on the board and holds something. */
    method Anular(frutas: seq<Fruit>)
      requires Valid()
      modifies tablero
      ensures Board() == Remove(old(Board()), Targets(frutas))
    {
      ghost var g := Board();
      RemoveNothing(g, frutas[..0]);
      for j := 0 to |frutas|
        invariant Board() == Remove(g, Targets(frutas[..j]))
      {
        var fruta := frutas[j];
        RemoveStep(g, frutas, j);
        if 0 <= fruta.fila < Filas && 0 <= fruta.col < Columnas && tablero[fruta.fila, fruta.col].Some? {
          ghost var antes := Board();
          tablero[fruta.fila, fruta.col] := None;
          GridEquality(Board(), Put(antes, fruta.fila, fruta.col, None));
        }
      }
      assert frutas[..|frutas|] == frutas;
    }
  
    /** `aplicarGravedad(callback)` up to the callback: lock, let every
        column fall, and count the moves in `frutasCaidas`. */
    method AplicarGravedad() returns (frutasCaidas: nat)
      requires Valid()
      modifies this, tablero
      ensures Valid() && tablero == old(tablero)
      ensures Board() == Gravity(old(Board())) && frutasCaidas == TotalMoves(old(Board()))
      ensures bloqueado
      ensures frutaSeleccionada == old(frutaSeleccionada) && tiradas == old(tiradas)
    {
      bloqueado := true;
      frutasCaidas := CaerColumnas();
    }

    /** The gravity loop over all columns, left to right. */
    method CaerColumnas() returns (caidas: nat)
      requires Valid()
      modifies tablero
      ensures Board() == Gravity(old(Board())) && caidas == TotalMoves(old(Board()))
    {
      ghost var g := Board();
      caidas := 0;
      for col := 0 to tablero.Length1
        invariant WellFormed(g) && caidas == MovesBefore(g, col)
        invariant forall r, c :: 0 <= r < Filas && 0 <= c < Columnas ==>
                    tablero[r, c] == if c < col then Settle(Column(g, c))[r] else g[r][c]
      {
        var n := CaerSiguiente(col, g, caidas);
        caidas := caidas + n;
      }
      assert |g[0]| == tablero.Length1;
      GravityByColumns(g, Board());
    }

    /** One pass of the column loop of gravity: columns left of `col` have
        fallen, and column `col` falls next. */
    method CaerSiguiente(col: int, ghost g: Grid, ghost antes: nat) returns (n: nat)
      requires Valid() && WellFormed(g) && 0 <= col < Columnas && antes == MovesBefore(g, col)
      requires forall r, c :: 0 <= r < Filas && 0 <= c < Columnas ==>
                 tablero[r, c] == if c < col then Settle(Column(g, c))[r] else g[r][c]
      modifies tablero
      ensures antes + n == MovesBefore(g, col + 1)
      ensures forall r, c :: 0 <= r < Filas && 0 <= c < Columnas ==>
                tablero[r, c] == if c < col + 1 then Settle(Column(g, c))[r] else g[r][c]
    {
      ghost var s := Column(g, col);
      n := CaerColumna(col, s);
      assert forall r :: 0 <= r < Filas ==> tablero[r, col] == Settle(s)[r];
    }

    /** The gravity loop on column `col`, from the bottom row up: an empty
        cell takes the nearest fruit above it, which is emptied, and the
        fruit's `fila` becomes its new row. */
    method CaerColumna(col: int, ghost s: seq<Cell>) returns (caidas: nat)
      requires Valid() && 0 <= col < Columnas
      requires |s| == Filas && forall r :: 0 <= r < Filas ==> tablero[r, col] == s[r]
      modifies tablero
      ensures forall r :: 0 <= r < Filas ==> tablero[r, col] == Settle(s)[r]
      ensures forall r, c :: 0 <= r < Filas && 0 <= c < Columnas && c != col ==> tablero[r, c] == old(tablero[r, c])
      ensures caidas == Moves(s)
    {
      ghost var cur := s;
      caidas := 0;
      var fila := tablero.Length0 - 1;
      assert cur[..fila + 1] == cur && cur[fila + 1..] == [];
      while fila >= 0
        invariant -1 <= fila < Filas && |cur| == Filas
        invariant forall r :: 0 <= r < Filas ==> tablero[r, col] == cur[r]
        invariant forall r, c :: 0 <= r < Filas && 0 <= c < Columnas && c != col ==> tablero[r, c] == old(tablero[r, c])
        invariant Settle(s) == Settle(cur[..fila + 1]) + cur[fila + 1..]
        invariant Moves(s) == Moves(cur[..fila + 1]) + caidas
        decreases fila
      {
        SettleStep(cur, fila);
        MovesStep(cur, fila);
        var cayo := CaerEn(fila, col, cur);
        if cayo {
          caidas := caidas + 1;
        }
        cur := FallInto(cur, fila);
        fila := fila - 1;
      }
      assert cur[..0] == [] && cur[0..] == cur;
      assert Settle(s) == cur;
    }
  
    /** One row of the gravity loop: if cell `(fila, col)` is empty, the
        search upwards for the nearest fruit, which falls into it. */
    method CaerEn(fila: int, col: int, ghost s: seq<Cell>) returns (cayo: bool)
      requires Valid() && InBounds(fila, col)
      requires |s| == Filas && forall r :: 0 <= r < Filas ==> tablero[r, col] == s[r]
      modifies tablero
      ensures forall r :: 0 <= r < Filas ==> tablero[r, col] == FallInto(s, fila)[r]
      ensures forall r, c :: 0 <= r < Filas && 0 <= c < Columnas && c != col ==> tablero[r, c] == old(tablero[r, c])
      ensures cayo == Falls(s, fila)
    {
      cayo := false;
      if tablero[fila, col].None? {
        var arriba := fila - 1;
        while arriba >= 0 && tablero[arriba, col].None?
          invariant -1 <= arriba < fila
          invariant NearestAbove(s, fila) == NearestAbove(s, arriba + 1)
          decreases arriba
        {
          arriba := arriba - 1;
        }
        if arriba >= 0 {
          tablero[fila, col] := Some(tablero[arriba, col].value.(fila := fila));
          tablero[arriba, col] := None;
          cayo := true;
        }
      }
    }
  
    /** `rellenarTablero(callback)` up to the callback: columns left to
        right, each top to bottom, an empty cell gets a new fruit of a drawn
        kind; `nuevasFrutas` counts them. */
    method RellenarTablero() returns (nuevasFrutas: nat)
      requires Valid()
      modifies this`tiradas, tablero
      ensures Board() == Refill(old(Board()), azar, old(tiradas))
      ensures nuevasFrutas == EmptyCount(old(Board())) && tiradas == old(tiradas) + nuevasFrutas
    {
      ghost var g := Board();
      ghost var t0 := tiradas;
      nuevasFrutas := 0;
      for col := 0 to tablero.Length1
        invariant WellFormed(g) && nuevasFrutas == EmptiesBefore(g, col) && tiradas == t0 + nuevasFrutas
        invariant forall r, c :: 0 <= r < Filas && 0 <= c < Columnas ==>
                    tablero[r, c] == if c < col then Filled(g, azar, t0, c)[r] else g[r][c]
      {
        var n := RellenarSiguiente(col, g, t0, nuevasFrutas);
        nuevasFrutas := nuevasFrutas + n;
      }
      assert |g[0]| == tablero.Length1;
      RefillByColumns(g, azar, t0, Board());
    }

    /** One pass of the column loop of the refill: columns left of `col`
        are refilled, and column `col` is refilled next. */
    method RellenarSiguiente(col: int, ghost g: Grid, ghost t0: nat, ghost antes: nat) returns (n: nat)
      requires Valid() && WellFormed(g) && 0 <= col < Columnas
      requires antes == EmptiesBefore(g, col) && tiradas == t0 + antes
      requires forall r, c :: 0 <= r < Filas && 0 <= c < Columnas ==>
                 tablero[r, c] == if c < col then Filled(g, azar, t0, c)[r] else g[r][c]
      modifies this`tiradas, tablero
      ensures antes + n == EmptiesBefore(g, col + 1) && tiradas == t0 + antes + n
      ensures forall r, c :: 0 <= r < Filas && 0 <= c < Columnas ==>
                tablero[r, c] == if c < col + 1 then Filled(g, azar, t0, c)[r] else g[r][c]
    {
      ghost var s := Column(g, col);
      ghost var u := Filled(g, azar, t0, col);
      assert u == FillColumn(s, azar, tiradas, col);
      n := RellenarColumna(col, s);
      assert forall r :: 0 <= r < Filas ==> tablero[r, col] == u[r];
    }

    /** The refill loop on column `col`, whose cells are `s`: each empty
        cell, top to bottom, gets a new fruit drawn from the stream. */
    method RellenarColumna(col: int, ghost s: seq<Cell>) returns (n: nat)
      requires Valid() && 0 <= col < Columnas
      requires |s| == Filas && forall r :: 0 <= r < Filas ==> tablero[r, col] == s[r]
      modifies this`tiradas, tablero
      ensures n == CountEmpty(s) && tiradas == old(tiradas) + n
      ensures forall r :: 0 <= r < Filas ==> tablero[r, col] == FillColumn(s, azar, old(tiradas), col)[r]
      ensures forall r, c :: 0 <= r < Filas && 0 <= c < Columnas && c != col ==> tablero[r, c] == old(tablero[r, c])
    {
      ghost var t1 := tiradas;
      n := 0;
      for fila := 0 to tablero.Length0
        invariant n == CountEmpty(s[..fila]) && tiradas == t1 + n
        invariant forall r :: 0 <= r < fila ==> tablero[r, col] == FillColumn(s[..fila], azar, t1, col)[r]
        invariant forall r :: fila <= r < Filas ==> tablero[r, col] == s[r]
        invariant forall r, c :: 0 <= r < Filas && 0 <= c < Columnas && c != col ==> tablero[r, c] == old(tablero[r, c])
      {
        CountEmptyStep(s, fila);
        FillColumnStep(s, azar, t1, col, fila);
        var nueva := RellenarCelda(fila, col);
        if nueva {
          n := n + 1;
        }
      }
      assert s[..tablero.Length0] == s;
    }

    /** One cell of the refill loop: if it is empty it gets a new fruit, of
        the kind the next value of the stream draws. */
    method RellenarCelda(fila: int, col: int) returns (nueva: bool)
      requires Valid() && InBounds(fila, col)
      modifies this`tiradas, tablero
      ensures nueva == old(tablero[fila, col]).None? && tiradas == old(tiradas) + (if nueva then 1 else 0)
      ensures tablero[fila, col] == if nueva then Some(NewFruit(azar, old(tiradas), fila, col)) else old(tablero[fila, col])
      ensures forall r, c :: 0 <= r < Filas && 0 <= c < Columnas && (r != fila || c != col) ==> tablero[r, c] == old(tablero[r, c])
    {
      nueva := tablero[fila, col].None?;
      if nueva {
        tablero[fila, col] := Some(NewFruit(azar, tiradas, fila, col));
        tiradas := tiradas + 1;
      }
    }

    /** `caerFrutas()`: the gravity loop of `aplicarGravedad` without the
        lock and the count, then the refill of the empty cells. */
    method CaerFrutas()
      requires Valid()
      modifies this`tiradas, tablero
      ensures Board() == Refill(Gravity(old(Board())), azar, old(tiradas))
      ensures tiradas == old(tiradas) + EmptyCount(Gravity(old(Board())))
    {
      var caidas := CaerColumnas();
      var nuevas := RellenarTablero();
    }

    /** `intercambiarFrutas(fila1, col1, fila2, col2)`, with `valido` the
        value of `hayCombinacionValida(fruta1, fruta2)`: the guards, the
        destructuring swap and the writes of `fila`/`col`, and the same
        once more to revert when `valido` is false. */
    method IntercambiarFrutas(fila1: int, col1: int, fila2: int, col2: int, valido: bool) returns (res: Outcome)
      requires Valid()
      modifies tablero
      ensures res == Exchange(old(Board()), fila1, col1, fila2, col2, valido).0
      ensures Board() == Exchange(old(Board()), fila1, col1, fila2, col2, valido).1
    {
      ghost var g := Board();
      if !(0 <= fila1 < Filas && 0 <= col1 < Columnas && 0 <= fila2 < Filas && 0 <= col2 < Columnas) {
        return OutOfBounds;
      }
      var fruta1 := tablero[fila1, col1];
      var fruta2 := tablero[fila2, col2];
      if fruta1.None? || fruta2.None? {
        return EmptyCell;
      }
      var adyacentes := Abs(fila1 - fila2) + Abs(col1 - col2) == 1;
      if !adyacentes {
        return NotAdjacent;
      }
      ghost var h := Swap(g, fila1, col1, fila2, col2);
      Intercambiar(fila1, col1, fila2, col2, g);
      if valido {
        res := Kept;
      } else {
        Intercambiar(fila1, col1, fila2, col2, h);
        res := Reverted;
      }
    }

    /** The destructuring swap of the two cells, then the writes that give
        the fruit that was at `(fila1, col1)` the cell `(fila2, col2)` and the
        other one the cell `(fila1, col1)`. The revert does the same again. */
    method Intercambiar(fila1: int, col1: int, fila2: int, col2: int, ghost g: Grid)
      requires Valid() && g == Board() && CanSwap(g, fila1, col1, fila2, col2)
      modifies tablero
      ensures Board() == Swap(g, fila1, col1, fila2, col2)
    {
      var fruta1 := tablero[fila1, col1].value;
      var fruta2 := tablero[fila2, col2].value;
      tablero[fila1, col1], tablero[fila2, col2] := tablero[fila2, col2], tablero[fila1, col1];
      tablero[fila2, col2] := Some(fruta1.(fila := fila2, col := col2));
      tablero[fila1, col1] := Some(fruta2.(fila := fila1, col := col1));
      GridEquality(Board(), Swap(g, fila1, col1, fila2, col2));
    }

    /** `manejarClick(fila, col)`: the first click selects the clicked cell's
        contents; the next one, if the clicked cell is a neighbour of where
        the selected fruit says it is, attempts the swap, and clears the
        selection unless the swap is kept. `intento` is the outcome of that
        attempt. */
    method ManejarClick(fila: int, col: int, valido: bool) returns (intento: Option<Outcome>)
      requires Valid()
      modifies this`frutaSeleccionada, tablero
      ensures var k := HandleClick(old(Board()), old(frutaSeleccionada), fila, col, valido);
              Board() == k.tablero && frutaSeleccionada == k.seleccion && intento == k.intento
    {
      var fruta := if 0 <= fila < Filas && 0 <= col < Columnas then tablero[fila, col] else None;
      intento := None;
      if frutaSeleccionada.Some? {
        var fila1, col1 := frutaSeleccionada.value.fila, frutaSeleccionada.value.col;
        var adyacentes := Abs(fila1 - fila) + Abs(col1 - col) == 1;
        if adyacentes {
          var res := IntercambiarFrutas(fila1, col1, fila, col, valido);
          intento := Some(res);
          if res == Kept {
            // The throw at the undefined call leaves the selection set.
            frutaSeleccionada := tablero[fila, col];
          } else {
            frutaSeleccionada := None;
          }
        } else {
          frutaSeleccionada := None;
        }
      } else {
        frutaSeleccionada := fruta;
      }
    }

    /** `verificarCombinacionesAutomaticas()` for at most `combustible`
        rounds: each pass detects; with matches, it runs a round and its
        last callback starts the next pass; without, it unlocks and stops.
        `asentado` says whether it stopped because detection came back
        empty. */
    method VerificarCombinacionesAutomaticas(combustible: nat) returns (asentado: bool)
      requires Valid()
      modifies this, tablero
      ensures Valid() && tablero == old(tablero)
      ensures var k := RunCascade(old(Board()), azar, old(tiradas), old(bloqueado), combustible);
              Board() == k.tablero && tiradas == k.tiradas && bloqueado == k.bloqueado && asentado == k.asentado
      ensures frutaSeleccionada == old(frutaSeleccionada)
    {
      ghost var k := RunCascade(Board(), azar, tiradas, bloqueado, combustible);
      var restante := combustible;
      asentado := false;
      while !asentado && restante > 0
        invariant Valid() && tablero == old(tablero) && frutaSeleccionada == old(frutaSeleccionada)
        invariant !asentado ==> RunCascade(Board(), azar, tiradas, bloqueado, restante) == k
        invariant asentado ==> k == Cascade(Board(), tiradas, bloqueado, true)
        decreases restante, !asentado
      {
        asentado := Pasada(restante);
        if asentado {
          bloqueado := false;
        } else {
          restante := restante - 1;
        }
      }
    }

    /** One pass of `verificarCombinacionesAutomaticas`, up to the callback
        that starts the next one. When detection finds nothing the pass
        changes nothing and reports `asentado`; the caller then unlocks. */
    method Pasada(ghost restante: nat) returns (asentado: bool)
      requires Valid() && restante > 0
      modifies this, tablero
      ensures Valid() && tablero == old(tablero) && frutaSeleccionada == old(frutaSeleccionada)
      ensures asentado ==> RunCascade(old(Board()), azar, old(tiradas), old(bloqueado), restante)
                           == Cascade(Board(), tiradas, false, true)
      ensures !asentado ==> RunCascade(old(Board()), azar, old(tiradas), old(bloqueado), restante)
                            == RunCascade(Board(), azar, tiradas, bloqueado, restante - 1)
    {
      ghost var g, t, b := Board(), tiradas, bloqueado;
      var nuevasCombinaciones := DetectarCombinaciones(g);
      if |nuevasCombinaciones| > 0 {
        RondaDeCascada(nuevasCombinaciones, g, restante);
        assert RunCascade(g, azar, t, b, restante) == RunCascade(Board(), azar, tiradas, bloqueado, restante - 1);
        asentado := false;
      } else {
        NoMatchesOnlyUnlocks(g, nuevasCombinaciones, azar, t, b, restante);
        assert RunCascade(g, azar, t, b, restante) == Cascade(Board(), tiradas, false, true);
        asentado := true;
      }
    }

    /** A pass that found the matches `combinaciones` on board `g` runs one
        round on them; the cascade goes on from the board it leaves. */
    method RondaDeCascada(combinaciones: seq<Pos>, ghost g: Grid, ghost restante: nat)
      requires Valid() && g == Board() && combinaciones == Matches(g) && combinaciones != [] && restante > 0
      modifies this, tablero
      ensures Valid() && tablero == old(tablero) && frutaSeleccionada == old(frutaSeleccionada)
      ensures RunCascade(g, azar, old(tiradas), old(bloqueado), restante)
           == RunCascade(Board(), azar, tiradas, bloqueado, restante - 1)
    {
      ghost var t := tiradas;
      Ronda(combinaciones, g);
      CascadeRound(g, combinaciones, azar, t, old(bloqueado), restante, Board(), tiradas);
    }

    /** One round of the cascade, the callbacks run in sequence: removal,
        gravity, refill. */
    method Ronda(combinaciones: seq<Pos>, ghost g: Grid)
      requires Valid() && g == Board()
      modifies this, tablero
      ensures Valid() && tablero == old(tablero) && frutaSeleccionada == old(frutaSeleccionada) && bloqueado
      ensures Board() == Refill(Gravity(Eliminate(g, combinaciones)), azar, old(tiradas))
      ensures tiradas == old(tiradas) + EmptyCount(Gravity(Eliminate(g, combinaciones)))
    {
      EliminarYCaer(combinaciones, g);
      var nuevasFrutas := RellenarTablero();
    }

    /** Removal, and in its callback gravity. */
    method EliminarYCaer(combinaciones: seq<Pos>, ghost g: Grid)
      requires Valid() && g == Board()
      modifies this, tablero
      ensures Valid() && tablero == old(tablero) && frutaSeleccionada == old(frutaSeleccionada) && tiradas == old(tiradas)
      ensures Board() == Gravity(Eliminate(g, combinaciones)) && bloqueado
    {
      EliminarCombinaciones(combinaciones);
      var frutasCaidas := AplicarGravedad();
    }
  }
}
