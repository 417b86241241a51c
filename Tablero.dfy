/** The board of the fruit match-3 game: fixed dimensions, the fruit record,
    cells that hold a fruit or nothing, and the value view of the board used
    by every specification in the project. */
module Tablero {

  /** `filas`, `columnas` and the length of the `frutas` array. */
  const Filas: nat := 8
  const Columnas: nat := 8
  const NumFrutas: nat := 5

  datatype Option<T> = None | Some(value: T)

  /** A fruit as created by `crearFruta`: its kind is an index into `frutas`,
      `fila` and `col` are the cell the fruit believes it occupies. The two
      animation fields of the record are not modelled. */
  datatype Fruit = Fruit(tipo: nat, fila: int, col: int)

  /** A cell of `tablero`: a fruit, or `null`. */
  type Cell = Option<Fruit>

  /** A `{fila, col}` coordinate pair as pushed by the match detector. */
  datatype Pos = Pos(fila: int, col: int)

  /** The board as a value: `Filas` rows of `Columnas` cells each. */
  type Grid = seq<seq<Cell>>

  /** A value returned by `Math.random()`. */
  type Aleatorio = u: real | 0.0 <= u < 1.0 witness 0.0

  predicate InBounds(fila: int, col: int) {
    0 <= fila < Filas && 0 <= col < Columnas
  }

  predicate WellFormed(g: Grid) {
    |g| == Filas && forall r :: 0 <= r < |g| ==> |g[r]| == Columnas
  }

  /** `tablero[fila]?.[col]`: the cell, or nothing when the coordinates are
      off the board. A fruit is only ever read from the board itself. */
  function Lookup(g: Grid, fila: int, col: int): (cell: Cell)
    requires WellFormed(g)
    ensures cell.Some? ==> InBounds(fila, col) && cell == g[fila][col]
  {
    if InBounds(fila, col) then g[fila][col] else None
  }

  /** The grid with one cell overwritten. */
  function Put(g: Grid, fila: int, col: int, v: Cell): (h: Grid)
    requires WellFormed(g) && InBounds(fila, col)
    ensures WellFormed(h)
    ensures h[fila][col] == v
    ensures forall r, c :: InBounds(r, c) && (r != fila || c != col) ==> h[r][c] == g[r][c]
  {
    g[fila := g[fila][col := v]]
  }

  /** Column `col`, top row first. */
  function Column(g: Grid, col: int): (s: seq<Cell>)
    requires WellFormed(g) && 0 <= col < Columnas
    ensures |s| == Filas
    ensures forall r :: 0 <= r < Filas ==> s[r] == g[r][col]
  {
    seq(Filas, r requires 0 <= r < Filas => g[r][col])
  }

  /** Every fruit on the board stores the coordinates of its own cell. */
  predicate Consistent(g: Grid)
    requires WellFormed(g)
  {
    forall r, c :: 0 <= r < Filas && 0 <= c < Columnas && g[r][c].Some? ==>
      g[r][c].value.fila == r && g[r][c].value.col == c
  }

  /** Every fruit's kind is an index into `frutas`. */
  predicate KindsValid(g: Grid)
    requires WellFormed(g)
  {
    forall r, c :: 0 <= r < Filas && 0 <= c < Columnas && g[r][c].Some? ==> g[r][c].value.tipo < NumFrutas
  }

  /** No cell is `null`. */
  predicate Full(g: Grid)
    requires WellFormed(g)
  {
    forall r, c :: 0 <= r < Filas && 0 <= c < Columnas ==> g[r][c].Some?
  }

  /** Two boards with the same cells are the same board. */
  lemma GridEquality(g: Grid, h: Grid)
    requires WellFormed(g) && WellFormed(h)
    requires forall r, c :: InBounds(r, c) ==> g[r][c] == h[r][c]
    ensures g == h
  {
    forall r | 0 <= r < Filas
      ensures g[r] == h[r]
    {
      assert forall c :: 0 <= c < Columnas ==> g[r][c] == h[r][c];
    }
  }

  /** `frutas[Math.floor(Math.random() * frutas.length)]`, as an index. */
  function TipoAleatorio(u: Aleatorio): (k: nat)
    ensures k < NumFrutas
    ensures k as real <= u * NumFrutas as real < k as real + 1.0
  {
    (u * NumFrutas as real).Floor
  }
}
