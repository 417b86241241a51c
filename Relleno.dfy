/** Filling empty cells (`rellenarTablero`) and creating the board
    (`inicializarTablero`). Each new fruit is `crearFruta(k, fila, col)` with
    its kind drawn by `Math.floor(Math.random() * frutas.length)`; the
    values `Math.random()` returns are the stream `azar`, and `t` counts the
    values already used. */
module Relleno {
  import opened Tablero

  /** `crearFruta(frutas[Math.floor(u * frutas.length)], fila, col)` with
      `u` the `n`-th value of the stream. */
  function NewFruit(azar: nat -> Aleatorio, n: nat, fila: int, col: int): (f: Fruit)
    ensures f.tipo < NumFrutas && f.fila == fila && f.col == col
  {
    Fruit(TipoAleatorio(azar(n)), fila, col)
  }

  /** The number of `null` cells of a column segment. */
  function CountEmpty(s: seq<Cell>): (n: nat)
    ensures n <= |s|
    decreases |s|
  {
    if |s| == 0 then 0
    else CountEmpty(s[..|s| - 1]) + (if s[|s| - 1].None? then 1 else 0)
  }

  /** The number of `null` cells in columns `[0..col)`. */
  function EmptiesBefore(g: Grid, col: int): nat
    requires WellFormed(g) && 0 <= col <= Columnas
    decreases col
  {
    if col == 0 then 0 else EmptiesBefore(g, col - 1) + CountEmpty(Column(g, col - 1))
  }

  /** The number of `null` cells on the board. */
  function EmptyCount(g: Grid): nat
    requires WellFormed(g)
  {
    EmptiesBefore(g, |g[0]|)
  }

  /** The loops visit columns left to right and each column top to bottom:
      this many values of the stream are used before cell `(fila, col)`. */
  function DrawIndex(g: Grid, fila: int, col: int): nat
    requires WellFormed(g) && InBounds(fila, col)
  {
    EmptiesBefore(g, col) + CountEmpty(Column(g, col)[..fila])
  }

  /** The board after `rellenarTablero`. */
  function Refill(g: Grid, azar: nat -> Aleatorio, t: nat): (h: Grid)
    requires WellFormed(g)
    ensures WellFormed(h)
  {
    seq(Filas, r requires 0 <= r < Filas =>
      seq(Columnas, c requires 0 <= c < Columnas =>
        if g[r][c].None? then Some(NewFruit(azar, t + DrawIndex(g, r, c), r, c)) else g[r][c]))
  }

  /** The board `inicializarTablero` builds, drawing one value per cell in
      row-major order. */
  function Initial(azar: nat -> Aleatorio, t: nat): (h: Grid)
    ensures WellFormed(h)
  {
    seq(Filas, r requires 0 <= r < Filas =>
      seq(Columnas, c requires 0 <= c < Columnas =>
        Some(NewFruit(azar, t + r * Columnas + c, r, c))))
  }

  /** The new board is full, every fruit stores its own cell and every kind
      is an index into `frutas`. */
  lemma InitialIsValid(azar: nat -> Aleatorio, t: nat)
    ensures Full(Initial(azar, t)) && Consistent(Initial(azar, t)) && KindsValid(Initial(azar, t))
  {
    var h: Grid := Initial(azar, t);
    forall r, c | 0 <= r < Filas && 0 <= c < Columnas
      ensures h[r][c].Some? && h[r][c].value.fila == r && h[r][c].value.col == c
      ensures h[r][c].value.tipo < NumFrutas
    {
      var f := NewFruit(azar, t + r * Columnas + c, r, c);
      assert h[r][c] == Some(f);
    }
  }

  // Counting empty cells.

  lemma CountEmptyStep(s: seq<Cell>, i: nat)
    requires i < |s|
    ensures CountEmpty(s[..i + 1]) == CountEmpty(s[..i]) + (if s[i].None? then 1 else 0)
  {
    assert s[..i + 1][..i] == s[..i];
  }

  /** The count over a prefix grows with the prefix, strictly across an
      empty cell. */
  lemma {:induction false} CountEmptyMonotone(s: seq<Cell>, i: nat, j: nat)
    requires i < j <= |s|
    ensures CountEmpty(s[..i]) + (if s[i].None? then 1 else 0) <= CountEmpty(s[..j])
    decreases j
  {
    CountEmptyStep(s, j - 1);
    if i < j - 1 {
      CountEmptyMonotone(s, i, j - 1);
    }
  }

  lemma {:induction false} CountEmptyZero(s: seq<Cell>)
    ensures CountEmpty(s) == 0 <==> forall i :: 0 <= i < |s| ==> s[i].Some?
    decreases |s|
  {
    if |s| > 0 {
      CountEmptyZero(s[..|s| - 1]);
      assert forall i :: 0 <= i < |s| - 1 ==> s[..|s| - 1][i] == s[i];
    }
  }

  lemma {:induction false} EmptiesBeforeMonotone(g: Grid, a: int, b: int)
    requires WellFormed(g) && 0 <= a <= b <= Columnas
    ensures EmptiesBefore(g, a) <= EmptiesBefore(g, b)
    decreases b
  {
    if a < b {
      EmptiesBeforeMonotone(g, a, b - 1);
    }
  }

  lemma {:induction false} EmptiesBeforeZero(g: Grid, col: int)
    requires WellFormed(g) && 0 <= col <= Columnas
    ensures EmptiesBefore(g, col) == 0 <==>
            forall r, c :: 0 <= r < Filas && 0 <= c < col ==> g[r][c].Some?
    decreases col
  {
    if col > 0 {
      EmptiesBeforeZero(g, col - 1);
      CountEmptyZero(Column(g, col - 1));
    }
  }

  /** The board has no `null` cell exactly when the count is 0. */
  lemma EmptyCountZeroIffFull(g: Grid)
    requires WellFormed(g)
    ensures EmptyCount(g) == 0 <==> Full(g)
  {
    EmptiesBeforeZero(g, |g[0]|);
  }

  /** Each empty cell uses a value of the stream below the number of empty
      cells, and no two empty cells use the same one. */
  lemma DrawIndexBound(g: Grid, r: int, c: int)
    requires WellFormed(g) && InBounds(r, c) && g[r][c].None?
    ensures DrawIndex(g, r, c) < EmptiesBefore(g, c + 1) <= EmptyCount(g)
  {
    CountEmptyMonotone(Column(g, c), r, Filas);
    assert Column(g, c)[..Filas] == Column(g, c);
    EmptiesBeforeMonotone(g, c + 1, Columnas);
  }

  lemma DrawIndexInjective(g: Grid, r1: int, c1: int, r2: int, c2: int)
    requires WellFormed(g) && InBounds(r1, c1) && InBounds(r2, c2)
    requires g[r1][c1].None? && g[r2][c2].None? && (r1, c1) != (r2, c2)
    ensures DrawIndex(g, r1, c1) != DrawIndex(g, r2, c2)
  {
    if c1 < c2 {
      DrawIndexBound(g, r1, c1);
      EmptiesBeforeMonotone(g, c1 + 1, c2);
    } else if c2 < c1 {
      DrawIndexBound(g, r2, c2);
      EmptiesBeforeMonotone(g, c2 + 1, c1);
    } else if r1 < r2 {
      CountEmptyMonotone(Column(g, c1), r1, r2);
    } else {
      CountEmptyMonotone(Column(g, c1), r2, r1);
    }
  }

  // What refilling does.

  /** After refilling no cell is `null`, cells that held a fruit are
      untouched, and each new fruit stores its own cell and a kind drawn
      from `frutas`. */
  lemma RefillFills(g: Grid, azar: nat -> Aleatorio, t: nat)
    requires WellFormed(g)
    ensures Full(Refill(g, azar, t))
    ensures forall r, c :: InBounds(r, c) && g[r][c].Some? ==> Refill(g, azar, t)[r][c] == g[r][c]
    ensures forall r, c :: InBounds(r, c) && g[r][c].None? ==>
              var f := Refill(g, azar, t)[r][c].value;
              f.fila == r && f.col == c && f.tipo < NumFrutas
  {
  }

  /** Refilling keeps a board position-consistent and its kinds valid. */
  lemma RefillKeepsInvariants(g: Grid, azar: nat -> Aleatorio, t: nat)
    requires WellFormed(g) && Consistent(g) && KindsValid(g)
    ensures Consistent(Refill(g, azar, t)) && KindsValid(Refill(g, azar, t))
  {
    var h: Grid := Refill(g, azar, t);
    forall r, c | 0 <= r < Filas && 0 <= c < Columnas && h[r][c].Some?
      ensures h[r][c].value.fila == r && h[r][c].value.col == c
      ensures h[r][c].value.tipo < NumFrutas
    {
      if g[r][c].None? {
        var f := NewFruit(azar, t + DrawIndex(g, r, c), r, c);
        assert h[r][c] == Some(f);
      }
    }
  }

  /** The refill loop on one column `s`, top to bottom, whose first draw
      is value `t` of the stream. */
  function FillColumn(s: seq<Cell>, azar: nat -> Aleatorio, t: nat, col: int): (u: seq<Cell>)
    ensures |u| == |s|
    decreases |s|
  {
    if |s| == 0 then []
    else
      var n := |s| - 1;
      FillColumn(s[..n], azar, t, col)
        + [if s[n].None? then Some(NewFruit(azar, t + CountEmpty(s[..n]), n, col)) else s[n]]
  }

  /** One more row of the column loop. */
  lemma FillColumnStep(s: seq<Cell>, azar: nat -> Aleatorio, t: nat, col: int, i: nat)
    requires i < |s|
    ensures FillColumn(s[..i + 1], azar, t, col)
         == FillColumn(s[..i], azar, t, col)
            + [if s[i].None? then Some(NewFruit(azar, t + CountEmpty(s[..i]), i, col)) else s[i]]
  {
    assert s[..i + 1][..i] == s[..i];
  }

  /** Row `r` of the filled column: the old fruit, or the fruit drawn with
      the number of empty cells above it. */
  lemma {:induction false} FillColumnAt(s: seq<Cell>, azar: nat -> Aleatorio, t: nat, col: int, r: nat)
    requires r < |s|
    ensures FillColumn(s, azar, t, col)[r]
         == if s[r].None? then Some(NewFruit(azar, t + CountEmpty(s[..r]), r, col)) else s[r]
    decreases |s|
  {
    var n := |s| - 1;
    if r < n {
      FillColumnAt(s[..n], azar, t, col, r);
      assert s[..n][..r] == s[..r];
    }
  }

  /** Column `c` once the refill loop has been over it: its first draw is
      the one after all the draws of the columns to its left. */
  function Filled(g: Grid, azar: nat -> Aleatorio, t: nat, c: int): (u: seq<Cell>)
    requires WellFormed(g) && 0 <= c < Columnas
    ensures |u| == Filas
  {
    FillColumn(Column(g, c), azar, t + EmptiesBefore(g, c), c)
  }

  /** Filling the columns left to right, each starting where the columns
      before it stopped drawing, is the refill. */
  lemma RefillByColumns(g: Grid, azar: nat -> Aleatorio, t: nat, k: Grid)
    requires WellFormed(g) && WellFormed(k)
    requires forall r, c :: 0 <= r < Filas && 0 <= c < Columnas ==> k[r][c] == Filled(g, azar, t, c)[r]
    ensures k == Refill(g, azar, t)
  {
    forall r, c | InBounds(r, c)
      ensures k[r][c] == Refill(g, azar, t)[r][c]
    {
      assert k[r][c] == Filled(g, azar, t, c)[r];
      FillColumnAt(Column(g, c), azar, t + EmptiesBefore(g, c), c, r);
    }
    GridEquality(k, Refill(g, azar, t));
  }

  /** A full board is left as it is, and no value of the stream is used. */
  lemma RefillFullIsIdentity(g: Grid, azar: nat -> Aleatorio, t: nat)
    requires WellFormed(g) && Full(g)
    ensures Refill(g, azar, t) == g && EmptyCount(g) == 0
  {
    EmptyCountZeroIffFull(g);
    GridEquality(Refill(g, azar, t), g);
  }
}
