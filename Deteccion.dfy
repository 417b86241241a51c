/** The match detector `detectarCombinaciones`: a row-major scan that reports
    the start cell of every horizontal and every vertical triple of equal
    kinds. Only the start cell of a triple is reported, so a run of four
    yields two starts and a cell that starts both a horizontal and a
    vertical triple is reported twice, horizontal first. */
module Deteccion {
  import opened Tablero

  /** Cells `[fila][col..col+2]` hold fruits of one kind. */
  predicate HorizontalTriple(g: Grid, fila: int, col: int)
    requires WellFormed(g) && InBounds(fila, col)
  {
    && col + 2 < Columnas
    && g[fila][col].Some? && g[fila][col + 1].Some? && g[fila][col + 2].Some?
    && g[fila][col + 1].value.tipo == g[fila][col].value.tipo
    && g[fila][col + 2].value.tipo == g[fila][col].value.tipo
  }

  /** Cells `[fila..fila+2][col]` hold fruits of one kind. */
  predicate VerticalTriple(g: Grid, fila: int, col: int)
    requires WellFormed(g) && InBounds(fila, col)
  {
    && fila + 2 < Filas
    && g[fila][col].Some? && g[fila + 1][col].Some? && g[fila + 2][col].Some?
    && g[fila + 1][col].value.tipo == g[fila][col].value.tipo
    && g[fila + 2][col].value.tipo == g[fila][col].value.tipo
  }

  /** `p` is on the board and starts a triple in some direction. */
  predicate TripleStart(g: Grid, p: Pos)
    requires WellFormed(g)
  {
    InBounds(p.fila, p.col) && (HorizontalTriple(g, p.fila, p.col) || VerticalTriple(g, p.fila, p.col))
  }

  /** How often the detector reports `p`: once per direction in which a
      triple starts there. */
  function Occurrences(g: Grid, p: Pos): nat
    requires WellFormed(g)
  {
    if !InBounds(p.fila, p.col) then 0
    else
      (if HorizontalTriple(g, p.fila, p.col) then 1 else 0)
      + (if VerticalTriple(g, p.fila, p.col) then 1 else 0)
  }

  /** What the scan pushes when it visits one cell. */
  function CellMatches(g: Grid, fila: int, col: int): seq<Pos>
    requires WellFormed(g) && InBounds(fila, col)
  {
    (if HorizontalTriple(g, fila, col) then [Pos(fila, col)] else [])
    + (if VerticalTriple(g, fila, col) then [Pos(fila, col)] else [])
  }

  /** What the scan pushes for cells `[fila][0..col)`. */
  function RowMatches(g: Grid, fila: int, col: int): seq<Pos>
    requires WellFormed(g) && 0 <= fila < Filas && 0 <= col <= Columnas
    decreases col
  {
    if col == 0 then [] else RowMatches(g, fila, col - 1) + CellMatches(g, fila, col - 1)
  }

  /** What the scan pushes for rows `[0..fila)`. */
  function RowsMatches(g: Grid, fila: int): seq<Pos>
    requires WellFormed(g) && 0 <= fila <= Filas
    decreases fila
  {
    if fila == 0 then [] else RowsMatches(g, fila - 1) + RowMatches(g, fila - 1, |g[fila - 1]|)
  }

  /** The list `detectarCombinaciones` returns. */
  function Matches(g: Grid): seq<Pos>
    requires WellFormed(g)
  {
    RowsMatches(g, |g|)
  }

  /** `p` comes no later than `q` in row-major order. */
  predicate RowMajorLe(p: Pos, q: Pos) {
    p.fila < q.fila || (p.fila == q.fila && p.col <= q.col)
  }

  predicate RowMajorSorted(m: seq<Pos>) {
    forall i, j :: 0 <= i < j < |m| ==> RowMajorLe(m[i], m[j])
  }

  /** Number of times `p` occurs in `m`. */
  function CountOf(m: seq<Pos>, p: Pos): nat
    decreases |m|
  {
    if m == [] then 0 else CountOf(m[..|m| - 1], p) + (if m[|m| - 1] == p then 1 else 0)
  }

  lemma {:induction false} CountOfAppend(a: seq<Pos>, b: seq<Pos>, p: Pos)
    ensures CountOf(a + b, p) == CountOf(a, p) + CountOf(b, p)
    decreases |b|
  {
    if b == [] {
      assert a + b == a;
    } else {
      assert (a + b)[..|a + b| - 1] == a + b[..|b| - 1];
      assert (a + b)[|a + b| - 1] == b[|b| - 1];
      CountOfAppend(a, b[..|b| - 1], p);
    }
  }

  lemma {:induction false} CountOfIsMultiplicity(m: seq<Pos>, p: Pos)
    ensures multiset(m)[p] == CountOf(m, p)
    decreases |m|
  {
    if m != [] {
      var init := m[..|m| - 1];
      assert m == init + [m[|m| - 1]];
      CountOfIsMultiplicity(init, p);
      assert multiset(m) == multiset(init) + multiset{m[|m| - 1]};
    }
  }

  lemma {:induction false} CountOfPositive(m: seq<Pos>, p: Pos)
    ensures CountOf(m, p) > 0 <==> p in m
    decreases |m|
  {
    if m != [] {
      var init := m[..|m| - 1];
      assert m == init + [m[|m| - 1]];
      CountOfPositive(init, p);
    }
  }

  lemma CellMatchesCount(g: Grid, fila: int, col: int, p: Pos)
    requires WellFormed(g) && InBounds(fila, col)
    ensures CountOf(CellMatches(g, fila, col), p) == if p.fila == fila && p.col == col then Occurrences(g, p) else 0
  {
    var h: seq<Pos> := if HorizontalTriple(g, fila, col) then [Pos(fila, col)] else [];
    var v: seq<Pos> := if VerticalTriple(g, fila, col) then [Pos(fila, col)] else [];
    CountOfAppend(h, v, p);
    assert CellMatches(g, fila, col) == h + v;
  }

  /** The arithmetic of one step of the row and column counts: the count
      over the part already scanned plus the count over the next part. */
  lemma CountStep(before: bool, here: bool, n: nat, x: nat, y: nat, z: nat)
    requires !(before && here) && z == x + y
    requires x == if before then n else 0
    requires y == if here then n else 0
    ensures z == if before || here then n else 0
  {
  }

  /** The scan of a row up to `col` is the scan up to `col - 1` and then
      cell `col - 1`, for the count of each coordinate. */
  lemma RowMatchesSplit(g: Grid, fila: int, col: int, p: Pos)
    requires WellFormed(g) && 0 <= fila < Filas && 0 < col <= Columnas
    ensures CountOf(RowMatches(g, fila, col), p)
         == CountOf(RowMatches(g, fila, col - 1), p) + CountOf(CellMatches(g, fila, col - 1), p)
  {
    var a, b := RowMatches(g, fila, col - 1), CellMatches(g, fila, col - 1);
    assert RowMatches(g, fila, col) == a + b;
    CountOfAppend(a, b, p);
  }

  /** The scan of rows `[0..fila)` is the scan of the rows above and then
      row `fila - 1`, for the count of each coordinate. */
  lemma RowsMatchesSplit(g: Grid, fila: int, p: Pos)
    requires WellFormed(g) && 0 < fila <= Filas
    ensures CountOf(RowsMatches(g, fila), p)
         == CountOf(RowsMatches(g, fila - 1), p) + CountOf(RowMatches(g, fila - 1, |g[fila - 1]|), p)
  {
    var a, b := RowsMatches(g, fila - 1), RowMatches(g, fila - 1, |g[fila - 1]|);
    assert RowsMatches(g, fila) == a + b;
    CountOfAppend(a, b, p);
  }

  lemma {:induction false} RowMatchesCount(g: Grid, fila: int, col: int, p: Pos)
    requires WellFormed(g) && 0 <= fila < Filas && 0 <= col <= Columnas
    ensures CountOf(RowMatches(g, fila, col), p)
         == if p.fila == fila && 0 <= p.col < col then Occurrences(g, p) else 0
    decreases col
  {
    if col > 0 {
      var n := Occurrences(g, p);
      var z := CountOf(RowMatches(g, fila, col), p);
      var x, y := CountOf(RowMatches(g, fila, col - 1), p), CountOf(CellMatches(g, fila, col - 1), p);
      var before := p.fila == fila && 0 <= p.col < col - 1;
      var here := p.fila == fila && p.col == col - 1;
      assert z == x + y by { RowMatchesSplit(g, fila, col, p); }
      assert x == (if before then n else 0) by { RowMatchesCount(g, fila, col - 1, p); }
      CellMatchesCount(g, fila, col - 1, p);
      CountStep(before, here, n, x, y, z);
    }
  }

  lemma {:induction false} RowsMatchesCount(g: Grid, fila: int, p: Pos)
    requires WellFormed(g) && 0 <= fila <= Filas
    ensures CountOf(RowsMatches(g, fila), p)
         == if 0 <= p.fila < fila && 0 <= p.col < Columnas then Occurrences(g, p) else 0
    decreases fila
  {
    if fila > 0 {
      assert |g[fila - 1]| == Columnas;
      RowsMatchesSplit(g, fila, p);
      RowsMatchesCount(g, fila - 1, p);
      RowMatchesCount(g, fila - 1, |g[fila - 1]|, p);
      var n := Occurrences(g, p);
      var x, y := CountOf(RowsMatches(g, fila - 1), p), CountOf(RowMatches(g, fila - 1, |g[fila - 1]|), p);
      var before := 0 <= p.fila < fila - 1 && 0 <= p.col < Columnas;
      var here := p.fila == fila - 1 && 0 <= p.col < |g[fila - 1]|;
      assert !(before && here);
      assert CountOf(RowsMatches(g, fila), p) == x + y;
      assert x == if before then n else 0;
      assert y == if here then n else 0;
      CountStep(before, here, n, x, y, CountOf(RowsMatches(g, fila), p));
    }
  }

  /** Exact shape of the detector's output: each cell appears once for every
      direction in which a triple starts there, and nothing else appears. */
  lemma MatchesCount(g: Grid, p: Pos)
    requires WellFormed(g)
    ensures multiset(Matches(g))[p] == Occurrences(g, p)
  {
    RowsMatchesCount(g, |g|, p);
    CountOfIsMultiplicity(Matches(g), p);
  }

  /** Soundness and completeness: a coordinate is reported exactly when it is
      on the board and starts a horizontal or vertical triple. */
  lemma MatchesExactlyTripleStarts(g: Grid, p: Pos)
    requires WellFormed(g)
    ensures p in Matches(g) <==> TripleStart(g, p)
  {
    RowsMatchesCount(g, |g|, p);
    CountOfPositive(Matches(g), p);
  }

  /** A `null` cell never takes part in a reported triple. */
  lemma EmptyCellsNeverMatch(g: Grid, p: Pos)
    requires WellFormed(g)
    requires p in Matches(g)
    ensures InBounds(p.fila, p.col) && g[p.fila][p.col].Some?
    ensures HorizontalTriple(g, p.fila, p.col) ==>
              g[p.fila][p.col + 1].Some? && g[p.fila][p.col + 2].Some?
    ensures VerticalTriple(g, p.fila, p.col) ==>
              g[p.fila + 1][p.col].Some? && g[p.fila + 2][p.col].Some?
  {
    MatchesExactlyTripleStarts(g, p);
    TripleCellsHoldFruits(g, p);
  }

  lemma TripleCellsHoldFruits(g: Grid, p: Pos)
    requires WellFormed(g) && TripleStart(g, p)
    ensures InBounds(p.fila, p.col) && g[p.fila][p.col].Some?
    ensures HorizontalTriple(g, p.fila, p.col) ==>
              g[p.fila][p.col + 1].Some? && g[p.fila][p.col + 2].Some?
    ensures VerticalTriple(g, p.fila, p.col) ==>
              g[p.fila + 1][p.col].Some? && g[p.fila + 2][p.col].Some?
  {
  }

  /** An all-`null` board yields an empty list. */
  lemma EmptyBoardHasNoMatches(g: Grid)
    requires WellFormed(g)
    requires forall r, c :: InBounds(r, c) ==> g[r][c].None?
    ensures Matches(g) == []
  {
    if Matches(g) != [] {
      EmptyCellsNeverMatch(g, Matches(g)[0]);
    }
  }

  lemma SortedAppend(a: seq<Pos>, b: seq<Pos>)
    requires RowMajorSorted(a) && RowMajorSorted(b)
    requires forall i, j :: 0 <= i < |a| && 0 <= j < |b| ==> RowMajorLe(a[i], b[j])
    ensures RowMajorSorted(a + b)
  {
    forall i, j | 0 <= i < j < |a + b|
      ensures RowMajorLe((a + b)[i], (a + b)[j])
    {
      if j < |a| {
        assert (a + b)[i] == a[i] && (a + b)[j] == a[j];
      } else if i < |a| {
        assert (a + b)[i] == a[i] && (a + b)[j] == b[j - |a|];
      } else {
        assert (a + b)[i] == b[i - |a|] && (a + b)[j] == b[j - |a|];
      }
    }
  }

  /** `m` is sorted and lies in row `fila`, left of column `col`. */
  predicate SortedInRow(m: seq<Pos>, fila: int, col: int) {
    RowMajorSorted(m) && forall i :: 0 <= i < |m| ==> m[i].fila == fila && m[i].col < col
  }

  /** `m` is sorted and lies above row `fila`. */
  predicate SortedAbove(m: seq<Pos>, fila: int) {
    RowMajorSorted(m) && forall i :: 0 <= i < |m| ==> m[i].fila < fila
  }

  lemma CellAppend(a: seq<Pos>, fila: int, col: int, b: seq<Pos>)
    requires SortedInRow(a, fila, col)
    requires forall j :: 0 <= j < |b| ==> b[j] == Pos(fila, col)
    ensures SortedInRow(a + b, fila, col + 1)
  {
    SortedAppend(a, b);
    forall i | 0 <= i < |a + b|
      ensures (a + b)[i].fila == fila && (a + b)[i].col < col + 1
    {
      if i >= |a| {
        assert (a + b)[i] == b[i - |a|];
      }
    }
  }

  lemma RowAppend(a: seq<Pos>, b: seq<Pos>, fila: int, col: int)
    requires SortedAbove(a, fila) && SortedInRow(b, fila, col)
    ensures SortedAbove(a + b, fila + 1)
  {
    SortedAppend(a, b);
    forall i | 0 <= i < |a + b|
      ensures (a + b)[i].fila < fila + 1
    {
      if i >= |a| {
        assert (a + b)[i] == b[i - |a|];
      }
    }
  }

  lemma {:induction false} RowMatchesSorted(g: Grid, fila: int, col: int)
    requires WellFormed(g) && 0 <= fila < Filas && 0 <= col <= Columnas
    ensures SortedInRow(RowMatches(g, fila, col), fila, col)
    decreases col
  {
    if col > 0 {
      RowMatchesSorted(g, fila, col - 1);
      CellAppend(RowMatches(g, fila, col - 1), fila, col - 1, CellMatches(g, fila, col - 1));
    }
  }

  lemma {:induction false} RowsMatchesSorted(g: Grid, fila: int)
    requires WellFormed(g) && 0 <= fila <= Filas
    ensures SortedAbove(RowsMatches(g, fila), fila)
    decreases fila
  {
    if fila > 0 {
      assert |g[fila - 1]| == Columnas;
      RowsMatchesSorted(g, fila - 1);
      RowMatchesSorted(g, fila - 1, |g[fila - 1]|);
      RowsMatchesStep(g, fila);
    }
  }

  lemma RowsMatchesStep(g: Grid, fila: int)
    requires WellFormed(g) && 0 < fila <= Filas
    requires SortedAbove(RowsMatches(g, fila - 1), fila - 1)
    requires SortedInRow(RowMatches(g, fila - 1, |g[fila - 1]|), fila - 1, Columnas)
    ensures SortedAbove(RowsMatches(g, fila), fila)
  {
    RowAppend(RowsMatches(g, fila - 1), RowMatches(g, fila - 1, |g[fila - 1]|), fila - 1, Columnas);
  }

  /** The detector reports in row-major order. Together with `MatchesCount`
      this determines its output completely. */
  lemma MatchesInRowMajorOrder(g: Grid)
    requires WellFormed(g)
    ensures RowMajorSorted(Matches(g))
  {
    RowsMatchesSorted(g, |g|);
  }

  /** Cells `[fila][c]` and `[fila][d]` are on the board and hold fruits of
      one kind. */
  predicate SameKind(g: Grid, fila: int, c: int, d: int)
    requires WellFormed(g) && 0 <= fila < Filas
  {
    && 0 <= c < Columnas && 0 <= d < Columnas
    && g[fila][c].Some? && g[fila][d].Some?
    && g[fila][c].value.tipo == g[fila][d].value.tipo
  }

  /** Row `fila` holds a run of exactly `n` fruits of one kind starting in
      column `col`: neither neighbour of the run continues it. */
  predicate ExactRun(g: Grid, fila: int, col: int, n: nat)
    requires WellFormed(g) && 0 <= fila < Filas
  {
    && 0 <= col && col + n <= Columnas
    && (forall c :: col <= c < col + n ==> SameKind(g, fila, c, col))
    && !SameKind(g, fila, col - 1, col)
    && !SameKind(g, fila, col + n, col)
  }

  /** A run of exactly three is reported horizontally through its first
      cell only: of the columns whose triple would overlap the run, only
      the run's own start begins a triple. */
  lemma RunOfThreeHasOneStart(g: Grid, fila: int, col: int)
    requires WellFormed(g) && 0 <= fila < Filas && ExactRun(g, fila, col, 3)
    ensures forall c :: 0 <= c < Columnas && col - 2 <= c <= col + 2 ==>
              (HorizontalTriple(g, fila, c) <==> c == col)
  {
    assert SameKind(g, fila, col + 1, col) && SameKind(g, fila, col + 2, col);
  }

  /** A run of exactly four yields exactly two horizontal starts, its first
      and its second cell. */
  lemma RunOfFourHasTwoStarts(g: Grid, fila: int, col: int)
    requires WellFormed(g) && 0 <= fila < Filas && ExactRun(g, fila, col, 4)
    ensures forall c :: 0 <= c < Columnas && col - 2 <= c <= col + 3 ==>
              (HorizontalTriple(g, fila, c) <==> c == col || c == col + 1)
  {
    assert SameKind(g, fila, col + 1, col) && SameKind(g, fila, col + 2, col) && SameKind(g, fila, col + 3, col);
  }
}
