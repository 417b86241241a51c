/** Column gravity, shared by `caerFrutas` and `aplicarGravedad`: each column
    is scanned from the bottom row up; an empty cell takes the nearest fruit
    above it, which is emptied, and the fruit's `fila` is set to its new
    row. `Settle` is that scan on one column, `Gravity` applies it to every
    column. */
module Gravedad {
  import opened Tablero

  /** The nearest row above `fila` whose cell holds a fruit, or -1 (the
      `filaSuperior` / `filaArriba` search loop). */
  function NearestAbove(s: seq<Cell>, fila: nat): (k: int)
    requires fila <= |s|
    ensures -1 <= k < fila
    ensures k >= 0 ==> s[k].Some?
    ensures forall j :: k < j < fila ==> s[j].None?
    decreases fila
  {
    if fila == 0 then -1
    else if s[fila - 1].Some? then fila - 1
    else NearestAbove(s, fila - 1)
  }

  /** A fruit falls into row `fila` on this step of the scan. */
  predicate Falls(s: seq<Cell>, fila: nat)
    requires fila < |s|
  {
    s[fila].None? && NearestAbove(s, fila) >= 0
  }

  /** One step of the scan, at row `fila`. */
  function FallInto(s: seq<Cell>, fila: nat): (t: seq<Cell>)
    requires fila < |s|
    ensures |t| == |s|
  {
    if !Falls(s, fila) then s
    else
      var k := NearestAbove(s, fila);
      s[fila := Some(s[k].value.(fila := fila))][k := None]
  }

  /** The column after the whole scan: row `|s| - 1` is processed first,
      then the rows above it. */
  function Settle(s: seq<Cell>): (r: seq<Cell>)
    ensures |r| == |s|
    decreases |s|
  {
    if |s| == 0 then []
    else
      var f := |s| - 1;
      var t := FallInto(s, f);
      Settle(t[..f]) + [t[f]]
  }

  /** How many fruits the scan moves (`frutasCaidas` for one column). */
  function Moves(s: seq<Cell>): nat
    decreases |s|
  {
    if |s| == 0 then 0
    else
      var f := |s| - 1;
      Moves(FallInto(s, f)[..f]) + (if Falls(s, f) then 1 else 0)
  }

  /** No `null` lies below a fruit. */
  predicate Compact(s: seq<Cell>) {
    forall i, j :: 0 <= i < j < |s| && s[i].Some? ==> s[j].Some?
  }

  predicate AllEmpty(s: seq<Cell>) {
    forall i :: 0 <= i < |s| ==> s[i].None?
  }

  /** The fruits of a column, top to bottom, each as its `tipo` and `col`. */
  function Kinds(s: seq<Cell>): seq<(nat, int)>
    decreases |s|
  {
    if |s| == 0 then []
    else Kinds(s[..|s| - 1]) + KindOf(s[|s| - 1])
  }

  function KindOf(c: Cell): seq<(nat, int)> {
    if c.Some? then [(c.value.tipo, c.value.col)] else []
  }

  /** Every fruit in column `col` stores its own row and column. */
  predicate ColumnConsistent(s: seq<Cell>, col: int) {
    forall r :: 0 <= r < |s| && s[r].Some? ==> s[r].value.fila == r && s[r].value.col == col
  }

  /** Every fruit of the column has a kind that indexes `frutas`. */
  predicate ColumnKindsValid(s: seq<Cell>) {
    forall r :: 0 <= r < |s| && s[r].Some? ==> s[r].value.tipo < NumFrutas
  }

  // Scanning a prefix of the column is scanning the column.

  lemma {:induction false} NearestAbovePrefix(s: seq<Cell>, n: nat, fila: nat)
    requires fila < n <= |s|
    ensures NearestAbove(s[..n], fila) == NearestAbove(s, fila)
    decreases fila
  {
    if fila > 0 {
      NearestAbovePrefix(s, n, fila - 1);
    }
  }

  lemma FallIntoPrefix(s: seq<Cell>, n: nat, fila: nat)
    requires fila < n <= |s|
    ensures Falls(s[..n], fila) == Falls(s, fila)
    ensures FallInto(s[..n], fila) == FallInto(s, fila)[..n]
  {
    NearestAbovePrefix(s, n, fila);
  }

  /** Only rows up to `fila` change in a step. */
  lemma FallIntoFrame(s: seq<Cell>, fila: nat)
    requires fila < |s|
    ensures FallInto(s, fila)[fila + 1..] == s[fila + 1..]
    ensures forall r :: 0 <= r < |s| && r != fila && FallInto(s, fila)[r] != s[r] ==> FallInto(s, fila)[r].None?
  {
  }

  /** The loop invariant of the row scan: what is left to do on rows
      `[0..fila]`, followed by the finished rows below, settles to the same
      column as the whole scan. */
  lemma SettleStep(s: seq<Cell>, fila: nat)
    requires fila < |s|
    ensures Settle(s[..fila + 1]) + s[fila + 1..]
         == Settle(FallInto(s, fila)[..fila]) + FallInto(s, fila)[fila..]
  {
    var t := FallInto(s, fila);
    var p := s[..fila + 1];
    FallIntoPrefix(s, fila + 1, fila);
    FallIntoFrame(s, fila);
    assert FallInto(p, fila)[..fila] == t[..fila];
    var a, x, b := Settle(t[..fila]), t[fila], s[fila + 1..];
    assert Settle(p) == a + [x];
    assert t[fila..] == [x] + b;
    assert (a + [x]) + b == a + ([x] + b);
  }

  /** The move counter follows the same step. */
  lemma MovesStep(s: seq<Cell>, fila: nat)
    requires fila < |s|
    ensures Moves(s[..fila + 1]) == Moves(FallInto(s, fila)[..fila]) + (if Falls(s, fila) then 1 else 0)
  {
    var t := FallInto(s, fila);
    var p := s[..fila + 1];
    FallIntoPrefix(s, fila + 1, fila);
    assert FallInto(p, fila)[..fila] == t[..fila];
  }

  // Properties of the settled column.

  /** A column with no `null` below a fruit is left as it is, and nothing
      moves. */
  lemma {:induction false} CompactIsFixed(s: seq<Cell>)
    requires Compact(s)
    ensures Settle(s) == s && Moves(s) == 0
    decreases |s|
  {
    if |s| > 0 {
      var f := |s| - 1;
      assert !Falls(s, f);
      assert s[..f] + [s[f]] == s;
      CompactIsFixed(s[..f]);
    }
  }

  /** If nothing moves the column is left as it is. */
  lemma {:induction false} NoMovesIsFixed(s: seq<Cell>)
    requires Moves(s) == 0
    ensures Settle(s) == s
    decreases |s|
  {
    if |s| > 0 {
      var f := |s| - 1;
      assert !Falls(s, f);
      assert FallInto(s, f) == s;
      NoMovesIsFixed(s[..f]);
      assert s[..f] + [s[f]] == s;
    }
  }

  /** After the scan every `null` is above every fruit. */
  lemma {:induction false} SettleIsCompact(s: seq<Cell>)
    ensures Compact(Settle(s))
    decreases |s|
  {
    if |s| > 0 {
      var f := |s| - 1;
      var t := FallInto(s, f);
      SettleIsCompact(t[..f]);
      if t[f].None? {
        // No fruit above the bottom hole: everything above it is empty.
        assert !Falls(s, f);
        assert AllEmpty(t[..f]);
        CompactIsFixed(t[..f]);
      }
      var a, x := Settle(t[..f]), t[f];
      assert Settle(s) == a + [x];
      CompactAppend(a, x);
    }
  }

  lemma CompactAppend(a: seq<Cell>, x: Cell)
    requires Compact(a) && (x.None? ==> AllEmpty(a))
    ensures Compact(a + [x])
  {
    forall i, j | 0 <= i < j < |a| + 1 && (a + [x])[i].Some?
      ensures (a + [x])[j].Some?
    {
      assert (a + [x])[i] == a[i];
      if j < |a| {
        assert (a + [x])[j] == a[j];
      }
    }
  }

  /** The scan moves something exactly when the column has a `null` below a
      fruit, and it changes the column exactly then. */
  lemma MovesIffNotCompact(s: seq<Cell>)
    ensures Moves(s) == 0 <==> Compact(s)
    ensures Settle(s) == s <==> Compact(s)
  {
    SettleIsCompact(s);
    if Compact(s) {
      CompactIsFixed(s);
    }
    if Moves(s) == 0 {
      NoMovesIsFixed(s);
    }
  }

  /** Settling twice is settling once. */
  lemma SettleIdempotent(s: seq<Cell>)
    ensures Settle(Settle(s)) == Settle(s)
  {
    SettleIsCompact(s);
    CompactIsFixed(Settle(s));
  }

  lemma {:induction false} KindsAppend(a: seq<Cell>, b: seq<Cell>)
    ensures Kinds(a + b) == Kinds(a) + Kinds(b)
    decreases |b|
  {
    if |b| == 0 {
      assert a + b == a;
    } else {
      var b' := b[..|b| - 1];
      assert (a + b)[..|a + b| - 1] == a + b';
      assert (a + b)[|a + b| - 1] == b[|b| - 1];
      KindsAppend(a, b');
    }
  }

  lemma {:induction false} KindsAllEmpty(s: seq<Cell>)
    requires AllEmpty(s)
    ensures Kinds(s) == []
    decreases |s|
  {
    if |s| > 0 {
      KindsAllEmpty(s[..|s| - 1]);
    }
  }

  lemma {:induction false} KindsOfFive(pre: seq<Cell>, a: Cell, mid: seq<Cell>, b: Cell, post: seq<Cell>)
    ensures Kinds(pre + [a] + mid + [b] + post)
         == Kinds(pre) + KindOf(a) + Kinds(mid) + KindOf(b) + Kinds(post)
  {
    KindsAppend(pre + [a] + mid + [b], post);
    KindsAppend(pre + [a] + mid, [b]);
    KindsAppend(pre + [a], mid);
    KindsAppend(pre, [a]);
    assert Kinds([a]) == KindOf(a) by { assert [a][..0] == []; }
    assert Kinds([b]) == KindOf(b) by { assert [b][..0] == []; }
  }

  /** Moving a fruit down past empty cells keeps the kinds in order. */
  lemma {:induction false} KindsMoveDown(pre: seq<Cell>, x: Fruit, mid: seq<Cell>, y: Fruit, post: seq<Cell>)
    requires AllEmpty(mid) && x.tipo == y.tipo && x.col == y.col
    ensures Kinds(pre + [Some(x)] + mid + [None] + post) == Kinds(pre + [None] + mid + [Some(y)] + post)
  {
    KindsOfFive(pre, Some(x), mid, None, post);
    KindsOfFive(pre, None, mid, Some(y), post);
    KindsAllEmpty(mid);
  }

  /** A step keeps the fruits of the column and their order. */
  lemma {:induction false} KindsFallInto(s: seq<Cell>, fila: nat)
    requires fila < |s|
    ensures Kinds(FallInto(s, fila)) == Kinds(s)
  {
    if Falls(s, fila) {
      var k := NearestAbove(s, fila);
      var t := FallInto(s, fila);
      var pre, mid, post := s[..k], s[k + 1..fila], s[fila + 1..];
      assert AllEmpty(mid);
      assert s[..k + 1] == pre + [s[k]];
      assert s[..fila] == pre + [s[k]] + mid;
      assert s[..fila + 1] == pre + [s[k]] + mid + [None];
      assert s == pre + [s[k]] + mid + [None] + post;
      assert t[..k + 1] == pre + [None];
      assert t[..fila] == pre + [None] + mid;
      assert t[..fila + 1] == pre + [None] + mid + [t[fila]];
      assert t == pre + [None] + mid + [t[fila]] + post;
      KindsMoveDown(pre, s[k].value, mid, t[fila].value, post);
    }
  }

  /** The scan keeps every fruit of the column, in the same top-to-bottom
      order, with its kind and column unchanged. */
  lemma {:induction false} SettleKeepsFruits(s: seq<Cell>)
    ensures Kinds(Settle(s)) == Kinds(s)
    decreases |s|
  {
    if |s| > 0 {
      var f := |s| - 1;
      var t := FallInto(s, f);
      var a := Settle(t[..f]);
      assert Settle(s) == a + [t[f]];
      SettleKeepsFruits(t[..f]);
      KindsAppend(a, [t[f]]);
      assert Kinds([t[f]]) == KindOf(t[f]) by { assert [t[f]][..0] == []; }
      assert Kinds(t) == Kinds(t[..f]) + KindOf(t[f]);
      KindsFallInto(s, f);
    }
  }

  /** A fruit of the settled column either did not move or stores its new
      row in `fila`. */
  lemma {:induction false} SettleUpdatesFila(s: seq<Cell>)
    ensures forall r :: 0 <= r < |s| && Settle(s)[r].Some? ==>
              Settle(s)[r] == s[r] || Settle(s)[r].value.fila == r
    decreases |s|
  {
    if |s| > 0 {
      var f := |s| - 1;
      var t := FallInto(s, f);
      SettleUpdatesFila(t[..f]);
      FallIntoFrame(s, f);
      assert Settle(s) == Settle(t[..f]) + [t[f]];
    }
  }

  /** The scan keeps a column position-consistent. */
  lemma {:induction false} SettleKeepsConsistent(s: seq<Cell>, col: int)
    requires ColumnConsistent(s, col)
    ensures ColumnConsistent(Settle(s), col)
    decreases |s|
  {
    if |s| > 0 {
      var f := |s| - 1;
      var t := FallInto(s, f);
      assert ColumnConsistent(t, col);
      assert ColumnConsistent(t[..f], col);
      SettleKeepsConsistent(t[..f], col);
      assert Settle(s) == Settle(t[..f]) + [t[f]];
    }
  }

  /** The scan keeps the kinds of a column valid. */
  lemma {:induction false} SettleKeepsKindsValid(s: seq<Cell>)
    requires ColumnKindsValid(s)
    ensures ColumnKindsValid(Settle(s))
    decreases |s|
  {
    if |s| > 0 {
      var f := |s| - 1;
      var t := FallInto(s, f);
      assert ColumnKindsValid(t);
      assert ColumnKindsValid(t[..f]);
      SettleKeepsKindsValid(t[..f]);
      assert Settle(s) == Settle(t[..f]) + [t[f]];
    }
  }

  // The whole board.

  /** The board after the gravity loop: every column settled on its own. */
  function Gravity(g: Grid): (h: Grid)
    requires WellFormed(g)
    ensures WellFormed(h)
  {
    seq(Filas, r requires 0 <= r < Filas => seq(Columnas, c requires 0 <= c < Columnas => Settle(Column(g, c))[r]))
  }

  /** `frutasCaidas`: the moves of columns `[0..col)`. */
  function MovesBefore(g: Grid, col: int): nat
    requires WellFormed(g) && 0 <= col <= Columnas
    decreases col
  {
    if col == 0 then 0 else MovesBefore(g, col - 1) + Moves(Column(g, col - 1))
  }

  function TotalMoves(g: Grid): nat
    requires WellFormed(g)
  {
    MovesBefore(g, |g[0]|)
  }

  /** No fruit changes column: column `c` of the result is column `c`
      settled. */
  lemma GravityByColumn(g: Grid, c: int)
    requires WellFormed(g) && 0 <= c < Columnas
    ensures Column(Gravity(g), c) == Settle(Column(g, c))
  {
  }

  /** A board whose every column is that column of `g` settled is the
      board gravity leaves. */
  lemma GravityByColumns(g: Grid, k: Grid)
    requires WellFormed(g) && WellFormed(k)
    requires forall r, c :: 0 <= r < Filas && 0 <= c < Columnas ==> k[r][c] == Settle(Column(g, c))[r]
    ensures k == Gravity(g)
  {
    GridEquality(k, Gravity(g));
  }

  /** Per column, gravity keeps the fruits and their order, leaves every
      `null` above every fruit, and gives moved fruits their new row. */
  lemma GravityColumns(g: Grid, c: int)
    requires WellFormed(g) && 0 <= c < Columnas
    ensures Kinds(Column(Gravity(g), c)) == Kinds(Column(g, c))
    ensures Compact(Column(Gravity(g), c))
    ensures forall r :: 0 <= r < Filas && Gravity(g)[r][c].Some? ==>
              Gravity(g)[r][c] == g[r][c] || Gravity(g)[r][c].value.fila == r
  {
    GravityByColumn(g, c);
    SettleKeepsFruits(Column(g, c));
    SettleIsCompact(Column(g, c));
    SettleUpdatesFila(Column(g, c));
  }

  /** Gravity keeps a board position-consistent and its kinds valid. */
  lemma GravityKeepsInvariants(g: Grid)
    requires WellFormed(g) && Consistent(g) && KindsValid(g)
    ensures Consistent(Gravity(g)) && KindsValid(Gravity(g))
  {
    forall c | 0 <= c < Columnas
      ensures ColumnConsistent(Settle(Column(g, c)), c) && ColumnKindsValid(Settle(Column(g, c)))
    {
      SettleKeepsConsistent(Column(g, c), c);
      SettleKeepsKindsValid(Column(g, c));
    }
  }

  /** A board without a `null` cell is left as it is, and nothing moves. */
  lemma GravityOfFullIsIdentity(g: Grid)
    requires WellFormed(g) && Full(g)
    ensures Gravity(g) == g && TotalMoves(g) == 0
  {
    forall c | 0 <= c < Columnas
      ensures Moves(Column(g, c)) == 0
    {
      CompactIsFixed(Column(g, c));
    }
    NoMovesBefore(g, |g[0]|);
    NoMovesIffUnchanged(g);
  }

  lemma {:induction false} NoMovesBefore(g: Grid, col: int)
    requires WellFormed(g) && 0 <= col <= Columnas
    ensures MovesBefore(g, col) == 0 <==> forall c :: 0 <= c < col ==> Moves(Column(g, c)) == 0
    decreases col
  {
    if col > 0 {
      NoMovesBefore(g, col - 1);
      var m := Moves(Column(g, col - 1));
      assert MovesBefore(g, col) == MovesBefore(g, col - 1) + m;
      if MovesBefore(g, col) == 0 {
        assert forall c :: 0 <= c < col - 1 ==> Moves(Column(g, c)) == 0;
      }
    }
  }

  /** `frutasCaidas` is 0 exactly when gravity changes nothing. */
  lemma NoMovesIffUnchanged(g: Grid)
    requires WellFormed(g)
    ensures TotalMoves(g) == 0 <==> Gravity(g) == g
  {
    NoMovesBefore(g, |g[0]|);
    if TotalMoves(g) == 0 {
      forall r, c | InBounds(r, c)
        ensures Gravity(g)[r][c] == g[r][c]
      {
        MovesIffNotCompact(Column(g, c));
      }
      GridEquality(Gravity(g), g);
    }
    if Gravity(g) == g {
      forall c | 0 <= c < Columnas
        ensures Moves(Column(g, c)) == 0
      {
        GravityByColumn(g, c);
        MovesIffNotCompact(Column(g, c));
      }
    }
  }

  /** Applying gravity twice is applying it once. */
  lemma GravityIdempotent(g: Grid)
    requires WellFormed(g)
    ensures Gravity(Gravity(g)) == Gravity(g)
  {
    forall r, c | InBounds(r, c)
      ensures Gravity(Gravity(g))[r][c] == Gravity(g)[r][c]
    {
      GravityByColumn(g, c);
      SettleIdempotent(Column(g, c));
    }
    GridEquality(Gravity(Gravity(g)), Gravity(g));
  }
}
