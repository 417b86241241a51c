/** Removal of listed cells (`eliminarCombinaciones`). It runs in two passes:
    the first collects the fruits found at the listed in-bounds coordinates
    (`frutasAEliminar`), the second nulls the cell each collected fruit
    names through its own `fila` and `col`, if that cell is on the board and
    not already empty. */
module Eliminacion {
  import opened Tablero

  /** `frutasAEliminar`: the fruits found at the listed coordinates, in list
      order, skipping coordinates off the board and empty cells. */
  function Collected(g: Grid, ps: seq<Pos>): (fs: seq<Fruit>)
    requires WellFormed(g)
    ensures |fs| <= |ps|
    decreases |ps|
  {
    if |ps| == 0 then []
    else Collected(g, ps[..|ps| - 1]) + Found(g, ps[|ps| - 1])
  }

  /** What the first pass collects for one coordinate pair. */
  function Found(g: Grid, p: Pos): seq<Fruit>
    requires WellFormed(g)
  {
    if InBounds(p.fila, p.col) && g[p.fila][p.col].Some? then [g[p.fila][p.col].value] else []
  }

  /** The cells the second pass targets: where each collected fruit says it
      is. */
  function Targets(fs: seq<Fruit>): set<Pos> {
    set f | f in fs :: Pos(f.fila, f.col)
  }

  /** The board with the cells of `ts` nulled. Nulling an empty cell leaves
      it empty, so the order of the second pass does not matter. */
  function Remove(g: Grid, ts: set<Pos>): (h: Grid)
    requires WellFormed(g)
    ensures WellFormed(h)
  {
    seq(Filas, r requires 0 <= r < Filas =>
      seq(Columnas, c requires 0 <= c < Columnas =>
        if Pos(r, c) in ts then None else g[r][c]))
  }

  /** The cells the fruits at the listed in-bounds coordinates say they
      occupy: the targets of the second pass over what the first collects. */
  function Spots(g: Grid, ps: seq<Pos>): set<Pos>
    requires WellFormed(g)
  {
    set i | 0 <= i < |ps| && InBounds(ps[i].fila, ps[i].col) && g[ps[i].fila][ps[i].col].Some?
      :: Pos(g[ps[i].fila][ps[i].col].value.fila, g[ps[i].fila][ps[i].col].value.col)
  }

  /** The board after `eliminarCombinaciones(ps, …)`, once the timer fires. */
  function Eliminate(g: Grid, ps: seq<Pos>): (h: Grid)
    requires WellFormed(g)
    ensures WellFormed(h)
  {
    Remove(g, Spots(g, ps))
  }

  // The first pass.

  /** A fruit is collected exactly when some listed in-bounds coordinate
      holds it. */
  lemma {:induction false} CollectedMembers(g: Grid, ps: seq<Pos>, f: Fruit)
    requires WellFormed(g)
    ensures f in Collected(g, ps) <==>
            exists i :: 0 <= i < |ps| && InBounds(ps[i].fila, ps[i].col) && g[ps[i].fila][ps[i].col] == Some(f)
    decreases |ps|
  {
    if |ps| > 0 {
      var n := |ps| - 1;
      CollectedMembers(g, ps[..n], f);
      assert forall i :: 0 <= i < n ==> ps[..n][i] == ps[i];
      if f in Collected(g, ps) && f !in Collected(g, ps[..n]) {
        assert f in Found(g, ps[n]);
      }
    }
  }

  /** One more step of the first pass. */
  lemma CollectedStep(g: Grid, ps: seq<Pos>, i: nat)
    requires WellFormed(g) && i < |ps|
    ensures Collected(g, ps[..i + 1]) == Collected(g, ps[..i]) + Found(g, ps[i])
  {
    assert ps[..i + 1][..i] == ps[..i];
  }

  /** The second pass over what the first pass collects targets `Spots`. */
  lemma CollectedTargets(g: Grid, ps: seq<Pos>)
    requires WellFormed(g)
    ensures Targets(Collected(g, ps)) == Spots(g, ps)
  {
    forall q | q in Targets(Collected(g, ps))
      ensures q in Spots(g, ps)
    {
      var f :| f in Collected(g, ps) && q == Pos(f.fila, f.col);
      CollectedMembers(g, ps, f);
    }
    forall q | q in Spots(g, ps)
      ensures q in Targets(Collected(g, ps))
    {
      var i :| 0 <= i < |ps| && InBounds(ps[i].fila, ps[i].col) && g[ps[i].fila][ps[i].col].Some?
               && q == Pos(g[ps[i].fila][ps[i].col].value.fila, g[ps[i].fila][ps[i].col].value.col);
      CollectedMembers(g, ps, g[ps[i].fila][ps[i].col].value);
    }
  }

  // The second pass.

  lemma TargetsStep(fs: seq<Fruit>, i: nat)
    requires i < |fs|
    ensures Targets(fs[..i + 1]) == Targets(fs[..i]) + {Pos(fs[i].fila, fs[i].col)}
  {
    assert fs[..i + 1] == fs[..i] + [fs[i]];
  }

  /** One more step of the second pass: null the cell the fruit names, if
      it is on the board and holds something. */
  lemma RemoveStep(g: Grid, fs: seq<Fruit>, i: nat)
    requires WellFormed(g) && i < |fs|
    ensures var h := Remove(g, Targets(fs[..i]));
            var f := fs[i];
            Remove(g, Targets(fs[..i + 1])) ==
              if InBounds(f.fila, f.col) && h[f.fila][f.col].Some? then Put(h, f.fila, f.col, None) else h
  {
    TargetsStep(fs, i);
    var h: Grid := Remove(g, Targets(fs[..i]));
    var f: Fruit := fs[i];
    var k: Grid := if InBounds(f.fila, f.col) && h[f.fila][f.col].Some? then Put(h, f.fila, f.col, None) else h;
    GridEquality(Remove(g, Targets(fs[..i + 1])), k);
  }

  lemma RemoveNothing(g: Grid, fs: seq<Fruit>)
    requires WellFormed(g) && |fs| == 0
    ensures Remove(g, Targets(fs)) == g
  {
    assert Targets(fs) == {};
    GridEquality(Remove(g, Targets(fs)), g);
  }

  // What removal does.

  /** On a position-consistent board, removal nulls exactly the listed
      in-bounds cells and leaves every other cell as it was. */
  lemma EliminateExactly(g: Grid, ps: seq<Pos>, r: int, c: int)
    requires WellFormed(g) && Consistent(g) && InBounds(r, c)
    ensures Eliminate(g, ps)[r][c] == if Pos(r, c) in ps then None else g[r][c]
  {
    if Pos(r, c) in ps && g[r][c].Some? {
      var i :| 0 <= i < |ps| && ps[i] == Pos(r, c);
      assert Pos(r, c) in Spots(g, ps);
    }
  }

  /** Whatever the board, removal depends only on the set of listed
      coordinates: their order and any repetitions do not matter. */
  lemma EliminateDependsOnSet(g: Grid, ps: seq<Pos>, qs: seq<Pos>)
    requires WellFormed(g)
    requires forall p :: p in ps <==> p in qs
    ensures Eliminate(g, ps) == Eliminate(g, qs)
  {
    forall q | q in Spots(g, ps)
      ensures q in Spots(g, qs)
    {
      var i :| 0 <= i < |ps| && InBounds(ps[i].fila, ps[i].col) && g[ps[i].fila][ps[i].col].Some?
               && q == Pos(g[ps[i].fila][ps[i].col].value.fila, g[ps[i].fila][ps[i].col].value.col);
      assert ps[i] in qs;
    }
    forall q | q in Spots(g, qs)
      ensures q in Spots(g, ps)
    {
      var i :| 0 <= i < |qs| && InBounds(qs[i].fila, qs[i].col) && g[qs[i].fila][qs[i].col].Some?
               && q == Pos(g[qs[i].fila][qs[i].col].value.fila, g[qs[i].fila][qs[i].col].value.col);
      assert qs[i] in ps;
    }
    assert Spots(g, ps) == Spots(g, qs);
  }

  /** Listing a coordinate twice is the same as listing it once. */
  lemma EliminateDuplicate(g: Grid, ps: seq<Pos>, p: Pos)
    requires WellFormed(g) && p in ps
    ensures Eliminate(g, ps + [p]) == Eliminate(g, ps)
  {
    EliminateDependsOnSet(g, ps + [p], ps);
  }

  /** A coordinate off the board is ignored. */
  lemma EliminateIgnoresOutOfBounds(g: Grid, ps: seq<Pos>, p: Pos)
    requires WellFormed(g) && !InBounds(p.fila, p.col)
    ensures Eliminate(g, ps + [p]) == Eliminate(g, ps)
  {
    var q := ps + [p];
    assert forall i :: 0 <= i < |ps| ==> q[i] == ps[i];
    assert Spots(g, q) == Spots(g, ps);
  }

  /** Removal keeps a board position-consistent and its kinds valid. */
  lemma EliminateKeepsInvariants(g: Grid, ps: seq<Pos>)
    requires WellFormed(g) && Consistent(g) && KindsValid(g)
    ensures Consistent(Eliminate(g, ps)) && KindsValid(Eliminate(g, ps))
  {
  }
}
