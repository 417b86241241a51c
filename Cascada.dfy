/** The cascade `verificarCombinacionesAutomaticas`: detect; if nothing is
    found, unlock; otherwise remove the matches, apply gravity, refill and
    detect again. The refills are random, so the number of rounds is
    bounded by `fuel`. */
module Cascada {
  import opened Tablero
  import opened Deteccion
  import opened Eliminacion
  import opened Gravedad
  import opened Relleno

  /** One round: removal, gravity and refill; the second component is the
      number of values of the stream used so far. */
  function Round(g: Grid, azar: nat -> Aleatorio, t: nat): (Grid, nat)
    requires WellFormed(g)
  {
    var h := Gravity(Eliminate(g, Matches(g)));
    (Refill(h, azar, t), t + EmptyCount(h))
  }

  /** The state the cascade leaves. `asentado` says whether it stopped
      because detection found nothing. */
  datatype Cascade = Cascade(tablero: Grid, tiradas: nat, bloqueado: bool, asentado: bool)

  /** The loop of the cascade for a detection test `settled` and a round
      `step`: at most `fuel` rounds, starting with `bloqueado` as given. */
  function Loop(g: Grid, t: nat, bloqueado: bool, fuel: nat,
                settled: Grid -> bool, step: (Grid, nat) -> (Grid, nat)): Cascade
    decreases fuel, 1
  {
    if fuel == 0 then Cascade(g, t, bloqueado, false)
    else Continue(g, t, fuel, settled, step)
  }

  /** One pass of the loop with rounds left: stop and unlock when the test
      holds, otherwise run a round and go on locked. */
  function Continue(g: Grid, t: nat, fuel: nat,
                    settled: Grid -> bool, step: (Grid, nat) -> (Grid, nat)): Cascade
    requires fuel > 0
    decreases fuel, 0
  {
    if settled(g) then Cascade(g, t, false, true)
    else
      var next := step(g, t);
      Loop(next.0, next.1, true, fuel - 1, settled, step)
  }

  /** `detectarCombinaciones()` returns an empty list. */
  predicate Settled(g: Grid) {
    WellFormed(g) && Matches(g) == []
  }

  /** One round as a step of the loop. */
  function Step(azar: nat -> Aleatorio): (Grid, nat) -> (Grid, nat) {
    (g: Grid, t: nat) => if WellFormed(g) then Round(g, azar, t) else (g, t)
  }

  /** `verificarCombinacionesAutomaticas()` with at most `fuel` rounds. */
  function RunCascade(g: Grid, azar: nat -> Aleatorio, t: nat, bloqueado: bool, fuel: nat): Cascade {
    Loop(g, t, bloqueado, fuel, Settled, Step(azar))
  }

  // The loop, whatever the test and the round.

  lemma LoopStops(g: Grid, t: nat, bloqueado: bool, fuel: nat,
                  settled: Grid -> bool, step: (Grid, nat) -> (Grid, nat))
    requires fuel > 0 && settled(g)
    ensures Loop(g, t, bloqueado, fuel, settled, step) == Cascade(g, t, false, true)
  {
  }

  lemma LoopStep(g: Grid, t: nat, bloqueado: bool, fuel: nat,
                 settled: Grid -> bool, step: (Grid, nat) -> (Grid, nat), h: Grid, u: nat)
    requires fuel > 0 && !settled(g) && step(g, t).0 == h && step(g, t).1 == u
    ensures Loop(g, t, bloqueado, fuel, settled, step) == Loop(h, u, true, fuel - 1, settled, step)
  {
  }

  /** The loop unlocks exactly when it stops because the test holds; when
      it runs out of rounds `bloqueado` is untouched, or set if a round ran. */
  lemma {:induction false} LoopUnlocks(g: Grid, t: nat, bloqueado: bool, fuel: nat,
                                       settled: Grid -> bool, step: (Grid, nat) -> (Grid, nat))
    ensures var k := Loop(g, t, bloqueado, fuel, settled, step);
            && (k.asentado ==> settled(k.tablero) && !k.bloqueado)
            && (!k.asentado ==> k.bloqueado == (bloqueado || (fuel > 0 && !settled(g))))
    decreases fuel
  {
    if fuel > 0 && !settled(g) {
      var next := step(g, t);
      LoopUnlocks(next.0, next.1, true, fuel - 1, settled, step);
    }
  }

  /** What every round keeps, the loop keeps; what every round
      establishes holds at the end once a round has run. */
  lemma {:induction false} LoopKeeps(g: Grid, t: nat, bloqueado: bool, fuel: nat,
                                     settled: Grid -> bool, step: (Grid, nat) -> (Grid, nat),
                                     inv: Grid -> bool, post: Grid -> bool)
    requires inv(g)
    requires forall h, u :: inv(h) && !settled(h) ==> inv(step(h, u).0) && post(step(h, u).0) && step(h, u).1 >= u
    ensures var k := Loop(g, t, bloqueado, fuel, settled, step);
            && inv(k.tablero)
            && (post(g) || (fuel > 0 && !settled(g)) ==> post(k.tablero))
            && k.tiradas >= t
    decreases fuel
  {
    if fuel > 0 && !settled(g) {
      var next := step(g, t);
      LoopKeeps(next.0, next.1, true, fuel - 1, settled, step, inv, post);
    }
  }

  /** A round removes exactly the reported start cells: on a
      position-consistent board a cell is empty after removal exactly when
      it was empty before or starts a triple. */
  lemma RemovalOfMatches(g: Grid, r: int, c: int)
    requires WellFormed(g) && Consistent(g) && InBounds(r, c)
    ensures Eliminate(g, Matches(g))[r][c] == if TripleStart(g, Pos(r, c)) then None else g[r][c]
  {
    EliminateExactly(g, Matches(g), r, c);
    MatchesExactlyTripleStarts(g, Pos(r, c));
  }

  /** A round leaves a full, position-consistent board with valid kinds. */
  lemma RoundKeepsInvariants(g: Grid, azar: nat -> Aleatorio, t: nat)
    requires WellFormed(g) && Consistent(g) && KindsValid(g)
    ensures var h := Round(g, azar, t).0;
            Full(h) && Consistent(h) && KindsValid(h)
  {
    var e := Eliminate(g, Matches(g));
    EliminateKeepsInvariants(g, Matches(g));
    GravityKeepsInvariants(e);
    RefillFills(Gravity(e), azar, t);
    RefillKeepsInvariants(Gravity(e), azar, t);
  }

  /** The cascade unlocks exactly when it stops because detection found
      nothing; when it runs out of rounds `bloqueado` is untouched, or set
      if a round ran. */
  lemma CascadeUnlocksIffSettled(g: Grid, azar: nat -> Aleatorio, t: nat, bloqueado: bool, fuel: nat)
    requires WellFormed(g)
    ensures var k := RunCascade(g, azar, t, bloqueado, fuel);
            && (k.asentado ==> WellFormed(k.tablero) && Matches(k.tablero) == [] && !k.bloqueado)
            && (!k.asentado ==> k.bloqueado == (bloqueado || (fuel > 0 && Matches(g) != [])))
  {
    LoopUnlocks(g, t, bloqueado, fuel, Settled, Step(azar));
  }

  /** The cascade keeps a board position-consistent with valid kinds, and a
      cascade that ran at least one round leaves a full board. */
  lemma CascadeKeepsInvariants(g: Grid, azar: nat -> Aleatorio, t: nat, bloqueado: bool, fuel: nat)
    requires WellFormed(g) && Consistent(g) && KindsValid(g)
    ensures var k := RunCascade(g, azar, t, bloqueado, fuel);
            && WellFormed(k.tablero) && Consistent(k.tablero) && KindsValid(k.tablero)
            && (Full(g) || (fuel > 0 && Matches(g) != []) ==> Full(k.tablero))
            && k.tiradas >= t
  {
    var inv := (h: Grid) => WellFormed(h) && Consistent(h) && KindsValid(h);
    var post := (h: Grid) => WellFormed(h) && Full(h);
    forall h, u | inv(h) && !Settled(h)
      ensures inv(Step(azar)(h, u).0) && post(Step(azar)(h, u).0) && Step(azar)(h, u).1 >= u
    {
      RoundKeepsInvariants(h, azar, u);
    }
    LoopKeeps(g, t, bloqueado, fuel, Settled, Step(azar), inv, post);
  }

  /** A board on which detection reports nothing is left as it is: the
      cascade only unlocks. */
  lemma NoMatchesOnlyUnlocks(g: Grid, m: seq<Pos>, azar: nat -> Aleatorio, t: nat, bloqueado: bool, fuel: nat)
    requires WellFormed(g) && m == Matches(g) && |m| == 0 && fuel > 0
    ensures RunCascade(g, azar, t, bloqueado, fuel) == Cascade(g, t, false, true)
  {
    LoopStops(g, t, bloqueado, fuel, Settled, Step(azar));
  }

  /** With matches `m` on the board, the cascade runs one round on them,
      which leaves board `h` and counter `u`, and goes on from there. */
  lemma CascadeRound(g: Grid, m: seq<Pos>, azar: nat -> Aleatorio, t: nat, bloqueado: bool, fuel: nat,
                     h: Grid, u: nat)
    requires WellFormed(g) && m == Matches(g) && m != [] && fuel > 0
    requires h == Refill(Gravity(Eliminate(g, m)), azar, t) && u == t + EmptyCount(Gravity(Eliminate(g, m)))
    ensures RunCascade(g, azar, t, bloqueado, fuel) == RunCascade(h, azar, u, true, fuel - 1)
  {
    LoopStep(g, t, bloqueado, fuel, Settled, Step(azar), h, u);
  }
}
