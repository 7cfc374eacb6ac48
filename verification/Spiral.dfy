/** The square spiral that placement walks from a start cell (src/common/Types.h). */
module Spiral {
  import opened Common

  /** The four variables that `radialSearch` updates through its reference parameters. */
  datatype Walk = Walk(coord: Coord, dir: int, steps: int, pos: int)

  /** The integer remainder of C++, which takes the sign of the dividend. */
  function Remainder4(n: int): int {
    if n >= 0 then n % 4 else -((-n) % 4)
  }

  /** One unit in direction `dir`; the switch of the source has no default branch. */
  function Ahead(c: Coord, dir: int): Coord {
    match dir
    case 0 => Coord(c.x, c.y + 1)
    case 1 => Coord(c.x + 1, c.y)
    case 2 => Coord(c.x, c.y - 1)
    case 3 => Coord(c.x - 1, c.y)
    case _ => c
  }

  function Step(w: Walk): Walk {
    var coord := Ahead(w.coord, w.dir);
    var pos := w.pos + 1;
    var dir := if pos == w.steps then Remainder4(w.dir + 1) else w.dir;
    if pos == w.steps * 2
    then Walk(coord, Remainder4(dir + 1), w.steps + 1, 0)
    else Walk(coord, dir, w.steps, pos)
  }

  function WalkAfter(w: Walk, n: nat): Walk {
    if n == 0 then w else Step(WalkAfter(w, n - 1))
  }

  function Start(origin: Coord, dir: int): Walk {
    Walk(origin, dir, 1, 0)
  }

  /** The square around the origin that holds the whole grid. */
  function CoveringRadius(origin: Coord, width: int, height: int): nat {
    Max(Max(Max(origin.x, width - 1 - origin.x), Max(origin.y, height - 1 - origin.y)), 0)
  }

  /** How many cells the square of radius `r` has. */
  function SquareCells(r: nat): nat {
    (2 * r + 1) * (2 * r + 1)
  }

  /** The number of positions after which the farthest grid edge is covered. */
  function CoverageSteps(origin: Coord, width: int, height: int): nat {
    SquareCells(CoveringRadius(origin, width, height))
  }

  predicate InSquare(origin: Coord, r: int, c: Coord) {
    -r <= c.x - origin.x <= r && -r <= c.y - origin.y <= r
  }

  ghost predicate ReachedWithin(origin: Coord, dir: int, moves: int, c: Coord) {
    exists n: nat :: n < moves && WalkAfter(Start(origin, dir), n).coord == c
  }

  predicate InGrid(width: int, height: int, c: Coord) {
    0 <= c.x < width && 0 <= c.y < height
  }

  // ---------------------------------------------------------------------------
  // The walk in closed form. A round has two legs of equally many moves, one move
  // more in every round. In a frame whose first axis is the start direction, a round
  // of 2m + 1 moves a leg starts at (-m, -m), and one of 2m moves a leg at (m, m).
  // ---------------------------------------------------------------------------

  datatype Round = Round(m: nat, odd: bool) {
    predicate Valid() {
      odd || m > 0
    }

    function Leg(): nat {
      if odd then 2 * m + 1 else 2 * m
    }

    function Next(): Round {
      if odd then Round(m + 1, false) else Round(m, true)
    }
  }

  /** Where the walk is after `p` moves of a round, in the frame of the start direction. */
  function Place(round: Round, p: nat): (int, int) {
    var m: int, leg: int := round.m, round.Leg();
    if round.odd then
      if p <= leg then (p - m, -m) else (m + 1, p - leg - m)
    else
      if p <= leg then (m - p, m) else (-m, m - (p - leg))
  }

  /** The direction the walk faces: two quarter turns a round, one of them between its legs. */
  function Facing(dir: int, round: Round, p: nat): int {
    var turns := (if round.odd then 0 else 2) + (if p >= round.Leg() then 1 else 0);
    if dir + turns >= 4 then dir + turns - 4 else dir + turns
  }

  function Turned(dir: int, a: int, b: int): Coord {
    match dir
    case 0 => Coord(b, a)
    case 1 => Coord(a, -b)
    case 2 => Coord(-b, -a)
    case _ => Coord(-a, b)
  }

  function Unturned(dir: int, c: Coord): (int, int) {
    match dir
    case 0 => (c.y, c.x)
    case 1 => (c.x, -c.y)
    case 2 => (-c.y, -c.x)
    case _ => (-c.x, c.y)
  }

  function CellAt(origin: Coord, dir: int, at: (int, int)): Coord {
    var t := Turned(dir, at.0, at.1);
    Coord(origin.x + t.x, origin.y + t.y)
  }

  function Framed(origin: Coord, dir: int, c: Coord): (int, int) {
    Unturned(dir, Coord(c.x - origin.x, c.y - origin.y))
  }

  function WalkAt(origin: Coord, dir: int, at: (Round, nat)): Walk {
    Walk(CellAt(origin, dir, Place(at.0, at.1)), Facing(dir, at.0, at.1), at.0.Leg(), at.1)
  }

  /** The number of moves in all rounds before this one. */
  function MovesBefore(round: Round): nat
    decreases round.m, round.odd
  {
    if round.m == 0 then 0
    else if round.odd then MovesBefore(Round(round.m, false)) + 4 * round.m
    else MovesBefore(Round(round.m - 1, true)) + 2 * (2 * round.m - 1)
  }

  lemma NextSquare(r: nat)
    requires r > 0
    ensures SquareCells(r) == SquareCells(r - 1) + 8 * r
  {
    assert (2 * r + 1) * (2 * r + 1) == (2 * (r - 1) + 1) * (2 * (r - 1) + 1) + 8 * r;
  }

  lemma NextOddRound(r: nat)
    requires r > 0
    ensures MovesBefore(Round(r, true)) == MovesBefore(Round(r - 1, true)) + 8 * r - 2
  {
    var even := Round(r, false);
    assert MovesBefore(even) == MovesBefore(Round(r - 1, true)) + 2 * (2 * r - 1);
  }

  /** The moves up to the bottom row of the square of radius r are as many as it has cells. */
  lemma {:induction false} SquareSize(r: nat)
    ensures SquareCells(r) == MovesBefore(Round(r, true)) + 2 * r + 1
  {
    if r > 0 {
      SquareSize(r - 1);
      NextSquare(r);
      NextOddRound(r);
    }
  }

  /** The round, and the moves made in it, one move later. */
  function After(round: Round, p: nat): (Round, nat) {
    if p + 1 < 2 * round.Leg() then (round, p + 1) else (round.Next(), 0)
  }

  /** The round in which move `n` starts, and the moves already made in it. */
  function RoundAtMove(n: nat): (at: (Round, nat))
    ensures at.0.Valid() && at.1 < 2 * at.0.Leg() && MovesBefore(at.0) + at.1 == n
  {
    if n == 0 then (Round(0, true), 0)
    else
      var (round, p) := RoundAtMove(n - 1);
      After(round, p)
  }

  /** A frame position after the move that follows `p` moves of a round. */
  function Moved(round: Round, p: nat, at: (int, int)): (int, int) {
    if round.odd then
      if p >= round.Leg() then (at.0, at.1 + 1) else (at.0 + 1, at.1)
    else
      if p >= round.Leg() then (at.0, at.1 - 1) else (at.0 - 1, at.1)
  }

  lemma AheadInFrame(origin: Coord, dir: int, round: Round, p: nat, at: (int, int))
    requires 0 <= dir < 4
    ensures Ahead(CellAt(origin, dir, at), Facing(dir, round, p)) == CellAt(origin, dir, Moved(round, p, at))
  {
    if dir == 0 {
    } else if dir == 1 {
    } else if dir == 2 {
    } else {
    }
  }

  lemma PlaceInRound(round: Round, p: nat)
    requires round.Valid() && p < 2 * round.Leg()
    ensures Place(After(round, p).0, After(round, p).1) == Moved(round, p, Place(round, p))
  {
  }

  lemma StepInRound(origin: Coord, dir: int, round: Round, p: nat)
    requires 0 <= dir < 4 && round.Valid() && p < 2 * round.Leg()
    ensures Step(WalkAt(origin, dir, (round, p))) == WalkAt(origin, dir, After(round, p))
  {
    AheadInFrame(origin, dir, round, p, Place(round, p));
    PlaceInRound(round, p);
  }

  lemma FirstRound(origin: Coord, dir: int, round: Round, p: nat)
    requires 0 <= dir < 4 && round.odd && round.m == 0 && p == 0
    ensures WalkAt(origin, dir, (round, p)) == Start(origin, dir)
  {
    assert Place(round, p) == (0, 0);
    assert Facing(dir, round, p) == dir;
    assert CellAt(origin, dir, (0, 0)) == origin;
  }

  /** The stepper is where the closed form says, on every move. */
  lemma {:induction false} RunInRounds(origin: Coord, dir: int, n: nat)
    requires 0 <= dir < 4
    ensures WalkAfter(Start(origin, dir), n) == WalkAt(origin, dir, RoundAtMove(n))
  {
    if n == 0 {
      var (round, p) := RoundAtMove(n);
      FirstRound(origin, dir, round, p);
    } else {
      RunInRounds(origin, dir, n - 1);
      var (round, p) := RoundAtMove(n - 1);
      StepInRound(origin, dir, round, p);
    }
  }

  // ---------------------------------------------------------------------------
  // The inverse: on which move a cell is visited.
  // ---------------------------------------------------------------------------

  function RoundOf(at: (int, int)): (Round, nat) {
    var (a, b) := at;
    if b <= 0 && b <= a <= -b then (Round(-b, true), a - b)
    else if a >= 1 && 1 - a <= b <= a - 1 then (Round(a - 1, true), 2 * a - 1 + b + a - 1)
    else if b >= 1 && 1 - b <= a <= b then (Round(b, false), b - a)
    else
      assert a <= -1 && a + 1 <= b <= -a;
      (Round(-a, false), -2 * a - a - b)
  }

  function MoveOf(at: (int, int)): nat {
    var (round, p) := RoundOf(at);
    MovesBefore(round) + p
  }

  /** The number of the move that reaches cell `c`. */
  function VisitNumber(origin: Coord, dir: int, c: Coord): nat
    requires 0 <= dir < 4
  {
    MoveOf(Framed(origin, dir, c))
  }

  lemma PlaceOfRound(at: (int, int))
    ensures var (round, p) := RoundOf(at); round.Valid() && p < 2 * round.Leg() && Place(round, p) == at
  {
  }

  lemma RoundOfPlace(round: Round, p: nat)
    requires round.Valid() && p < 2 * round.Leg()
    ensures RoundOf(Place(round, p)) == (round, p)
  {
  }

  lemma FramedCell(origin: Coord, dir: int, at: (int, int))
    requires 0 <= dir < 4
    ensures Framed(origin, dir, CellAt(origin, dir, at)) == at
  {
  }

  lemma CellFramed(origin: Coord, dir: int, c: Coord)
    requires 0 <= dir < 4
    ensures CellAt(origin, dir, Framed(origin, dir, c)) == c
  {
  }

  lemma RoundsFollow(round: Round, p: nat, later: Round)
    requires round.Valid() && p < 2 * round.Leg() && later.Valid() && round.Leg() < later.Leg()
    ensures MovesBefore(round) + p < MovesBefore(later)
  {
    assert MovesBefore(round.Next()) == MovesBefore(round) + 2 * round.Leg();
    MovesBeforeMonotone(round.Next(), later);
  }

  lemma MoveIsUnique(round: Round, p: nat, other: Round, q: nat)
    requires round.Valid() && p < 2 * round.Leg() && other.Valid() && q < 2 * other.Leg()
    requires MovesBefore(round) + p == MovesBefore(other) + q
    ensures round == other && p == q
  {
    if round.Leg() < other.Leg() {
      RoundsFollow(round, p, other);
    } else if other.Leg() < round.Leg() {
      RoundsFollow(other, q, round);
    }
  }

  /** Every cell of the plane is reached, on the move `VisitNumber` gives. */
  lemma VisitReaches(origin: Coord, dir: int, c: Coord)
    requires 0 <= dir < 4
    ensures WalkAfter(Start(origin, dir), VisitNumber(origin, dir, c)).coord == c
  {
    var at := Framed(origin, dir, c);
    var (round, p) := RoundOf(at);
    var (round', p') := RoundAtMove(MoveOf(at));
    PlaceOfRound(at);
    MoveIsUnique(round, p, round', p');
    RunInRounds(origin, dir, MoveOf(at));
    CellFramed(origin, dir, c);
  }

  /** No cell is reached twice: the move number can be read back from the cell. */
  lemma VisitIsUnique(origin: Coord, dir: int, n: nat)
    requires 0 <= dir < 4
    ensures VisitNumber(origin, dir, WalkAfter(Start(origin, dir), n).coord) == n
  {
    var (round, p) := RoundAtMove(n);
    RunInRounds(origin, dir, n);
    FramedCell(origin, dir, Place(round, p));
    RoundOfPlace(round, p);
  }

  lemma {:induction false} MovesBeforeMonotone(round: Round, later: Round)
    requires round.Valid() && later.Valid() && round.Leg() <= later.Leg()
    ensures MovesBefore(round) <= MovesBefore(later)
    decreases later.m, later.odd
  {
    if round != later {
      MovesBeforeMonotone(round, if later.odd then Round(later.m, false) else Round(later.m - 1, true));
    }
  }

  /** The rounds up to the bottom row of the square of radius r stay inside, the rest outside. */
  lemma PlaceWithinSquare(round: Round, p: nat, r: int)
    requires 0 <= r && round.Valid() && p < 2 * round.Leg()
    ensures (-r <= Place(round, p).0 <= r && -r <= Place(round, p).1 <= r) <==>
            (round.Leg() <= 2 * r || (round.Leg() == 2 * r + 1 && p <= 2 * r))
  {
  }

  lemma MoveWithinRounds(at: (int, int), r: int)
    requires 0 <= r
    ensures MoveOf(at) < MovesBefore(Round(r, true)) + 2 * r + 1 <==> (-r <= at.0 <= r && -r <= at.1 <= r)
  {
    var (round, p) := RoundOf(at);
    PlaceOfRound(at);
    PlaceWithinSquare(round, p, r);
    var bottom := Round(r, true);
    if round.Leg() < bottom.Leg() {
      RoundsFollow(round, p, bottom);
    } else if round.Leg() > bottom.Leg() {
      RoundsFollow(bottom, 2 * r + 1, round);
    }
  }

  lemma VisitWithinRounds(origin: Coord, dir: int, c: Coord, r: nat)
    requires 0 <= dir < 4
    ensures VisitNumber(origin, dir, c) < MovesBefore(Round(r, true)) + 2 * r + 1 <==> InSquare(origin, r, c)
  {
    MoveWithinRounds(Framed(origin, dir, c), r);
    FramedInSquare(origin, dir, c, r);
  }

  /** The first (2r+1)^2 moves are exactly those inside the square of radius r. */
  lemma SquareIsPrefix(origin: Coord, dir: int, c: Coord, r: int)
    requires 0 <= dir < 4 && 0 <= r
    ensures VisitNumber(origin, dir, c) < SquareCells(r) <==> InSquare(origin, r, c)
  {
    VisitWithinRounds(origin, dir, c, r);
    SquareSize(r);
  }

  lemma FramedInSquare(origin: Coord, dir: int, c: Coord, r: int)
    requires 0 <= dir < 4 && 0 <= r
    ensures var at := Framed(origin, dir, c); (-r <= at.0 <= r && -r <= at.1 <= r) <==> InSquare(origin, r, c)
  {
  }

  /**
   From any start cell and direction, the first (2r+1)^2 positions, the origin included,
   are pairwise distinct and are exactly the square of radius r around the origin.
   */
  lemma SpiralFillsSquare(origin: Coord, dir: int, r: int)
    requires 0 <= dir < 4 && 0 <= r
    ensures forall i: nat, j: nat :: i != j ==>
              WalkAfter(Start(origin, dir), i).coord != WalkAfter(Start(origin, dir), j).coord
    ensures forall n: nat ::
              n < SquareCells(r) <==> InSquare(origin, r, WalkAfter(Start(origin, dir), n).coord)
    ensures forall c :: InSquare(origin, r, c) ==>
              ReachedWithin(origin, dir, SquareCells(r), c)
  {
    forall i: nat, j: nat | i != j
      ensures WalkAfter(Start(origin, dir), i).coord != WalkAfter(Start(origin, dir), j).coord
    {
      VisitIsUnique(origin, dir, i);
      VisitIsUnique(origin, dir, j);
    }
    forall n: nat
      ensures n < SquareCells(r) <==> InSquare(origin, r, WalkAfter(Start(origin, dir), n).coord)
    {
      VisitIsUnique(origin, dir, n);
      SquareIsPrefix(origin, dir, WalkAfter(Start(origin, dir), n).coord, r);
    }
    forall c | InSquare(origin, r, c)
      ensures ReachedWithin(origin, dir, SquareCells(r), c)
    {
      VisitReaches(origin, dir, c);
      SquareIsPrefix(origin, dir, c, r);
      var n := VisitNumber(origin, dir, c);
      assert n < SquareCells(r) && WalkAfter(Start(origin, dir), n).coord == c;
    }
  }

  // ---------------------------------------------------------------------------
  // The stepper and the search loop that uses it.
  // ---------------------------------------------------------------------------

  class Stepper {
    var coord: Coord
    var dir: int
    var steps: int
    var pos: int

    ghost function State(): Walk
      reads this
    {
      Walk(coord, dir, steps, pos)
    }

    constructor (origin: Coord, dir: int)
      ensures State() == Start(origin, dir)
    {
      this.coord, this.dir, this.steps, this.pos := origin, dir, 1, 0;
    }

    method RadialSearch()
      modifies this
      ensures State() == Step(old(State()))
    {
      if dir == 0 {
        coord := Coord(coord.x, coord.y + 1);
      } else if dir == 1 {
        coord := Coord(coord.x + 1, coord.y);
      } else if dir == 2 {
        coord := Coord(coord.x, coord.y - 1);
      } else if dir == 3 {
        coord := Coord(coord.x - 1, coord.y);
      }
      pos := pos + 1;
      if pos == steps {
        dir := Remainder4(dir + 1);
      }
      if pos == steps * 2 {
        dir := Remainder4(dir + 1);
        steps := steps + 1;
        pos := 0;
      }
    }
  }

  /** The cells that the search may try: those of the grid that hold a tile, or the origin alone for a strict anchor. */
  ghost predicate IsTrial(origin: Coord, width: int, height: int, strict: bool, present: Coord -> bool, c: Coord) {
    InGrid(width, height, c) && present(c) && (strict ==> c == origin)
  }

  lemma GridInSquare(origin: Coord, width: int, height: int, c: Coord)
    requires InGrid(width, height, c)
    ensures InSquare(origin, CoveringRadius(origin, width, height), c)
  {
  }

  /** The walk covers the grid. */
  lemma GridIsCovered(origin: Coord, dir: int, width: int, height: int, c: Coord)
    requires 0 <= dir < 4 && InGrid(width, height, c)
    ensures VisitNumber(origin, dir, c) < CoverageSteps(origin, width, height)
  {
    GridInSquare(origin, width, height, c);
    SquareIsPrefix(origin, dir, c, CoveringRadius(origin, width, height));
  }

  /** How many positions to walk: enough for the whole grid, or one for a strict anchor. */
  method SearchSteps(origin: Coord, ghost dir: int, width: int, height: int, strict: bool) returns (limit: nat)
    requires 0 <= dir < 4
    ensures strict ==> limit == 1
    ensures forall c :: InGrid(width, height, c) && (strict ==> c == origin) ==> ReachedWithin(origin, dir, limit, c)
  {
    if strict {
      assert WalkAfter(Start(origin, dir), 0).coord == origin;
      return 1;
    }
    forall c | InGrid(width, height, c)
      ensures ReachedWithin(origin, dir, CoverageSteps(origin, width, height), c)
    {
      GridIsCovered(origin, dir, width, height, c);
      VisitReaches(origin, dir, c);
    }
    return CoverageSteps(origin, width, height);
  }

  /** The trials so far: the cells that may be tried among the first `n` of the walk, each once. */
  ghost predicate IsTrials(tried: seq<Coord>, origin: Coord, dir: int, width: int, height: int, strict: bool,
                           present: Coord -> bool, n: int)
  {
    NoDup(tried) &&
    forall c :: c in tried <==> IsTrial(origin, width, height, strict, present, c) && ReachedWithin(origin, dir, n, c)
  }

  lemma OneMoreTrial(tried: seq<Coord>, origin: Coord, dir: int, width: int, height: int, strict: bool,
                     present: Coord -> bool, i: nat, at: Coord)
    requires 0 <= dir < 4 && at == WalkAfter(Start(origin, dir), i).coord
    requires IsTrials(tried, origin, dir, width, height, strict, present, i)
    ensures IsTrials(if IsTrial(origin, width, height, strict, present, at) then tried + [at] else tried,
                     origin, dir, width, height, strict, present, i + 1)
  {
    forall c
      ensures ReachedWithin(origin, dir, i + 1, c) <==> ReachedWithin(origin, dir, i, c) || c == at
    {
      if ReachedWithin(origin, dir, i, c) {
        var n: nat :| n < i && WalkAfter(Start(origin, dir), n).coord == c;
        assert n < i + 1 && WalkAfter(Start(origin, dir), n).coord == c;
      }
    }
    if ReachedWithin(origin, dir, i, at) {
      VisitIsUnique(origin, dir, i);
      var n: nat :| n < i && WalkAfter(Start(origin, dir), n).coord == at;
      VisitIsUnique(origin, dir, n);
    }
    assert forall a :: 0 <= a < |tried| ==> tried[a] in tried;
  }

  ghost predicate Refused(tried: seq<Coord>, tryAdd: Coord -> int) {
    forall c :: c in tried ==> tryAdd(c) < 0
  }

  /**
   The search loop of placement. It takes the first cell of the walk that holds a tile and accepts the
   instance, and fails only if no such cell of the grid accepts it, wherever the search starts, even
   from outside the grid. No cell is tried twice. `tryAdd` stands for the tile's answer, negative if it refuses.
   */
  method SearchCells(origin: Coord, dir: int, width: int, height: int, strict: bool, present: Coord -> bool,
                     tryAdd: Coord -> int)
    returns (found: Option<Coord>, pos: int, tried: seq<Coord>, steps: nat)
    requires 0 <= dir < 4
    ensures NoDup(tried)
    ensures found.None? ==> forall c :: c in tried <==> IsTrial(origin, width, height, strict, present, c)
    ensures found.None? ==> Refused(tried, tryAdd)
    ensures found.Some? ==> WalkAfter(Start(origin, dir), steps).coord == found.value && pos == tryAdd(found.value) >= 0
    ensures found.Some? ==> IsTrials(tried, origin, dir, width, height, strict, present, steps + 1)
    ensures found.Some? ==> tried != [] && tried[|tried| - 1] == found.value && Refused(tried[..|tried| - 1], tryAdd)
  {
    var limit := SearchSteps(origin, dir, width, height, strict);
    var walk := new Stepper(origin, dir);
    tried := [];
    for i := 0 to limit
      invariant walk.State() == WalkAfter(Start(origin, dir), i)
      invariant IsTrials(tried, origin, dir, width, height, strict, present, i) && Refused(tried, tryAdd)
    {
      OneMoreTrial(tried, origin, dir, width, height, strict, present, i, walk.coord);
      if 0 <= walk.coord.x < width && 0 <= walk.coord.y < height && present(walk.coord) {
        tried := tried + [walk.coord];
        pos := tryAdd(walk.coord);
        if pos >= 0 {
          return Some(walk.coord), pos, tried, i;
        }
      }
      walk.RadialSearch();
    }
    return None, -1, tried, limit;
  }
}
