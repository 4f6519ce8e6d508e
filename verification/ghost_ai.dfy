/** The ghost AI: `ghostDir` (random among the allowed directions when frightened, greedy towards a
    role-dependent target otherwise) and `stepGhost` (re-targets at tile centres, moves, decays the
    frightened timer). */
module GhostAI {
  import opened Geometry
  import opened MazeModel
  import opened Movement

  /** The frightened timer loses 0.02 per ghost step: 2 in hundredths. */
  const FrightDecay := 2
  /** Clyde retreats when closer than 6 tiles (taxicab) to Pac. */
  const ClydeRange := 6

  /** A direction the ghost may take from its tile: an axis leading to a ghost-passable tile that is not
      the exact reverse of its current direction. */
  predicate Allowed(m: Maze, g: Entity, d: Vec) {
    IsAxis(d) && Passable(m, GhostMover, Step(g.At(), d)) && d != Neg(g.dir)
  }

  /** Position of an axis in the order right, left, down, up. */
  function Rank(d: Vec): nat {
    if d == Right then 0 else if d == Left then 1 else if d == Down then 2 else 3
  }

  function Keep(m: Maze, g: Entity, d: Vec): seq<Vec> {
    if Allowed(m, g, d) then [d] else []
  }

  /** The `dirs` list of `ghostDir`: `[right, left, down, up].filter(...)`, the allowed directions in that
      order. */
  function Candidates(m: Maze, g: Entity): (ds: seq<Vec>)
    ensures forall d :: d in ds <==> Allowed(m, g, d)
    ensures forall a, b :: 0 <= a < b < |ds| ==> Rank(ds[a]) < Rank(ds[b])
  {
    Keep(m, g, Right) + Keep(m, g, Left) + Keep(m, g, Down) + Keep(m, g, Up)
  }

  /** The chase target by role: Pinky aims two tiles ahead of Pac; Inky at the rounded midpoint of the first
      ghost and Pac; Clyde at the corner (1, H-2) when within 6 tiles of Pac; everyone else at Pac. */
  function Target(m: Maze, g: Entity, pac: Entity, ghosts: seq<Entity>): Pos {
    match g.role
    case Pinky => Pos(pac.x + 2 * pac.dir.dx, pac.y + 2 * pac.dir.dy)
    case Inky =>
      var lead := if |ghosts| > 0 then ghosts[0] else g;
      Pos(RoundHalf(lead.x + pac.x), RoundHalf(lead.y + pac.y))
    case Clyde => if Manhattan(g.At(), pac.At()) < ClydeRange then Pos(1, m.h - 2) else pac.At()
    case _ => pac.At()
  }

  /** The distance a candidate is scored by. */
  function Score(from: Pos, d: Vec, target: Pos): nat {
    SqDist(Step(from, d), target)
  }

  /** The scoring loop of `ghostDir`: a left-to-right scan replacing the best only on a strictly smaller
      score, so it ends on the FIRST minimiser. */
  function BestFrom(ds: seq<Vec>, from: Pos, target: Pos, i: nat, best: nat): (k: nat)
    requires best < i <= |ds|
    requires forall j :: 0 <= j < i ==> Score(from, ds[best], target) <= Score(from, ds[j], target)
    requires forall j :: 0 <= j < best ==> Score(from, ds[j], target) > Score(from, ds[best], target)
    ensures k < |ds|
    ensures forall j :: 0 <= j < |ds| ==> Score(from, ds[k], target) <= Score(from, ds[j], target)
    ensures forall j :: 0 <= j < k ==> Score(from, ds[j], target) > Score(from, ds[k], target)
    decreases |ds| - i
  {
    if i == |ds| then best
    else if Score(from, ds[i], target) < Score(from, ds[best], target) then BestFrom(ds, from, target, i + 1, i)
    else BestFrom(ds, from, target, i + 1, best)
  }

  /** The candidate the scoring loop picks is at minimal distance among ALL allowed directions, and every
      allowed direction earlier in the order right, left, down, up is strictly farther. */
  lemma BestAmongAllowed(m: Maze, g: Entity, t: Pos, k: nat)
    requires k < |Candidates(m, g)|
    requires var ds := Candidates(m, g);
      && (forall j :: 0 <= j < |ds| ==> Score(g.At(), ds[k], t) <= Score(g.At(), ds[j], t))
      && (forall j :: 0 <= j < k ==> Score(g.At(), ds[j], t) > Score(g.At(), ds[k], t))
    ensures var r := Candidates(m, g)[k];
      && (forall d :: Allowed(m, g, d) ==> Score(g.At(), r, t) <= Score(g.At(), d, t))
      && (forall d :: Allowed(m, g, d) && Rank(d) < Rank(r) ==> Score(g.At(), d, t) > Score(g.At(), r, t))
  {
    var ds := Candidates(m, g);
    forall d | Allowed(m, g, d)
      ensures Score(g.At(), ds[k], t) <= Score(g.At(), d, t)
      ensures Rank(d) < Rank(ds[k]) ==> Score(g.At(), d, t) > Score(g.At(), ds[k], t)
    {
      assert d in ds;
      var j :| 0 <= j < |ds| && ds[j] == d;
      if Rank(d) < Rank(ds[k]) {
        assert j < k;
      }
    }
  }

  /** `ghostDir`. `choice` stands for the random draw `Math.floor(Math.random() * dirs.length)`. */
  function GhostDir(m: Maze, g: Entity, pac: Entity, ghosts: seq<Entity>, choice: nat): (r: Vec)
    ensures r == Zero <==> forall d :: !Allowed(m, g, d)
    ensures r != Zero ==> Allowed(m, g, r)
    ensures r != Zero && g.frightened <= 0 ==>
      var t := Target(m, g, pac, ghosts);
      && (forall d :: Allowed(m, g, d) ==> Score(g.At(), r, t) <= Score(g.At(), d, t))
      && (forall d :: Allowed(m, g, d) && Rank(d) < Rank(r) ==> Score(g.At(), d, t) > Score(g.At(), r, t))
  {
    var ds := Candidates(m, g);
    if |ds| == 0 then Zero
    else
      assert ds[0] in ds;
      if g.frightened > 0 then
        var r := ds[choice % |ds|];
        assert r in ds;
        r
      else
        var t := Target(m, g, pac, ghosts);
        var k := BestFrom(ds, g.At(), t, 1, 0);
        BestAmongAllowed(m, g, t, k);
        assert ds[k] in ds;
        ds[k]
  }

  /** A draw below the candidate count selects that candidate. */
  lemma ModBelow(j: nat, n: nat)
    requires j < n
    ensures j % n == j
  {
  }

  /** A frightened ghost can take any allowed direction: for each one some draw of the random number
      selects it. */
  lemma FrightenedReachesEveryCandidate(m: Maze, g: Entity, pac: Entity, ghosts: seq<Entity>, d: Vec)
    requires g.frightened > 0 && Allowed(m, g, d)
    ensures exists choice: nat :: GhostDir(m, g, pac, ghosts, choice) == d
  {
    var ds := Candidates(m, g);
    var j :| 0 <= j < |ds| && ds[j] == d;
    ModBelow(j, |ds|);
    assert GhostDir(m, g, pac, ghosts, j) == ds[j % |ds|];
  }

  /** The direction a ghost holds after its AI turn, before `stepEntity` checks it: the AI's pick at a tile
      centre when that is not (0,0), the old direction otherwise. */
  function Turned(m: Maze, g: Entity, pac: Entity, ghosts: seq<Entity>, choice: nat): (r: Entity)
    ensures r == g.(dir := r.dir)
    ensures r.dir == g.dir || Allowed(m, g, r.dir)
    ensures g.sub > 0 ==> r == g
    ensures g.sub <= 0 && GhostDir(m, g, pac, ghosts, choice) != Zero ==> r.dir == GhostDir(m, g, pac, ghosts, choice)
    ensures g.sub <= 0 && GhostDir(m, g, pac, ghosts, choice) == Zero ==> r == g
  {
    var nd := if g.sub <= 0 then GhostDir(m, g, pac, ghosts, choice) else Zero;
    if nd != Zero then g.(dir := nd) else g
  }

  /** The timer decay at the end of `stepGhost`: a positive frightened timer loses 0.02. */
  function Decay(g: Entity): Entity {
    g.(frightened := if g.frightened > 0 then g.frightened - FrightDecay else g.frightened)
  }

  /** `stepGhost`: at a tile centre take the AI's direction unless it is (0,0), in which case the old one is
      kept; then `stepEntity` with the ghost passability; then a positive frightened timer decays. */
  function StepGhost(m: Maze, g: Entity, pac: Entity, ghosts: seq<Entity>, choice: nat): Entity {
    Decay(StepEntity(m, Turned(m, g, pac, ghosts, choice), GhostMover))
  }

  /** Movement of a ghost whose direction was just (re)chosen: whatever the new direction, the tile and
      progress rules of `stepEntity` hold relative to the ghost before its turn. */
  lemma MovesAfterTurn(m: Maze, g: Entity, g1: Entity)
    requires Moving(g) && g1 == g.(dir := g1.dir)
    ensures var r := Decay(StepEntity(m, g1, GhostMover));
      && Moving(r)
      && r.frightened == (if g.frightened > 0 then g.frightened - FrightDecay else g.frightened)
      && r.role == g.role && r.speed == g.speed && r.spawnX == g.spawnX && r.spawnY == g.spawnY
      && (r.sub == 0 <==> g.sub + g.speed >= TileUnits)
      && (r.sub != 0 ==> r.At() == g.At())
      && (r.sub == 0 ==> r.At() == Wrap(m, g.x + r.dir.dx, g.y + r.dir.dy))
  {
    var r1 := StepEntity(m, g1, GhostMover);
    StepEntityMoves(m, g1, GhostMover);
    assert g1.x == g.x && g1.y == g.y && g1.sub == g.sub && g1.speed == g.speed && g1.frightened == g.frightened;
    assert g1.role == g.role && g1.spawnX == g.spawnX && g1.spawnY == g.spawnY;
  }

  /** The frightened timer decays by exactly 0.02 per ghost step while positive and is otherwise untouched;
      a ghost's identity, speed and spawn never change. */
  lemma StepGhostTimer(m: Maze, g: Entity, pac: Entity, ghosts: seq<Entity>, choice: nat)
    requires Moving(g)
    ensures var r := StepGhost(m, g, pac, ghosts, choice);
      && r.frightened == (if g.frightened > 0 then g.frightened - FrightDecay else g.frightened)
      && r.role == g.role && r.speed == g.speed && r.spawnX == g.spawnX && r.spawnY == g.spawnY
  {
    MovesAfterTurn(m, g, Turned(m, g, pac, ghosts, choice));
  }

  /** A ghost never turns round in one step (its new direction is never the reverse of the old one), only
      holds directions that lead to a ghost-passable tile, and changes direction only at a tile centre
      (or stops when blocked). */
  lemma StepGhostHeading(m: Maze, g: Entity, pac: Entity, ghosts: seq<Entity>, choice: nat)
    requires Moving(g)
    ensures var r := StepGhost(m, g, pac, ghosts, choice);
      && (r.dir == Zero || r.dir != Neg(g.dir))
      && (r.dir != Zero ==> Passable(m, GhostMover, Step(g.At(), r.dir)))
      && (g.sub > 0 ==> r.dir == g.dir || r.dir == Zero)
      && (IsDir(g.dir) ==> IsDir(r.dir))
  {
    var g1 := Turned(m, g, pac, ghosts, choice);
    var g2 := StepEntity(m, g1, GhostMover);
    StepEntitySpec(m, g1, GhostMover);
    assert StepGhost(m, g, pac, ghosts, choice).dir == g2.dir;
    assert g1.At() == g.At();
    if g1.dir != g.dir {
      assert Allowed(m, g, g1.dir);
      assert IsAxis(g1.dir);
    }
  }

  /** The direction a ghost holds after its step: at a tile centre a non-zero AI pick always becomes the
      direction (it leads to an open tile, so `stepEntity` keeps it); otherwise the old direction is kept
      when its tile is open and dropped to (0,0) when blocked. */
  lemma StepGhostDirection(m: Maze, g: Entity, pac: Entity, ghosts: seq<Entity>, choice: nat)
    requires Moving(g)
    ensures var r := StepGhost(m, g, pac, ghosts, choice); var nd := GhostDir(m, g, pac, ghosts, choice);
      && (g.sub <= 0 && nd != Zero ==> r.dir == nd)
      && (g.sub > 0 || nd == Zero ==>
            r.dir == (if Passable(m, GhostMover, Step(g.At(), g.dir)) then g.dir else Zero))
  {
    var g1 := Turned(m, g, pac, ghosts, choice);
    StepEntitySpec(m, g1, GhostMover);
    assert StepGhost(m, g, pac, ghosts, choice).dir == StepEntity(m, g1, GhostMover).dir;
    assert g1.At() == g.At();
  }

  /** Ghost movement: the progress returns to 0 exactly when a tile is committed, the tile is unchanged
      between commits, and a committed tile is, before wrapping, one step along the held direction. */
  lemma StepGhostMoves(m: Maze, g: Entity, pac: Entity, ghosts: seq<Entity>, choice: nat)
    requires Moving(g)
    ensures var r := StepGhost(m, g, pac, ghosts, choice);
      && Moving(r)
      && (r.sub == 0 <==> g.sub + g.speed >= TileUnits)
      && (r.sub != 0 ==> r.At() == g.At())
      && (r.sub == 0 ==> r.At() == Wrap(m, g.x + r.dir.dx, g.y + r.dir.dy))
  {
    MovesAfterTurn(m, g, Turned(m, g, pac, ghosts, choice));
  }

  /** In a loaded maze a ghost standing on a ghost-open tile is still on one after its step. */
  lemma StepGhostKeepsOpen(m: Maze, g: Entity, pac: Entity, ghosts: seq<Entity>, choice: nat)
    requires WellFormed(m) && Moving(g) && Passable(m, GhostMover, g.At())
    ensures Passable(m, GhostMover, StepGhost(m, g, pac, ghosts, choice).At())
  {
    var g1 := Turned(m, g, pac, ghosts, choice);
    StepEntityKeepsOpen(m, g1, GhostMover);
    assert g1.At() == g.At();
  }
}
