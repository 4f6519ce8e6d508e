/** Agents and their sub-tile movement: `makeEntity`, `stepEntity` (used for ghosts, re-checks its
    direction every tick) and the movement half of `stepPac` (turns only at a tile centre). */
module Movement {
  import opened Geometry
  import opened MazeModel

  /** Sub-tile progress and speeds are kept in thousandths of a tile: the source's `sub = 1` is 1000. */
  const TileUnits := 1000
  /** Pac's 0.11 tiles per tick. */
  const PacSpeed := 110

  /** Pac, or one of the ghost identities that select a targeting rule. */
  datatype Role = Pac | Blinky | Pinky | Inky | Clyde

  /** The shared entity record. `frightened` is in hundredths of the source's unit. The source's `color`,
      `dead`, `name` and `bias` fields are not kept: `role` stands for the name, and colour, `dead` (never
      read) and the bias (see the ghost AI) do not influence the simulation. */
  datatype Entity = Entity(
    x: int,
    y: int,
    dir: Vec,
    sub: int,
    speed: int,
    frightened: int,
    spawnX: int,
    spawnY: int,
    role: Role)
  {
    function At(): Pos { Pos(x, y) }
  }

  /** `makeEntity`: at rest on its spawn tile. */
  function MakeEntity(x: int, y: int, speed: int, role: Role): (e: Entity)
    ensures e.At() == Pos(x, y) && e.spawnX == x && e.spawnY == y
    ensures e.dir == Zero && e.sub == 0 && e.frightened == 0
    ensures e.speed == speed && e.role == role
  {
    Entity(x, y, Zero, 0, speed, 0, x, y, role)
  }

  /** Which passability predicate a mover consults (`canMovePac` or `canMoveGhost`). */
  datatype Mover = PacMover | GhostMover

  predicate Passable(m: Maze, who: Mover, p: Pos) {
    match who
    case PacMover => PassableForPac(m, p.x, p.y)
    case GhostMover => PassableForGhost(m, p.x, p.y)
  }

  /** Speed is positive and progress lies within the current tile; every entity the engine builds is so. */
  predicate Moving(e: Entity) {
    e.speed > 0 && 0 <= e.sub < TileUnits
  }

  /** The movement half shared by `stepEntity` and `stepPac`: add the speed to the progress; once a whole
      tile is reached, move one tile along `dir`, reset the progress and apply `wrap`. */
  function Advance(m: Maze, e: Entity): (r: Entity)
    ensures r.dir == e.dir && r.speed == e.speed && r.frightened == e.frightened && r.role == e.role
    ensures r.spawnX == e.spawnX && r.spawnY == e.spawnY
    ensures e.sub + e.speed < TileUnits ==> r.At() == e.At() && r.sub == e.sub + e.speed
    ensures e.sub + e.speed >= TileUnits ==> r.sub == 0 && r.At() == Wrap(m, e.x + e.dir.dx, e.y + e.dir.dy)
  {
    var sub := e.sub + e.speed;
    if sub >= TileUnits then
      var w := Wrap(m, e.x + e.dir.dx, e.y + e.dir.dy);
      e.(x := w.x, y := w.y, sub := 0)
    else
      e.(sub := sub)
  }

  /** The direction `stepEntity` moves along: the current one when its tile is open, (0,0) when blocked. */
  function Heading(m: Maze, e: Entity, who: Mover): Vec {
    if Passable(m, who, Step(e.At(), e.dir)) then e.dir else Zero
  }

  /** `stepEntity`: stop when the current direction is blocked, then advance. */
  function StepEntity(m: Maze, e: Entity, who: Mover): Entity {
    Advance(m, e.(dir := Heading(m, e, who)))
  }

  /** What one `stepEntity` tick does: the direction is kept when open and dropped to (0,0) when blocked;
      the progress returns to 0 exactly when a tile is committed; a committed tile is, before wrapping, one
      step along an open direction (or the same tile when stopped); between commits the tile does not change. */
  lemma StepEntitySpec(m: Maze, e: Entity, who: Mover)
    requires Moving(e)
    ensures var r := StepEntity(m, e, who);
      && (r.dir == e.dir || r.dir == Zero)
      && (r.dir != Zero ==> Passable(m, who, Step(e.At(), r.dir)))
      && (Passable(m, who, Step(e.At(), e.dir)) ==> r.dir == e.dir)
    ensures var r := StepEntity(m, e, who);
      && Moving(r)
      && (r.sub == 0 <==> e.sub + e.speed >= TileUnits)
      && (r.sub != 0 ==> r.At() == e.At())
      && (r.sub == 0 ==> r.At() == Wrap(m, e.x + r.dir.dx, e.y + r.dir.dy))
    ensures var r := StepEntity(m, e, who);
      IsDir(e.dir) ==> Manhattan(e.At(), Step(e.At(), r.dir)) <= 1
  {
    var r := StepEntity(m, e, who);
    StepEntityMoves(m, e, who);
    if IsDir(e.dir) {
      assert IsDir(r.dir);
      StepIsAdjacent(e.At(), r.dir);
    }
  }

  /** The progress half of `stepEntity`: it returns to 0 exactly when a tile is committed, the tile is kept
      between commits, and a committed tile is the wrapped step along the direction held after the check. */
  lemma StepEntityMoves(m: Maze, e: Entity, who: Mover)
    requires Moving(e)
    ensures var r := StepEntity(m, e, who);
      && Moving(r) && r.frightened == e.frightened && r.role == e.role
      && r.spawnX == e.spawnX && r.spawnY == e.spawnY && r.speed == e.speed
      && (r.sub == 0 <==> e.sub + e.speed >= TileUnits)
      && (r.sub != 0 ==> r.At() == e.At())
      && (r.sub == 0 ==> r.At() == Wrap(m, e.x + r.dir.dx, e.y + r.dir.dy))
  {
    var e1 := e.(dir := Heading(m, e, who));
    assert Moving(e1);
  }

  /** Wrapping keeps a tile open to the mover open to it. */
  lemma WrapKeepsPassable(m: Maze, who: Mover, p: Pos)
    requires WellFormed(m) && Passable(m, who, p)
    ensures Passable(m, who, Wrap(m, p.x, p.y))
  {
    WrapKeepsOpen(m, p.x, p.y);
  }

  /** In a loaded maze `stepEntity` never leaves the mover's open tiles: from an open tile it ends on an open
      tile (one step along an open direction, wrapped, or the tile it stood on). */
  lemma StepEntityKeepsOpen(m: Maze, e: Entity, who: Mover)
    requires WellFormed(m) && Moving(e) && Passable(m, who, e.At())
    ensures Passable(m, who, StepEntity(m, e, who).At())
  {
    var r := StepEntity(m, e, who);
    StepEntitySpec(m, e, who);
    if r.sub == 0 {
      var p := Step(e.At(), r.dir);
      if r.dir == Zero {
        assert p == e.At();
      }
      WrapKeepsPassable(m, who, p);
    }
  }

  /** The turning half of `stepPac`: only at a tile centre (`sub <= 0`) Pac takes a non-zero intent whose
      tile is open, and then stops if the resulting direction is blocked; elsewhere the direction is kept. */
  function TurnPac(m: Maze, pac: Entity, intent: Vec): Vec {
    if pac.sub <= 0 then
      var d := if intent != Zero && Passable(m, PacMover, Step(pac.At(), intent)) then intent else pac.dir;
      if Passable(m, PacMover, Step(pac.At(), d)) then d else Zero
    else
      pac.dir
  }

  /** The movement half of `stepPac`. */
  function MovePac(m: Maze, pac: Entity, intent: Vec): Entity {
    Advance(m, pac.(dir := TurnPac(m, pac, intent)))
  }

  /** Pac's standing invariant: between tile centres its direction leads to an open tile (or it is stopped).
      It holds after every reset (progress 0) and every `stepPac`. */
  predicate PacAheadOpen(m: Maze, pac: Entity) {
    pac.sub > 0 ==> pac.dir == Zero || Passable(m, PacMover, Step(pac.At(), pac.dir))
  }

  /** What Pac's movement does in one tick: its direction changes only at a tile centre, where an open
      non-zero intent always wins and otherwise the old direction is kept when open and dropped when
      blocked; progress returns to 0 exactly when a tile is committed; a committed tile is, before wrapping,
      one open step along the direction; and the open-ahead invariant is kept. */
  lemma MovePacSpec(m: Maze, pac: Entity, intent: Vec)
    requires Moving(pac) && PacAheadOpen(m, pac)
    ensures var r := MovePac(m, pac, intent);
      && (pac.sub > 0 ==> r.dir == pac.dir)
      && (pac.sub <= 0 && intent != Zero && Passable(m, PacMover, Step(pac.At(), intent)) ==> r.dir == intent)
      && (pac.sub <= 0 && !(intent != Zero && Passable(m, PacMover, Step(pac.At(), intent))) ==>
            r.dir == (if Passable(m, PacMover, Step(pac.At(), pac.dir)) then pac.dir else Zero))
      && (r.dir == intent || r.dir == pac.dir || r.dir == Zero)
    ensures var r := MovePac(m, pac, intent);
      && Moving(r)
      && PacAheadOpen(m, r)
      && (r.sub == 0 <==> pac.sub + pac.speed >= TileUnits)
      && (r.sub != 0 ==> r.At() == pac.At())
      && (r.sub == 0 ==> r.At() == Wrap(m, pac.x + r.dir.dx, pac.y + r.dir.dy))
      && (r.sub == 0 && r.dir != Zero ==> Passable(m, PacMover, Step(pac.At(), r.dir)))
    ensures var r := MovePac(m, pac, intent);
      IsDir(pac.dir) && IsDir(intent) ==> IsDir(r.dir) && Manhattan(pac.At(), Step(pac.At(), r.dir)) <= 1
  {
    var r := MovePac(m, pac, intent);
    if IsDir(pac.dir) && IsDir(intent) {
      StepIsAdjacent(pac.At(), r.dir);
    }
  }

  /** In a loaded maze Pac never leaves its open tiles: from an open tile it ends on an open tile. */
  lemma MovePacKeepsOpen(m: Maze, pac: Entity, intent: Vec)
    requires WellFormed(m) && Moving(pac) && PacAheadOpen(m, pac) && Passable(m, PacMover, pac.At())
    ensures Passable(m, PacMover, MovePac(m, pac, intent).At())
  {
    var r := MovePac(m, pac, intent);
    MovePacSpec(m, pac, intent);
    if r.sub == 0 {
      var p := Step(pac.At(), r.dir);
      WrapKeepsOpen(m, p.x, p.y);
    }
  }
}
