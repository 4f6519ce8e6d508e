/** Game state and the simulation tick: `resetPositions`, the eating half of `stepPac` (with level
    advance), `collide`, `togglePause`, `restart`, the boot sequence and the simulation branch of `tick`. */
module Game {
  import opened Optional
  import opened Geometry
  import opened MazeModel
  import opened Movement
  import opened GhostAI

  const NormalPoints := 10
  const PowerPoints := 50
  const GhostPoints := 200
  const StartLives := 3
  /** Beyond half a tile of progress a ghost counts as standing on the tile it is entering (`sub > 0.5`). */
  const HalfTile := 500

  /** The frightened time a power pellet grants on `level`: 6 + (level - 1), in hundredths. */
  function FrightTime(level: int): int {
    600 + 100 * (level - 1)
  }

  /** The object `S`. */
  datatype Status = Status(score: int, lives: int, level: int, paused: bool, over: bool)

  /** The mutable simulation state: `S`, the live pellet list, Pac and the ghost list. */
  datatype World = World(st: Status, pellets: seq<Pellet>, pac: Entity, ghosts: seq<Entity>)

  // ---------------------------------------------------------------------------------------------
  // Spawning

  /** The identity of the i-th ghost (`GPROPS[i].name`). */
  function GhostRole(i: nat): Role {
    if i == 0 then Blinky else if i == 1 then Pinky else if i == 2 then Inky else Clyde
  }

  /** `GPROPS[i].speed` in thousandths: 0.10, 0.095, 0.092, 0.090. */
  function GhostSpeed(r: Role): int {
    match r
    case Blinky => 100
    case Pinky => 95
    case Inky => 92
    case Clyde => 90
    case Pac => PacSpeed
  }

  /** `Math.min(4, Math.max(1, ghostStarts.length))`. */
  function GhostCount(m: Maze): nat {
    var n := if |m.ghostStarts| > 1 then |m.ghostStarts| else 1;
    if n < 4 then n else 4
  }

  /** Where the i-th ghost spawns: `ghostStarts[i] || pacStart`. */
  function GhostSpawn(m: Maze, i: nat): Pos {
    if i < |m.ghostStarts| then m.ghostStarts[i] else m.pacStart
  }

  /** The ghost list `resetPositions` builds: between one and four ghosts, the i-th at rest on its spawn with
      the i-th identity and speed; a maze without enough `G` cells puts the missing first ghost on Pac's
      spawn. */
  function SpawnGhosts(m: Maze): (gs: seq<Entity>)
    ensures 1 <= |gs| <= 4
    ensures 1 <= |m.ghostStarts| <= 4 ==> |gs| == |m.ghostStarts|
    ensures |m.ghostStarts| == 0 ==> |gs| == 1 && gs[0].At() == m.pacStart
    ensures |m.ghostStarts| >= 4 ==> |gs| == 4
    ensures forall i :: 0 <= i < |gs| ==>
      && (i < |m.ghostStarts| ==> gs[i].At() == m.ghostStarts[i])
      && gs[i].spawnX == gs[i].x && gs[i].spawnY == gs[i].y
      && gs[i].dir == Zero && gs[i].sub == 0 && gs[i].frightened == 0
      && gs[i].role == GhostRole(i) && gs[i].speed == GhostSpeed(GhostRole(i))
  {
    var n := GhostCount(m);
    seq(n, i requires 0 <= i < n =>
      var s := GhostSpawn(m, i);
      MakeEntity(s.x, s.y, GhostSpeed(GhostRole(i)), GhostRole(i)))
  }

  /** `resetPositions`: Pac back on its start tile facing left at a tile centre, the ghost list rebuilt;
      score, lives, level, flags and pellets are untouched. */
  function ResetPositions(m: Maze, w: World): (r: World)
    ensures r.st == w.st && r.pellets == w.pellets
    ensures r.pac.At() == m.pacStart && r.pac.dir == Left && r.pac.sub == 0 && r.pac.frightened == 0
    ensures r.pac.speed == w.pac.speed && r.pac.role == w.pac.role
    ensures r.pac.spawnX == w.pac.spawnX && r.pac.spawnY == w.pac.spawnY
    ensures r.ghosts == SpawnGhosts(m)
  {
    World(w.st, w.pellets,
      w.pac.(x := m.pacStart.x, y := m.pacStart.y, dir := Left, sub := 0, frightened := 0),
      SpawnGhosts(m))
  }

  // ---------------------------------------------------------------------------------------------
  // Eating

  predicate AllEaten(ps: seq<Pellet>) {
    forall i :: 0 <= i < |ps| ==> ps[i].eaten
  }

  /** `pellets.forEach(p => p.eaten = false)`. */
  function ClearEaten(ps: seq<Pellet>): (r: seq<Pellet>)
    ensures |r| == |ps|
    ensures forall i :: 0 <= i < |ps| ==> r[i] == ps[i].(eaten := false)
  {
    seq(|ps|, i requires 0 <= i < |ps| => ps[i].(eaten := false))
  }

  /** `ghosts.forEach(g => g.frightened = t)`. */
  function Frighten(gs: seq<Entity>, t: int): (r: seq<Entity>)
    ensures |r| == |gs|
    ensures forall i :: 0 <= i < |gs| ==> r[i] == gs[i].(frightened := t)
  {
    seq(|gs|, i requires 0 <= i < |gs| => gs[i].(frightened := t))
  }

  function PelletPoints(p: Pellet): int {
    if p.power then PowerPoints else NormalPoints
  }

  /** The eating half of `stepPac`: an uneaten pellet under Pac is eaten and scored; a power pellet frightens
      every ghost; eating the last pellet advances the level, clears every pellet and resets positions. */
  function Eat(m: Maze, w: World): World {
    match PelletAt(w.pellets, w.pac.x, w.pac.y)
    case None => w
    case Some(i) =>
      var p := w.pellets[i];
      var pellets := w.pellets[i := p.(eaten := true)];
      var st := w.st.(score := w.st.score + PelletPoints(p));
      var ghosts := if p.power then Frighten(w.ghosts, FrightTime(w.st.level)) else w.ghosts;
      if AllEaten(pellets) then
        ResetPositions(m, World(st.(level := st.level + 1), ClearEaten(pellets), w.pac, ghosts))
      else
        World(st, pellets, w.pac, ghosts)
  }

  /** `stepPac`: move, then eat. */
  function StepPac(m: Maze, w: World, intent: Vec): World {
    Eat(m, w.(pac := MovePac(m, w.pac, intent)))
  }

  /** Nothing under Pac: nothing changes. */
  lemma EatNothing(m: Maze, w: World)
    requires PelletAt(w.pellets, w.pac.x, w.pac.y).None?
    ensures Eat(m, w) == w
  {
  }

  /** An uneaten pellet under Pac: it becomes eaten and the score grows by exactly 10 (normal) or 50 (power);
      lives never change. If pellets remain, only that pellet changes, Pac is untouched, and a power pellet
      sets every ghost's timer to 6 + (level - 1) while a normal one leaves the ghosts alone. */
  lemma EatScores(m: Maze, w: World)
    requires PelletAt(w.pellets, w.pac.x, w.pac.y).Some?
    ensures var i := PelletAt(w.pellets, w.pac.x, w.pac.y).value; var r := Eat(m, w);
      && r.st.score == w.st.score + (if w.pellets[i].power then 50 else 10)
      && r.st.lives == w.st.lives && r.st.paused == w.st.paused && r.st.over == w.st.over
    ensures var i := PelletAt(w.pellets, w.pac.x, w.pac.y).value; var r := Eat(m, w);
      !AllEaten(w.pellets[i := w.pellets[i].(eaten := true)]) ==>
        && r.st.level == w.st.level
        && r.pellets == w.pellets[i := w.pellets[i].(eaten := true)]
        && r.pac == w.pac
        && |r.ghosts| == |w.ghosts|
        && (w.pellets[i].power ==> forall k :: 0 <= k < |r.ghosts| ==>
              r.ghosts[k] == w.ghosts[k].(frightened := 6 * 100 + (w.st.level - 1) * 100))
        && (!w.pellets[i].power ==> r.ghosts == w.ghosts)
  {
  }

  /** Eating the last uneaten pellet: the level increases by exactly 1, every pellet is back to uneaten with
      its tile and kind unchanged, and positions are reset (so the ghosts' timers are back to 0). */
  lemma EatLastAdvancesLevel(m: Maze, w: World)
    requires PelletAt(w.pellets, w.pac.x, w.pac.y).Some?
    requires AllEaten(w.pellets[PelletAt(w.pellets, w.pac.x, w.pac.y).value :=
               w.pellets[PelletAt(w.pellets, w.pac.x, w.pac.y).value].(eaten := true)])
    ensures var r := Eat(m, w);
      && r.st.level == w.st.level + 1
      && |r.pellets| == |w.pellets|
      && (forall k :: 0 <= k < |r.pellets| ==> r.pellets[k] == w.pellets[k].(eaten := false))
      && r.pac.At() == m.pacStart && r.pac.dir == Left && r.pac.sub == 0
      && r.ghosts == SpawnGhosts(m)
  {
  }

  // ---------------------------------------------------------------------------------------------
  // Ghosts

  /** The random draw used by the i-th ghost this tick. */
  function Choice(choices: seq<nat>, i: nat): nat {
    if i < |choices| then choices[i] else 0
  }

  /** `for (const g of ghosts) stepGhost(g)` from index i on. Each ghost is updated in place, so a later
      ghost (Inky) sees the already-moved earlier ones: the j-th ghost is stepped against the list whose
      first j entries are final and whose remaining entries are still the old ones. */
  function StepGhostsFrom(m: Maze, pac: Entity, gs: seq<Entity>, choices: seq<nat>, i: nat): (r: seq<Entity>)
    requires i <= |gs|
    ensures |r| == |gs|
    ensures r[..i] == gs[..i]
    ensures forall j :: i <= j < |gs| ==>
      r[j] == StepGhost(m, gs[j], pac, r[..j] + gs[j..], Choice(choices, j))
    decreases |gs| - i
  {
    if i == |gs| then gs
    else
      var next := gs[i := StepGhost(m, gs[i], pac, gs, Choice(choices, i))];
      var r := StepGhostsFrom(m, pac, next, choices, i + 1);
      ThreadPrefix(gs, next, r, i);
      r
  }

  /** The sequence bookkeeping of the in-place loop: after entry i is replaced and the later entries are
      processed, the first i entries are the original ones and the later suffixes of the updated list are
      the original suffixes. */
  lemma ThreadPrefix(gs: seq<Entity>, next: seq<Entity>, r: seq<Entity>, i: nat)
    requires i < |gs| == |next| == |r|
    requires next == gs[i := next[i]]
    requires r[..i + 1] == next[..i + 1]
    ensures r[..i] == gs[..i] && r[i] == next[i]
    ensures r[..i] + gs[i..] == gs
    ensures forall j :: i < j < |gs| ==> next[j] == gs[j] && next[j..] == gs[j..]
  {
    assert r[..i] == r[..i + 1][..i];
    assert gs == gs[..i] + gs[i..];
    assert r[i] == r[..i + 1][i];
  }

  function StepGhosts(m: Maze, pac: Entity, gs: seq<Entity>, choices: seq<nat>): seq<Entity> {
    StepGhostsFrom(m, pac, gs, choices, 0)
  }

  // ---------------------------------------------------------------------------------------------
  // Collision

  /** The tile a ghost counts as occupying: past half a tile of progress, the tile it is entering. */
  function EffectiveTile(g: Entity): Pos {
    if g.sub > HalfTile then Step(g.At(), g.dir) else g.At()
  }

  /** The source's contact test `|gx - pac.x| + |gy - pac.y| <= 0`: exact equality of tiles. */
  predicate Hits(g: Entity, pac: Entity)
    ensures Hits(g, pac) <==> EffectiveTile(g) == pac.At()
  {
    var gx := g.x + (if g.sub > HalfTile then g.dir.dx else 0);
    var gy := g.y + (if g.sub > HalfTile then g.dir.dy else 0);
    Abs(gx - pac.x) + Abs(gy - pac.y) <= 0
  }

  /** The first ghost in list order touching Pac. */
  function FirstHit(gs: seq<Entity>, pac: Entity): (r: Option<nat>)
    ensures r.Some? ==> r.value < |gs| && Hits(gs[r.value], pac)
    ensures r.Some? ==> forall j :: 0 <= j < r.value ==> !Hits(gs[j], pac)
    ensures r.None? <==> forall j :: 0 <= j < |gs| ==> !Hits(gs[j], pac)
  {
    FirstIndex(gs, (g: Entity) => Hits(g, pac))
  }

  /** A caught ghost goes back to its spawn, at rest, no longer frightened. */
  function SendHome(g: Entity): Entity {
    g.(x := g.spawnX, y := g.spawnY, frightened := 0, sub := 0, dir := Zero)
  }

  /** `collide`: only the first touching ghost is handled. A frightened one scores 200 and is sent home;
      any other costs a life and either ends the game or resets positions. */
  function Collide(m: Maze, w: World): World {
    match FirstHit(w.ghosts, w.pac)
    case None => w
    case Some(i) =>
      var g := w.ghosts[i];
      if g.frightened > 0 then
        w.(st := w.st.(score := w.st.score + GhostPoints), ghosts := w.ghosts[i := SendHome(g)])
      else
        var st := w.st.(lives := w.st.lives - 1);
        if st.lives <= 0 then w.(st := st.(over := true, paused := true))
        else ResetPositions(m, w.(st := st))
  }

  /** No ghost on Pac's tile: nothing changes. */
  lemma CollideMiss(m: Maze, w: World)
    requires forall j :: 0 <= j < |w.ghosts| ==> EffectiveTile(w.ghosts[j]) != w.pac.At()
    ensures Collide(m, w) == w
  {
  }

  /** The first touching ghost is frightened: the score grows by exactly 200, lives, level, flags, pellets
      and Pac are unchanged, that ghost alone is sent home at rest with its timer at 0, and every later
      touching ghost is ignored this tick. */
  lemma CollideFrightened(m: Maze, w: World, i: nat)
    requires i < |w.ghosts| && EffectiveTile(w.ghosts[i]) == w.pac.At()
    requires forall j :: 0 <= j < i ==> EffectiveTile(w.ghosts[j]) != w.pac.At()
    requires w.ghosts[i].frightened > 0
    ensures var r := Collide(m, w);
      && r.st == w.st.(score := w.st.score + 200)
      && r.pellets == w.pellets && r.pac == w.pac
      && |r.ghosts| == |w.ghosts|
      && (forall j :: 0 <= j < |w.ghosts| && j != i ==> r.ghosts[j] == w.ghosts[j])
      && r.ghosts[i].At() == Pos(w.ghosts[i].spawnX, w.ghosts[i].spawnY)
      && r.ghosts[i].frightened == 0 && r.ghosts[i].sub == 0 && r.ghosts[i].dir == Zero
  {
  }

  /** The first touching ghost is not frightened: exactly one life is lost and the score, level and pellets
      are unchanged. With no life left the game is over and paused with everything else frozen; otherwise
      positions are reset. */
  lemma CollideDeadly(m: Maze, w: World, i: nat)
    requires i < |w.ghosts| && EffectiveTile(w.ghosts[i]) == w.pac.At()
    requires forall j :: 0 <= j < i ==> EffectiveTile(w.ghosts[j]) != w.pac.At()
    requires w.ghosts[i].frightened <= 0
    ensures var r := Collide(m, w);
      && r.st.lives == w.st.lives - 1
      && r.st.score == w.st.score && r.st.level == w.st.level && r.pellets == w.pellets
    ensures var r := Collide(m, w);
      w.st.lives - 1 <= 0 ==> r.st.over && r.st.paused && r.pac == w.pac && r.ghosts == w.ghosts
    ensures var r := Collide(m, w);
      w.st.lives - 1 > 0 ==>
        && r.st.over == w.st.over && r.st.paused == w.st.paused
        && r.pac.At() == m.pacStart && r.pac.dir == Left && r.pac.sub == 0
        && r.ghosts == SpawnGhosts(m)
  {
  }

  // ---------------------------------------------------------------------------------------------
  // Commands and the tick

  /** The state after load or restart: score 0, 3 lives, level 1, running. */
  const Fresh := Status(0, StartLives, 1, false, false)

  /** `togglePause`. */
  function TogglePause(w: World): World {
    if w.st.over then w else w.(st := w.st.(paused := !w.st.paused))
  }

  /** `restart`: fresh status, every pellet uneaten, positions reset. */
  function Restart(m: Maze, w: World): World {
    ResetPositions(m, World(Fresh, ClearEaten(w.pellets), w.pac, w.ghosts))
  }

  /** The boot sequence: the loaded pellets, Pac made at (0,0) with speed 0.11, then `resetPositions`. */
  function Boot(m: Maze): World {
    ResetPositions(m, World(Fresh, m.pellets, MakeEntity(0, 0, PacSpeed, Pac), []))
  }

  /** The simulation branch of `tick`: only when neither paused nor over, step Pac (with the latest intent),
      then every ghost in order, then resolve collisions. */
  function Tick(m: Maze, w: World, intent: Vec, choices: seq<nat>): World {
    if !w.st.paused && !w.st.over then
      var w1 := StepPac(m, w, intent);
      Collide(m, w1.(ghosts := StepGhosts(m, w1.pac, w1.ghosts, choices)))
    else
      w
  }

  /** Pausing is a no-op once the game is over; otherwise it flips `paused` and nothing else, so two toggles
      cancel out. */
  lemma TogglePauseSpec(w: World)
    ensures w.st.over ==> TogglePause(w) == w
    ensures !w.st.over ==> TogglePause(w).st == w.st.(paused := !w.st.paused)
    ensures TogglePause(w).pellets == w.pellets && TogglePause(w).pac == w.pac && TogglePause(w).ghosts == w.ghosts
    ensures TogglePause(TogglePause(w)) == w
  {
  }

  /** `restart`, from any state: score 0, 3 lives, level 1, running; every pellet uneaten with tile and kind
      kept; Pac on its start tile facing left; ghosts rebuilt at their spawns. */
  lemma RestartSpec(m: Maze, w: World)
    ensures var r := Restart(m, w);
      && r.st.score == 0 && r.st.lives == 3 && r.st.level == 1 && !r.st.over && !r.st.paused
      && |r.pellets| == |w.pellets|
      && (forall k :: 0 <= k < |r.pellets| ==>
            !r.pellets[k].eaten && r.pellets[k].At() == w.pellets[k].At() && r.pellets[k].power == w.pellets[k].power)
      && r.pac.At() == m.pacStart && r.pac.dir == Left && r.pac.sub == 0
      && r.ghosts == SpawnGhosts(m)
  {
  }

  /** A tick changes nothing while the game is paused or over. */
  lemma TickGated(m: Maze, w: World, intent: Vec, choices: seq<nat>)
    requires w.st.paused || w.st.over
    ensures Tick(m, w, intent, choices) == w
  {
  }

  /** Game over is terminal: ticks and pause toggles leave the state unchanged, and only `restart` leaves it. */
  lemma GameOverIsTerminal(m: Maze, w: World, intent: Vec, choices: seq<nat>)
    requires w.st.over
    ensures Tick(m, w, intent, choices) == w
    ensures TogglePause(w) == w
    ensures !Restart(m, w).st.over
  {
  }
}
