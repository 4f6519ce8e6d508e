/** Properties of whole ticks and commands: the state invariant every reachable world keeps, the exact
    changes one tick can make to score, lives, level and pellets, and the behaviour of a maze without
    ghost spawns. */
module Invariants {
  import opened Optional
  import opened Geometry
  import opened MazeModel
  import opened Movement
  import opened GhostAI
  import opened Game

  /** Score and level never go below their start, lives never below 0; the game is over exactly when no life
      is left, and an over game is paused. */
  predicate StatusOk(st: Status) {
    && st.score >= 0 && st.level >= 1 && st.lives >= 0
    && (st.over ==> st.paused && st.lives == 0)
    && (!st.over ==> st.lives >= 1)
  }

  /** The live pellet list is the loaded one up to `eaten` flags: same tiles, same kinds, same order. */
  predicate SameLayout(a: seq<Pellet>, b: seq<Pellet>) {
    |a| == |b| && forall i :: 0 <= i < |a| ==> a[i].At() == b[i].At() && a[i].power == b[i].power
  }

  predicate PacOk(m: Maze, pac: Entity) {
    && pac.role == Pac && pac.speed == PacSpeed && pac.spawnX == 0 && pac.spawnY == 0 && pac.frightened == 0
    && Moving(pac) && IsDir(pac.dir) && PacAheadOpen(m, pac)
  }

  /** The i-th ghost keeps its identity and speed, moves along an axis or stands, and its frightened timer
      is a non-negative even number of hundredths (so decaying by 2 lands exactly on 0). */
  predicate GhostOk(g: Entity, i: nat) {
    && g.role == GhostRole(i) && g.speed == GhostSpeed(g.role)
    && Moving(g) && IsDir(g.dir) && g.frightened >= 0 && g.frightened % 2 == 0
  }

  predicate GhostsOk(gs: seq<Entity>) {
    1 <= |gs| <= 4 && forall i :: 0 <= i < |gs| ==> GhostOk(gs[i], i)
  }

  predicate Inv(m: Maze, w: World) {
    StatusOk(w.st) && SameLayout(w.pellets, m.pellets) && PacOk(m, w.pac) && GhostsOk(w.ghosts)
  }

  /** No pellet is un-eaten, and at most one becomes eaten. */
  predicate EatenAtMostOne(a: seq<Pellet>, b: seq<Pellet>) {
    && |a| == |b|
    && (forall i :: 0 <= i < |a| ==> a[i].eaten ==> b[i].eaten)
    && (forall i, j :: 0 <= i < j < |a| ==> !(!a[i].eaten && b[i].eaten && !a[j].eaten && b[j].eaten))
  }

  // ---------------------------------------------------------------------------------------------
  // The invariant

  lemma SpawnGhostsOk(m: Maze)
    ensures GhostsOk(SpawnGhosts(m))
  {
  }

  /** `resetPositions` re-establishes Pac's and the ghosts' part of the invariant. */
  lemma ResetPositionsOk(m: Maze, w: World)
    requires w.pac.role == Pac && w.pac.speed == PacSpeed && w.pac.spawnX == 0 && w.pac.spawnY == 0
    ensures PacOk(m, ResetPositions(m, w).pac) && GhostsOk(ResetPositions(m, w).ghosts)
  {
    SpawnGhostsOk(m);
  }

  /** The freshly booted game satisfies the invariant. */
  lemma BootOk(m: Maze)
    ensures Inv(m, Boot(m))
  {
    ResetPositionsOk(m, World(Fresh, m.pellets, MakeEntity(0, 0, PacSpeed, Pac), []));
  }

  /** What Pac's step may do to the state: Pac's part of the invariant and the pellet layout are kept; lives
      and flags are untouched; the score grows by 0, 10 or 50; and either the level stays (no pellet
      un-eaten, at most one eaten) or it grows by one with every pellet uneaten again. */
  predicate PacStepOk(m: Maze, w: World, r: World) {
    && PacOk(m, r.pac) && GhostsOk(r.ghosts) && SameLayout(r.pellets, m.pellets)
    && r.st.lives == w.st.lives && r.st.paused == w.st.paused && r.st.over == w.st.over
    && (r.st.score == w.st.score || r.st.score == w.st.score + 10 || r.st.score == w.st.score + 50)
    && (|| (r.st.level == w.st.level && EatenAtMostOne(w.pellets, r.pellets))
        || (r.st.level == w.st.level + 1 && forall k :: 0 <= k < |r.pellets| ==> !r.pellets[k].eaten))
  }

  /** Eating a pellet while others remain. */
  lemma EatSomeOk(m: Maze, w: World, i: nat)
    requires Inv(m, w)
    requires PelletAt(w.pellets, w.pac.x, w.pac.y) == Some(i)
    requires !AllEaten(w.pellets[i := w.pellets[i].(eaten := true)])
    ensures PacStepOk(m, w, Eat(m, w))
    ensures Eat(m, w).pellets == w.pellets[i := w.pellets[i].(eaten := true)]
    ensures Eat(m, w).st.score == w.st.score + PelletPoints(w.pellets[i])
    ensures Eat(m, w).st.level == w.st.level
  {
    EatScores(m, w);
    var r := Eat(m, w);
    assert r.pellets == w.pellets[i := w.pellets[i].(eaten := true)];
    assert EatenAtMostOne(w.pellets, r.pellets);
    assert FrightTime(w.st.level) % 2 == 0;
    assert forall k :: 0 <= k < |r.ghosts| ==> GhostOk(r.ghosts[k], k);
  }

  /** Eating the last pellet. */
  lemma EatLastOk(m: Maze, w: World, i: nat)
    requires Inv(m, w)
    requires PelletAt(w.pellets, w.pac.x, w.pac.y) == Some(i)
    requires AllEaten(w.pellets[i := w.pellets[i].(eaten := true)])
    ensures PacStepOk(m, w, Eat(m, w))
    ensures Eat(m, w).st.level == w.st.level + 1
    ensures Eat(m, w).st.score == w.st.score + PelletPoints(w.pellets[i])
    ensures forall k :: 0 <= k < |Eat(m, w).pellets| ==> !Eat(m, w).pellets[k].eaten
  {
    EatScores(m, w);
    EatLastAdvancesLevel(m, w);
    var p := w.pellets[i];
    var st := w.st.(score := w.st.score + PelletPoints(p));
    var pellets := w.pellets[i := p.(eaten := true)];
    var ghosts := if p.power then Frighten(w.ghosts, FrightTime(w.st.level)) else w.ghosts;
    ResetPositionsOk(m, World(st.(level := st.level + 1), ClearEaten(pellets), w.pac, ghosts));
  }

  /** Pac's step, from a state keeping the invariant, with an axis or (0,0) as intent. */
  lemma StepPacOk(m: Maze, w: World, intent: Vec)
    requires Inv(m, w) && IsDir(intent)
    ensures PacStepOk(m, w, StepPac(m, w, intent))
  {
    var moved := w.(pac := MovePac(m, w.pac, intent));
    MovePacSpec(m, w.pac, intent);
    assert Inv(m, moved);
    match PelletAt(moved.pellets, moved.pac.x, moved.pac.y)
    case None =>
      assert EatenAtMostOne(w.pellets, w.pellets);
    case Some(i) =>
      if AllEaten(moved.pellets[i := moved.pellets[i].(eaten := true)]) {
        EatLastOk(m, moved, i);
      } else {
        EatSomeOk(m, moved, i);
      }
  }

  /** One ghost step keeps that ghost's part of the invariant. */
  lemma StepGhostOk(m: Maze, g: Entity, i: nat, pac: Entity, ghosts: seq<Entity>, choice: nat)
    requires GhostOk(g, i)
    ensures GhostOk(StepGhost(m, g, pac, ghosts, choice), i)
  {
    StepGhostTimer(m, g, pac, ghosts, choice);
    StepGhostHeading(m, g, pac, ghosts, choice);
    StepGhostMoves(m, g, pac, ghosts, choice);
  }

  /** Stepping every ghost keeps each ghost's part of the invariant. */
  lemma {:induction false} StepGhostsFromOk(m: Maze, pac: Entity, gs: seq<Entity>, choices: seq<nat>, i: nat)
    requires i <= |gs| && GhostsOk(gs)
    ensures GhostsOk(StepGhostsFrom(m, pac, gs, choices, i))
    decreases |gs| - i
  {
    var r := StepGhostsFrom(m, pac, gs, choices, i);
    forall j | 0 <= j < |r| ensures GhostOk(r[j], j) {
      if j < i {
        assert r[..i][j] == gs[..i][j];
      } else {
        StepGhostOk(m, gs[j], j, pac, r[..j] + gs[j..], Choice(choices, j));
      }
    }
  }

  /** Collision handling keeps the invariant: a frightened catch only sends one ghost home; a deadly touch
      either ends the game with no life left or resets positions. */
  lemma CollideOk(m: Maze, w: World)
    requires StatusOk(w.st) && !w.st.over && SameLayout(w.pellets, m.pellets) && PacOk(m, w.pac) && GhostsOk(w.ghosts)
    ensures Inv(m, Collide(m, w))
  {
    match FirstHit(w.ghosts, w.pac)
    case None =>
    case Some(i) =>
      var g := w.ghosts[i];
      if g.frightened > 0 {
        var gs := w.ghosts[i := SendHome(g)];
        assert GhostOk(gs[i], i);
        assert forall k :: 0 <= k < |gs| && k != i ==> gs[k] == w.ghosts[k];
      } else if w.st.lives - 1 > 0 {
        ResetPositionsOk(m, w.(st := w.st.(lives := w.st.lives - 1)));
      }
  }

  /** Every tick keeps the invariant (for any intent the input handlers can produce). */
  lemma TickOk(m: Maze, w: World, intent: Vec, choices: seq<nat>)
    requires Inv(m, w) && IsDir(intent)
    ensures Inv(m, Tick(m, w, intent, choices))
  {
    if !w.st.paused && !w.st.over {
      var w1 := StepPac(m, w, intent);
      StepPacOk(m, w, intent);
      StepGhostsFromOk(m, w1.pac, w1.ghosts, choices, 0);
      var w2 := w1.(ghosts := StepGhosts(m, w1.pac, w1.ghosts, choices));
      assert StatusOk(w2.st);
      CollideOk(m, w2);
    }
  }

  /** Restart re-establishes the invariant from any state that kept it. */
  lemma RestartOk(m: Maze, w: World)
    requires Inv(m, w)
    ensures Inv(m, Restart(m, w))
  {
    ResetPositionsOk(m, World(Fresh, ClearEaten(w.pellets), w.pac, w.ghosts));
  }

  /** Pausing keeps the invariant. */
  lemma TogglePauseOk(m: Maze, w: World)
    requires Inv(m, w)
    ensures Inv(m, TogglePause(w))
  {
  }

  /** On a freshly loaded maze, restarting from any reachable state gives exactly the booted game. */
  lemma RestartIsBoot(m: Maze, w: World)
    requires Inv(m, w)
    requires forall k :: 0 <= k < |m.pellets| ==> !m.pellets[k].eaten
    ensures Restart(m, w) == Boot(m)
  {
    var ps := ClearEaten(w.pellets);
    assert ps == m.pellets;
  }

  // ---------------------------------------------------------------------------------------------
  // What one tick can change

  /** Collision handling never touches the pellets or the level; it either adds 200 points with lives kept,
      or keeps the score and loses at most one life; it ends the game only by taking the last life. */
  lemma CollideDeltas(m: Maze, w: World)
    ensures var r := Collide(m, w);
      && r.pellets == w.pellets && r.st.level == w.st.level
      && ((r.st.score == w.st.score + 200 && r.st.lives == w.st.lives)
          || (r.st.score == w.st.score && (r.st.lives == w.st.lives || r.st.lives == w.st.lives - 1)))
      && (r.st.over ==> w.st.over || r.st.lives <= 0)
  {
  }

  /** One tick of a running game: the score grows by 0, 10, 50, 200, 210 or 250; at most one life is lost;
      the level stays (with no pellet un-eaten and at most one newly eaten) or grows by exactly one (with
      every pellet uneaten again); and the game ends only when the last life is lost. */
  lemma TickDeltas(m: Maze, w: World, intent: Vec, choices: seq<nat>)
    requires Inv(m, w) && IsDir(intent)
    ensures var r := Tick(m, w, intent, choices);
      var d := r.st.score - w.st.score;
      d == 0 || d == 10 || d == 50 || d == 200 || d == 210 || d == 250
    ensures var r := Tick(m, w, intent, choices);
      r.st.lives == w.st.lives || r.st.lives == w.st.lives - 1
    ensures var r := Tick(m, w, intent, choices);
      || (r.st.level == w.st.level && EatenAtMostOne(w.pellets, r.pellets))
      || (r.st.level == w.st.level + 1 && forall k :: 0 <= k < |r.pellets| ==> !r.pellets[k].eaten)
    ensures var r := Tick(m, w, intent, choices);
      r.st.over && !w.st.over ==> w.st.lives == 1 && r.st.lives == 0
  {
    if !w.st.paused && !w.st.over {
      var w1 := StepPac(m, w, intent);
      StepPacOk(m, w, intent);
      var w2 := w1.(ghosts := StepGhosts(m, w1.pac, w1.ghosts, choices));
      CollideDeltas(m, w2);
    } else {
      assert EatenAtMostOne(w.pellets, w.pellets);
    }
  }

  // ---------------------------------------------------------------------------------------------
  // A maze without ghost spawns

  /** With no `G` in the maze the single ghost stands on Pac's spawn tile; from a reset, after Pac's and the
      ghost's first steps it still counts as standing there, unfrightened. */
  lemma NoGhostSpawnHit(m: Maze, pac: Entity, choices: seq<nat>)
    requires |m.ghostStarts| == 0
    requires pac.At() == m.pacStart
    ensures var gs := StepGhosts(m, pac, SpawnGhosts(m), choices);
      |gs| == 1 && Hits(gs[0], pac) && gs[0].frightened == 0
  {
    var g := SpawnGhosts(m)[0];
    var gs := StepGhosts(m, pac, SpawnGhosts(m), choices);
    var seen := gs[..0] + SpawnGhosts(m)[0..];
    assert Moving(g);
    StepGhostMoves(m, g, pac, seen, Choice(choices, 0));
    StepGhostTimer(m, g, pac, seen, Choice(choices, 0));
    assert gs[0] == StepGhost(m, g, pac, seen, Choice(choices, 0));
    assert gs[0].sub == 100;
    assert gs[0].At() == m.pacStart;
  }

  /** With no `G` in the maze the engine still builds one ghost, on Pac's own spawn tile, so in a freshly
      reset running game (and no uneaten pellet on the spawn tile) the very first tick costs a life and resets
      positions, or ends the game on the last life. */
  lemma NoGhostSpawnCostsLife(m: Maze, w: World, intent: Vec, choices: seq<nat>)
    requires |m.ghostStarts| == 0
    requires !w.st.paused && !w.st.over
    requires w.pac.At() == m.pacStart && w.pac.sub == 0 && w.pac.speed == PacSpeed
    requires w.ghosts == SpawnGhosts(m)
    requires PelletAt(w.pellets, m.pacStart.x, m.pacStart.y).None?
    ensures Tick(m, w, intent, choices).st.lives == w.st.lives - 1
    ensures w.st.lives > 1 ==> Tick(m, w, intent, choices) == ResetPositions(m, w.(st := w.st.(lives := w.st.lives - 1)))
    ensures w.st.lives <= 1 ==> Tick(m, w, intent, choices).st.over
  {
    var moved := MovePac(m, w.pac, intent);
    assert moved.At() == m.pacStart;
    var w1 := w.(pac := moved);
    EatNothing(m, w1);
    assert StepPac(m, w, intent) == w1;
    NoGhostSpawnHit(m, moved, choices);
    var w2 := w1.(ghosts := StepGhosts(m, moved, SpawnGhosts(m), choices));
    assert Tick(m, w, intent, choices) == Collide(m, w2);
    CollideDeadly(m, w2, 0);
  }

  /** A freshly booted game on a maze without ghost spawns (and no pellet on Pac's spawn) is over after
      three consecutive running ticks, whatever direction the player steers and whatever the random draws. */
  lemma NoGhostSpawnGameOverInThreeTicks(m: Maze, i1: Vec, i2: Vec, i3: Vec, c1: seq<nat>, c2: seq<nat>, c3: seq<nat>)
    requires |m.ghostStarts| == 0
    requires PelletAt(m.pellets, m.pacStart.x, m.pacStart.y).None?
    ensures Tick(m, Tick(m, Tick(m, Boot(m), i1, c1), i2, c2), i3, c3).st.over
  {
    var b := Boot(m);
    NoGhostSpawnCostsLife(m, b, i1, c1);
    var t1 := Tick(m, b, i1, c1);
    NoGhostSpawnCostsLife(m, t1, i2, c2);
    var t2 := Tick(m, t1, i2, c2);
    NoGhostSpawnCostsLife(m, t2, i3, c3);
  }

  // ---------------------------------------------------------------------------------------------
  // Nobody stands inside a wall

  /** The tiles agents are (re)spawned on are open: Pac's start to Pac, each ghost's spawn to the ghosts. */
  predicate SpawnsOpen(m: Maze) {
    && Passable(m, PacMover, m.pacStart)
    && forall i :: 0 <= i < GhostCount(m) ==> Passable(m, GhostMover, GhostSpawn(m, i))
  }

  /** Pac stands on a Pac-open tile, every ghost on a ghost-open tile, and each ghost's home is its spawn. */
  predicate Grounded(m: Maze, w: World) {
    && Passable(m, PacMover, w.pac.At())
    && |w.ghosts| == GhostCount(m)
    && forall i :: 0 <= i < |w.ghosts| ==>
         && Passable(m, GhostMover, w.ghosts[i].At())
         && Pos(w.ghosts[i].spawnX, w.ghosts[i].spawnY) == GhostSpawn(m, i)
  }

  /** Spawns read from `P` and `G` cells are open: those cells are neither walls nor gates. */
  lemma SpawnsOpenByChar(m: Maze)
    requires WellFormed(m)
    requires CharAt(m.rows, m.pacStart.x, m.pacStart.y) == PacCh
    requires forall i :: 0 <= i < |m.ghostStarts| ==> CharAt(m.rows, m.ghostStarts[i].x, m.ghostStarts[i].y) == GhostCh
    ensures SpawnsOpen(m)
  {
    PassabilityByChar(m, m.pacStart.x, m.pacStart.y);
    forall i | 0 <= i < GhostCount(m) ensures Passable(m, GhostMover, GhostSpawn(m, i)) {
      var s := GhostSpawn(m, i);
      PassabilityByChar(m, s.x, s.y);
    }
  }

  /** A maze text with a `P` puts Pac and every ghost on open tiles. */
  lemma ParsedSpawnsOpen(txt: string)
    requires PacCh in txt
    ensures SpawnsOpen(ParseMaze(txt))
  {
    var m := ParseMaze(txt);
    ParseKeepsChars(txt, PacCh);
    ParseWellFormed(txt);
    ParseSpawns(txt);
    forall i | 0 <= i < |m.ghostStarts| ensures CharAt(m.rows, m.ghostStarts[i].x, m.ghostStarts[i].y) == GhostCh {
      var s := m.ghostStarts[i];
      assert s in m.ghostStarts;
      assert Pos(s.x, s.y) == s;
    }
    SpawnsOpenByChar(m);
  }

  lemma ResetPositionsGrounded(m: Maze, w: World)
    requires SpawnsOpen(m)
    ensures Grounded(m, ResetPositions(m, w))
  {
  }

  /** The booted game stands on open tiles. */
  lemma BootGrounded(m: Maze)
    requires SpawnsOpen(m)
    ensures Grounded(m, Boot(m))
  {
    ResetPositionsGrounded(m, World(Fresh, m.pellets, MakeEntity(0, 0, PacSpeed, Pac), []));
  }

  /** Pac's step keeps everyone on open tiles. */
  lemma StepPacGrounded(m: Maze, w: World, intent: Vec)
    requires WellFormed(m) && SpawnsOpen(m) && Inv(m, w) && Grounded(m, w)
    ensures Grounded(m, StepPac(m, w, intent))
  {
    var moved := w.(pac := MovePac(m, w.pac, intent));
    MovePacKeepsOpen(m, w.pac, intent);
    assert Grounded(m, moved);
    match PelletAt(moved.pellets, moved.pac.x, moved.pac.y)
    case None =>
    case Some(i) =>
      var p := moved.pellets[i];
      var pellets := moved.pellets[i := p.(eaten := true)];
      var st := w.st.(score := w.st.score + PelletPoints(p));
      var ghosts := if p.power then Frighten(w.ghosts, FrightTime(w.st.level)) else w.ghosts;
      if AllEaten(pellets) {
        ResetPositionsGrounded(m, World(st.(level := st.level + 1), ClearEaten(pellets), moved.pac, ghosts));
      } else {
        assert Eat(m, moved) == World(st, pellets, moved.pac, ghosts);
      }
  }

  /** Stepping every ghost keeps each on a ghost-open tile, with its home unchanged. */
  lemma {:induction false} StepGhostsFromGrounded(m: Maze, pac: Entity, gs: seq<Entity>, choices: seq<nat>, i: nat)
    requires WellFormed(m) && i <= |gs| && GhostsOk(gs)
    requires forall k :: 0 <= k < |gs| ==>
      Passable(m, GhostMover, gs[k].At()) && Pos(gs[k].spawnX, gs[k].spawnY) == GhostSpawn(m, k)
    ensures var r := StepGhostsFrom(m, pac, gs, choices, i);
      forall k :: 0 <= k < |r| ==>
        Passable(m, GhostMover, r[k].At()) && Pos(r[k].spawnX, r[k].spawnY) == GhostSpawn(m, k)
  {
    var r := StepGhostsFrom(m, pac, gs, choices, i);
    forall k | 0 <= k < |r|
      ensures Passable(m, GhostMover, r[k].At()) && Pos(r[k].spawnX, r[k].spawnY) == GhostSpawn(m, k)
    {
      if k < i {
        assert r[..i][k] == gs[..i][k];
      } else {
        var seen := r[..k] + gs[k..];
        assert GhostOk(gs[k], k);
        StepGhostTimer(m, gs[k], pac, seen, Choice(choices, k));
        StepGhostKeepsOpen(m, gs[k], pac, seen, Choice(choices, k));
      }
    }
  }

  /** Collision handling keeps everyone on open tiles: a caught ghost goes to its (open) spawn. */
  lemma CollideGrounded(m: Maze, w: World)
    requires SpawnsOpen(m) && Grounded(m, w)
    ensures Grounded(m, Collide(m, w))
  {
    match FirstHit(w.ghosts, w.pac)
    case None =>
    case Some(i) =>
      var g := w.ghosts[i];
      if g.frightened > 0 {
        var gs := w.ghosts[i := SendHome(g)];
        assert gs[i].At() == GhostSpawn(m, i);
        assert forall k :: 0 <= k < |gs| && k != i ==> gs[k] == w.ghosts[k];
      } else if w.st.lives - 1 > 0 {
        ResetPositionsGrounded(m, w.(st := w.st.(lives := w.st.lives - 1)));
      }
  }

  /** In a loaded maze whose spawns are open, no tick ever puts Pac or a ghost inside a wall, or a ghost on a
      gate. */
  lemma TickGrounded(m: Maze, w: World, intent: Vec, choices: seq<nat>)
    requires WellFormed(m) && SpawnsOpen(m) && Inv(m, w) && Grounded(m, w) && IsDir(intent)
    ensures Grounded(m, Tick(m, w, intent, choices))
  {
    if !w.st.paused && !w.st.over {
      var w1 := StepPac(m, w, intent);
      StepPacOk(m, w, intent);
      StepPacGrounded(m, w, intent);
      StepGhostsFromGrounded(m, w1.pac, w1.ghosts, choices, 0);
      CollideGrounded(m, w1.(ghosts := StepGhosts(m, w1.pac, w1.ghosts, choices)));
    }
  }

  /** Restart puts everyone back on open tiles. */
  lemma RestartGrounded(m: Maze, w: World)
    requires SpawnsOpen(m)
    ensures Grounded(m, Restart(m, w))
  {
    ResetPositionsGrounded(m, World(Fresh, ClearEaten(w.pellets), w.pac, w.ghosts));
  }
}
