# Pac-Man grid engine in Dafny

A model of the simulation engine of a small browser Pac-Man (`app.js`): the maze text parser, the tile
predicates (`isWall`, `passableForPac`, `passableForGhost`, `pelletAt`, `wrap`), entity movement
(`makeEntity`, `stepEntity`, `stepPac`), the ghost AI (`ghostDir`, `stepGhost`), collisions (`collide`),
the game-state commands (`togglePause`, `restart`, `resetPositions`), the boot sequence and the simulation
branch of `tick`. Everything is a pure function over an immutable `Maze` record (built once from the text)
and a `World` record (status `S`, the live pellet list, Pac and the ghost list); each mutation the source
performs in place is a function from the old world to the new one.

Modules:

- `Optional` (`option.dfy`): `Option` and the `Array.prototype.find`-style `FirstIndex`.
- `Geometry` (`geometry.dfy`): tiles, direction vectors, distances, `Math.round` of a half.
- `Text` (`text.dfy`): carriage-return stripping, `split('\n')` (with its round trip against `Join`),
  `filter(Boolean)`, the maximum width and `padEnd`.
- `MazeModel` (`maze.dfy`): the maze record, `loadMaze`'s text part, the tile predicates, `pelletAt`, `wrap`.
- `Movement` (`movement.dfy`): the entity record, `makeEntity`, `stepEntity`, the movement half of `stepPac`.
- `GhostAI` (`ghost_ai.dfy`): `ghostDir` and `stepGhost`.
- `Game` (`game.dfy`): status and world, `resetPositions`, eating and level advance, stepping every ghost,
  `collide`, `togglePause`, `restart`, boot, `tick`.
- `Invariants` (`invariants.dfy`): what every reachable state satisfies, what one tick may change, and
  the behaviour of a maze without ghost spawns.

Units. The source keeps sub-tile progress, speeds and the frightened timer as floating-point numbers. The
model uses integers: progress and speeds in thousandths of a tile (Pac 110, Blinky 100, Pinky 95, Inky 92,
Clyde 90; a tile is committed at 1000), and the frightened timer in hundredths (a power pellet sets
600 + 100·(level − 1); each ghost step takes 2 off while it is positive). The collision threshold
`sub > 0.5` becomes `sub > 500`.

Behaviours of the code worth stating up front:

- Gates (`-`) let Pac through and stop the ghosts.
- A ghost never reverses within one step: `ghostDir` leaves out the reverse of the current direction, and
  when that reverse is the only way out it returns (0,0), so `stepGhost` keeps the old direction and
  `stepEntity` stops the ghost against the wall (`GhostAI.StepGhostHeading`). Stopping sets the direction
  to (0,0), which has no reverse; once the ghost's progress completes a tile it commits that tile in place,
  and at the next tile centre it may head back the way it came.
- A maze without any `G` still has one ghost. `resetPositions` builds Blinky on Pac's start tile, and it
  touches Pac on the first tick after every reset. `Invariants.NoGhostSpawnCostsLife` and
  `Invariants.NoGhostSpawnGameOverInThreeTicks` prove the consequence: such a game is over after three
  running ticks, whatever direction the player steers (given no pellet on Pac's start tile). A pause
  between ticks only delays this, since paused ticks change nothing.

Other behaviours the proofs make explicit:

- Inky's target uses `ghosts[0]` after Blinky has already moved in the same tick. The ghost loop updates
  in place, so `Game.StepGhostsFrom` steps the j-th ghost against a list whose first j entries are already
  updated.
- Pac starts on the last `P` of the row-major scan.
- `wrap` teleports to the first other tunnel cell of the same row, in the order the tunnels were found.
- Every tile out of the grid is impassable. So in a loaded maze the horizontal wrap-around of `wrap` is
  never reached from an open tile (`MazeModel.WrapInGrid`, `MazeModel.WrapKeepsOpen`).

## Model

| member | source | states |
|---|---|---|
| Geometry.RoundHalf | app.js:293-294 | `Math.round(n / 2)` for integer n: the result r satisfies n <= 2r <= n + 1, so halves round up |
| Text.StripCR | app.js:81 | `replace(/\r/g, '')`: the result has no carriage return |
| Text.StripCRCounts | app.js:81 | removing carriage returns keeps every other character of the text with the same multiplicity |
| Text.StripCRKeeps | app.js:81 | every character of the text other than a carriage return is still in the result |
| Text.StripCRConcat | app.js:81 | removing carriage returns works piece by piece, so the text's order and repeated characters are kept |
| Text.StripCROne | app.js:81 | on one character, a carriage return disappears and any other character is kept |
| Text.Split | app.js:81 | `split('\n')`: at least one part, no part contains the separator, and joining the parts with the separator gives the text back |
| Text.SplitChars | app.js:81 | every character of every part of `split` is a character of the text, so a text without carriage returns gives lines without them |
| Text.SplitAtSep | app.js:81 | a separator-free piece followed by the separator is split off as the first part, the rest being split alone |
| Text.JoinChars | app.js:81 | a character of the joined text other than the separator belongs to one of the parts |
| Text.SplitJoin | app.js:81 | the other round trip: splitting the join of separator-free parts gives the parts back |
| Text.NonEmpty | app.js:81 | `filter(Boolean)`: exactly the non-empty lines are kept, and nothing longer than the input comes out (order and repeats are stated by `Text.NonEmptyConcat`) |
| Text.NonEmptyConcat | app.js:81 | dropping empty lines works piece by piece, so the lines keep their order and repeated lines stay repeated |
| Text.NonEmptyOne | app.js:81 | on one line, an empty line disappears and any other line is kept |
| Text.MaxLen | app.js:82 | `Math.max` of the line lengths: an upper bound of every length that is attained by some line, and 0 for no lines |
| Text.PadEnd | app.js:83 | `padEnd(W, ' ')`: the line is a prefix of the result, the rest is spaces, and the length is the larger of W and the line length |
| MazeModel.RowCells | app.js:93-101 | scanning one row: a cell is listed exactly when its character is in the wanted set, left to right |
| MazeModel.GridCells | app.js:92-102 | scanning the grid: a cell is listed exactly when its character is in the wanted set, in row-major order |
| MazeModel.InCellsIff | app.js:92-102 | a cell is found by the scan exactly when the character read there is a wanted one |
| MazeModel.PromoteFirst | app.js:106 | `find` then `power = true`: only the first pellet on the corner tile is promoted, and no other pellet changes |
| MazeModel.PromoteFirstDistinct | app.js:106 | with pellet tiles in strict row-major order, promoting the first pellet on a tile promotes every pellet there |
| MazeModel.PromoteCornersSpec | app.js:104-107 | the corner promotion turns exactly the pellets on (1,1), (W-2,1), (1,H-2) and (W-2,H-2) into power pellets and changes nothing else |
| MazeModel.ParseShape | app.js:81-84 | H counts only the non-empty lines; every row is its line right-padded with spaces to W; W is the longest line length (0 with no lines); lines hold no newline or carriage return |
| MazeModel.LinesKeepChars | app.js:81 | every character of the text except carriage returns and newlines survives on some non-empty line |
| MazeModel.ParseKeepsChars | app.js:81-95 | every character of the text except carriage returns and newlines is read from some cell of the padded grid |
| MazeModel.ParseWellFormed | app.js:81-102 | a parsed maze is rectangular, and its gate and tunnel collections are exactly the `-` and `X` cells |
| MazeModel.LastPacCell | app.js:91-96 | Pac's start is (1,1) when no cell holds `P`, and otherwise a `P` cell with no `P` cell after it in row-major order |
| MazeModel.GhostCells | app.js:92-97 | the ghost scan lists a cell exactly when it holds `G` |
| MazeModel.ParseSpawns | app.js:91-96 | Pac starts on the last `P` in row-major order, or at (1,1) when there is none; the ghost spawns are exactly the `G` cells, in row-major order |
| MazeModel.FoundPellets | app.js:92-99 | the scan yields one uneaten pellet per `.` or `o` cell, in row-major order, with power exactly on `o` |
| MazeModel.LoadPelletsSpec | app.js:86-107 | the loaded pellets are one per `.`/`o` cell, row-major and uneaten; with an `o` in the text exactly the `o` pellets have power, otherwise exactly the ones on the four near-corner tiles |
| MazeModel.PromotedPellets | app.js:104-107 | the corner promotion keeps every pellet's tile, order and eaten flag |
| MazeModel.PassabilityAgrees | app.js:111-128 | both passability tests reject tiles out of the grid and non-gate walls; ghost-passable implies Pac-passable; they differ exactly on in-grid gate tiles |
| MazeModel.PassabilityByChar | app.js:111-128 | in a loaded maze a tile is open to Pac exactly when it is in the grid and not `#`, and open to ghosts exactly when it is in the grid and neither `#` nor `-` |
| MazeModel.PelletAt | app.js:130-132 | the first uneaten pellet on the tile; none exactly when every pellet there is eaten |
| MazeModel.Partner | app.js:136-140 | the first tunnel, in iteration order, in the same row at another column; none exactly when no such tunnel exists |
| MazeModel.WrapSpec | app.js:134-145 | the row never changes; a tunnel cell with a partner goes to that partner, which is a tunnel cell in another column; otherwise an in-range column is kept, x < 0 goes to W-1 and x >= W goes to 0 |
| MazeModel.WrapInGrid | app.js:134-145 | in a loaded maze an in-grid tile wraps to an in-grid tile, and a non-tunnel tile is returned unchanged |
| MazeModel.WrapKeepsOpen | app.js:134-145 | in a loaded maze, wrapping a tile open to Pac (or to the ghosts) gives a tile open to Pac (or to the ghosts) |
| MazeModel.TunnelPairSwaps | app.js:134-145 | two tunnels alone in their row send an agent back and forth between them |
| Movement.MakeEntity | app.js:162-164 | a new entity is at rest on its spawn tile, not frightened, and keeps the given speed and identity (the name and colour `role` stands for) |
| Movement.Advance | app.js:230-235 | progress grows by the speed; at a whole tile the entity moves one tile along its direction, progress returns to 0 and `wrap` is applied; nothing else changes |
| Movement.StepEntitySpec | app.js:228-236 | the direction is kept when open and becomes (0,0) when blocked; progress returns to 0 exactly when a tile is committed; a committed tile is, before wrapping, one open step along the direction; the tile is unchanged between commits |
| Movement.StepEntityMoves | app.js:228-236 | `stepEntity` keeps speed, timer, identity and spawn; progress returns to 0 exactly on commit; the tile changes only on commit, to the wrapped step along the held direction |
| Movement.StepEntityKeepsOpen | app.js:228-236 | in a loaded maze an entity on a tile open to it is still on such a tile after `stepEntity` |
| Movement.MovePacSpec | app.js:238-256 | Pac's direction changes only at a tile centre, where an open non-zero intent always wins and otherwise the old direction is kept when open and becomes (0,0) when blocked; the new direction is the intent, the old direction or (0,0); progress returns to 0 exactly on commit; a committed tile is, before wrapping, one Pac-open step along the direction |
| Movement.MovePacKeepsOpen | app.js:238-256 | in a loaded maze Pac on an open tile is still on an open tile after moving |
| GhostAI.Candidates | app.js:286-287 | the candidate list holds exactly the axis directions that lead to a ghost-open tile and are not the reverse of the current direction, in the order right, left, down, up |
| GhostAI.BestFrom | app.js:300-305 | the scoring loop ends on a minimiser of the distance to the target, and on the first one in list order |
| GhostAI.GhostDir | app.js:277-307 | the result is (0,0) exactly when there is no candidate; otherwise it is a candidate (open, never the reverse); in chase mode it is the first candidate, in the order right, left, down, up, at minimal distance to the role's target |
| GhostAI.FrightenedReachesEveryCandidate | app.js:278-283 | a frightened ghost can take each of its candidates: for each one, some random draw selects it |
| GhostAI.Turned | app.js:310-313 | at a tile centre a non-zero AI pick becomes the direction and a (0,0) pick keeps the ghost as it was; between centres the ghost is unchanged; only the direction ever changes, to the old one or an allowed one |
| GhostAI.MovesAfterTurn | app.js:309-316 | after any turn, the ghost's step commits a tile exactly when its progress reaches a whole tile, keeps its tile otherwise, and its timer loses 0.02 only while positive |
| GhostAI.StepGhostTimer | app.js:309-316 | a positive frightened timer loses exactly 0.02 per ghost step, and otherwise stays; identity, speed and spawn never change |
| GhostAI.StepGhostHeading | app.js:309-316 | a ghost never turns round in one step; a held direction leads to a ghost-open tile; the direction changes only at a tile centre, or drops to (0,0) when blocked |
| GhostAI.StepGhostDirection | app.js:309-316 | after a ghost step, a non-zero AI pick made at a tile centre is the direction; otherwise the old direction is kept when its tile is ghost-open and becomes (0,0) when blocked |
| GhostAI.StepGhostMoves | app.js:309-316 | ghost progress returns to 0 exactly on commit; the tile is unchanged between commits; a committed tile is the wrapped step along the held direction |
| GhostAI.StepGhostKeepsOpen | app.js:309-316 | in a loaded maze a ghost on a ghost-open tile is still on one after its step |
| Game.SpawnGhosts | app.js:209-220 | the ghost list has min(4, max(1, n)) entries; the i-th has the i-th identity and speed and rests on the i-th `G`, or on Pac's start when the maze has no `G` |
| Game.ResetPositions | app.js:207-221 | Pac goes back to its start tile facing left at a tile centre, not frightened; the ghosts are rebuilt; status and pellets are untouched |
| Game.StepGhostsFrom | app.js:434 | every ghost is stepped in list order, each against the list as already updated by the earlier ones |
| Game.Hits | app.js:406-408 | the contact test holds exactly when the ghost's effective tile (the tile it enters once past half a tile) equals Pac's tile |
| Game.FirstHit | app.js:405-409 | the first ghost in list order touching Pac; none exactly when no ghost touches Pac |
| Game.EatNothing | app.js:257-259 | with no uneaten pellet under Pac, eating changes nothing |
| Game.EatScores | app.js:258-264 | an uneaten pellet under Pac becomes eaten and adds exactly 10 (normal) or 50 (power); lives and flags never change; if pellets remain, only that pellet changes, and a power pellet sets every ghost's timer to 6 + (level - 1) |
| Game.EatLastAdvancesLevel | app.js:265-272 | eating the last pellet raises the level by exactly 1, resets every pellet to uneaten with tile and kind kept, and resets positions |
| Game.CollideMiss | app.js:404-428 | with no ghost on Pac's tile, collision handling changes nothing |
| Game.CollideFrightened | app.js:409-414 | the first touching ghost is frightened: score +200, everything else in the status kept, that ghost alone sent home at rest with its timer at 0 |
| Game.CollideDeadly | app.js:415-424 | the first touching ghost is not frightened: exactly one life is lost, score, level and pellets kept; with no life left the game is over and paused, otherwise positions are reset |
| Game.TogglePauseSpec | app.js:192-194 | pausing is a no-op once over; otherwise it flips `paused` alone, and two toggles cancel out |
| Game.RestartSpec | app.js:199-202 | restart gives score 0, 3 lives, level 1, running; every pellet uneaten with tile and kind kept; Pac on its start tile facing left; ghosts rebuilt |
| Game.TickGated | app.js:431-437 | a tick changes nothing while paused or over |
| Game.GameOverIsTerminal | app.js:192-205 | once over, ticks and pause toggles leave the state unchanged; only restart leaves game over |
| Invariants.SpawnGhostsOk | app.js:209-220 | the rebuilt ghost list satisfies the ghost part of the state invariant |
| Invariants.ResetPositionsOk | app.js:207-221 | `resetPositions` re-establishes Pac's and the ghosts' part of the state invariant |
| Invariants.BootOk | app.js:447-452 | the booted game satisfies the state invariant |
| Invariants.EatSomeOk | app.js:258-264 | eating a pellet while others remain keeps the invariant and the level, adds that pellet's points (10, or 50 for a power pellet) and marks exactly that pellet eaten |
| Invariants.EatLastOk | app.js:258-272 | eating the last pellet keeps the invariant, adds that pellet's points, raises the level by exactly 1 and leaves every pellet uneaten again |
| Invariants.StepPacOk | app.js:238-274 | Pac's step keeps the invariant, adds 0, 10 or 50 points, keeps lives and flags, and either eats at most one pellet (level kept) or advances the level with every pellet uneaten |
| Invariants.StepGhostOk | app.js:309-316 | one ghost step keeps that ghost's identity, speed, progress bounds and even non-negative timer |
| Invariants.StepGhostsFromOk | app.js:434 | stepping every ghost keeps each ghost's identity, speed, progress bounds and even non-negative timer |
| Invariants.CollideOk | app.js:404-428 | collision handling keeps the state invariant, including "over exactly when no life is left" |
| Invariants.TickOk | app.js:431-437 | every tick keeps the state invariant |
| Invariants.RestartOk | app.js:199-205 | restart re-establishes the state invariant |
| Invariants.TogglePauseOk | app.js:192-197 | pausing keeps the state invariant |
| Invariants.RestartIsBoot | app.js:199-205 | restarting from any reachable state gives exactly the booted game |
| Invariants.CollideDeltas | app.js:404-428 | collision handling keeps pellets and level, and either adds 200 with lives kept or keeps the score and loses at most one life; it ends the game only by taking the last life |
| Invariants.TickDeltas | app.js:431-437 | one tick adds 0, 10, 50, 200, 210 or 250 points and loses at most one life; the level stays (no pellet un-eaten, at most one newly eaten) or grows by one with every pellet uneaten; the game ends only when the last life goes |
| Invariants.NoGhostSpawnHit | app.js:216-218 | with no `G`, the single ghost spawns on Pac's start and still touches Pac, unfrightened, after the first steps |
| Invariants.NoGhostSpawnCostsLife | app.js:216-218 | with no `G` and no uneaten pellet on Pac's start tile, the first running tick after a reset costs exactly one life and resets positions, or ends the game on the last life |
| Invariants.NoGhostSpawnGameOverInThreeTicks | app.js:447-452 | with no `G` (and no pellet on Pac's start), the booted game is over after three consecutive running ticks, whatever direction the player steers and whatever the random draws |
| Invariants.ParsedSpawnsOpen | app.js:81-96 | a maze text containing `P` puts Pac's start on a Pac-open tile and every ghost spawn on a ghost-open tile |
| Invariants.SpawnsOpenByChar | app.js:111-128 | a maze whose Pac start holds `P` and whose ghost spawns hold `G` has every spawn open to its mover |
| Invariants.ResetPositionsGrounded | app.js:207-221 | with open spawns, `resetPositions` puts everyone on open tiles, each ghost's home being its spawn |
| Invariants.BootGrounded | app.js:447-452 | with open spawns, the booted game stands on open tiles |
| Invariants.StepPacGrounded | app.js:238-274 | Pac's step keeps everyone on open tiles |
| Invariants.StepGhostsFromGrounded | app.js:434 | stepping every ghost keeps each on a ghost-open tile with its home unchanged |
| Invariants.CollideGrounded | app.js:404-428 | collision handling keeps everyone on open tiles; a caught ghost goes to its open spawn |
| Invariants.TickGrounded | app.js:431-437 | in a loaded maze with open spawns, no tick puts Pac or a ghost inside a wall, or a ghost on a gate |
| Invariants.RestartGrounded | app.js:199-205 | with open spawns, restart puts everyone on open tiles |

## Left out

- Rendering is not modelled: `fitHiDPI`, `computeScale`, `drawMaze`, `drawPac`, `drawGhost` and the `anim` counter are canvas and floating-point pixel work.
- The HUD, toasts and button labels (`updateHUD`, `toast`, `textContent`) are not modelled: they are output only.
- Keyboard and touch listeners are I/O. The latest intent is a parameter of `Tick`. The invariant lemmas assume it is an axis or (0,0), the only values those listeners produce.
- Fetching `maze.txt`, the fallback text and `requestAnimationFrame` scheduling are asynchronous I/O. The parser takes the maze text as its argument, and a tick is one call of `Tick`.
- `Math.random` in frightened mode is an injected draw: ghost i uses `choices[i]` (0 when absent), reduced modulo the candidate count.
- GhostAI.GhostDir: scores candidates by squared Euclidean distance instead of `Math.hypot(...) * (1 - 0.15 * bias)`. The bias factor is one positive constant per ghost and the square root is monotone, so the order of the scores, their minimisers and the first-minimum tie-break are the same. The `bias`, `color`, `name` and `dead` fields are therefore not kept: `role` stands for `name`, and `dead` is never read.
- Floating-point accumulation of `sub` is not modelled: integer thousandths are exact. In the source ten additions of 0.1 stay just below 1, so a speed-0.1 ghost commits on the eleventh tick rather than the tenth; the model commits on the tenth.
- Floating-point accumulation of the frightened timer is not modelled either: it decreases by exactly 2 hundredths. The source's repeated subtraction of 0.02 may stop at a tiny positive or negative remainder.
- An empty maze text gives W = 0 in the model, where the source computes `Math.max()` = -Infinity. In both, no tile is in bounds.
- String lengths and columns count Dafny characters. The source counts UTF-16 code units, which differ only for characters outside the Basic Multilingual Plane. In the source such a character occupies two columns, so it shifts every later cell of its line one column right and can widen W; none has a meaning in a maze.
- `Invariants.TickOk` and `Invariants.TickGrounded` take the state invariant as a precondition. It holds after boot and is kept by every tick, pause and restart; that is what the lemmas about each command prove.
