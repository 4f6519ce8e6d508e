/** The static maze: the text grid, its pellets, gates, tunnels and spawn tiles, and the tile predicates
    the movement and ghost code ask (`isWall`, the two passability tests, `pelletAt`, `wrap`). */
module MazeModel {
  import opened Optional
  import opened Geometry
  import opened Text

  const WallCh := '#'
  const DotCh := '.'
  const PowerCh := 'o'
  const GhostCh := 'G'
  const PacCh := 'P'
  const TunnelCh := 'X'
  const GateCh := '-'

  /** A collectible. Its place and kind never change; only `eaten` is flipped by the engine. */
  datatype Pellet = Pellet(x: int, y: int, power: bool, eaten: bool) {
    function At(): Pos { Pos(x, y) }
  }

  /** Everything `loadMaze` derives from the text. `pellets` is the freshly loaded list (none eaten);
      the running game keeps its own copy whose `eaten` flags change. `tunnels` keeps the insertion
      (row-major) order in which the source's `Set` is iterated. */
  datatype Maze = Maze(
    rows: seq<string>,
    w: nat,
    h: nat,
    pacStart: Pos,
    ghostStarts: seq<Pos>,
    pellets: seq<Pellet>,
    gates: set<Pos>,
    tunnels: seq<Pos>)

  /** `a` comes strictly before `b` in the row-major scan order. */
  predicate Before(a: Pos, b: Pos) {
    a.y < b.y || (a.y == b.y && a.x < b.x)
  }

  predicate RowMajor(ps: seq<Pos>) {
    forall i, j :: 0 <= i < j < |ps| ==> Before(ps[i], ps[j])
  }

  predicate PelletsRowMajor(ps: seq<Pellet>) {
    forall i, j :: 0 <= i < j < |ps| ==> Before(ps[i].At(), ps[j].At())
  }

  /** The character the source reads at (x, y): `(rows[y]||'')[x]||' '`, a space outside the text. */
  function CharAt(rows: seq<string>, x: int, y: int): char {
    if 0 <= y < |rows| && 0 <= x < |rows[y]| then rows[y][x] else ' '
  }

  // ---------------------------------------------------------------------------------------------
  // Parsing

  /** The cells of `row` (row number `y`) from column `x` on whose character is in `keep`, left to right. */
  function RowCells(row: string, y: int, x: nat, keep: set<char>): (ps: seq<Pos>)
    requires x <= |row|
    ensures forall p :: p in ps <==> p.y == y && x <= p.x < |row| && row[p.x] in keep
    ensures RowMajor(ps)
    decreases |row| - x
  {
    if x == |row| then []
    else
      var rest := RowCells(row, y, x + 1, keep);
      if row[x] in keep then
        assert forall j :: 0 <= j < |rest| ==> rest[j] in rest;
        [Pos(x, y)] + rest
      else rest
  }

  /** The cells of rows `y..` whose character is in `keep`, in the source's row-major scan order. */
  function GridCells(rows: seq<string>, y: nat, keep: set<char>): (ps: seq<Pos>)
    requires y <= |rows|
    ensures forall p :: p in ps <==> y <= p.y < |rows| && 0 <= p.x < |rows[p.y]| && rows[p.y][p.x] in keep
    ensures RowMajor(ps)
    decreases |rows| - y
  {
    if y == |rows| then []
    else
      var here := RowCells(rows[y], y, 0, keep);
      var rest := GridCells(rows, y + 1, keep);
      assert forall i :: 0 <= i < |here| ==> here[i] in here;
      assert forall j :: 0 <= j < |rest| ==> rest[j] in rest;
      here + rest
  }

  function Cells(rows: seq<string>, keep: set<char>): seq<Pos> {
    GridCells(rows, 0, keep)
  }

  /** One fresh pellet per cell; `o` makes a power pellet. */
  function PelletsOf(rows: seq<string>, cells: seq<Pos>): (ps: seq<Pellet>)
    ensures |ps| == |cells|
    ensures forall i :: 0 <= i < |cells| ==>
      ps[i].At() == cells[i] && !ps[i].eaten && ps[i].power == (CharAt(rows, cells[i].x, cells[i].y) == PowerCh)
  {
    seq(|cells|, i requires 0 <= i < |cells| =>
      Pellet(cells[i].x, cells[i].y, CharAt(rows, cells[i].x, cells[i].y) == PowerCh, false))
  }

  /** `pellets.some(p => p.power)`. */
  predicate HasPower(ps: seq<Pellet>) {
    exists i :: 0 <= i < |ps| && ps[i].power
  }

  /** `pellets.find(p => p.x === c.x && p.y === c.y)` followed by `p.power = true`: only the FIRST pellet
      on tile `c` is promoted. */
  function PromoteFirst(ps: seq<Pellet>, c: Pos): (r: seq<Pellet>)
    ensures |r| == |ps|
    ensures forall i :: 0 <= i < |ps| ==>
      r[i] == ps[i].(power := ps[i].power || (ps[i].At() == c && forall j :: 0 <= j < i ==> ps[j].At() != c))
  {
    match FirstIndex(ps, (p: Pellet) => p.At() == c)
    case None => ps
    case Some(k) => ps[k := ps[k].(power := true)]
  }

  /** The four near-corner tiles, in the order the source visits them. */
  function Corners(w: int, h: int): seq<Pos> {
    [Pos(1, 1), Pos(w - 2, 1), Pos(1, h - 2), Pos(w - 2, h - 2)]
  }

  function PromoteCorners(ps: seq<Pellet>, w: int, h: int): seq<Pellet> {
    var c := Corners(w, h);
    PromoteFirst(PromoteFirst(PromoteFirst(PromoteFirst(ps, c[0]), c[1]), c[2]), c[3])
  }

  /** The pellet list `loadMaze` builds: the `.`/`o` cells of the scan, then, when none of them is a power
      pellet, the corner promotion. */
  function LoadPellets(rows: seq<string>, w: int, h: int): seq<Pellet> {
    var found := PelletsOf(rows, Cells(rows, {DotCh, PowerCh}));
    if HasPower(found) then found else PromoteCorners(found, w, h)
  }

  /** The rows of the text: carriage returns removed, split on newlines, empty lines dropped. */
  function Lines(txt: string): seq<string> {
    NonEmpty(Split(StripCR(txt), '\n'))
  }

  /** Pac's start: the last `P` cell of the row-major scan, (1,1) when there is none. */
  function PacStartOf(rows: seq<string>): Pos {
    var starts := Cells(rows, {PacCh});
    if |starts| == 0 then Pos(1, 1) else starts[|starts| - 1]
  }

  /** The text part of `loadMaze`. An empty text gives W = 0 where the source computes
      `Math.max()` = -Infinity; with no rows both make every coordinate out of bounds. */
  function ParseMaze(txt: string): Maze {
    var lines := Lines(txt);
    var w := MaxLen(lines);
    var rows := PadAll(lines, w);
    Maze(
      rows, w, |rows|,
      PacStartOf(rows),
      Cells(rows, {GhostCh}),
      LoadPellets(rows, w, |rows|),
      (set p | p in Cells(rows, {GateCh})),
      Cells(rows, {TunnelCh}))
  }

  /** What the engine relies on from a loaded maze: a rectangular grid whose gate and tunnel collections are
      exactly the `-` and `X` cells, tunnels listed in row-major order. */
  predicate WellFormed(m: Maze) {
    && |m.rows| == m.h
    && (forall y :: 0 <= y < m.h ==> |m.rows[y]| == m.w)
    && m.gates == (set p | p in Cells(m.rows, {GateCh}))
    && m.tunnels == Cells(m.rows, {TunnelCh})
  }

  /** Some cell of the text holds a power pellet `o`. */
  ghost predicate HasPowerChar(rows: seq<string>) {
    exists x, y :: CharAt(rows, x, y) == PowerCh
  }

  /** A cell is collected by the scan for `keep` exactly when the character read there is in `keep`
      (`keep` never holds the space that is read outside the text). */
  lemma InCellsIff(rows: seq<string>, keep: set<char>, x: int, y: int)
    requires ' ' !in keep
    ensures Pos(x, y) in Cells(rows, keep) <==> CharAt(rows, x, y) in keep
  {
  }

  /** With pellet tiles all distinct, promoting the first pellet on `c` promotes every pellet on `c`. */
  lemma PromoteFirstDistinct(ps: seq<Pellet>, c: Pos)
    requires PelletsRowMajor(ps)
    ensures PelletsRowMajor(PromoteFirst(ps, c))
    ensures forall i :: 0 <= i < |ps| ==> PromoteFirst(ps, c)[i] == ps[i].(power := ps[i].power || ps[i].At() == c)
  {
    var r := PromoteFirst(ps, c);
    forall i | 0 <= i < |ps| && ps[i].At() == c
      ensures forall j :: 0 <= j < i ==> ps[j].At() != c
    {
      forall j | 0 <= j < i ensures ps[j].At() != c {
        assert Before(ps[j].At(), ps[i].At());
      }
    }
    assert forall i :: 0 <= i < |ps| ==> r[i].At() == ps[i].At();
  }

  /** The corner promotion makes exactly the pellets on the four near-corner tiles power pellets and changes
      nothing else: no pellet is added, removed, moved or un-powered. */
  lemma PromoteCornersSpec(ps: seq<Pellet>, w: int, h: int)
    requires PelletsRowMajor(ps)
    ensures |PromoteCorners(ps, w, h)| == |ps|
    ensures forall i :: 0 <= i < |ps| ==>
      PromoteCorners(ps, w, h)[i] == ps[i].(power := ps[i].power || ps[i].At() in Corners(w, h))
  {
    var c := Corners(w, h);
    var p1 := PromoteFirst(ps, c[0]);
    PromoteFirstDistinct(ps, c[0]);
    var p2 := PromoteFirst(p1, c[1]);
    PromoteFirstDistinct(p1, c[1]);
    var p3 := PromoteFirst(p2, c[2]);
    PromoteFirstDistinct(p2, c[2]);
    PromoteFirstDistinct(p3, c[3]);
  }

  /** Shape of the parsed grid: H counts the non-empty lines, every row is its line right-padded with spaces
      to W, and W is the length of the longest line (0 when there is none). Lines never contain a newline or
      carriage return. */
  lemma ParseShape(txt: string)
    ensures var m := ParseMaze(txt); m.h == |Lines(txt)| == |m.rows|
    ensures forall l :: l in Lines(txt) <==> l in Split(StripCR(txt), '\n') && l != ""
    ensures var m := ParseMaze(txt); var lines := Lines(txt);
      forall y :: 0 <= y < m.h ==>
        && |m.rows[y]| == m.w
        && 0 < |lines[y]| <= m.w
        && m.rows[y][..|lines[y]|] == lines[y]
        && (forall x :: |lines[y]| <= x < m.w ==> m.rows[y][x] == ' ')
        && '\n' !in lines[y] && '\r' !in lines[y]
    ensures var m := ParseMaze(txt); m.h > 0 ==> exists y :: 0 <= y < m.h && |Lines(txt)[y]| == m.w
    ensures var m := ParseMaze(txt); m.h == 0 ==> m.w == 0
  {
    var m := ParseMaze(txt);
    var lines := Lines(txt);
    var parts := Split(StripCR(txt), '\n');
    SplitChars(StripCR(txt), '\n');
    forall y | 0 <= y < m.h
      ensures '\n' !in lines[y] && '\r' !in lines[y]
    {
      assert lines[y] in lines;
      var i :| 0 <= i < |parts| && parts[i] == lines[y];
    }
  }

  /** Every character of the text other than a carriage return or newline lies on some line. */
  lemma LinesKeepChars(txt: string, c: char)
    requires c in txt && c != '\r' && c != '\n'
    ensures exists y, k :: 0 <= y < |Lines(txt)| && 0 <= k < |Lines(txt)[y]| && Lines(txt)[y][k] == c
  {
    var s := StripCR(txt);
    StripCRKeeps(txt, c);
    var parts := Split(s, '\n');
    JoinChars(parts, '\n', c);
    var i :| 0 <= i < |parts| && c in parts[i];
    var lines := Lines(txt);
    assert parts[i] in parts && parts[i] != "";
    assert parts[i] in lines;
    var y :| 0 <= y < |lines| && lines[y] == parts[i];
    var k :| 0 <= k < |parts[i]| && parts[i][k] == c;
    assert lines[y][k] == c;
  }

  /** Every character of the text other than a carriage return or newline lands in some cell of the grid. */
  lemma ParseKeepsChars(txt: string, c: char)
    requires c in txt && c != '\r' && c != '\n'
    ensures exists x, y :: CharAt(ParseMaze(txt).rows, x, y) == c
  {
    LinesKeepChars(txt, c);
    var lines := Lines(txt);
    var y, k :| 0 <= y < |lines| && 0 <= k < |lines[y]| && lines[y][k] == c;
    var rows := PadAll(lines, MaxLen(lines));
    assert rows[y] == PadEnd(lines[y], MaxLen(lines));
    assert rows[y][..|lines[y]|] == lines[y];
    assert rows[y][k] == c;
    assert CharAt(rows, k, y) == c;
    assert ParseMaze(txt).rows == rows;
  }

  /** A parsed maze is well formed. */
  lemma ParseWellFormed(txt: string)
    ensures WellFormed(ParseMaze(txt))
  {
    ParseShape(txt);
  }

  /** Pac's start is (1,1) when no cell holds `P`, and otherwise a `P` cell after which no `P` cell comes. */
  lemma LastPacCell(rows: seq<string>)
    ensures (forall x, y :: CharAt(rows, x, y) != PacCh) ==> PacStartOf(rows) == Pos(1, 1)
    ensures (exists x, y :: CharAt(rows, x, y) == PacCh) ==>
        && CharAt(rows, PacStartOf(rows).x, PacStartOf(rows).y) == PacCh
        && (forall x, y :: CharAt(rows, x, y) == PacCh ==> !Before(PacStartOf(rows), Pos(x, y)))
  {
    var starts := Cells(rows, {PacCh});
    forall x, y ensures Pos(x, y) in starts <==> CharAt(rows, x, y) == PacCh {
      InCellsIff(rows, {PacCh}, x, y);
    }
    if |starts| > 0 {
      assert starts[0] in starts;
    }
    if exists x, y :: CharAt(rows, x, y) == PacCh {
      var x0, y0 :| CharAt(rows, x0, y0) == PacCh;
      assert Pos(x0, y0) in starts;
      var last := starts[|starts| - 1];
      assert last in starts;
      forall x, y | CharAt(rows, x, y) == PacCh
        ensures !Before(last, Pos(x, y))
      {
        assert Pos(x, y) in starts;
        var k :| 0 <= k < |starts| && starts[k] == Pos(x, y);
        if k < |starts| - 1 {
          assert Before(starts[k], last);
        }
      }
    }
  }

  /** The `G` cells of the scan are exactly the cells holding `G`. */
  lemma GhostCells(rows: seq<string>)
    ensures forall x, y :: Pos(x, y) in Cells(rows, {GhostCh}) <==> CharAt(rows, x, y) == GhostCh
  {
    forall x, y ensures Pos(x, y) in Cells(rows, {GhostCh}) <==> CharAt(rows, x, y) == GhostCh {
      InCellsIff(rows, {GhostCh}, x, y);
    }
  }

  /** Spawns: Pac starts on the LAST `P` of the row-major scan, or at (1,1) when there is none; the ghost
      spawns are exactly the `G` cells, in row-major order. */
  lemma ParseSpawns(txt: string)
    ensures var m := ParseMaze(txt);
      (forall x, y :: CharAt(m.rows, x, y) != PacCh) ==> m.pacStart == Pos(1, 1)
    ensures var m := ParseMaze(txt);
      (exists x, y :: CharAt(m.rows, x, y) == PacCh) ==>
        && CharAt(m.rows, m.pacStart.x, m.pacStart.y) == PacCh
        && (forall x, y :: CharAt(m.rows, x, y) == PacCh ==> !Before(m.pacStart, Pos(x, y)))
    ensures var m := ParseMaze(txt);
      forall x, y :: Pos(x, y) in m.ghostStarts <==> CharAt(m.rows, x, y) == GhostCh
    ensures RowMajor(ParseMaze(txt).ghostStarts)
  {
    var m := ParseMaze(txt);
    LastPacCell(m.rows);
    GhostCells(m.rows);
  }

  /** The pellets the scan finds, before any promotion: one per `.` or `o` cell, row-major, none eaten,
      power exactly on `o`. */
  lemma FoundPellets(rows: seq<string>)
    ensures var found := PelletsOf(rows, Cells(rows, {DotCh, PowerCh}));
      && PelletsRowMajor(found)
      && (forall i :: 0 <= i < |found| ==>
            && !found[i].eaten
            && CharAt(rows, found[i].x, found[i].y) in {DotCh, PowerCh}
            && found[i].power == (CharAt(rows, found[i].x, found[i].y) == PowerCh))
      && (forall x, y :: CharAt(rows, x, y) in {DotCh, PowerCh} ==>
            exists i :: 0 <= i < |found| && found[i].At() == Pos(x, y))
      && (HasPower(found) <==> HasPowerChar(rows))
  {
    FoundKinds(rows);
    FoundCover(rows);
    FoundPower(rows);
  }

  /** The pellet scan finds exactly the `.` and `o` cells. */
  lemma FoundCells(rows: seq<string>)
    ensures forall x, y :: Pos(x, y) in Cells(rows, {DotCh, PowerCh}) <==> CharAt(rows, x, y) in {DotCh, PowerCh}
  {
    forall x, y ensures Pos(x, y) in Cells(rows, {DotCh, PowerCh}) <==> CharAt(rows, x, y) in {DotCh, PowerCh} {
      InCellsIff(rows, {DotCh, PowerCh}, x, y);
    }
  }

  lemma FoundKinds(rows: seq<string>)
    ensures var found := PelletsOf(rows, Cells(rows, {DotCh, PowerCh}));
      && PelletsRowMajor(found)
      && forall i :: 0 <= i < |found| ==>
            && !found[i].eaten
            && CharAt(rows, found[i].x, found[i].y) in {DotCh, PowerCh}
            && found[i].power == (CharAt(rows, found[i].x, found[i].y) == PowerCh)
  {
    var cells := Cells(rows, {DotCh, PowerCh});
    var found := PelletsOf(rows, cells);
    FoundCells(rows);
    forall i | 0 <= i < |found| ensures CharAt(rows, found[i].x, found[i].y) in {DotCh, PowerCh} {
      assert cells[i] in cells;
    }
  }

  lemma FoundCover(rows: seq<string>)
    ensures var found := PelletsOf(rows, Cells(rows, {DotCh, PowerCh}));
      forall x, y :: CharAt(rows, x, y) in {DotCh, PowerCh} ==>
        exists i :: 0 <= i < |found| && found[i].At() == Pos(x, y)
  {
    var cells := Cells(rows, {DotCh, PowerCh});
    var found := PelletsOf(rows, cells);
    FoundCells(rows);
    forall x, y | CharAt(rows, x, y) in {DotCh, PowerCh}
      ensures exists i :: 0 <= i < |found| && found[i].At() == Pos(x, y)
    {
      var i :| 0 <= i < |cells| && cells[i] == Pos(x, y);
      assert found[i].At() == Pos(x, y);
    }
  }

  lemma FoundPower(rows: seq<string>)
    ensures HasPower(PelletsOf(rows, Cells(rows, {DotCh, PowerCh}))) <==> HasPowerChar(rows)
  {
    var found := PelletsOf(rows, Cells(rows, {DotCh, PowerCh}));
    FoundKinds(rows);
    FoundCover(rows);
    if HasPowerChar(rows) {
      var x, y :| CharAt(rows, x, y) == PowerCh;
      var i :| 0 <= i < |found| && found[i].At() == Pos(x, y);
      assert found[i].power;
    }
  }

  /** Pellets of a loaded maze: one per `.` or `o` cell, in row-major order, none eaten. When the text holds
      an `o`, exactly the `o` pellets are power pellets; otherwise exactly those on the four near-corner tiles
      (1,1), (W-2,1), (1,H-2), (W-2,H-2). */
  lemma LoadPelletsSpec(rows: seq<string>, w: int, h: int)
    ensures var ps := LoadPellets(rows, w, h);
      && PelletsRowMajor(ps)
      && (forall i :: 0 <= i < |ps| ==> !ps[i].eaten && CharAt(rows, ps[i].x, ps[i].y) in {DotCh, PowerCh})
      && (forall x, y :: CharAt(rows, x, y) in {DotCh, PowerCh} ==>
            exists i :: 0 <= i < |ps| && ps[i].At() == Pos(x, y))
    ensures var ps := LoadPellets(rows, w, h);
      HasPowerChar(rows) ==>
        forall i :: 0 <= i < |ps| ==> ps[i].power == (CharAt(rows, ps[i].x, ps[i].y) == PowerCh)
    ensures var ps := LoadPellets(rows, w, h);
      !HasPowerChar(rows) ==>
        forall i :: 0 <= i < |ps| ==> ps[i].power == (ps[i].At() in Corners(w, h))
  {
    var found := PelletsOf(rows, Cells(rows, {DotCh, PowerCh}));
    FoundPellets(rows);
    var ps := LoadPellets(rows, w, h);
    if HasPowerChar(rows) {
      assert ps == found;
    } else {
      assert ps == PromoteCorners(found, w, h);
      PromotedPellets(found, w, h);
      forall i | 0 <= i < |ps|
        ensures !ps[i].eaten && CharAt(rows, ps[i].x, ps[i].y) in {DotCh, PowerCh}
        ensures ps[i].power == (ps[i].At() in Corners(w, h))
      {
        assert ps[i].At() == found[i].At();
        assert !found[i].power;
      }
      forall x, y | CharAt(rows, x, y) in {DotCh, PowerCh}
        ensures exists i :: 0 <= i < |ps| && ps[i].At() == Pos(x, y)
      {
        var i :| 0 <= i < |found| && found[i].At() == Pos(x, y);
        assert ps[i].At() == Pos(x, y);
      }
    }
  }

  /** The corner promotion keeps the list's tiles, order and eaten flags. */
  lemma PromotedPellets(found: seq<Pellet>, w: int, h: int)
    requires PelletsRowMajor(found)
    ensures var ps := PromoteCorners(found, w, h);
      && |ps| == |found|
      && PelletsRowMajor(ps)
      && (forall i :: 0 <= i < |ps| ==> ps[i].At() == found[i].At() && ps[i].eaten == found[i].eaten)
      && (forall i :: 0 <= i < |ps| ==> ps[i].power == (found[i].power || ps[i].At() in Corners(w, h)))
  {
    PromoteCornersSpec(found, w, h);
  }

  // ---------------------------------------------------------------------------------------------
  // Tile predicates

  predicate InBounds(m: Maze, x: int, y: int) {
    !(x < 0 || y < 0 || y >= m.h || x >= m.w)
  }

  /** Only `#` is a wall; anything outside the text reads as a space. */
  predicate IsWall(m: Maze, x: int, y: int) {
    CharAt(m.rows, x, y) == WallCh
  }

  /** Pac may cross a gate. */
  predicate PassableForPac(m: Maze, x: int, y: int) {
    if x < 0 || y < 0 || y >= m.h || x >= m.w then false
    else if Pos(x, y) in m.gates then true
    else !IsWall(m, x, y)
  }

  /** Ghosts may not cross a gate. */
  predicate PassableForGhost(m: Maze, x: int, y: int) {
    if x < 0 || y < 0 || y >= m.h || x >= m.w then false
    else if Pos(x, y) in m.gates then false
    else !IsWall(m, x, y)
  }

  /** Both predicates reject the outside of the grid and non-gate walls; ghost-passable tiles are
      Pac-passable; the two differ exactly on the in-bounds gate tiles. */
  lemma PassabilityAgrees(m: Maze, x: int, y: int)
    ensures !InBounds(m, x, y) ==> !PassableForPac(m, x, y) && !PassableForGhost(m, x, y)
    ensures IsWall(m, x, y) && Pos(x, y) !in m.gates ==> !PassableForPac(m, x, y) && !PassableForGhost(m, x, y)
    ensures PassableForGhost(m, x, y) ==> PassableForPac(m, x, y)
    ensures PassableForPac(m, x, y) && !PassableForGhost(m, x, y) <==> InBounds(m, x, y) && Pos(x, y) in m.gates
  {
  }

  /** In a loaded maze a gate is never a wall, so for Pac every in-bounds non-wall tile is open and for a
      ghost exactly the in-bounds tiles holding neither `#` nor `-`. */
  lemma PassabilityByChar(m: Maze, x: int, y: int)
    requires WellFormed(m)
    ensures PassableForPac(m, x, y) <==> InBounds(m, x, y) && CharAt(m.rows, x, y) != WallCh
    ensures PassableForGhost(m, x, y) <==>
      InBounds(m, x, y) && CharAt(m.rows, x, y) != WallCh && CharAt(m.rows, x, y) != GateCh
  {
    if InBounds(m, x, y) {
      assert |m.rows[y]| == m.w;
      assert Pos(x, y) in m.gates <==> CharAt(m.rows, x, y) == GateCh;
    }
  }

  /** `pelletAt`: the first pellet on (x, y) that is not yet eaten. */
  function PelletAt(ps: seq<Pellet>, x: int, y: int): (r: Option<nat>)
    ensures r.Some? ==> r.value < |ps| && ps[r.value].At() == Pos(x, y) && !ps[r.value].eaten
    ensures r.Some? ==> forall j :: 0 <= j < r.value ==> ps[j].At() != Pos(x, y) || ps[j].eaten
    ensures r.None? <==> forall j :: 0 <= j < |ps| ==> ps[j].At() != Pos(x, y) || ps[j].eaten
  {
    FirstIndex(ps, (p: Pellet) => p.At() == Pos(x, y) && !p.eaten)
  }

  /** The first tunnel (in iteration order) in row y at a column other than x. */
  function Partner(ts: seq<Pos>, x: int, y: int): (r: Option<nat>)
    ensures r.Some? ==> r.value < |ts| && ts[r.value].y == y && ts[r.value].x != x
    ensures r.Some? ==> forall j :: 0 <= j < r.value ==> ts[j].y != y || ts[j].x == x
    ensures r.None? <==> forall j :: 0 <= j < |ts| ==> ts[j].y != y || ts[j].x == x
  {
    if |ts| == 0 then None
    else if ts[0].y == y && ts[0].x != x then Some(0)
    else
      match Partner(ts[1..], x, y)
      case None => None
      case Some(k) => Some(k + 1)
  }

  /** `wrap`: a tunnel tile teleports to the first other tunnel in its row; otherwise a column left of the
      grid goes to the last column and one right of it to column 0. */
  function Wrap(m: Maze, x: int, y: int): Pos {
    var teleport := if Pos(x, y) in m.tunnels then Partner(m.tunnels, x, y) else None;
    if teleport.Some? then m.tunnels[teleport.value]
    else
      var x1 := if x < 0 then m.w - 1 else x;
      var x2 := if x1 >= m.w then 0 else x1;
      Pos(x2, y)
  }

  /** What `wrap` returns: the row never changes; a tunnel tile with a partner goes to that partner, a
      tunnel in another column; otherwise an in-range column is kept, x < 0 goes to W-1 and x >= W to 0. */
  lemma WrapSpec(m: Maze, x: int, y: int)
    ensures var r := Wrap(m, x, y);
      && r.y == y
      && (Pos(x, y) in m.tunnels && Partner(m.tunnels, x, y).Some? ==>
            r in m.tunnels && r.x != x && r == m.tunnels[Partner(m.tunnels, x, y).value])
      && (!(Pos(x, y) in m.tunnels && Partner(m.tunnels, x, y).Some?) ==>
            && (0 <= x < m.w ==> r.x == x)
            && (x < 0 ==> r.x == m.w - 1)
            && (x >= m.w ==> r.x == 0))
  {
  }

  /** In a loaded maze, wrapping an in-grid tile gives an in-grid tile (a tunnel's partner is itself a
      tunnel cell); a tile that is not a tunnel is returned unchanged. */
  lemma WrapInGrid(m: Maze, x: int, y: int)
    requires WellFormed(m)
    requires InBounds(m, x, y)
    ensures InBounds(m, Wrap(m, x, y).x, Wrap(m, x, y).y)
    ensures Pos(x, y) !in m.tunnels ==> Wrap(m, x, y) == Pos(x, y)
  {
    var r := Wrap(m, x, y);
    WrapSpec(m, x, y);
    if Pos(x, y) in m.tunnels && Partner(m.tunnels, x, y).Some? {
      assert r in Cells(m.rows, {TunnelCh});
    }
  }

  /** In a loaded maze, wrapping never moves anyone into a wall or across a gate: a tile open to Pac (or to
      the ghosts) wraps to a tile open to Pac (or to the ghosts), because a tunnel partner holds `X`. */
  lemma WrapKeepsOpen(m: Maze, x: int, y: int)
    requires WellFormed(m)
    ensures PassableForPac(m, x, y) ==> PassableForPac(m, Wrap(m, x, y).x, Wrap(m, x, y).y)
    ensures PassableForGhost(m, x, y) ==> PassableForGhost(m, Wrap(m, x, y).x, Wrap(m, x, y).y)
  {
    var r := Wrap(m, x, y);
    if InBounds(m, x, y) && Pos(x, y) in m.tunnels && Partner(m.tunnels, x, y).Some? {
      WrapInGrid(m, x, y);
      assert r in Cells(m.rows, {TunnelCh});
      InCellsIff(m.rows, {TunnelCh}, r.x, r.y);
      InCellsIff(m.rows, {GateCh}, r.x, r.y);
      assert r !in m.gates;
      PassabilityByChar(m, r.x, r.y);
    }
  }

  /** Two tunnels that are alone in their row send an agent back and forth between them. */
  lemma TunnelPairSwaps(m: Maze, a: Pos, b: Pos)
    requires a in m.tunnels && b in m.tunnels && a.y == b.y && a.x != b.x
    requires forall t :: t in m.tunnels && t.y == a.y ==> t == a || t == b
    ensures Wrap(m, a.x, a.y) == b && Wrap(m, b.x, b.y) == a
  {
    WrapSpec(m, a.x, a.y);
    WrapSpec(m, b.x, b.y);
    var ia :| 0 <= ia < |m.tunnels| && m.tunnels[ia] == b;
    var ib :| 0 <= ib < |m.tunnels| && m.tunnels[ib] == a;
    assert m.tunnels[ia].y == a.y && m.tunnels[ia].x != a.x;
    assert m.tunnels[ib].y == b.y && m.tunnels[ib].x != b.x;
  }
}
