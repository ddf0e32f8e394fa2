/**
 * Grid helpers of the pygame engine (war/advanced_battle.py): the board size,
 * terrain kinds, Manhattan distance, the bounds test and the 4-neighbourhood.
 */
module Grid {

  /** `COLS = WIDTH // TILE_SIZE = 800 // 20` and `ROWS = HEIGHT // TILE_SIZE = 600 // 20`. */
  const COLS: int := 40
  const ROWS: int := 30
  const FPS: int := 60
  const FOG_RADIUS: nat := 5
  const HQ_HP: int := 500

  /** A tile coordinate `(x, y)`; x is the column, y the row. */
  datatype Pos = Pos(x: int, y: int)

  /** The terrain kinds OPEN, WALL and FOREST. */
  datatype Terrain = Open | Wall | Forest

  /** The terrain grid, indexed `grid[y][x]` like the source's list of rows. */
  type Board = seq<seq<Terrain>>

  predicate BoardOk(g: Board) {
    |g| == ROWS && forall row :: row in g ==> |row| == COLS
  }

  function Abs(n: int): (a: nat)
    ensures a == n || a == -n
  {
    if n < 0 then -n else n
  }

  function Manhattan(a: Pos, b: Pos): (d: nat)
    ensures d == 0 <==> a == b
  {
    Abs(a.x - b.x) + Abs(a.y - b.y)
  }

  lemma ManhattanTriangle(a: Pos, b: Pos, c: Pos)
    ensures Manhattan(a, c) <= Manhattan(a, b) + Manhattan(b, c)
    ensures Manhattan(a, b) == Manhattan(b, a)
  {
  }

  predicate InBounds(p: Pos) {
    0 <= p.x < COLS && 0 <= p.y < ROWS
  }

  function At(g: Board, p: Pos): Terrain
    requires BoardOk(g) && InBounds(p)
  {
    g[p.y][p.x]
  }

  /** The board with tile `p` replaced by `t` (a list-of-rows item assignment). */
  function Place(g: Board, p: Pos, t: Terrain): (r: Board)
    requires BoardOk(g) && InBounds(p)
    ensures BoardOk(r) && At(r, p) == t
    ensures forall q :: InBounds(q) && q != p ==> At(r, q) == At(g, q)
  {
    g[p.y := g[p.y][p.x := t]]
  }

  /** The four directions in the order `neighbors` tries them: +x, -x, +y, -y. */
  const DIRS: seq<Pos> := [Pos(1, 0), Pos(-1, 0), Pos(0, 1), Pos(0, -1)]

  function Shift(p: Pos, d: Pos): Pos {
    Pos(p.x + d.x, p.y + d.y)
  }

  /** The in-bounds entries of `ps`, order kept. */
  function KeepInBounds(ps: seq<Pos>): (r: seq<Pos>)
    ensures forall q :: q in r <==> q in ps && InBounds(q)
    ensures |r| <= |ps|
  {
    if ps == [] then []
    else (if InBounds(ps[0]) then [ps[0]] else []) + KeepInBounds(ps[1..])
  }

  /** `neighbors(pos)`: the in-bounds 4-neighbours of `p`, tried in the order of DIRS. */
  function Neighbors(p: Pos): (r: seq<Pos>)
    ensures forall q :: q in r <==> InBounds(q) && Manhattan(p, q) == 1
    ensures |r| <= 4
  {
    var r := KeepInBounds([Shift(p, DIRS[0]), Shift(p, DIRS[1]), Shift(p, DIRS[2]), Shift(p, DIRS[3])]);
    assert forall q :: Manhattan(p, q) == 1 ==>
      q in [Shift(p, DIRS[0]), Shift(p, DIRS[1]), Shift(p, DIRS[2]), Shift(p, DIRS[3])];
    r
  }

  /** The first index of a minimum of Manhattan distance from `from`: Python's `min(..., key=...)`. */
  function Nearest(from: Pos, ps: seq<Pos>): (k: nat)
    requires |ps| > 0
    ensures k < |ps|
    ensures forall i :: 0 <= i < |ps| ==> Manhattan(from, ps[k]) <= Manhattan(from, ps[i])
    ensures forall i :: 0 <= i < k ==> Manhattan(from, ps[k]) < Manhattan(from, ps[i])
  {
    if |ps| == 1 then 0
    else
      var k := Nearest(from, ps[1..]) + 1;
      if Manhattan(from, ps[0]) <= Manhattan(from, ps[k]) then 0 else k
  }
}
