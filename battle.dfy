/**
 * The pygame engine's world: the terrain grid, the unit roster, both HQs and
 * the resource pools (the module-level globals of the game loop), with the
 * per-unit behaviour (`attack`, `move_to`, `decide_target`, `update`) and the
 * per-frame blocks (spawning, fog of war, death sweep, HQ-loss check).
 */
module Battle {
  import opened Teams
  import opened Grid
  import opened Forces
  import Pathfinder
  import Fog
  import Lists

  /** Radius of the Shieldbearer aura, the Medic heal and the RepairBot repair. */
  const SUPPORT_RADIUS := 2
  const REPAIR_AMOUNT := 2
  const BARRIER_PERIOD := FPS * 5
  /** The "engage enemy within 5 tiles" override. */
  const ENGAGE_RADIUS := 5
  const DEFEND_RADIUS := 4
  const REGROUP_BELOW := 3
  const REGROUP_RADIUS := 4
  const ADVANCE_FROM := 5
  /** Initial `min_d` of the nearest-ally search. */
  const NO_ALLY := 999

  const BLUE_HQ := Pos(1, ROWS / 2 - 1)
  const RED_HQ := Pos(COLS - 3, ROWS / 2 - 1)

  /** `p` lies in the 2x2 block whose top-left corner is `c`. */
  predicate InBlock(c: Pos, p: Pos) {
    c.x <= p.x <= c.x + 1 && c.y <= p.y <= c.y + 1
  }

  /** The HQ setup: both 2x2 HQ blocks cleared to open ground, all other tiles kept. */
  function ClearHqs(terrain: Board): (g: Board)
    requires BoardOk(terrain)
    ensures BoardOk(g)
    ensures forall p :: InBlock(BLUE_HQ, p) || InBlock(RED_HQ, p) ==> InBounds(p)
    ensures forall p :: InBounds(p) ==>
      At(g, p) == if InBlock(BLUE_HQ, p) || InBlock(RED_HQ, p) then Open else At(terrain, p)
  {
    ClearBlock(ClearBlock(terrain, BLUE_HQ), RED_HQ)
  }

  /** The setup loop `terrain[ty][tx] = OPEN` over the 2x2 HQ block at `c`. */
  function ClearBlock(g: Board, c: Pos): (r: Board)
    requires BoardOk(g) && InBounds(c) && InBounds(Pos(c.x + 1, c.y + 1))
    ensures BoardOk(r)
    ensures forall p :: InBounds(p) ==> At(r, p) == if InBlock(c, p) then Open else At(g, p)
  {
    var g1 := Place(g, c, Open);
    var g2 := Place(g1, Pos(c.x + 1, c.y), Open);
    var g3 := Place(g2, Pos(c.x, c.y + 1), Open);
    Place(g3, Pos(c.x + 1, c.y + 1), Open)
  }

  predicate AdjacentEnemy(me: Unit, u: Unit)
    reads me`x, me`y, u`x, u`y
  {
    u.team != me.team && Manhattan(u.Tile(), me.Tile()) <= 1
  }

  /** Index of the first roster entry `attack` would hit, if any. */
  ghost function FirstHit(us: seq<Unit>, me: Unit): (r: Option<nat>)
    reads us`x, us`y, me`x, me`y
    ensures r.Some? ==> r.value < |us| && AdjacentEnemy(me, us[r.value])
    ensures r.Some? ==> forall k :: 0 <= k < r.value ==> !AdjacentEnemy(me, us[k])
    ensures r.None? <==> forall k :: 0 <= k < |us| ==> !AdjacentEnemy(me, us[k])
  {
    if us == [] then None
    else if AdjacentEnemy(me, us[0]) then Some(0)
    else match FirstHit(us[1..], me)
      case None => None
      case Some(k) => Some(k + 1)
  }

  /** Every unit of `us` is sound and alive. */
  ghost predicate Living(us: seq<Unit>)
    reads us`x, us`y, us`hqCounter, us`hp, us`attackCd, us`moveCd, us`cooldown
  {
    forall u :: u in us ==> UnitOk(u) && u.hp > 0
  }

  /** `[u for u in units if u.team == team]`. */
  function TeamOf(us: seq<Unit>, team: Team): (r: seq<Unit>)
    ensures forall u :: u in r ==> u in us && u.team == team
    ensures forall u :: u in us && u.team == team ==> u in r
    ensures |r| <= |us|
  {
    if us == [] then []
    else (if us[0].team == team then [us[0]] else []) + TeamOf(us[1..], team)
  }

  /** `visible_enemies`: units of the other team standing on a visible tile. */
  function SeenEnemies(us: seq<Unit>, team: Team, visible: set<Pos>): (r: seq<Unit>)
    reads us
    ensures forall u :: u in r ==> u in us && u.team != team && u.Tile() in visible
    ensures forall u :: u in us && u.team != team && u.Tile() in visible ==> u in r
  {
    if us == [] then []
    else (if us[0].team != team && us[0].Tile() in visible then [us[0]] else []) + SeenEnemies(us[1..], team, visible)
  }

  /** The units of `us` within Manhattan distance `radius` of `from`, order kept. */
  function WithinOf(us: seq<Unit>, from: Pos, radius: nat): (r: seq<Unit>)
    reads us
    ensures forall u :: u in r ==> u in us && Manhattan(from, u.Tile()) <= radius
    ensures forall u :: u in us && Manhattan(from, u.Tile()) <= radius ==> u in r
  {
    if us == [] then []
    else (if Manhattan(from, us[0].Tile()) <= radius then [us[0]] else []) + WithinOf(us[1..], from, radius)
  }

  /** `close_enemies` of `decide_target`: units within 4 of some tile of `h`. */
  function NearHqOf(us: seq<Unit>, h: Hq): (r: seq<Unit>)
    reads us
    ensures forall u :: u in r ==> u in us && h.DistanceTo(u.Tile()) <= DEFEND_RADIUS
    ensures forall u :: u in us && h.DistanceTo(u.Tile()) <= DEFEND_RADIUS ==> u in r
  {
    if us == [] then []
    else (if h.DistanceTo(us[0].Tile()) <= DEFEND_RADIUS then [us[0]] else []) + NearHqOf(us[1..], h)
  }

  function TilesOf(us: seq<Unit>): (ps: seq<Pos>)
    reads us`x, us`y
    ensures |ps| == |us| && forall i :: 0 <= i < |us| ==> ps[i] == us[i].Tile()
  {
    if us == [] then [] else [us[0].Tile()] + TilesOf(us[1..])
  }

  /**
   * `e` is an entry of `close` at the least distance from `from`, and every
   * entry before it is strictly farther.
   */
  ghost predicate FirstNearest(from: Pos, close: seq<Unit>, e: Unit)
    reads close, e
  {
    exists i ::
      && 0 <= i < |close| && close[i] == e
      && (forall k :: 0 <= k < |close| ==> Manhattan(from, e.Tile()) <= Manhattan(from, close[k].Tile()))
      && (forall k :: 0 <= k < i ==> Manhattan(from, e.Tile()) < Manhattan(from, close[k].Tile()))
  }

  /**
   * `min(close, key=distance from from)`: a unit of `close` at the least
   * distance, the first one in list order among equals.
   */
  function Closest(from: Pos, close: seq<Unit>): (e: Unit)
    reads close
    requires |close| > 0
    ensures FirstNearest(from, close, e)
  {
    var k := Nearest(from, TilesOf(close));
    close[k]
  }

  /** The tiles a mover heads for: the target unit's tile, or all four HQ tiles. */
  function Goals(t: Target): (g: set<Pos>)
    reads if t.UnitTarget? then {t.unit} else {}
    ensures t.UnitTarget? ==> g == {t.unit.Tile()}
    ensures t.HqTarget? ==> g == t.hq.Tiles()
  {
    match t
    case UnitTarget(u) => {u.Tile()}
    case HqTarget(h) => h.Tiles()
  }

  /**
   * Regrouping applies: the team has fewer than 3 units, some other member is
   * closer than the 999 sentinel, and every other member is more than 4 away.
   */
  ghost predicate Regroups(me: Unit, team: seq<Unit>)
    reads me, team
  {
    && |team| < REGROUP_BELOW
    && (exists a :: a in team && a != me && Manhattan(me.Tile(), a.Tile()) < NO_ALLY)
    && (forall a :: a in team && a != me ==> Manhattan(me.Tile(), a.Tile()) > REGROUP_RADIUS)
  }

  /**
   * The priority order of `decide_target`: defend the own HQ against a seen
   * enemy within 4 of it; else regroup on the nearest other member; else, with
   * at least 5 units, advance on the enemy HQ; else hold at the own HQ.
   */
  ghost predicate Decided(own: Hq, enemy: Hq, me: Unit, seen: seq<Unit>, team: seq<Unit>, t: Target)
    reads me, seen, team
  {
    if exists e :: e in seen && own.DistanceTo(e.Tile()) <= DEFEND_RADIUS then
      t.UnitTarget? && t.unit in seen && own.DistanceTo(t.unit.Tile()) <= DEFEND_RADIUS
    else if Regroups(me, team) then
      && t.UnitTarget? && t.unit in team && t.unit != me
      && (forall a :: a in team && a != me ==> Manhattan(me.Tile(), t.unit.Tile()) <= Manhattan(me.Tile(), a.Tile()))
      && exists i :: 0 <= i < |team| && team[i] == t.unit &&
           forall k :: 0 <= k < i && team[k] != me ==> Manhattan(me.Tile(), t.unit.Tile()) < Manhattan(me.Tile(), team[k].Tile())
    else if |team| >= ADVANCE_FROM then t == HqTarget(enemy)
    else t == HqTarget(own)
  }

  /** The defend step of `decide_target`: with seen enemies near the own HQ, the one drawn by `pick`. */
  ghost predicate Defends(own: Hq, seen: seq<Unit>, pick: nat, t: Target)
    reads seen
  {
    var near := NearHqOf(seen, own);
    |near| > 0 ==> t == UnitTarget(near[pick % |near|])
  }

  /** A seen enemy stands within the engage radius of `me`. */
  ghost predicate CanEngage(me: Unit, us: seq<Unit>, visible: set<Pos>)
    reads me, us
  {
    exists e :: e in us && e.team != me.team && e.Tile() in visible && Manhattan(me.Tile(), e.Tile()) <= ENGAGE_RADIUS
  }

  /**
   * What `bfs` answers from `here` towards `goals` on board `g`, with the
   * tiles `occ` of the other units refused as first steps: None exactly when
   * `here` is a goal; `here` itself exactly when no goal is reachable;
   * otherwise the first step of a shortest walk into the goals, an open
   * in-bounds 4-neighbour outside `occ`.
   */
  ghost predicate Plans(g: Board, here: Pos, occ: set<Pos>, goals: set<Pos>, next: Option<Pos>) {
    var s := Pathfinder.Search(g, here, occ);
    && (next.None? <==> here in goals)
    && (next == Some(here) <==> here !in goals && !s.Reaches(goals))
    && (next.Some? && next.value != here ==>
         && InBounds(next.value) && Manhattan(here, next.value) == 1
         && BoardOk(g) && At(g, next.value) != Wall
         && next.value !in occ
         && s.FirstStepOfShortest(goals, next.value))
  }

  /** Between `g0` and `g` the only change is open tiles turned into walls. */
  ghost predicate WallsOnly(g0: Board, g: Board) {
    && BoardOk(g0) && BoardOk(g)
    && forall p :: InBounds(p) && At(g, p) != At(g0, p) ==> At(g0, p) == Open && At(g, p) == Wall
  }

  /** The four directions `random.shuffle` permutes for the Barrier Engineer. */
  type Shuffle = ds: seq<Pos> | multiset(ds) == multiset{Pos(-1, 0), Pos(1, 0), Pos(0, -1), Pos(0, 1)}
    witness [Pos(-1, 0), Pos(1, 0), Pos(0, -1), Pos(0, 1)]

  /** The `random.randint(10, 20)` draws for the (at most two) moves of one update. */
  type Delays = ds: seq<MoveDelay> | |ds| == 2 witness [10, 10]

  /** The random draws of one team's spawn attempt: unit type, tile and move delay. */
  datatype SpawnDraws = SpawnDraws(kindPick: nat, tilePick: nat, delay: MoveDelay)

  /** `[t for t, v in UNIT_TYPES.items() if v["cost"] <= budget]`, in table order. */
  function Affordable(budget: int): (ks: seq<Kind>)
    ensures forall k :: k in ks <==> StatsOf(k).cost <= budget
  {
    AffordableIn(KINDS, budget)
  }

  function AffordableIn(kinds: seq<Kind>, budget: int): (ks: seq<Kind>)
    ensures forall k :: k in ks <==> k in kinds && StatsOf(k).cost <= budget
  {
    if kinds == [] then []
    else (if StatsOf(kinds[0]).cost <= budget then [kinds[0]] else []) + AffordableIn(kinds[1..], budget)
  }

  lemma {:induction false} AffordableInNone(kinds: seq<Kind>, budget: int)
    requires forall k :: k in kinds ==> StatsOf(k).cost > budget
    ensures AffordableIn(kinds, budget) == []
  {
    if kinds != [] {
      assert kinds[0] in kinds;
      AffordableInNone(kinds[1..], budget);
    }
  }

  /** Nothing is affordable exactly when the budget is below the Scout's cost, the cheapest. */
  lemma AffordableNone(budget: int)
    ensures Affordable(budget) == [] <==> budget < StatsOf(Scout).cost
  {
    var ks := Affordable(budget);
    if budget >= StatsOf(Scout).cost {
      assert Scout in ks;
    } else {
      AffordableInNone(KINDS, budget);
    }
  }

  /** `random.choice(affordable)`: the drawn affordable unit type, if any is affordable. */
  function PickKind(budget: int, pick: nat): (k: Option<Kind>)
    ensures k.None? <==> Affordable(budget) == []
    ensures k.Some? ==> StatsOf(k.value).cost <= budget
  {
    var ks := Affordable(budget);
    if ks == [] then None
    else
      var kind := ks[pick % |ks|];
      assert kind in ks;
      Some(kind)
  }

  /** The spawn offsets -2..3 around an HQ corner, on both axes. */
  predicate InSpawnWindow(hq: Hq, p: Pos) {
    hq.x - 2 <= p.x <= hq.x + 3 && hq.y - 2 <= p.y <= hq.y + 3
  }

  /** A tile a unit may appear on: on the board, not a wall, and not in `taken`. */
  predicate FreeTile(g: Board, taken: set<Pos>, p: Pos) {
    BoardOk(g) && InBounds(p) && At(g, p) != Wall && p !in taken
  }

  /**
   * A tile a new unit of the team with HQ `hq` may appear on, on board `g`
   * with units standing on `taken`: inside the spawn window and free.
   */
  predicate Spawnable(g: Board, taken: set<Pos>, hq: Hq, p: Pos) {
    InSpawnWindow(hq, p) && FreeTile(g, taken, p)
  }

  /**
   * The free tiles of the spawn window of `hq` scanned so far, in scan order
   * (column outer, row inner, offsets -2 to 3 from the HQ corner): every
   * window column left of `x`, then column `x` above row `y`.
   */
  function WindowTiles(g: Board, taken: set<Pos>, hq: Hq, x: int, y: int): seq<Pos>
    requires hq.x - 2 <= x <= hq.x + 4 && hq.y - 2 <= y <= hq.y + 4
    decreases x - hq.x + 2, y - hq.y + 2
  {
    if y == hq.y - 2 then (if x == hq.x - 2 then [] else WindowTiles(g, taken, hq, x - 1, hq.y + 4))
    else
      var p := Pos(x, y - 1);
      WindowTiles(g, taken, hq, x, y - 1) + (if FreeTile(g, taken, p) then [p] else [])
  }

  /** `spawn_candidates`: the free tiles of the spawn window, dx outer and dy inner. */
  function SpawnTiles(g: Board, taken: set<Pos>, hq: Hq): seq<Pos> {
    WindowTiles(g, taken, hq, hq.x + 4, hq.y - 2)
  }

  lemma {:induction false} WindowTilesExact(g: Board, taken: set<Pos>, hq: Hq, x: int, y: int, p: Pos)
    requires hq.x - 2 <= x <= hq.x + 4 && hq.y - 2 <= y <= hq.y + 4
    ensures p in WindowTiles(g, taken, hq, x, y) <==>
      && hq.x - 2 <= p.x && hq.y - 2 <= p.y <= hq.y + 3
      && (p.x < x || (p.x == x && p.y < y))
      && FreeTile(g, taken, p)
    decreases x - hq.x + 2, y - hq.y + 2
  {
    if y == hq.y - 2 {
      if x != hq.x - 2 {
        WindowTilesExact(g, taken, hq, x - 1, hq.y + 4, p);
      }
    } else {
      WindowTilesStep(g, taken, hq, x, y, p);
      WindowTilesExact(g, taken, hq, x, y - 1, p);
    }
  }

  /** One step of the scan: the tile (`x`, `y` - 1) joins when free. */
  lemma WindowTilesStep(g: Board, taken: set<Pos>, hq: Hq, x: int, y: int, p: Pos)
    requires hq.x - 2 <= x <= hq.x + 4 && hq.y - 2 < y <= hq.y + 4
    ensures p in WindowTiles(g, taken, hq, x, y) <==>
      p in WindowTiles(g, taken, hq, x, y - 1) || (p == Pos(x, y - 1) && FreeTile(g, taken, p))
  {
  }

  /** The candidate list holds exactly the spawnable tiles. */
  lemma SpawnTilesExact(g: Board, taken: set<Pos>, hq: Hq, p: Pos)
    ensures p in SpawnTiles(g, taken, hq) <==> Spawnable(g, taken, hq, p)
  {
    WindowTilesExact(g, taken, hq, hq.x + 4, hq.y - 2, p);
  }

  /** The unit a spawn turn produced, as a list of zero or one units. */
  function Spawns(s: Option<Unit>): seq<Unit> {
    if s.Some? then [s.value] else []
  }

  /** The tile of the unit a spawn turn produced, if any. */
  function Placed(s: Option<Unit>): set<Pos>
    reads (if s.Some? then {s.value} else {})`x, (if s.Some? then {s.value} else {})`y
  {
    if s.Some? then {s.value.Tile()} else {}
  }

  /** The tiles the units of a roster stand on. */
  function Standing(us: seq<Unit>): set<Pos>
    reads us`x, us`y
  {
    set u | u in us :: u.Tile()
  }

  /** The tiles of a roster a spawned unit joined. */
  lemma TilesJoined(us: seq<Unit>, s: Option<Unit>)
    ensures Standing(us + Spawns(s)) == Standing(us) + Placed(s)
  {
    var a, b := Standing(us + Spawns(s)), Standing(us) + Placed(s);
    forall p | p in a ensures p in b {
      var u :| u in us + Spawns(s) && u.Tile() == p;
    }
  }

  /** What a spawn turn paid: the cost of the unit's type, 0 when none spawned. */
  function Cost(s: Option<Unit>): int {
    if s.Some? then StatsOf(s.value.kind).cost else 0
  }

  /** The vision sources of one team's units: each unit's tile with its type's radius. */
  function UnitSources(us: seq<Unit>, team: Team): (r: seq<Fog.Source>)
    reads us
    ensures |r| <= |us|
    ensures forall j :: 0 <= j < |r| ==>
      exists u :: u in us && u.team == team && r[j] == Fog.Source(u.Tile(), VisionRadius(u.kind))
  {
    if us == [] then []
    else
      var rest := UnitSources(us[1..], team);
      assert forall u :: u in us[1..] ==> u in us;
      if us[0].team == team then [Fog.Source(us[0].Tile(), VisionRadius(us[0].kind))] + rest else rest
  }

  /** A tile is covered by the unit sources exactly when some unit of the team sees it. */
  lemma {:induction false} UnitSourcesCover(us: seq<Unit>, team: Team, t: Pos)
    ensures var r := UnitSources(us, team);
      Fog.CoveredBy(r, |r|, t) <==>
        exists u :: u in us && u.team == team && Manhattan(u.Tile(), t) <= VisionRadius(u.kind)
  {
    if us != [] {
      var rest := UnitSources(us[1..], team);
      var r := UnitSources(us, team);
      UnitSourcesCover(us[1..], team, t);
      if us[0].team == team {
        assert forall j :: 1 <= j < |r| ==> r[j] == rest[j - 1];
        if Fog.CoveredBy(r, |r|, t) {
          var j :| 0 <= j < |r| && Fog.Covers(r[j], t);
          if j > 0 {
            assert Fog.Covers(rest[j - 1], t);
          }
        }
        if Fog.CoveredBy(rest, |rest|, t) {
          var j :| 0 <= j < |rest| && Fog.Covers(rest[j], t);
          assert r[j + 1] == rest[j];
        }
      }
      if u :| u in us && u.team == team && Manhattan(u.Tile(), t) <= VisionRadius(u.kind) {
        if u != us[0] {
          assert u in us[1..];
        } else {
          assert r[0] == Fog.Source(u.Tile(), VisionRadius(u.kind));
        }
      }
    }
  }

  /**
   * A tile is covered by the team's unit sources followed by the HQ source
   * exactly when the HQ corner or one of the team's units sees it.
   */
  lemma SourcesCover(us: seq<Unit>, team: Team, corner: Pos, t: Pos)
    ensures var sources := UnitSources(us, team) + [Fog.Source(corner, FOG_RADIUS)];
      Fog.CoveredBy(sources, |sources|, t) <==>
        || Manhattan(corner, t) <= FOG_RADIUS
        || exists u :: u in us && u.team == team && Manhattan(u.Tile(), t) <= VisionRadius(u.kind)
  {
    var unitSources := UnitSources(us, team);
    var sources := unitSources + [Fog.Source(corner, FOG_RADIUS)];
    var n := |unitSources|;
    UnitSourcesCover(us, team, t);
    assert sources[n] == Fog.Source(corner, FOG_RADIUS);
    assert forall j :: 0 <= j < n ==> sources[j] == unitSources[j];
    if Fog.CoveredBy(unitSources, n, t) {
      var j :| 0 <= j < n && Fog.Covers(unitSources[j], t);
      assert Fog.Covers(sources[j], t);
    }
  }

  /** Only walls are added: WallsOnly composes. */
  lemma WallsOnlyTrans(g0: Board, g1: Board, g2: Board)
    requires WallsOnly(g0, g1) && WallsOnly(g1, g2)
    ensures WallsOnly(g0, g2)
  {
  }

  /** The random draws one call of `update` consumes. */
  datatype UpdateDraws = UpdateDraws(pick: nat, delays: Delays, dirs: Shuffle)

  class World {
    var board: Board
    var units: seq<Unit>
    const blueHq: Hq
    const redHq: Hq
    var resources: PerTeam<int>
    /** `uid_counter`: the last id handed out. */
    var uidCounter: nat

    /**
     * Game-state setup: both HQs at their fixed corners on the middle rows,
     * their eight tiles cleared to open ground, an empty roster and 10
     * resources per team.
     */
    constructor (terrain: Board)
      requires BoardOk(terrain)
      ensures Valid() && units == [] && resources == PerTeam(10, 10) && uidCounter == 0
      ensures blueHq.Corner() == BLUE_HQ && redHq.Corner() == RED_HQ
      ensures blueHq.hp == HQ_HP && redHq.hp == HQ_HP
      ensures board == ClearHqs(terrain)
    {
      var blue := new Hq(Blue, BLUE_HQ.x, BLUE_HQ.y);
      var red := new Hq(Red, RED_HQ.x, RED_HQ.y);
      var g := ClearHqs(terrain);
      board := g;
      blueHq := blue;
      redHq := red;
      units := [];
      resources := PerTeam(10, 10);
      uidCounter := 0;
    }

    function HqOf(t: Team): (h: Hq)
    {
      if t == Blue then blueHq else redHq
    }

    /**
     * The board is 40x30, the HQs belong to their teams and are never above
     * full health, the roster holds no unit twice and only living units in a
     * sound state, and neither team's resources are negative.
     */
    ghost predicate Valid()
      reads this, units`x, units`y, units`hqCounter, units`hp, units`attackCd, units`moveCd, units`cooldown
      reads blueHq, redHq
    {
      && BoardOk(board)
      && blueHq.team == Blue && redHq.team == Red
      && blueHq.hp <= HQ_HP && redHq.hp <= HQ_HP
      && Lists.Distinct(units)
      && Living(units)
      && resources.blue >= 0 && resources.red >= 0
    }

    /**
     * What one call of `attack` did, `roster` being the roster and `cd` the
     * attack cooldown it found: while the cooldown runs, nothing; otherwise a
     * hit on the first adjacent enemy in roster order (halved under a shield
     * aura), which restarts the cooldown at 5 and takes a victim at 0 hp or
     * below off the roster; with no adjacent enemy, a siege tick.
     */
    twostate predicate Attacked(me: Unit, roster: seq<Unit>, cd: int, hit: bool)
      requires old(0 <= me.hqCounter < SIEGE_FRAMES)
      reads this, roster, me, blueHq, redHq
    {
      && (cd > 0 ==>
        && !hit && units == roster
        && me.attackCd == cd && me.hqCounter == old(me.hqCounter)
        && (forall v :: v in roster ==> v.hp == old(v.hp))
        && blueHq.hp == old(blueHq.hp) && redHq.hp == old(redHq.hp))
      && (cd <= 0 && old(FirstHit(roster, me)).Some? ==>
        var t := roster[old(FirstHit(roster, me)).value];
        && hit
        && t.hp == old(t.hp) - Damage(me.dmg, t.shielded)
        && (forall v :: v in roster && v != t ==> v.hp == old(v.hp))
        && units == (if t.hp <= 0 then Lists.Remove(roster, t) else roster)
        && me.attackCd == ATTACK_COOLDOWN && me.hqCounter == old(me.hqCounter)
        && blueHq.hp == old(blueHq.hp) && redHq.hp == old(redHq.hp))
      && (cd <= 0 && old(FirstHit(roster, me)).None? ==>
        var enemyHq := HqOf(me.team.Enemy());
        var siege := Siege(old(me.hqCounter), me.Tile() in enemyHq.Tiles());
        && !hit && units == roster
        && (forall v :: v in roster ==> v.hp == old(v.hp))
        && me.attackCd == cd && me.hqCounter == siege.0
        && enemyHq.hp == old(enemyHq.hp) - (if siege.1 then me.dmg else 0)
        && HqOf(me.team).hp == old(HqOf(me.team).hp))
    }

    /**
     * `Unit.attack`: with the attack cooldown running, nothing happens;
     * otherwise the first adjacent enemy takes the unit's damage (halved under
     * a shield aura), the cooldown restarts at 5 and a target brought to 0 hp
     * leaves the roster; with no adjacent enemy, a unit on the enemy HQ
     * advances its siege counter and every third tick damages the HQ.
     */
    method Attack(me: Unit) returns (hit: bool)
      requires Valid() && UnitOk(me)
      modifies this`units, units`hp, me`attackCd, me`hqCounter, blueHq`hp, redHq`hp
      ensures Valid() && UnitOk(me)
      ensures forall v :: v in old(units) ==> UnitOk(v)
      ensures Attacked(me, old(units), old(me.attackCd), hit)
      ensures forall v :: v in units ==> v in old(units)
      ensures forall v :: v in old(units) && v.team == me.team ==> v in units
    {
      if me.attackCd > 0 {
        return false;
      }
      var i := 0;
      while i < |units|
        invariant 0 <= i <= |units|
        invariant forall k :: 0 <= k < i ==> !AdjacentEnemy(me, units[k])
      {
        var u := units[i];
        if u.team != me.team && Manhattan(u.Tile(), me.Tile()) <= 1 {
          assert FirstHit(units, me) == Some(i);
          Strike(me, u);
          return true;
        }
        i := i + 1;
      }
      SiegeTick(me);
      return false;
    }

    /** The siege branch of `attack`, taken when no adjacent enemy was hit. */
    method SiegeTick(me: Unit)
      requires Valid() && UnitOk(me)
      modifies me`hqCounter, blueHq`hp, redHq`hp
      ensures Valid() && UnitOk(me)
      ensures forall v :: v in units ==> UnitOk(v)
      ensures var enemyHq := HqOf(me.team.Enemy());
        var siege := Siege(old(me.hqCounter), me.Tile() in enemyHq.Tiles());
        && me.hqCounter == siege.0
        && enemyHq.hp == old(enemyHq.hp) - (if siege.1 then me.dmg else 0)
        && HqOf(me.team).hp == old(HqOf(me.team).hp)
    {
      var enemyHq := HqOf(me.team.Enemy());
      if me.Tile() in enemyHq.Tiles() {
        me.hqCounter := me.hqCounter + 1;
        if me.hqCounter >= SIEGE_FRAMES {
          enemyHq.hp := enemyHq.hp - me.dmg;
          me.hqCounter := 0;
        }
      } else {
        me.hqCounter := 0;
      }
      assert Living(units) by {
        forall v | v in units ensures UnitOk(v) && v.hp > 0 {
          assert old(UnitOk(v)) && old(v.hp) > 0;
        }
      }
    }

    /** The hit on roster entry `i` that `attack` makes, with the removal guard. */
    method Strike(me: Unit, u: Unit)
      requires Valid() && UnitOk(me) && u in units && u.team != me.team
      modifies this`units, u`hp, me`attackCd
      ensures Valid() && UnitOk(me)
      ensures forall v :: v in old(units) ==> UnitOk(v)
      ensures u.hp == old(u.hp) - Damage(me.dmg, u.shielded)
      ensures units == if u.hp <= 0 then Lists.Remove(old(units), u) else old(units)
      ensures forall v :: v in old(units) && v != u ==> v in units
      ensures me.attackCd == ATTACK_COOLDOWN
    {
      ghost var before := units;
      Wound(me, u);
      if u.hp <= 0 {
        Bury(u);
      }
      assert forall v :: v in units ==> v in before && (v != u || u.hp > 0);
    }

    /** The damage and the attack cooldown of a hit; only the victim may drop to 0 hp or below. */
    method Wound(me: Unit, u: Unit)
      requires Valid() && UnitOk(me) && u in units
      modifies u`hp, me`attackCd
      ensures BoardOk(board) && Lists.Distinct(units) && UnitOk(me)
      ensures forall v :: v in units ==> UnitOk(v) && (v.hp > 0 || v == u)
      ensures u.hp == old(u.hp) - Damage(me.dmg, u.shielded)
      ensures me.attackCd == ATTACK_COOLDOWN
    {
      u.hp := u.hp - Damage(me.dmg, u.shielded);
      me.attackCd := ATTACK_COOLDOWN;
      forall v | v in units ensures UnitOk(v) && (v.hp > 0 || v == u) {
        assert old(UnitOk(v)) && old(v.hp) > 0;
      }
    }

    /**
     * The removal guard `if u in units: units.remove(u)`: the unit leaves the
     * roster and nothing else does; a unit already gone leaves it unchanged.
     */
    method Bury(u: Unit)
      requires Lists.Distinct(units)
      modifies this`units
      ensures units == Lists.Remove(old(units), u)
      ensures Lists.Distinct(units) && u !in units
      ensures forall v :: v in units <==> v in old(units) && v != u
    {
      Lists.RemoveDistinct(units, u);
      Lists.RemoveMembers(units, u);
      if u in units {
        units := Lists.Remove(units, u);
      }
    }

    /** `Unit.move_to`: step onto `p`; entering forest costs one idle turn. */
    method MoveTo(me: Unit, p: Pos)
      requires BoardOk(board) && InBounds(p)
      modifies me`x, me`y, me`cooldown
      ensures me.Tile() == p
      ensures me.cooldown == if At(board, p) == Forest then 1 else old(me.cooldown)
    {
      if At(board, p) == Forest {
        me.cooldown := 1;
      }
      me.x, me.y := p.x, p.y;
    }
  
    /**
     * The nearest-ally scan of `decide_target`: the first other member at the
     * least distance, provided that distance is below the 999 sentinel.
     */
    method NearestAlly(me: Unit, team: seq<Unit>) returns (nearest: Option<Unit>, minD: int)
      ensures nearest.None? ==> minD == NO_ALLY
      ensures nearest.None? <==> forall a :: a in team && a != me ==> Manhattan(me.Tile(), a.Tile()) >= NO_ALLY
      ensures nearest.Some? ==> nearest.value in team && nearest.value != me
      ensures nearest.Some? ==> minD == Manhattan(me.Tile(), nearest.value.Tile()) < NO_ALLY
      ensures nearest.Some? ==> forall a :: a in team && a != me ==> minD <= Manhattan(me.Tile(), a.Tile())
      ensures nearest.Some? ==>
        exists i :: 0 <= i < |team| && team[i] == nearest.value &&
          forall k :: 0 <= k < i && team[k] != me ==> minD < Manhattan(me.Tile(), team[k].Tile())
      ensures minD > REGROUP_RADIUS <==> forall a :: a in team && a != me ==> Manhattan(me.Tile(), a.Tile()) > REGROUP_RADIUS
    {
      nearest := None;
      minD := NO_ALLY;
      ghost var at := 0;
      for i := 0 to |team|
        invariant nearest.None? ==> minD == NO_ALLY
        invariant nearest.None? ==> forall k :: 0 <= k < i && team[k] != me ==> Manhattan(me.Tile(), team[k].Tile()) >= NO_ALLY
        invariant nearest.Some? ==> nearest.value in team && nearest.value != me
        invariant nearest.Some? ==> minD == Manhattan(me.Tile(), nearest.value.Tile()) < NO_ALLY
        invariant nearest.Some? ==> forall k :: 0 <= k < i && team[k] != me ==> minD <= Manhattan(me.Tile(), team[k].Tile())
        invariant nearest.Some? ==>
          && at < i && team[at] == nearest.value
          && forall k :: 0 <= k < at && team[k] != me ==> minD < Manhattan(me.Tile(), team[k].Tile())
      {
        var ally := team[i];
        if ally != me {
          var d := Manhattan(me.Tile(), ally.Tile());
          if d < minD {
            minD := d;
            nearest := Some(ally);
            at := i;
          }
        }
      }
    }

    /**
     * `decide_target`. The `random.choice` among enemies near the own HQ is
     * the draw `pick` taken modulo their number.
     */
    method DecideTarget(me: Unit, seen: seq<Unit>, team: seq<Unit>, pick: nat) returns (t: Target)
      ensures Decided(HqOf(me.team), HqOf(me.team.Enemy()), me, seen, team, t)
      ensures Defends(HqOf(me.team), seen, pick, t)
    {
      var close := NearHqOf(seen, HqOf(me.team));
      if |close| > 0 {
        assert close[pick % |close|] in close;
        return UnitTarget(close[pick % |close|]);
      }
      assert forall e :: e in seen ==> HqOf(me.team).DistanceTo(e.Tile()) > DEFEND_RADIUS;
      t := Rally(me, seen, team);
    }

    /** Steps 2 to 4 of `decide_target`, with no seen enemy near the own HQ. */
    method Rally(me: Unit, ghost seen: seq<Unit>, team: seq<Unit>) returns (t: Target)
      requires forall e :: e in seen ==> HqOf(me.team).DistanceTo(e.Tile()) > DEFEND_RADIUS
      ensures Decided(HqOf(me.team), HqOf(me.team.Enemy()), me, seen, team, t)
    {
      if |team| < REGROUP_BELOW {
        var nearest, minD := NearestAlly(me, team);
        if nearest.Some? && minD > REGROUP_RADIUS {
          assert Regroups(me, team);
          return UnitTarget(nearest.value);
        }
      }
      assert !Regroups(me, team);
      if |team| >= ADVANCE_FROM {
        return HqTarget(HqOf(me.team.Enemy()));
      }
      return HqTarget(HqOf(me.team));
    }

    /**
     * The target `update` settles on: with a seen enemy within 5 tiles, the
     * nearest one (the first of `close_enemies` among equals, as `min` keeps
     * it); otherwise the choice of `decide_target`.
     */
    ghost predicate Targets(me: Unit, visible: set<Pos>, pick: nat, t: Target)
      reads this, (set u | u in units), me, if t.UnitTarget? then {t.unit} else {}
    {
      var seen := SeenEnemies(units, me.team, visible);
      && (CanEngage(me, units, visible) ==>
        && t.UnitTarget? && t.unit in units && t.unit.team != me.team && t.unit.Tile() in visible
        && Manhattan(me.Tile(), t.unit.Tile()) <= ENGAGE_RADIUS
        && (forall e :: e in units && e.team != me.team && e.Tile() in visible ==>
             Manhattan(me.Tile(), t.unit.Tile()) <= Manhattan(me.Tile(), e.Tile()))
        && FirstNearest(me.Tile(), WithinOf(seen, me.Tile(), ENGAGE_RADIUS), t.unit))
      && (!CanEngage(me, units, visible) ==>
        && Decided(HqOf(me.team), HqOf(me.team.Enemy()), me, seen, TeamOf(units, me.team), t)
        && Defends(HqOf(me.team), seen, pick, t))
    }

    /** Target selection in `update`: the engage override, otherwise `decide_target`. */
    method ChooseTarget(me: Unit, visible: set<Pos>, pick: nat) returns (t: Target)
      ensures Targets(me, visible, pick, t)
    {
      var seen := SeenEnemies(units, me.team, visible);
      var team := TeamOf(units, me.team);
      var close := WithinOf(seen, me.Tile(), ENGAGE_RADIUS);
      if |close| > 0 {
        t := UnitTarget(Closest(me.Tile(), close));
        forall e | e in units && e.team != me.team && e.Tile() in visible
          ensures Manhattan(me.Tile(), t.unit.Tile()) <= Manhattan(me.Tile(), e.Tile())
        {
          if Manhattan(me.Tile(), e.Tile()) <= ENGAGE_RADIUS {
            assert e in close;
          }
        }
      } else {
        assert !CanEngage(me, units, visible) by {
          forall e | e in units && e.team != me.team && e.Tile() in visible
            ensures Manhattan(me.Tile(), e.Tile()) > ENGAGE_RADIUS
          {
            assert e in seen;
            assert e !in close;
          }
        }
        t := DecideTarget(me, seen, team, pick);
      }
    }
  
    /** Shieldbearer aura: every other teammate within 2 tiles is shielded. */
    method ShieldAura(me: Unit)
      requires Valid() && UnitOk(me)
      modifies units`shielded
      ensures Valid() && UnitOk(me)
      ensures forall v :: v in units ==>
        v.shielded == (old(v.shielded) || (v.team == me.team && v != me && Manhattan(v.Tile(), me.Tile()) <= SUPPORT_RADIUS))
    {
      Shield(me);
    }

    /** The aura loop over the roster, in roster order. */
    method Shield(me: Unit)
      requires Lists.Distinct(units)
      modifies units`shielded
      ensures forall v :: v in units ==>
        v.shielded == (old(v.shielded) || (v.team == me.team && v != me && Manhattan(v.Tile(), me.Tile()) <= SUPPORT_RADIUS))
    {
      for i := 0 to |units|
        invariant forall k :: 0 <= k < i ==>
          units[k].shielded == (old(units[k].shielded)
            || (units[k].team == me.team && units[k] != me && Manhattan(units[k].Tile(), me.Tile()) <= SUPPORT_RADIUS))
        invariant forall k :: i <= k < |units| ==> units[k].shielded == old(units[k].shielded)
      {
        var ally := units[i];
        assert forall k :: 0 <= k < |units| && k != i ==> units[k] != ally;
        if ally.team == me.team && ally != me && Manhattan(ally.Tile(), me.Tile()) <= SUPPORT_RADIUS {
          ally.shielded := true;
        }
      }
    }

    /**
     * One Medic heal: every wounded teammate within 2 tiles (the Medic itself
     * included) gains 1 hp, never above its maximum.
     */
    method Heal(me: Unit)
      requires Valid() && UnitOk(me)
      modifies units`hp
      ensures Valid() && UnitOk(me)
      ensures forall v :: v in units ==>
        v.hp == if v.team == me.team && old(v.hp) < v.maxHp && Manhattan(v.Tile(), me.Tile()) <= SUPPORT_RADIUS
          then Min(v.maxHp, old(v.hp) + 1) else old(v.hp)
    {
      Mend(me);
      assert Living(units) by {
        forall v | v in units ensures UnitOk(v) && v.hp > 0 {
          assert old(UnitOk(v)) && old(v.hp) > 0;
        }
      }
    }

    /** The healing loop over the roster, in roster order. */
    method Mend(me: Unit)
      requires Lists.Distinct(units)
      modifies units`hp
      ensures forall v :: v in units ==>
        v.hp == if v.team == me.team && old(v.hp) < v.maxHp && Manhattan(v.Tile(), me.Tile()) <= SUPPORT_RADIUS
          then Min(v.maxHp, old(v.hp) + 1) else old(v.hp)
    {
      for i := 0 to |units|
        invariant forall k :: 0 <= k < i ==>
          units[k].hp == if units[k].team == me.team && old(units[k].hp) < units[k].maxHp
              && Manhattan(units[k].Tile(), me.Tile()) <= SUPPORT_RADIUS
            then Min(units[k].maxHp, old(units[k].hp) + 1) else old(units[k].hp)
        invariant forall k :: i <= k < |units| ==> units[k].hp == old(units[k].hp)
      {
        var ally := units[i];
        assert forall k :: 0 <= k < |units| && k != i ==> units[k] != ally;
        if ally.team == me.team && ally.hp < ally.maxHp && Manhattan(ally.Tile(), me.Tile()) <= SUPPORT_RADIUS {
          ally.hp := Min(ally.maxHp, ally.hp + 1);
        }
      }
    }

    /** A tile of `g` the Barrier Engineer may wall: on the board, open, and free of units. */
    predicate Walkable(g: Board, p: Pos)
      reads this`units, units`x, units`y
    {
      BoardOk(g) && InBounds(p) && At(g, p) == Open && !Occupied(p)
    }

    /**
     * The outcome of the Barrier Engineer's ability from `here` on board
     * `g0`: with `wall` None no direction leads to a tile it may wall and the
     * board `g` is `g0`; otherwise `wall` is the tile of the first shuffled
     * direction that does, next to `here`, and `g` is `g0` with it walled.
     */
    ghost predicate BarrierPlaced(g0: Board, here: Pos, dirs: Shuffle, wall: Option<Pos>, g: Board)
      reads this`units, units`x, units`y
    {
      && (wall.None? ==> g == g0 && forall d :: d in dirs ==> !Walkable(g0, Shift(here, d)))
      && (wall.Some? ==>
           && Walkable(g0, wall.value)
           && g == Place(g0, wall.value, Wall)
           && Manhattan(here, wall.value) == 1
           && exists k :: 0 <= k < |dirs| && wall.value == Shift(here, dirs[k])
                && forall j :: 0 <= j < k ==> !Walkable(g0, Shift(here, dirs[j])))
    }

    /**
     * The scan of the Barrier Engineer's ability: the index of the first
     * shuffled direction whose tile next to the unit is open and free, or
     * None when there is none.
     */
    method BarrierSpot(me: Unit, dirs: Shuffle) returns (pick: Option<nat>)
      requires Valid() && UnitOk(me)
      ensures pick.None? ==> forall d :: d in dirs ==> !Walkable(board, Shift(me.Tile(), d))
      ensures pick.Some? ==>
        && pick.value < |dirs|
        && Walkable(board, Shift(me.Tile(), dirs[pick.value]))
        && Manhattan(me.Tile(), Shift(me.Tile(), dirs[pick.value])) == 1
        && forall j :: 0 <= j < pick.value ==> !Walkable(board, Shift(me.Tile(), dirs[j]))
    {
      for i := 0 to |dirs|
        invariant forall j :: 0 <= j < i ==> !Walkable(board, Shift(me.Tile(), dirs[j]))
      {
        var t := Shift(me.Tile(), dirs[i]);
        if InBounds(t) && At(board, t) == Open && !Occupied(t) {
          assert dirs[i] in multiset(dirs);
          return Some(i);
        }
      }
      return None;
    }

    /**
     * Barrier Engineer: the first tile, in the shuffled direction order, next
     * to the unit that is open and unoccupied becomes a wall; with none, the
     * board stays as it is.
     */
    method PlaceBarrier(me: Unit, dirs: Shuffle) returns (wall: Option<Pos>)
      requires Valid() && UnitOk(me)
      modifies this`board
      ensures Valid() && UnitOk(me)
      ensures BarrierPlaced(old(board), me.Tile(), dirs, wall, board)
    {
      var pick := BarrierSpot(me, dirs);
      if pick == None {
        return None;
      }
      var t := Shift(me.Tile(), dirs[pick.value]);
      board := Place(board, t, Wall);
      wall := Some(t);
    }

    /** RepairBot on one HQ: within 2 tiles of its corner it gains 2 hp, capped at HQ_HP. */
    method RepairHq(me: Unit, hq: Hq)
      requires Valid() && (hq == blueHq || hq == redHq)
      modifies hq`hp
      ensures Valid()
      ensures hq.hp == if Manhattan(hq.Corner(), me.Tile()) <= SUPPORT_RADIUS
        then Min(HQ_HP, old(hq.hp) + REPAIR_AMOUNT) else old(hq.hp)
    {
      if Manhattan(hq.Corner(), me.Tile()) <= SUPPORT_RADIUS {
        hq.hp := Min(HQ_HP, hq.hp + REPAIR_AMOUNT);
      }
    }

    /** RepairBot: both HQs (an enemy one too) within reach are repaired. */
    method Repair(me: Unit)
      requires Valid() && UnitOk(me)
      modifies blueHq`hp, redHq`hp
      ensures Valid() && UnitOk(me)
      ensures forall t: Team ::
        HqOf(t).hp == if Manhattan(HqOf(t).Corner(), me.Tile()) <= SUPPORT_RADIUS
          then Min(HQ_HP, old(HqOf(t).hp) + REPAIR_AMOUNT) else old(HqOf(t).hp)
    {
      RepairHq(me, blueHq);
      RepairHq(me, redHq);
    }
  
    /**
     * The movement loop of `update`: up to `speed` rounds of a step towards
     * the goals followed by an attack; a hit ends the loop.
     */
    method Advance(me: Unit, goals: set<Pos>, delays: Delays)
      requires Valid() && UnitOk(me)
      modifies this`units, units`hp, me`x, me`y, me`cooldown, me`moveCd, me`attackCd, me`hqCounter, blueHq`hp, redHq`hp
      ensures Valid() && UnitOk(me)
      ensures forall v :: v in old(units) ==> UnitOk(v)
      ensures forall v :: v in units ==> v in old(units)
      ensures forall v :: v in old(units) && v.team == me.team ==> v in units
      ensures Manhattan(old(me.Tile()), me.Tile()) <= me.speed
      ensures me.Tile() != old(me.Tile()) ==>
        && At(board, me.Tile()) != Wall
        && forall v :: v in units && v != me ==> v.Tile() != me.Tile()
    {
      ghost var start := me.Tile();
      var step := 0;
      while step < me.speed
        invariant 0 <= step <= me.speed
        invariant Valid() && UnitOk(me)
        invariant forall v :: v in old(units) ==> UnitOk(v)
        invariant forall v :: v in units ==> v in old(units)
        invariant forall v :: v in old(units) && v.team == me.team ==> v in units
        invariant Manhattan(start, me.Tile()) <= step
        invariant me.Tile() != start ==>
          && At(board, me.Tile()) != Wall
          && forall v :: v in units && v != me ==> v.Tile() != me.Tile()
      {
        ghost var here := me.Tile();
        assert forall k :: 0 <= k < |units| ==> units[k] in old(units);
        var next, hit := Round(me, goals, delays[step]);
        ManhattanTriangle(start, here, me.Tile());
        if hit {
          break;
        }
        step := step + 1;
      }
    }

    /**
     * One round of the movement loop: the step `bfs` plans (taken when it
     * leaves the current tile), then `attack`; `hit` ends the loop.
     */
    method Round(me: Unit, goals: set<Pos>, delay: MoveDelay) returns (next: Option<Pos>, hit: bool)
      requires Valid() && UnitOk(me)
      modifies this`units, units`hp, me`x, me`y, me`cooldown, me`moveCd, me`attackCd, me`hqCounter, blueHq`hp, redHq`hp
      ensures Valid() && UnitOk(me)
      ensures forall v :: v in old(units) ==> UnitOk(v)
      ensures forall v :: v in units ==> v in old(units)
      ensures forall v :: v in old(units) && v.team == me.team ==> v in units
      ensures Plans(board, old(me.Tile()), old(Occ(me)), goals, next)
      ensures me.Tile() == if next.Some? then next.value else old(me.Tile())
      ensures me.Tile() != old(me.Tile()) ==>
        && me.moveCd == delay
        && At(board, me.Tile()) != Wall
        && forall v :: v in units && v != me ==> v.Tile() != me.Tile()
    {
      next := Step(me, goals, delay);
      hit := Attack(me);
    }

    /** `occupied_start` of `bfs`: the tiles of every roster unit other than `me`. */
    function Occ(me: Unit): set<Pos>
      reads this`units, units`x, units`y
    {
      set k | 0 <= k < |units| && units[k] != me :: units[k].Tile()
    }

    /**
     * The move half of one round of the movement loop: plan with `bfs` and,
     * given a step off the current tile, move there with a fresh move delay.
     * The guard that refuses a step onto a tile some unit stands on never
     * fires: `bfs` already keeps first steps off the other units' tiles, and
     * the step is not the unit's own tile.
     */
    method Step(me: Unit, goals: set<Pos>, delay: MoveDelay) returns (next: Option<Pos>)
      requires Valid() && UnitOk(me)
      modifies me`x, me`y, me`cooldown, me`moveCd
      ensures Valid() && UnitOk(me)
      ensures forall v :: v in units ==> UnitOk(v)
      ensures Plans(board, old(me.Tile()), old(Occ(me)), goals, next)
      ensures var moved := next.Some? && next.value != old(me.Tile());
        && (moved ==> At(board, next.value) != Wall && forall v :: v in units && v != me ==> v.Tile() != next.value)
        && me.Tile() == (if moved then next.value else old(me.Tile()))
        && me.moveCd == (if moved then delay else old(me.moveCd))
        && me.cooldown == (if moved && At(board, next.value) == Forest then 1 else old(me.cooldown))
    {
      next := PlanStep(me, goals);
      if next.Some? && next.value != me.Tile() {
        assert !Occupied(next.value) by {
          forall k | 0 <= k < |units| ensures units[k].Tile() != next.value {
            if units[k] != me {
              assert units[k].Tile() in Occ(me);
            }
          }
        }
        Relocate(me, next.value, delay);
      }
    }

    /** One call of `bfs` from the unit's tile, with the tiles of every other roster unit blocked as first steps. */
    method PlanStep(me: Unit, goals: set<Pos>) returns (next: Option<Pos>)
      requires BoardOk(board)
      ensures Plans(board, me.Tile(), Occ(me), goals, next)
    {
      next := Pathfinder.Bfs(Pathfinder.Search(board, me.Tile(), Occ(me)), goals);
    }

    /** `move_to` followed by the fresh `random.randint(10, 20)` move delay. */
    method Relocate(me: Unit, p: Pos, delay: MoveDelay)
      requires Valid() && UnitOk(me) && InBounds(p)
      modifies me`x, me`y, me`cooldown, me`moveCd
      ensures Valid() && UnitOk(me)
      ensures forall v :: v in units ==> UnitOk(v)
      ensures me.Tile() == p && me.moveCd == delay
      ensures me.cooldown == if At(board, p) == Forest then 1 else old(me.cooldown)
    {
      MoveTo(me, p);
      me.moveCd := delay;
      assert Living(units) by {
        forall v | v in units ensures UnitOk(v) && v.hp > 0 {
          assert old(UnitOk(v)) && old(v.hp) > 0;
        }
      }
    }

    /**
     * The support abilities at the end of `update`, chosen by unit type: a
     * Shieldbearer shields every other teammate within 2 tiles each frame; a
     * Medic heals every wounded teammate within 2 tiles (itself included) by
     * 1 when at least 60 frames passed since its last heal, and records the
     * frame; a Barrier Engineer walls a tile every 300th frame; a RepairBot
     * repairs each HQ whose corner is within 2 tiles by 2 every 60th frame.
     * Nothing else changes.
     */
    method Abilities(me: Unit, frame: int, dirs: Shuffle) returns (wall: Option<Pos>)
      requires Valid() && UnitOk(me)
      modifies units`hp, units`shielded, me`lastHealFrame, this`board, blueHq`hp, redHq`hp
      ensures Valid() && UnitOk(me)
      ensures forall v :: v in units ==> UnitOk(v)
      ensures WallsOnly(old(board), board)
      ensures At(board, me.Tile()) == At(old(board), me.Tile())
      ensures units == old(units)
      ensures forall v :: v in units ==>
        v.shielded == (old(v.shielded) || (me.kind == Shieldbearer
          && v.team == me.team && v != me && Manhattan(v.Tile(), me.Tile()) <= SUPPORT_RADIUS))
      ensures var heals := me.kind == Medic && frame - old(me.lastHealFrame) >= FPS;
        && me.lastHealFrame == (if heals then frame else old(me.lastHealFrame))
        && forall v :: v in units ==>
             v.hp == if heals && v.team == me.team && old(v.hp) < v.maxHp && Manhattan(v.Tile(), me.Tile()) <= SUPPORT_RADIUS
               then Min(v.maxHp, old(v.hp) + 1) else old(v.hp)
      ensures me.kind == BarrierEng && frame % BARRIER_PERIOD == 0 ==>
        BarrierPlaced(old(board), me.Tile(), dirs, wall, board)
      ensures !(me.kind == BarrierEng && frame % BARRIER_PERIOD == 0) ==> wall.None? && board == old(board)
      ensures forall t: Team ::
        HqOf(t).hp == if me.kind == RepairBot && frame % FPS == 0 && Manhattan(HqOf(t).Corner(), me.Tile()) <= SUPPORT_RADIUS
          then Min(HQ_HP, old(HqOf(t).hp) + REPAIR_AMOUNT) else old(HqOf(t).hp)
    {
      wall := None;
      if me.kind == Shieldbearer || me.kind == Medic {
        Support(me, frame);
      } else {
        wall := Engineer(me, frame, dirs);
      }
    }

    /** The abilities that act on teammates: the Shieldbearer's aura and the Medic's heal. */
    method Support(me: Unit, frame: int)
      requires Valid() && UnitOk(me)
      modifies units`hp, units`shielded, me`lastHealFrame
      ensures Valid() && UnitOk(me)
      ensures forall v :: v in units ==>
        v.shielded == (old(v.shielded) || (me.kind == Shieldbearer
          && v.team == me.team && v != me && Manhattan(v.Tile(), me.Tile()) <= SUPPORT_RADIUS))
      ensures var heals := me.kind == Medic && frame - old(me.lastHealFrame) >= FPS;
        && me.lastHealFrame == (if heals then frame else old(me.lastHealFrame))
        && forall v :: v in units ==>
             v.hp == if heals && v.team == me.team && old(v.hp) < v.maxHp && Manhattan(v.Tile(), me.Tile()) <= SUPPORT_RADIUS
               then Min(v.maxHp, old(v.hp) + 1) else old(v.hp)
    {
      if me.kind == Shieldbearer {
        ShieldAura(me);
      } else if me.kind == Medic && frame - me.lastHealFrame >= FPS {
        Heal(me);
        me.lastHealFrame := frame;
      }
    }

    /** The abilities that act on the map: the Barrier Engineer's wall and the RepairBot's repair. */
    method Engineer(me: Unit, frame: int, dirs: Shuffle) returns (wall: Option<Pos>)
      requires Valid() && UnitOk(me)
      modifies this`board, blueHq`hp, redHq`hp
      ensures Valid() && UnitOk(me)
      ensures WallsOnly(old(board), board)
      ensures At(board, me.Tile()) == At(old(board), me.Tile())
      ensures me.kind == BarrierEng && frame % BARRIER_PERIOD == 0 ==>
        BarrierPlaced(old(board), me.Tile(), dirs, wall, board)
      ensures !(me.kind == BarrierEng && frame % BARRIER_PERIOD == 0) ==> wall.None? && board == old(board)
      ensures forall t: Team ::
        HqOf(t).hp == if me.kind == RepairBot && frame % FPS == 0 && Manhattan(HqOf(t).Corner(), me.Tile()) <= SUPPORT_RADIUS
          then Min(HQ_HP, old(HqOf(t).hp) + REPAIR_AMOUNT) else old(HqOf(t).hp)
    {
      wall := None;
      if me.kind == BarrierEng && frame % BARRIER_PERIOD == 0 {
        wall := PlaceBarrier(me, dirs);
      } else if me.kind == RepairBot && frame % FPS == 0 {
        Repair(me);
      }
    }

    /**
     * `Unit.update`: tick the attack cooldown; while the move delay runs,
     * only tick it and attack; while the forest slow-down runs, only tick it;
     * otherwise pick a target, move and attack, then use the type's ability.
     */
    method Update(me: Unit, frame: int, visible: PerTeam<set<Pos>>, draws: UpdateDraws)
      requires Valid() && UnitOk(me)
      modifies this`units, this`board, units`hp, units`shielded, me, blueHq`hp, redHq`hp
      ensures Valid() && UnitOk(me)
      ensures forall v :: v in old(units) ==> UnitOk(v)
      ensures forall v :: v in units ==> v in old(units)
      ensures forall v :: v in old(units) && v != me ==> v.Tile() == old(v.Tile())
      ensures WallsOnly(old(board), board)
      ensures Manhattan(old(me.Tile()), me.Tile()) <= me.speed
      ensures me.Tile() != old(me.Tile()) ==>
        && At(board, me.Tile()) != Wall
        && forall v :: v in units && v != me ==> v.Tile() != me.Tile()
      ensures forall v :: v in old(units) && v.team == me.team ==> v in units
      ensures old(me.moveCd) > 0 ==>
        && me.Tile() == old(me.Tile()) && me.moveCd == old(me.moveCd) - 1 && board == old(board)
        && var cd := if old(me.attackCd) > 0 then old(me.attackCd) - 1 else old(me.attackCd);
           Attacked(me, old(units), cd, true) || Attacked(me, old(units), cd, false)
      ensures old(me.moveCd) <= 0 && old(me.cooldown) > 0 ==>
        && me.Tile() == old(me.Tile()) && me.cooldown == old(me.cooldown) - 1
        && units == old(units) && board == old(board)
    {
      if me.moveCd > 0 {
        var hit := Pause(me);
        return;
      }
      TickAttack(me);
      if me.cooldown > 0 {
        SlowDown(me);
        return;
      }
      Act(me, frame, visible.Get(me.team), draws);
    }

    /**
     * `target_pos` of `update`: the chosen target and the tiles the unit
     * paths toward, the target unit's tile or all four tiles of the target HQ.
     */
    method Aim(me: Unit, visible: set<Pos>, pick: nat) returns (target: Target, goals: set<Pos>)
      ensures Targets(me, visible, pick, target)
      ensures target.UnitTarget? ==> goals == {target.unit.Tile()}
      ensures target.HqTarget? ==> goals == target.hq.Tiles() && |goals| == 4
    {
      target := ChooseTarget(me, visible, pick);
      goals := Goals(target);
    }

    /** The attack cooldown counts down by one per frame, stopping at 0. */
    method TickAttack(me: Unit)
      requires Valid() && UnitOk(me)
      modifies me`attackCd
      ensures Valid() && UnitOk(me)
      ensures forall v :: v in units ==> UnitOk(v)
      ensures me.attackCd == if old(me.attackCd) > 0 then old(me.attackCd) - 1 else old(me.attackCd)
    {
      if me.attackCd > 0 {
        me.attackCd := me.attackCd - 1;
      }
      assert Living(units) by {
        forall v | v in units ensures UnitOk(v) && v.hp > 0 {
          assert old(UnitOk(v)) && old(v.hp) > 0;
        }
      }
    }

    /** The frame of a unit whose move delay runs: the attack cooldown tick, then `Wait`. */
    method Pause(me: Unit) returns (hit: bool)
      requires Valid() && UnitOk(me) && me.moveCd > 0
      modifies this`units, units`hp, me`moveCd, me`attackCd, me`hqCounter, blueHq`hp, redHq`hp
      ensures Valid() && UnitOk(me)
      ensures forall v :: v in old(units) ==> UnitOk(v)
      ensures forall v :: v in units ==> v in old(units)
      ensures forall v :: v in old(units) && v.team == me.team ==> v in units
      ensures me.moveCd == old(me.moveCd) - 1
      ensures Attacked(me, old(units), if old(me.attackCd) > 0 then old(me.attackCd) - 1 else old(me.attackCd), hit)
    {
      TickAttack(me);
      assert FirstHit(units, me) == old(FirstHit(units, me));
      hit := Wait(me);
    }

    /** A unit whose move delay runs only counts it down and attacks. */
    method Wait(me: Unit) returns (hit: bool)
      requires Valid() && UnitOk(me) && me.moveCd > 0
      modifies this`units, units`hp, me`moveCd, me`attackCd, me`hqCounter, blueHq`hp, redHq`hp
      ensures Valid() && UnitOk(me)
      ensures forall v :: v in old(units) ==> UnitOk(v)
      ensures forall v :: v in units ==> v in old(units)
      ensures forall v :: v in old(units) && v.team == me.team ==> v in units
      ensures me.moveCd == old(me.moveCd) - 1
      ensures Attacked(me, old(units), old(me.attackCd), hit)
    {
      me.moveCd := me.moveCd - 1;
      assert Living(units) by {
        forall v | v in units ensures UnitOk(v) && v.hp > 0 {
          assert old(UnitOk(v)) && old(v.hp) > 0;
        }
      }
      assert FirstHit(units, me) == old(FirstHit(units, me));
      label Waited:
      hit := Attack(me);
      assert Attacked@Waited(me, old(units), old(me.attackCd), hit);
      assert old@Waited(me.hqCounter) == old(me.hqCounter);
      assert forall v :: v in old(units) ==> old@Waited(v.hp) == old(v.hp);
      assert old@Waited(blueHq.hp) == old(blueHq.hp) && old@Waited(redHq.hp) == old(redHq.hp);
    }

    /** A unit slowed by forest only counts the slow-down off. */
    method SlowDown(me: Unit)
      requires Valid() && UnitOk(me) && me.cooldown > 0
      modifies me`cooldown
      ensures Valid() && UnitOk(me)
      ensures forall v :: v in units ==> UnitOk(v)
      ensures me.cooldown == old(me.cooldown) - 1
    {
      me.cooldown := me.cooldown - 1;
      assert Living(units) by {
        forall v | v in units ensures UnitOk(v) && v.hp > 0 {
          assert old(UnitOk(v)) && old(v.hp) > 0;
        }
      }
    }

    /** The active part of `update`: choose a target, move and attack, then the ability. */
    method Act(me: Unit, frame: int, visible: set<Pos>, draws: UpdateDraws)
      requires Valid() && UnitOk(me)
      modifies this`units, this`board, units`hp, units`shielded, me, blueHq`hp, redHq`hp
      ensures Valid() && UnitOk(me)
      ensures forall v :: v in old(units) ==> UnitOk(v)
      ensures forall v :: v in units ==> v in old(units)
      ensures forall v :: v in old(units) && v.team == me.team ==> v in units
      ensures WallsOnly(old(board), board)
      ensures Manhattan(old(me.Tile()), me.Tile()) <= me.speed
      ensures me.Tile() != old(me.Tile()) ==>
        && At(board, me.Tile()) != Wall
        && forall v :: v in units && v != me ==> v.Tile() != me.Tile()
    {
      var target, goals := Aim(me, visible, draws.pick);
      Pursue(me, goals, frame, draws);
    }

    /** The movement loop towards `goals`, then the ability. */
    method Pursue(me: Unit, goals: set<Pos>, frame: int, draws: UpdateDraws)
      requires Valid() && UnitOk(me)
      modifies this`units, this`board, units`hp, units`shielded, me, blueHq`hp, redHq`hp
      ensures Valid() && UnitOk(me)
      ensures forall v :: v in old(units) ==> UnitOk(v)
      ensures forall v :: v in units ==> v in old(units)
      ensures forall v :: v in old(units) && v.team == me.team ==> v in units
      ensures WallsOnly(old(board), board)
      ensures Manhattan(old(me.Tile()), me.Tile()) <= me.speed
      ensures me.Tile() != old(me.Tile()) ==>
        && At(board, me.Tile()) != Wall
        && forall v :: v in units && v != me ==> v.Tile() != me.Tile()
    {
      Advance(me, goals, draws.delays);
      assert forall k :: 0 <= k < |units| ==> units[k] in old(units);
      ghost var here := me.Tile();
      var wall := Abilities(me, frame, draws.dirs);
      assert me.Tile() == here;
    }
  
    /** Some roster unit stands on `p`. */
    predicate Occupied(p: Pos)
      reads this`units, units`x, units`y
    {
      exists k :: 0 <= k < |units| && units[k].Tile() == p
    }

    /**
     * One team's spawn turn with `budget` resources (after the earned one), on
     * board `g` with units standing on `taken`: a unit spawns exactly when
     * some unit type is affordable (the Scout is the cheapest, by
     * `AffordableNone`) and the spawn window has a free tile; it
     * is of the team, of an affordable type, on such a tile (by
     * `SpawnTilesExact`, a spawnable one).
     */
    ghost predicate SpawnOutcome(team: Team, budget: int, g: Board, taken: set<Pos>, s: Option<Unit>)
      reads (if s.Some? then {s.value} else {})`x, (if s.Some? then {s.value} else {})`y
    {
      SpawnedOn(team, budget, g, taken, s, Placed(s))
    }

    /** `SpawnOutcome` with the new unit's tile given as `at`, the value `Placed(s)`. */
    ghost predicate SpawnedOn(team: Team, budget: int, g: Board, taken: set<Pos>, s: Option<Unit>, at: set<Pos>) {
      var tiles := SpawnTiles(g, taken, HqOf(team));
      && (s.None? <==> budget < StatsOf(Scout).cost || tiles == [])
      && (s.Some? ==>
           && s.value.team == team && StatsOf(s.value.kind).cost <= budget
           && forall p :: p in at ==> p in tiles)
    }

    /**
     * The spawn block of frame `frame`, from roster `roster` standing on
     * `taken` and resources `res`: on frames that are not a multiple of 60
     * nothing changes; otherwise blue earns a resource and takes its spawn
     * turn, then red does the same with blue's new unit on the board, each
     * paying for what spawned, and the new units join the end of the roster
     * in that order.
     */
    ghost predicate SpawnBlock(taken: set<Pos>, roster: seq<Unit>, res: PerTeam<int>, frame: int, blue: Option<Unit>, red: Option<Unit>)
      reads this`board, this`units, this`resources
      reads (if blue.Some? then {blue.value} else {})`x, (if blue.Some? then {blue.value} else {})`y
      reads (if red.Some? then {red.value} else {})`x, (if red.Some? then {red.value} else {})`y
    {
      if frame % FPS != 0 then units == roster && resources == res && blue.None? && red.None?
      else BothSpawned(taken, roster, res, blue, red)
    }

    /** Both spawn turns of a spawn block, blue's first; see `SpawnBlock`. */
    ghost predicate BothSpawned(taken: set<Pos>, roster: seq<Unit>, res: PerTeam<int>, blue: Option<Unit>, red: Option<Unit>)
      reads this`board, this`units, this`resources
      reads (if blue.Some? then {blue.value} else {})`x, (if blue.Some? then {blue.value} else {})`y
      reads (if red.Some? then {red.value} else {})`x, (if red.Some? then {red.value} else {})`y
    {
      && SpawnOutcome(Blue, res.blue + 1, board, taken, blue)
      && SpawnOutcome(Red, res.red + 1, board, taken + Placed(blue), red)
      && units == roster + Spawns(blue) + Spawns(red)
      && resources == PerTeam(res.blue + 1 - Cost(blue), res.red + 1 - Cost(red))
    }

    /** `spawn_candidates`: the nested offset loops, dx outer and dy inner. */
    method SpawnCandidates(hq: Hq) returns (cands: seq<Pos>)
      requires BoardOk(board)
      ensures cands == SpawnTiles(board, Standing(units), hq)
    {
      cands := [];
      for dx := -2 to 4
        invariant cands == WindowTiles(board, Standing(units), hq, hq.x + dx, hq.y - 2)
      {
        cands := ScanColumn(hq, dx, cands);
      }
    }

    /** The inner loop of `spawn_candidates`: offset column `dx`, dy from -2 to 3. */
    method ScanColumn(hq: Hq, dx: int, acc: seq<Pos>) returns (cands: seq<Pos>)
      requires BoardOk(board) && -2 <= dx < 4
      requires acc == WindowTiles(board, Standing(units), hq, hq.x + dx, hq.y - 2)
      ensures cands == WindowTiles(board, Standing(units), hq, hq.x + dx + 1, hq.y - 2)
    {
      cands := acc;
      for dy := -2 to 4
        invariant cands == WindowTiles(board, Standing(units), hq, hq.x + dx, hq.y + dy)
      {
        cands := ScanCell(hq, dx, dy, cands);
      }
    }

    /** One tile of the spawn window: kept when on the board, not a wall and unoccupied. */
    method ScanCell(hq: Hq, dx: int, dy: int, acc: seq<Pos>) returns (cands: seq<Pos>)
      requires BoardOk(board) && -2 <= dx < 4 && -2 <= dy < 4
      requires acc == WindowTiles(board, Standing(units), hq, hq.x + dx, hq.y + dy)
      ensures cands == WindowTiles(board, Standing(units), hq, hq.x + dx, hq.y + dy + 1)
    {
      var sp := Pos(hq.x + dx, hq.y + dy);
      OccupiedTaken(sp);
      cands := acc;
      if InBounds(sp) && At(board, sp) != Wall && !Occupied(sp) {
        cands := cands + [sp];
      }
    }

    /** A tile is occupied exactly when it is among the roster's tiles. */
    lemma OccupiedTaken(p: Pos)
      ensures Occupied(p) <==> p in Standing(units)
    {
      if p in Standing(units) {
        var u :| u in units && u.Tile() == p;
        var k :| 0 <= k < |units| && units[k] == u;
      }
    }

    /**
     * One team's turn of the spawn block: one resource is earned; if some unit
     * type is affordable and some tile near the HQ is free, a unit of a drawn
     * affordable type appears on a drawn free tile and its cost is paid.
     */
    method SpawnFor(team: Team, d: SpawnDraws) returns (spawned: Option<Unit>)
      requires Valid()
      modifies this`resources, this`units, this`uidCounter
      ensures Valid()
      ensures SpawnOutcome(team, old(resources.Get(team)) + 1, board, old(Standing(units)), spawned)
      ensures units == old(units) + Spawns(spawned)
      ensures Standing(units) == old(Standing(units)) + Placed(spawned)
      ensures resources == old(resources).Set(team, old(resources.Get(team)) + 1 - Cost(spawned))
      ensures spawned.Some? ==>
        && fresh(spawned.value) && spawned.value.hp == spawned.value.maxHp
        && spawned.value.uid == uidCounter == old(uidCounter) + 1
    {
      var budget := resources.Get(team) + 1;
      ghost var before := resources;
      var paid;
      spawned, paid := Draft(team, budget, d);
      assert resources == before;
      Book(team, budget - paid);
      assert resources.blue == old(resources).Set(team, old(resources.Get(team)) + 1 - Cost(spawned)).blue;
      assert resources.red == old(resources).Set(team, old(resources.Get(team)) + 1 - Cost(spawned)).red;
    }

    /** Writes a team's new resource count. */
    method Book(team: Team, amount: int)
      requires Valid() && amount >= 0
      modifies this`resources
      ensures Valid() && resources == old(resources).Set(team, amount)
    {
      resources := resources.Set(team, amount);
    }

    /**
     * The spawn attempt once the resource is earned, with `budget` the team's
     * resources: if some unit type costs at most `budget` and some tile near
     * the HQ is free, a unit of a drawn affordable type appears on a drawn
     * free tile; `paid` is its cost (0 when nothing spawns). The payment
     * itself is booked by the caller.
     */
    method Draft(team: Team, budget: int, d: SpawnDraws) returns (spawned: Option<Unit>, paid: int)
      requires Valid()
      modifies this`units, this`uidCounter
      ensures Valid()
      ensures SpawnOutcome(team, budget, board, old(Standing(units)), spawned)
      ensures units == old(units) + Spawns(spawned) && paid == Cost(spawned)
      ensures Standing(units) == old(Standing(units)) + Placed(spawned)
      ensures spawned.Some? ==>
        && fresh(spawned.value) && spawned.value.hp == spawned.value.maxHp
        && spawned.value.uid == uidCounter == old(uidCounter) + 1
    {
      var kind := PickKind(budget, d.kindPick);
      AffordableNone(budget);
      if kind.None? {
        spawned, paid := None, 0;
      } else {
        spawned := Deploy(team, kind.value, d);
        paid := if spawned.Some? then StatsOf(kind.value).cost else 0;
      }
    }

    /** The placement half of the spawn attempt: a unit of `kind` on a drawn free tile near the HQ. */
    method Deploy(team: Team, kind: Kind, d: SpawnDraws) returns (spawned: Option<Unit>)
      requires Valid()
      modifies this`units, this`uidCounter
      ensures Valid()
      ensures var tiles := SpawnTiles(board, old(Standing(units)), HqOf(team));
        && (spawned.None? <==> tiles == [])
        && (spawned.None? ==> units == old(units))
        && Standing(units) == old(Standing(units)) + Placed(spawned)
        && (spawned.Some? ==>
             var u := spawned.value;
             && fresh(u) && units == old(units) + [u]
             && u.team == team && u.kind == kind && u.hp == u.maxHp && u.uid == uidCounter == old(uidCounter) + 1
             && u.Tile() == tiles[d.tilePick % |tiles|])
    {
      var hq := HqOf(team);
      var cands := SpawnCandidates(hq);
      if |cands| == 0 {
        return None;
      }
      var sp := cands[d.tilePick % |cands|];
      SpawnTilesExact(board, Standing(units), hq, sp);
      var u := Recruit(team, kind, sp, d.delay);
      spawned := Some(u);
    }

    /** A new unit of `kind` on `sp` joins the roster. */
    method Recruit(team: Team, kind: Kind, sp: Pos, delay: MoveDelay) returns (u: Unit)
      requires Valid() && InBounds(sp)
      modifies this`units, this`uidCounter
      ensures Valid() && fresh(u) && units == old(units) + [u]
      ensures Standing(units) == old(Standing(units)) + {sp}
      ensures u.team == team && u.kind == kind && u.Tile() == sp && u.hp == u.maxHp
      ensures u.uid == uidCounter == old(uidCounter) + 1
    {
      ghost var standing := Standing(units);
      uidCounter := uidCounter + 1;
      u := new Unit(uidCounter, team, sp.x, sp.y, kind, delay);
      assert Standing(units) == standing;
      Enlist(u);
    }

    /** `units.append(unit)` for a newly created unit. */
    method Enlist(u: Unit)
      requires Valid() && UnitOk(u) && u.hp > 0 && u !in units
      modifies this`units
      ensures Valid() && units == old(units) + [u]
      ensures Standing(units) == old(Standing(units)) + {u.Tile()}
    {
      TilesJoined(units, Some(u));
      units := units + [u];
      assert Lists.Distinct(units) by {
        forall a, b | 0 <= a < b < |units| ensures units[a] != units[b] {
          if b < |units| - 1 {
            assert units[a] == old(units)[a] && units[b] == old(units)[b];
          } else {
            assert units[a] in old(units);
          }
        }
      }
      assert Living(units) by {
        forall v | v in units ensures UnitOk(v) && v.hp > 0 {
          if v != u {
            assert v in old(units);
          }
        }
      }
    }

    /** The spawn block: on every 60th frame each team, blue first, gets its turn. */
    method Economy(frame: int, draws: PerTeam<SpawnDraws>) returns (blue: Option<Unit>, red: Option<Unit>)
      requires Valid()
      modifies this`resources, this`units, this`uidCounter
      ensures Valid()
      ensures SpawnBlock(old(Standing(units)), old(units), old(resources), frame, blue, red)
      ensures forall v :: v in units && v !in old(units) ==> fresh(v)
    {
      blue, red := None, None;
      if frame % FPS == 0 {
        ghost var roster := units;
        blue, red := SpawnRound(draws);
        assert BothSpawned(old(Standing(units)), roster, old(resources), blue, red);
        assert forall v :: v in units && v !in roster ==> (blue.Some? && v == blue.value) || (red.Some? && v == red.value);
      }
    }

    /** Both teams' turns of the spawn block, blue first. */
    method SpawnRound(draws: PerTeam<SpawnDraws>) returns (blue: Option<Unit>, red: Option<Unit>)
      requires Valid()
      modifies this`resources, this`units, this`uidCounter
      ensures Valid()
      ensures SpawnOutcome(Blue, old(resources.blue) + 1, board, old(Standing(units)), blue)
      ensures SpawnOutcome(Red, old(resources.red) + 1, board, old(Standing(units)) + Placed(blue), red)
      ensures units == old(units) + Spawns(blue) + Spawns(red)
      ensures resources == PerTeam(old(resources.blue) + 1 - Cost(blue), old(resources.red) + 1 - Cost(red))
      ensures blue.Some? ==> fresh(blue.value)
      ensures red.Some? ==> fresh(red.value)
    {
      ghost var roster, res, taken := units, resources, Standing(units);
      blue := SpawnFor(Blue, draws.blue);
      red := RedTurn(taken, roster, res, blue, Placed(blue), draws.red);
    }

    /** Red's turn of the spawn block, after blue's turn left `blue` on the board. */
    method RedTurn(ghost taken: set<Pos>, ghost roster: seq<Unit>, ghost res: PerTeam<int>, blue: Option<Unit>, ghost placed: set<Pos>, d: SpawnDraws)
      returns (red: Option<Unit>)
      requires Valid()
      requires placed == Placed(blue) && SpawnedOn(Blue, res.blue + 1, board, taken, blue, placed)
      requires Standing(units) == taken + placed
      requires units == roster + Spawns(blue)
      requires resources.blue == res.blue + 1 - Cost(blue) && resources.red == res.red
      modifies this`resources, this`units, this`uidCounter
      ensures Valid()
      ensures SpawnOutcome(Blue, res.blue + 1, board, taken, blue)
      ensures SpawnOutcome(Red, res.red + 1, board, taken + Placed(blue), red)
      ensures units == roster + Spawns(blue) + Spawns(red)
      ensures resources == PerTeam(res.blue + 1 - Cost(blue), res.red + 1 - Cost(red))
      ensures red.Some? ==> fresh(red.value)
    {
      red := SpawnFor(Red, d);
    }

    /** The vision sources of `team`: its units in roster order, then its HQ corner. */
    function Sources(team: Team): (r: seq<Fog.Source>)
      reads this, units
    {
      UnitSources(units, team) + [Fog.Source(HqOf(team).Corner(), FOG_RADIUS)]
    }

    /**
     * Tile `p` is on the board and within vision radius of a unit of `team`
     * (5, or 7 for a Spotter) or within 5 of the team's HQ corner.
     */
    ghost predicate Sees(team: Team, p: Pos)
      reads this`units, units`x, units`y
    {
      && InBounds(p)
      && (|| Manhattan(HqOf(team).Corner(), p) <= FOG_RADIUS
          || exists u :: u in units && u.team == team && Manhattan(u.Tile(), p) <= VisionRadius(u.kind))
    }

    /**
     * `visible[team]`: a tile is visible exactly when it is on the board and
     * within Manhattan vision radius of a unit of the team (5, or 7 for a
     * Spotter) or within 5 of the team's HQ corner.
     */
    method VisibleFor(team: Team) returns (vis: set<Pos>)
      ensures forall t :: t in vis <==> Sees(team, t)
    {
      var sources := Sources(team);
      vis := Fog.Visible(sources);
      forall t | InBounds(t)
        ensures Fog.CoveredBy(sources, |sources|, t) <==>
          || Manhattan(HqOf(team).Corner(), t) <= FOG_RADIUS
          || exists u :: u in units && u.team == team && Manhattan(u.Tile(), t) <= VisionRadius(u.kind)
      {
        SourcesCover(units, team, HqOf(team).Corner(), t);
      }
    }

    /** Every frame starts with all shield auras switched off. */
    method ResetShields()
      requires Valid()
      modifies units`shielded
      ensures Valid()
      ensures forall v :: v in units ==> !v.shielded
    {
      for i := 0 to |units|
        invariant forall k :: 0 <= k < i ==> !units[k].shielded
      {
        units[i].shielded := false;
      }
    }

    /**
     * One unit's turn in the frame loop: `update`, then the death sweep for
     * that unit. Afterwards a unit at 0 hp or below is off the roster, no
     * teammate of the unit has left it, and units waiting for their turn
     * (`rest`) stay sound.
     */
    method Turn(u: Unit, frame: int, visible: PerTeam<set<Pos>>, d: UpdateDraws, ghost rest: seq<Unit>)
      requires Valid() && UnitOk(u) && u !in rest && forall v :: v in rest ==> UnitOk(v)
      modifies this`units, this`board, units`hp, units`shielded, u, blueHq`hp, redHq`hp
      ensures Valid() && forall v :: v in rest ==> UnitOk(v)
      ensures forall v :: v in units ==> v in old(units)
      ensures forall v :: v in old(units) && v.team == u.team ==> v in units
      ensures u.hp <= 0 ==> u !in units
      ensures WallsOnly(old(board), board)
    {
      Update(u, frame, visible, d);
      assert forall v :: v in rest && v !in old(units) ==> old(UnitOk(v)) && v != u;
      Sweep(u);
    }

    /** The death sweep for one unit: at 0 hp or below it leaves the roster, and nothing else does. */
    method Sweep(u: Unit)
      requires Valid()
      modifies this`units
      ensures Valid()
      ensures units == if u.hp <= 0 then Lists.Remove(old(units), u) else old(units)
      ensures forall v :: v in units <==> v in old(units) && (v != u || u.hp > 0)
      ensures units == old(units)
    {
      if u.hp <= 0 {
        Bury(u);
      }
    }

    /** The HQ-loss check: a team wins when the other team's HQ is at 0 hp or below. */
    function Winners(): (w: seq<Team>)
      reads blueHq, redHq
      ensures forall t :: t in w <==> HqOf(t.Enemy()).hp <= 0
    {
      (if blueHq.hp <= 0 then [Red] else []) + (if redHq.hp <= 0 then [Blue] else [])
    }

    /**
     * One frame of the game loop: the spawn block, both fog-of-war sets, the
     * shield reset, `update` for every unit on the roster as the frame began
     * (a unit killed earlier in the frame still takes its turn), the death
     * sweep with its removal guard, and the HQ-loss check.
     */
    method Frame(frame: int, spawn: PerTeam<SpawnDraws>, draws: nat -> UpdateDraws) returns (winners: seq<Team>)
      requires Valid()
      modifies this, units, blueHq, redHq
      ensures Valid()
      ensures WallsOnly(old(board), board)
      ensures forall t :: t in winners <==> HqOf(t.Enemy()).hp <= 0
    {
      var blue, red := Economy(frame, spawn);
      assert forall k :: 0 <= k < |units| ==> units[k] in old(units) || fresh(units[k]);
      var visible := Survey();
      UpdateAll(frame, visible, draws);
      winners := Winners();
    }

    /** Both fog-of-war sets, then the shield reset. */
    method Survey() returns (visible: PerTeam<set<Pos>>)
      requires Valid()
      modifies units`shielded
      ensures Valid()
      ensures forall v :: v in units ==> !v.shielded
      ensures forall t: Team, p :: p in visible.Get(t) <==> Sees(t, p)
    {
      var visBlue := VisibleFor(Blue);
      var visRed := VisibleFor(Red);
      visible := PerTeam(visBlue, visRed);
      assert forall t: Team, p :: p in visible.Get(t) <==> Sees(t, p);
      ResetShields();
    }

    /**
     * `update` for every unit on the roster as it stood when the loop began,
     * each followed by the death sweep for that unit.
     */
    method UpdateAll(frame: int, visible: PerTeam<set<Pos>>, draws: nat -> UpdateDraws)
      requires Valid()
      modifies this`units, this`board, units, blueHq`hp, redHq`hp
      ensures Valid()
      ensures WallsOnly(old(board), board)
      ensures forall v :: v in units ==> v in old(units)
    {
      var snapshot := units;
      for i := 0 to |snapshot|
        invariant Valid()
        invariant WallsOnly(old(board), board)
        invariant Lists.Distinct(snapshot)
        invariant forall k :: i <= k < |snapshot| ==> UnitOk(snapshot[k])
        invariant forall v :: v in units ==> v in snapshot
      {
        var u := snapshot[i];
        assert forall k :: 0 <= k < |units| ==> units[k] in old(units);
        assert u !in snapshot[i + 1..] by {
          forall k | i < k < |snapshot| ensures snapshot[k] != u {}
        }
        ghost var g := board;
        Turn(u, frame, visible, draws(i), snapshot[i + 1..]);
        WallsOnlyTrans(old(board), g, board);
        assert forall k :: i + 1 <= k < |snapshot| ==> snapshot[k] in snapshot[i + 1..];
      }
    }
  }
}
