/**
 * The console engine: a 60x30 map with no terrain effects, units that walk
 * one step per axis toward the nearest enemy and fight on shared tiles,
 * tile capture (the Territory automaton) with income from owned tiles, and
 * HQ raids by units standing on the enemy HQ.
 */
module Console {
  import opened Teams
  import opened Territory
  import Grid
  import Lists

  const WIDTH: int := 60
  const HEIGHT: int := 30
  /** Bounds of the `randint` that (re)starts the move cooldown. */
  const MOVE_INTERVAL_MIN: int := FPS / 2
  const MOVE_INTERVAL_MAX: int := FPS
  /** Last column of the blue third, and last column of no man's land. */
  const LEFT_END: int := WIDTH / 3 - 1
  const MID_END: int := 2 * WIDTH / 3 - 1
  const RESOURCE_INTERVAL: int := FPS * 5
  const HQ_MAX_HP: int := 300
  const BASE_HP: int := 100
  const BASE_DMG: int := 10
  /** Experience (kills) that makes a unit elite. */
  const ELITE_XP: int := 3
  const ELITE_HP_BONUS: int := 50
  const ELITE_DMG_BONUS: int := 5
  const SPAWN_ATTEMPTS: nat := 20
  /** Price of a unit in the spawn block. */
  const UNIT_COST: int := 3
  const STARTING_RESOURCES: int := 10

  /** A `randint(MOVE_INTERVAL_MIN, MOVE_INTERVAL_MAX)` draw. */
  type MoveDelay = d: int | MOVE_INTERVAL_MIN <= d <= MOVE_INTERVAL_MAX witness MOVE_INTERVAL_MIN

  predicate InGrid(p: Grid.Pos) {
    0 <= p.x < WIDTH && 0 <= p.y < HEIGHT
  }

  /** `HQ_POS`: one tile per team on the middle row, one column in from its edge. */
  function HqPos(t: Team): (p: Grid.Pos)
    ensures InGrid(p)
  {
    if t == Blue then Grid.Pos(1, HEIGHT / 2) else Grid.Pos(WIDTH - 2, HEIGHT / 2)
  }

  predicate IsHq(p: Grid.Pos) {
    p == HqPos(Blue) || p == HqPos(Red)
  }

  /** The permanent owner of an HQ tile; `None` elsewhere. */
  function HqOwner(p: Grid.Pos): (o: Option<Team>)
    ensures o.Some? <==> IsHq(p)
    ensures forall t: Team :: o == Some(t) <==> p == HqPos(t)
  {
    if p == HqPos(Blue) then Some(Blue) else if p == HqPos(Red) then Some(Red) else None
  }

  function Clamp(v: int, lo: int, hi: int): int {
    if v < lo then lo else if v > hi then hi else v
  }

  /** One step of `a` toward `b` on one axis. */
  function Toward(a: int, b: int): int {
    if b > a then a + 1 else if b < a then a - 1 else a
  }

  /**
   * The move of `attempt_move`: one step toward the target on each axis
   * that differs, then clamped to the grid. From inside the grid, the step
   * changes each coordinate by at most one and closes the Manhattan
   * distance by one per differing axis.
   */
  function StepToward(from: Grid.Pos, target: Grid.Pos): (r: Grid.Pos)
    ensures InGrid(r)
    ensures InGrid(from) ==> Grid.Abs(r.x - from.x) <= 1 && Grid.Abs(r.y - from.y) <= 1
    ensures InGrid(from) && InGrid(target) ==>
      Grid.Manhattan(r, target) ==
        Grid.Manhattan(from, target) - (if from.x != target.x then 1 else 0) - (if from.y != target.y then 1 else 0)
  {
    Grid.Pos(Clamp(Toward(from.x, target.x), 0, WIDTH - 1), Clamp(Toward(from.y, target.y), 0, HEIGHT - 1))
  }

  /** A console soldier. `symbol` and `flash` are display state and are not kept. */
  class Unit {
    const id: nat
    const team: Team
    var x: int
    var y: int
    var hp: int
    /** `max_hp` exists only once `become_elite` has assigned it. */
    var maxHp: Option<int>
    var dmg: int
    var moveCd: int
    var kills: nat
    var xp: nat
    var isElite: bool

    /** `Unit(x, y, team)`: full base health and damage, a drawn move cooldown. */
    constructor (id: nat, x: int, y: int, team: Team, moveCd: MoveDelay)
      ensures this.id == id && this.team == team && this.x == x && this.y == y
      ensures hp == BASE_HP && maxHp == None && dmg == BASE_DMG && this.moveCd == moveCd
      ensures kills == 0 && xp == 0 && !isElite
    {
      this.id := id;
      this.team := team;
      this.x := x;
      this.y := y;
      hp := BASE_HP;
      maxHp := None;
      dmg := BASE_DMG;
      this.moveCd := moveCd;
      kills := 0;
      xp := 0;
      isElite := false;
    }

    function Tile(): Grid.Pos
      reads this`x, this`y
    {
      Grid.Pos(x, y)
    }

    /**
     * `become_elite`: 50 more hp (above the old cap: nothing clamps it), a
     * cap of 150, damage 15 and a move cooldown one shorter but at least 2.
     */
    method BecomeElite()
      modifies this`isElite, this`maxHp, this`hp, this`dmg, this`moveCd
      ensures isElite && maxHp == Some(BASE_HP + ELITE_HP_BONUS)
      ensures hp == old(hp) + ELITE_HP_BONUS && dmg == BASE_DMG + ELITE_DMG_BONUS
      ensures moveCd == if old(moveCd) - 1 >= MOVE_INTERVAL_MIN / 2 then old(moveCd) - 1 else MOVE_INTERVAL_MIN / 2
    {
      isElite := true;
      maxHp := Some(BASE_HP + ELITE_HP_BONUS);
      hp := hp + ELITE_HP_BONUS;
      dmg := BASE_DMG + ELITE_DMG_BONUS;
      moveCd := if moveCd - 1 >= MOVE_INTERVAL_MIN / 2 then moveCd - 1 else MOVE_INTERVAL_MIN / 2;
    }

    /**
     * `attempt_move`: a running cooldown only counts down; with no enemy on
     * the roster nothing happens; otherwise the unit steps toward the first
     * nearest enemy (Python's `min` keeps the first minimum) and draws a new
     * cooldown.
     */
    method AttemptMove(units: seq<Unit>, delay: MoveDelay)
      modifies this`x, this`y, this`moveCd
      ensures old(moveCd) > 0 ==> moveCd == old(moveCd) - 1 && Tile() == old(Tile())
      ensures old(moveCd) <= 0 && old(EnemyTiles(units, team)) == [] ==>
        moveCd == old(moveCd) && Tile() == old(Tile())
      ensures old(moveCd) <= 0 && old(EnemyTiles(units, team)) != [] ==>
        var targets := old(EnemyTiles(units, team));
        && Tile() == StepToward(old(Tile()), targets[Grid.Nearest(old(Tile()), targets)])
        && moveCd == delay
    {
      if moveCd > 0 {
        moveCd := moveCd - 1;
        return;
      }
      var targets := EnemyTiles(units, team);
      if targets == [] {
        return;
      }
      var target := targets[Grid.Nearest(Tile(), targets)];
      ghost var from := Tile();
      if target.x > x {
        x := x + 1;
      } else if target.x < x {
        x := x - 1;
      }
      assert x == Toward(from.x, target.x);
      if target.y > y {
        y := y + 1;
      } else if target.y < y {
        y := y - 1;
      }
      assert y == Toward(from.y, target.y);
      x := Clamp(x, 0, WIDTH - 1);
      y := Clamp(y, 0, HEIGHT - 1);
      assert Tile() == StepToward(from, target);
      moveCd := delay;
    }
  }

  /** The tiles of the units of `us` not on `team`, in roster order. */
  function EnemyTiles(us: seq<Unit>, team: Team): (r: seq<Grid.Pos>)
    reads us`x, us`y
    ensures |r| <= |us|
    ensures r == [] <==> forall i :: 0 <= i < |us| ==> us[i].team == team
  {
    if us == [] then []
    else
      var rest := EnemyTiles(us[1..], team);
      assert forall i :: 1 <= i < |us| ==> us[i] == us[1..][i - 1];
      if us[0].team != team then [us[0].Tile()] + rest else rest
  }

  /** A tile is an enemy tile exactly when a unit of the other team stands on it. */
  lemma {:induction false} EnemyTilesMembers(us: seq<Unit>, team: Team, p: Grid.Pos)
    ensures p in EnemyTiles(us, team) <==> exists i :: 0 <= i < |us| && us[i].team != team && us[i].Tile() == p
  {
    if us != [] {
      EnemyTilesMembers(us[1..], team, p);
      if exists i :: 0 <= i < |us| && us[i].team != team && us[i].Tile() == p {
        var i :| 0 <= i < |us| && us[i].team != team && us[i].Tile() == p;
        if i > 0 {
          assert us[1..][i - 1] == us[i];
        }
      }
      if exists i :: 0 <= i < |us[1..]| && us[1..][i].team != team && us[1..][i].Tile() == p {
        var i :| 0 <= i < |us[1..]| && us[1..][i].team != team && us[1..][i].Tile() == p;
        assert us[i + 1] == us[1..][i];
      }
    }
  }

  /** The team of the first roster unit standing on `p`, if any. */
  function FirstOccupant(us: seq<Unit>, p: Grid.Pos): (r: Option<Team>)
    reads us`x, us`y
  {
    if us == [] then None
    else if us[0].Tile() == p then Some(us[0].team)
    else FirstOccupant(us[1..], p)
  }

  /** An empty tile has no occupant, and an occupied one the team of its first unit. */
  lemma {:induction false} FirstOccupantIsFirst(us: seq<Unit>, p: Grid.Pos)
    ensures FirstOccupant(us, p) == None <==> forall i :: 0 <= i < |us| ==> us[i].Tile() != p
    ensures forall k :: 0 <= k < |us| && us[k].Tile() == p && (forall j :: 0 <= j < k ==> us[j].Tile() != p) ==>
      FirstOccupant(us, p) == Some(us[k].team)
  {
    if us != [] {
      FirstOccupantIsFirst(us[1..], p);
      assert forall i :: 1 <= i < |us| ==> us[i] == us[1..][i - 1];
    }
  }

  /** Adding a unit at the end of the roster only matters for a tile nobody held. */
  lemma {:induction false} FirstOccupantSnoc(us: seq<Unit>, u: Unit, p: Grid.Pos)
    ensures FirstOccupant(us + [u], p) ==
      if FirstOccupant(us, p).Some? then FirstOccupant(us, p)
      else if u.Tile() == p then Some(u.team) else None
  {
    if us != [] {
      assert (us + [u])[1..] == us[1..] + [u];
      FirstOccupantSnoc(us[1..], u, p);
    } else {
      assert FirstOccupant([u][1..], p) == None;
    }
  }

  /** What the HQ check needs of a unit: its tile, team and damage. */
  datatype Raider = Raider(tile: Grid.Pos, team: Team, dmg: int)

  function Raiders(us: seq<Unit>): (r: seq<Raider>)
    reads us`x, us`y, us`dmg
    ensures |r| == |us|
    ensures forall i :: 0 <= i < |us| ==> r[i] == Raider(us[i].Tile(), us[i].team, us[i].dmg)
  {
    if us == [] then [] else [Raider(us[0].Tile(), us[0].team, us[0].dmg)] + Raiders(us[1..])
  }

  /** A raider stands on the HQ of the other team. */
  predicate OnEnemyHq(r: Raider) {
    r.tile == HqPos(r.team.Enemy())
  }

  /**
   * `check_hq_status` on a due frame: the raiders, in roster order, each hit
   * the enemy HQ they stand on; the pass stops, reporting game over, right
   * after a hit leaves that HQ at 0 hp or below.
   */
  function HqRaid(rs: seq<Raider>, hp: PerTeam<int>): (r: (PerTeam<int>, bool))
  {
    if rs == [] then (hp, false)
    else if OnEnemyHq(rs[0]) then
      var e := rs[0].team.Enemy();
      var hit := hp.Set(e, hp.Get(e) - rs[0].dmg);
      if hit.Get(e) <= 0 then (hit, true) else HqRaid(rs[1..], hit)
    else HqRaid(rs[1..], hp)
  }

  /** The total damage the raiders standing on `t`'s HQ deal. */
  function Breach(rs: seq<Raider>, t: Team): int {
    if rs == [] then 0
    else (if OnEnemyHq(rs[0]) && rs[0].team.Enemy() == t then rs[0].dmg else 0) + Breach(rs[1..], t)
  }

  /** A reported game over means some HQ is at 0 hp or below. */
  lemma {:induction false} RaidOverMeansFallen(rs: seq<Raider>, hp: PerTeam<int>)
    ensures var r := HqRaid(rs, hp); r.1 ==> r.0.blue <= 0 || r.0.red <= 0
  {
    if rs != [] {
      if OnEnemyHq(rs[0]) {
        var e := rs[0].team.Enemy();
        RaidOverMeansFallen(rs[1..], hp.Set(e, hp.Get(e) - rs[0].dmg));
      } else {
        RaidOverMeansFallen(rs[1..], hp);
      }
    }
  }

  /**
   * Without a game over, every raider got its hit in: each HQ lost exactly
   * the damage of the enemies standing on it, and starting from living HQs
   * both are still standing.
   */
  lemma {:induction false} RaidWithoutFall(rs: seq<Raider>, hp: PerTeam<int>)
    ensures var r := HqRaid(rs, hp);
      !r.1 ==> r.0 == PerTeam(hp.blue - Breach(rs, Blue), hp.red - Breach(rs, Red))
    ensures var r := HqRaid(rs, hp);
      hp.blue > 0 && hp.red > 0 && !r.1 ==> r.0.blue > 0 && r.0.red > 0
  {
    if rs != [] {
      if OnEnemyHq(rs[0]) {
        var e := rs[0].team.Enemy();
        RaidWithoutFall(rs[1..], hp.Set(e, hp.Get(e) - rs[0].dmg));
      } else {
        RaidWithoutFall(rs[1..], hp);
      }
    }
  }

  /** With non-negative damage an HQ never gains hp from a raid. */
  lemma {:induction false} RaidNeverHeals(rs: seq<Raider>, hp: PerTeam<int>)
    requires forall i :: 0 <= i < |rs| ==> rs[i].dmg >= 0
    ensures var r := HqRaid(rs, hp); r.0.blue <= hp.blue && r.0.red <= hp.red
  {
    if rs != [] {
      if OnEnemyHq(rs[0]) {
        var e := rs[0].team.Enemy();
        RaidNeverHeals(rs[1..], hp.Set(e, hp.Get(e) - rs[0].dmg));
      } else {
        RaidNeverHeals(rs[1..], hp);
      }
    }
  }

  /** The winner announced after an HQ falls: TEAM A (blue) if red's HQ is down, else TEAM B. */
  function HqWinner(hp: PerTeam<int>): Team {
    if hp.red <= 0 then Blue else Red
  }

  /** The announced winner is the team whose enemy's HQ fell. */
  lemma HqWinnerBeatFallenHq(rs: seq<Raider>, hp: PerTeam<int>)
    ensures var r := HqRaid(rs, hp); r.1 ==> r.0.Get(HqWinner(r.0).Enemy()) <= 0
  {
    RaidOverMeansFallen(rs, hp);
  }

  /** Owned tiles of team `t` among the first `n` columns of row `y` of the owner grid. */
  ghost function CountRow(a: array2<Option<Team>>, t: Team, y: int, n: int): nat
    requires 0 <= y < a.Length0 && 0 <= n <= a.Length1
    reads a
  {
    if n == 0 then 0 else CountRow(a, t, y, n - 1) + (if a[y, n - 1] == Some(t) then 1 else 0)
  }

  /** Owned tiles of team `t` in the first `m` rows of the owner grid. */
  ghost function CountRows(a: array2<Option<Team>>, t: Team, m: int): nat
    requires 0 <= m <= a.Length0
    reads a
  {
    if m == 0 then 0 else CountRows(a, t, m - 1) + CountRow(a, t, m - 1, a.Length1)
  }

  /** A tile belongs to at most one team: the two counts of a row share its width. */
  lemma {:induction false} CountRowBound(a: array2<Option<Team>>, y: int, n: int)
    requires 0 <= y < a.Length0 && 0 <= n <= a.Length1
    ensures CountRow(a, Blue, y, n) + CountRow(a, Red, y, n) <= n
  {
    if n > 0 {
      CountRowBound(a, y, n - 1);
    }
  }

  lemma {:induction false} CountRowsBound(a: array2<Option<Team>>, m: int)
    requires 0 <= m <= a.Length0
    ensures CountRows(a, Blue, m) + CountRows(a, Red, m) <= m * a.Length1
  {
    if m > 0 {
      CountRowsBound(a, m - 1);
      CountRowBound(a, m - 1, a.Length1);
      assert (m - 1) * a.Length1 + a.Length1 == m * a.Length1;
    }
  }

  /** A tile owned by `t` is counted. */
  lemma {:induction false} CountRowHas(a: array2<Option<Team>>, t: Team, y: int, x: int, n: int)
    requires 0 <= y < a.Length0 && 0 <= x < n <= a.Length1 && a[y, x] == Some(t)
    ensures CountRow(a, t, y, n) >= 1
  {
    if x < n - 1 {
      CountRowHas(a, t, y, x, n - 1);
    }
  }

  lemma {:induction false} CountRowsHas(a: array2<Option<Team>>, t: Team, y: int, x: int, m: int)
    requires 0 <= y < m <= a.Length0 && 0 <= x < a.Length1 && a[y, x] == Some(t)
    ensures CountRows(a, t, m) >= 1
  {
    if y < m - 1 {
      CountRowsHas(a, t, y, x, m - 1);
    } else {
      CountRowHas(a, t, y, x, a.Length1);
    }
  }

  /** `attempt_attack`'s victim test: an enemy on the attacker's own tile. */
  predicate Victim(me: Unit, u: Unit)
    reads me`x, me`y, u`x, u`y
  {
    u.team != me.team && u.x == me.x && u.y == me.y
  }

  /** Index of the roster unit `attempt_attack` hits, if any. */
  ghost function FirstVictim(us: seq<Unit>, me: Unit): (r: Option<nat>)
    reads us`x, us`y, me`x, me`y
    ensures r.Some? ==> r.value < |us| && Victim(me, us[r.value])
    ensures r.Some? ==> forall k :: 0 <= k < r.value ==> !Victim(me, us[k])
    ensures r.None? <==> forall k :: 0 <= k < |us| ==> !Victim(me, us[k])
  {
    if us == [] then None
    else if Victim(me, us[0]) then Some(0)
    else match FirstVictim(us[1..], me)
      case None => None
      case Some(k) => Some(k + 1)
  }

  /** Every roster unit stands on the map and is alive. */
  ghost predicate Roster(us: seq<Unit>)
    reads us`x, us`y, us`hp
  {
    forall u :: u in us ==> InGrid(u.Tile()) && u.hp > 0
  }

  /** `sum(1 for u in units if u.team == team)`. */
  function CountTeam(us: seq<Unit>, t: Team): (n: nat)
    ensures n <= |us|
    ensures n == 0 <==> forall i :: 0 <= i < |us| ==> us[i].team != t
  {
    if us == [] then 0
    else
      assert forall i :: 1 <= i < |us| ==> us[i] == us[1..][i - 1];
      (if us[0].team == t then 1 else 0) + CountTeam(us[1..], t)
  }

  /** The win check: a side with no unit left loses, blue's wipe-out checked first. */
  function RosterWinner(us: seq<Unit>): (w: Option<Team>)
  {
    if CountTeam(us, Blue) == 0 then Some(Red)
    else if CountTeam(us, Red) == 0 then Some(Blue)
    else None
  }

  /** The game goes on exactly while both sides field a unit; a winner still has one. */
  lemma RosterWinnerFields(us: seq<Unit>)
    ensures RosterWinner(us) == None <==>
      (exists i :: 0 <= i < |us| && us[i].team == Blue) && (exists i :: 0 <= i < |us| && us[i].team == Red)
    ensures RosterWinner(us) == Some(Blue) ==> forall i :: 0 <= i < |us| ==> us[i].team == Blue
    ensures RosterWinner(us) == Some(Red) ==> forall i :: 0 <= i < |us| ==> us[i].team == Red
  {
  }

  /** A spawn tile of `spawn_unit`: the team's third of the map, any row. */
  predicate InZone(team: Team, p: Grid.Pos) {
    && (if team == Blue then 0 <= p.x <= LEFT_END else MID_END + 1 <= p.x <= WIDTH - 1)
    && 0 <= p.y <= HEIGHT - 1
  }

  /** `tries` are the 20 drawn spawn tiles of `spawn_unit` for `team`. */
  predicate TriesOk(team: Team, tries: seq<Grid.Pos>) {
    |tries| == SPAWN_ATTEMPTS && forall i :: 0 <= i < |tries| ==> InZone(team, tries[i])
  }

  /**
   * The first of the drawn tiles `tries` that is not in `taken`, which
   * `spawn_unit` settles on, as an index; `None` when all are taken.
   */
  function FirstFree(taken: set<Grid.Pos>, tries: seq<Grid.Pos>): (r: Option<nat>)
    ensures r.Some? ==>
      && r.value < |tries| && tries[r.value] !in taken
      && forall j :: 0 <= j < r.value ==> tries[j] in taken
    ensures r.None? ==> forall j :: 0 <= j < |tries| ==> tries[j] in taken
  {
    if tries == [] then None
    else if tries[0] !in taken then Some(0)
    else match FirstFree(taken, tries[1..])
      case None => None
      case Some(k) => Some(k + 1)
  }

  /** The tiles the units of a roster stand on. */
  function Standing(us: seq<Unit>): set<Grid.Pos>
    reads us`x, us`y
  {
    set u | u in us :: u.Tile()
  }

  /** The unit a spawn attempt produced, as a list of zero or one units. */
  function Spawns(s: Option<Unit>): seq<Unit> {
    if s.Some? then [s.value] else []
  }

  /** The tile of the unit a spawn attempt produced, if any. */
  function Placed(s: Option<Unit>): set<Grid.Pos>
    reads (if s.Some? then {s.value} else {})`x, (if s.Some? then {s.value} else {})`y
  {
    if s.Some? then {s.value.Tile()} else {}
  }

  /**
   * One team's turn of the spawn block with `budget` resources (after the
   * earned one), units standing on `taken` and drawn tiles `tries`: a unit
   * spawns exactly when 3 resources are available and some drawn tile is
   * free, and then it is of the team and on the first free drawn tile.
   */
  ghost predicate SpawnOutcome(team: Team, budget: int, taken: set<Grid.Pos>, tries: seq<Grid.Pos>, s: Option<Unit>)
    reads (if s.Some? then {s.value} else {})`x, (if s.Some? then {s.value} else {})`y
  {
    var first := FirstFree(taken, tries);
    && (s.Some? <==> budget >= UNIT_COST && first.Some?)
    && (s.Some? ==> s.value.team == team && s.value.Tile() == tries[first.value])
  }

  /**
   * A team's budget after its turn of the spawn block: one resource earned,
   * then the unit price paid whenever 3 are available, whether or not a
   * unit found room. It never goes negative.
   */
  function Income(r: int): (n: int)
    ensures r >= 0 ==> n >= 0
    ensures n == r + 1 || n == r + 1 - UNIT_COST
    ensures r + 1 < UNIT_COST ==> n == r + 1
  {
    if r + 1 >= UNIT_COST then r + 1 - UNIT_COST else r + 1
  }

  /** Both teams' budgets after the spawn block of frame `frame`, which runs on every 10th frame but the first. */
  function Earned(frame: nat, r: PerTeam<int>): PerTeam<int> {
    if frame % FPS == 0 && frame != 0 then PerTeam(Income(r.blue), Income(r.red)) else r
  }

  /**
   * The console game state: the unit roster, the four control grids (row
   * `y`, column `x`), both resource pools, both HQs' hp, the kill tally and
   * the id counter.
   */
  class World {
    var units: seq<Unit>
    const controlMap: array2<Option<Team>>
    const captureTeam: array2<Option<Team>>
    const captureTimer: array2<int>
    const vacateTimer: array2<int>
    var resources: PerTeam<int>
    var hqHp: PerTeam<int>
    var kills: PerTeam<nat>
    /** `Unit.uid_counter`: the last id handed out. */
    var uidCounter: nat

    /**
     * Setup: all tiles unowned and without progress except the two HQ tiles,
     * which belong to their teams; no units, 10 resources and a full HQ each.
     */
    constructor ()
      ensures Valid() && Running()
      ensures units == [] && uidCounter == 0
      ensures resources == PerTeam(STARTING_RESOURCES, STARTING_RESOURCES)
      ensures hqHp == PerTeam(HQ_MAX_HP, HQ_MAX_HP) && kills == PerTeam(0, 0)
      ensures forall y, x :: 0 <= y < HEIGHT && 0 <= x < WIDTH ==>
        TileAt(y, x) == BLANK.(owner := HqOwner(Grid.Pos(x, y)))
    {
      controlMap := new Option<Team>[HEIGHT, WIDTH]((y: int, x: int) => HqOwner(Grid.Pos(x, y)));
      captureTeam := new Option<Team>[HEIGHT, WIDTH]((y: int, x: int) => None);
      captureTimer := new int[HEIGHT, WIDTH]((y: int, x: int) => 0);
      vacateTimer := new int[HEIGHT, WIDTH]((y: int, x: int) => 0);
      units := [];
      resources := PerTeam(STARTING_RESOURCES, STARTING_RESOURCES);
      hqHp := PerTeam(HQ_MAX_HP, HQ_MAX_HP);
      kills := PerTeam(0, 0);
      uidCounter := 0;
    }

    /** The four grids are HEIGHT x WIDTH and distinct. */
    predicate Shaped() {
      && controlMap.Length0 == HEIGHT && controlMap.Length1 == WIDTH
      && captureTeam.Length0 == HEIGHT && captureTeam.Length1 == WIDTH
      && captureTimer.Length0 == HEIGHT && captureTimer.Length1 == WIDTH
      && vacateTimer.Length0 == HEIGHT && vacateTimer.Length1 == WIDTH
      && controlMap != captureTeam && captureTimer != vacateTimer
    }

    /** The automaton state of tile (`x`, `y`) across the four grids. */
    function TileAt(y: int, x: int): TileState
      requires Shaped() && 0 <= y < HEIGHT && 0 <= x < WIDTH
      reads controlMap, captureTeam, captureTimer, vacateTimer
    {
      TileState(controlMap[y, x], captureTeam[y, x], captureTimer[y, x], vacateTimer[y, x])
    }

    /** Every tile keeps the automaton invariant and each HQ tile its team. */
    ghost predicate MapOk()
      reads controlMap, captureTeam, captureTimer, vacateTimer
    {
      && Shaped()
      && (forall y, x :: 0 <= y < HEIGHT && 0 <= x < WIDTH ==> TileOk(TileAt(y, x)))
      && controlMap[HqPos(Blue).y, HqPos(Blue).x] == Some(Blue)
      && controlMap[HqPos(Red).y, HqPos(Red).x] == Some(Red)
    }

    /**
     * The map is sound, the roster holds no unit twice and only living units
     * on the map, and neither team's resources are negative.
     */
    ghost predicate Valid()
      reads this, controlMap, captureTeam, captureTimer, vacateTimer, units`x, units`y, units`hp
    {
      && MapOk()
      && Lists.Distinct(units)
      && Roster(units)
      && resources.blue >= 0 && resources.red >= 0
    }

    /** Both HQs are still standing. */
    predicate Running()
      reads this`hqHp
    {
      hqHp.blue > 0 && hqHp.red > 0
    }

    /** The new state of a tile in `update_control_map`: HQ tiles are skipped. */
    ghost function Next(s: TileState, x: int, y: int): TileState
      reads this`units, units`x, units`y
    {
      var p := Grid.Pos(x, y);
      if IsHq(p) then s else StepTile(s, FirstOccupant(units, p))
    }

    /**
     * `update_control_map`: every tile but the two HQ tiles takes one step
     * of the automaton, driven by the team of its first occupant.
     */
    method UpdateControlMap()
      requires Valid()
      modifies controlMap, captureTeam, captureTimer, vacateTimer
      ensures Valid()
      ensures forall y, x :: 0 <= y < HEIGHT && 0 <= x < WIDTH ==> TileAt(y, x) == Next(old(TileAt(y, x)), x, y)
    {
      var lookup := Occupants();
      for y := 0 to HEIGHT
        invariant forall y', x' :: 0 <= y' < HEIGHT && 0 <= x' < WIDTH ==>
          TileAt(y', x') == if y' < y then Next(old(TileAt(y', x')), x', y') else old(TileAt(y', x'))
      {
        UpdateRow(y, lookup);
      }
      forall y, x | 0 <= y < HEIGHT && 0 <= x < WIDTH
        ensures TileOk(TileAt(y, x))
      {
        StepTileOk(old(TileAt(y, x)), FirstOccupant(units, Grid.Pos(x, y)));
      }
      assert TileAt(HqPos(Blue).y, HqPos(Blue).x) == old(TileAt(HqPos(Blue).y, HqPos(Blue).x));
      assert TileAt(HqPos(Red).y, HqPos(Red).x) == old(TileAt(HqPos(Red).y, HqPos(Red).x));
    }

    /** `unit_lookup`, reduced to what is read of it: the first occupant's team per tile. */
    method Occupants() returns (lookup: map<Grid.Pos, Team>)
      ensures forall p :: FirstOccupant(units, p) == if p in lookup then Some(lookup[p]) else None
    {
      lookup := map[];
      for i := 0 to |units|
        invariant forall p :: FirstOccupant(units[..i], p) == if p in lookup then Some(lookup[p]) else None
      {
        var u := units[i];
        ghost var before := lookup;
        if u.Tile() !in lookup {
          lookup := lookup[u.Tile() := u.team];
        }
        assert units[..i + 1] == units[..i] + [u];
        forall p ensures FirstOccupant(units[..i + 1], p) == if p in lookup then Some(lookup[p]) else None {
          FirstOccupantSnoc(units[..i], u, p);
        }
      }
      assert units[..|units|] == units;
    }

    /** One row of `update_control_map`. */
    method UpdateRow(y: int, lookup: map<Grid.Pos, Team>)
      requires Shaped() && 0 <= y < HEIGHT
      requires forall p :: FirstOccupant(units, p) == if p in lookup then Some(lookup[p]) else None
      modifies controlMap, captureTeam, captureTimer, vacateTimer
      ensures forall y', x' :: 0 <= y' < HEIGHT && 0 <= x' < WIDTH ==>
        TileAt(y', x') == if y' == y then Next(old(TileAt(y', x')), x', y') else old(TileAt(y', x'))
    {
      for x := 0 to WIDTH
        invariant forall y', x' :: 0 <= y' < HEIGHT && 0 <= x' < WIDTH ==>
          TileAt(y', x') == if y' == y && x' < x then Next(old(TileAt(y', x')), x', y') else old(TileAt(y', x'))
      {
        var p := Grid.Pos(x, y);
        if !IsHq(p) {
          var here := if p in lookup then Some(lookup[p]) else None;
          UpdateTile(y, x, here);
        }
      }
    }

    /** The body of the tile loop of `update_control_map` for one non-HQ tile. */
    method UpdateTile(y: int, x: int, here: Option<Team>)
      requires Shaped() && 0 <= y < HEIGHT && 0 <= x < WIDTH
      modifies controlMap, captureTeam, captureTimer, vacateTimer
      ensures TileAt(y, x) == StepTile(old(TileAt(y, x)), here)
      ensures forall y', x' :: 0 <= y' < HEIGHT && 0 <= x' < WIDTH && (y' != y || x' != x) ==>
        TileAt(y', x') == old(TileAt(y', x'))
    {
      if here.Some? {
        vacateTimer[y, x] := 0;
        if captureTeam[y, x] == here {
          captureTimer[y, x] := captureTimer[y, x] + 1;
        } else {
          captureTeam[y, x] := here;
          captureTimer[y, x] := 1;
        }
        if captureTimer[y, x] >= CAPTURE_FRAMES {
          controlMap[y, x] := here;
        }
      } else {
        captureTimer[y, x] := 0;
        captureTeam[y, x] := None;
        if controlMap[y, x].Some? {
          vacateTimer[y, x] := vacateTimer[y, x] + 1;
          if vacateTimer[y, x] >= VACATE_FRAMES {
            controlMap[y, x] := None;
            vacateTimer[y, x] := 0;
          }
        }
      }
    }

    /** The tiles team `t` owns on the control map. */
    ghost function Owned(t: Team): nat
      requires Shaped()
      reads controlMap
    {
      CountRows(controlMap, t, controlMap.Length0)
    }

    /** Each team owns at least its HQ tile, and the two together at most the map. */
    lemma OwnedBounds()
      requires MapOk()
      ensures Owned(Blue) >= 1 && Owned(Red) >= 1
      ensures Owned(Blue) + Owned(Red) <= HEIGHT * WIDTH
    {
      CountRowsHas(controlMap, Blue, HqPos(Blue).y, HqPos(Blue).x, HEIGHT);
      CountRowsHas(controlMap, Red, HqPos(Red).y, HqPos(Red).x, HEIGHT);
      CountRowsBound(controlMap, HEIGHT);
    }

    /**
     * `award_control_resources`: on every 50th frame each team earns one
     * resource per tile it owns; on other frames nothing changes.
     */
    method AwardControlResources(frame: nat)
      requires Valid()
      modifies this`resources
      ensures Valid()
      ensures frame % RESOURCE_INTERVAL != 0 ==> resources == old(resources)
      ensures frame % RESOURCE_INTERVAL == 0 ==>
        resources == PerTeam(old(resources.blue) + Owned(Blue), old(resources.red) + Owned(Red))
    {
      if frame % RESOURCE_INTERVAL != 0 {
        return;
      }
      var blue, red := 0, 0;
      for y := 0 to HEIGHT
        invariant blue == CountRows(controlMap, Blue, y) && red == CountRows(controlMap, Red, y)
      {
        for x := 0 to WIDTH
          invariant blue == CountRows(controlMap, Blue, y) + CountRow(controlMap, Blue, y, x)
          invariant red == CountRows(controlMap, Red, y) + CountRow(controlMap, Red, y, x)
        {
          var owner := controlMap[y, x];
          if owner == Some(Blue) {
            blue := blue + 1;
          } else if owner == Some(Red) {
            red := red + 1;
          }
        }
      }
      resources := PerTeam(resources.blue + blue, resources.red + red);
    }

    /**
     * `check_hq_status`: on every 10th frame each unit on the enemy HQ tile,
     * in roster order, takes its damage off that HQ; the check reports game
     * over as soon as a hit leaves an HQ at 0 hp or below.
     */
    method CheckHqStatus(frame: nat) returns (over: bool)
      modifies this`hqHp
      ensures frame % FPS != 0 ==> !over && hqHp == old(hqHp)
      ensures frame % FPS == 0 ==> (hqHp, over) == HqRaid(Raiders(units), old(hqHp))
    {
      if frame % FPS != 0 {
        return false;
      }
      ghost var rs := Raiders(units);
      for i := 0 to |units|
        invariant HqRaid(rs, old(hqHp)) == HqRaid(rs[i..], hqHp)
      {
        var u := units[i];
        var e := u.team.Enemy();
        assert rs[i..][0] == rs[i] && rs[i..][1..] == rs[i + 1..];
        if u.Tile() == HqPos(e) {
          hqHp := hqHp.Set(e, hqHp.Get(e) - u.dmg);
          if hqHp.Get(e) <= 0 {
            return true;
          }
        }
      }
      return false;
    }

    /**
     * `attempt_attack`: the first enemy on the attacker's tile takes its
     * damage; if that kills it, it leaves the roster, the attacker's team
     * scores a kill and the attacker gains a kill and one xp, becoming elite
     * at 3 xp unless it already is. Without such an enemy nothing happens.
     */
    method AttemptAttack(me: Unit)
      requires Valid()
      modifies this`units, this`kills, units`hp, me`kills, me`xp, me`isElite, me`maxHp, me`hp, me`dmg, me`moveCd
      ensures Valid()
      ensures forall v :: v in units ==> v in old(units)
      ensures old(FirstVictim(units, me)).None? ==>
        && units == old(units) && kills == old(kills)
        && (forall v :: v in old(units) ==> v.hp == old(v.hp))
        && me.hp == old(me.hp) && me.kills == old(me.kills) && me.xp == old(me.xp)
        && me.isElite == old(me.isElite) && me.dmg == old(me.dmg) && me.moveCd == old(me.moveCd)
      ensures old(FirstVictim(units, me)).Some? ==>
        var t := old(units)[old(FirstVictim(units, me)).value];
        var killed := old(t.hp) - old(me.dmg) <= 0;
        && t.hp == old(t.hp) - old(me.dmg)
        && (forall v :: v in old(units) && v != t && v != me ==> v.hp == old(v.hp))
        && units == (if killed then Lists.Remove(old(units), t) else old(units))
        && kills == (if killed then old(kills).Set(me.team, old(kills.Get(me.team)) + 1) else old(kills))
        && me.kills == old(me.kills) + (if killed then 1 else 0)
        && me.xp == old(me.xp) + (if killed then 1 else 0)
        && Promotion(me, old(me.isElite), old(me.hp), old(me.dmg), old(me.moveCd),
                     killed && old(me.xp) + 1 >= ELITE_XP && !old(me.isElite))
    {
      var i := 0;
      while i < |units|
        invariant 0 <= i <= |units|
        invariant forall k :: 0 <= k < i ==> !Victim(me, units[k])
      {
        var u := units[i];
        if u.team != me.team && u.x == me.x && u.y == me.y {
          assert FirstVictim(units, me) == Some(i);
          Hit(me, u);
          return;
        }
        i := i + 1;
      }
    }

    /** The hit, the removal of a killed target and the kill tally. */
    method Hit(me: Unit, u: Unit)
      requires Valid() && u in units && u.team != me.team
      modifies this`units, this`kills, u`hp, me`kills, me`xp, me`isElite, me`maxHp, me`hp, me`dmg, me`moveCd
      ensures Valid()
      ensures forall v :: v in units ==> v in old(units)
      ensures var killed := old(u.hp) - old(me.dmg) <= 0;
        && u.hp == old(u.hp) - old(me.dmg)
        && units == (if killed then Lists.Remove(old(units), u) else old(units))
        && kills == (if killed then old(kills).Set(me.team, old(kills.Get(me.team)) + 1) else old(kills))
        && me.kills == old(me.kills) + (if killed then 1 else 0)
        && me.xp == old(me.xp) + (if killed then 1 else 0)
        && Promotion(me, old(me.isElite), old(me.hp), old(me.dmg), old(me.moveCd),
                     killed && old(me.xp) + 1 >= ELITE_XP && !old(me.isElite))
    {
      ghost var before := units;
      u.hp := u.hp - me.dmg;
      if u.hp <= 0 {
        Bury(u);
        kills := kills.Set(me.team, kills.Get(me.team) + 1);
        Reward(me);
      }
      assert Roster(units) by {
        forall v | v in units ensures InGrid(v.Tile()) && v.hp > 0 {
          assert v in before && old(InGrid(v.Tile()) && v.hp > 0);
        }
      }
    }

    /**
     * The attacker after the kill bookkeeping: promoted (`promote`) means
     * elite with the bonuses applied to the earlier values; otherwise the
     * elite-related fields are as before.
     */
    ghost predicate Promotion(me: Unit, wasElite: bool, hp0: int, dmg0: int, moveCd0: int, promote: bool)
      reads me`isElite, me`maxHp, me`hp, me`dmg, me`moveCd
    {
      if promote then
        && me.isElite && me.maxHp == Some(BASE_HP + ELITE_HP_BONUS) && me.hp == hp0 + ELITE_HP_BONUS && me.dmg == BASE_DMG + ELITE_DMG_BONUS
        && me.moveCd == (if moveCd0 - 1 >= MOVE_INTERVAL_MIN / 2 then moveCd0 - 1 else MOVE_INTERVAL_MIN / 2)
      else
        me.isElite == wasElite && me.hp == hp0 && me.dmg == dmg0 && me.moveCd == moveCd0
    }

    /** A kill's experience: one kill and one xp, and promotion at 3 xp for a non-elite. */
    method Reward(me: Unit)
      modifies me`kills, me`xp, me`isElite, me`maxHp, me`hp, me`dmg, me`moveCd
      ensures me.kills == old(me.kills) + 1 && me.xp == old(me.xp) + 1
      ensures Promotion(me, old(me.isElite), old(me.hp), old(me.dmg), old(me.moveCd),
                        old(me.xp) + 1 >= ELITE_XP && !old(me.isElite))
    {
      me.kills := me.kills + 1;
      me.xp := me.xp + 1;
      if me.xp >= ELITE_XP && !me.isElite {
        me.BecomeElite();
      }
    }

    /** `units.remove(u)` for a unit on the roster: it leaves, nothing else does. */
    method Bury(u: Unit)
      requires Lists.Distinct(units) && u in units
      modifies this`units
      ensures units == Lists.Remove(old(units), u)
      ensures Lists.Distinct(units) && u !in units
      ensures forall v :: v in units <==> v in old(units) && v != u
    {
      Lists.RemoveDistinct(units, u);
      Lists.RemoveMembers(units, u);
      units := Lists.Remove(units, u);
    }

    /** `attempt_move` for `u` against the current roster; the map stays sound. */
    method Move(u: Unit, delay: MoveDelay)
      requires Valid()
      modifies u`x, u`y, u`moveCd
      ensures Valid()
      ensures InGrid(old(u.Tile())) ==> Grid.Abs(u.x - old(u.x)) <= 1 && Grid.Abs(u.y - old(u.y)) <= 1
    {
      u.AttemptMove(units, delay);
      assert Roster(units) by {
        forall v | v in units ensures InGrid(v.Tile()) && v.hp > 0 {
          assert old(InGrid(v.Tile()) && v.hp > 0);
        }
      }
    }

    /** Some roster unit stands on `p`. */
    predicate Occupied(p: Grid.Pos)
      reads this`units, units`x, units`y
    {
      exists k :: 0 <= k < |units| && units[k].Tile() == p
    }

    /**
     * `spawn_unit`: up to 20 drawn tiles in the team's third of the map are
     * tried in order; a fresh unit appears on the first free one, and if all
     * are taken nobody spawns.
     */
    method SpawnUnit(team: Team, tries: seq<Grid.Pos>, delay: MoveDelay) returns (spawned: Option<Unit>)
      requires Valid() && TriesOk(team, tries)
      modifies this`units, this`uidCounter
      ensures Valid()
      ensures spawned.None? <==> forall i :: 0 <= i < |tries| ==> old(Occupied(tries[i]))
      ensures spawned.None? ==> units == old(units) && uidCounter == old(uidCounter)
      ensures spawned.Some? ==>
        var u := spawned.value;
        && fresh(u) && units == old(units) + [u]
        && u.team == team && u.id == uidCounter == old(uidCounter) + 1
        && u.hp == BASE_HP && u.dmg == BASE_DMG && u.moveCd == delay && u.xp == 0 && !u.isElite
        && exists k :: 0 <= k < |tries| && u.Tile() == tries[k] && !old(Occupied(tries[k]))
             && forall j :: 0 <= j < k ==> old(Occupied(tries[j]))
      ensures spawned.None? <==> FirstFree(old(Standing(units)), tries).None?
      ensures spawned.Some? ==> spawned.value.Tile() == tries[FirstFree(old(Standing(units)), tries).value]
      ensures Standing(units) == old(Standing(units)) + Placed(spawned)
    {
      ghost var taken := Standing(units);
      for i := 0 to |tries|
        invariant units == old(units) && uidCounter == old(uidCounter)
        invariant forall j :: 0 <= j < i ==> old(Occupied(tries[j])) && tries[j] in taken
      {
        var p := tries[i];
        OccupiedStanding(p);
        if !Occupied(p) {
          assert FirstFree(taken, tries) == Some(i);
          var u := Recruit(team, p, delay);
          return Some(u);
        }
      }
      return None;
    }

    /** A new unit of `team` on the free tile `p` joins the roster. */
    method Recruit(team: Team, p: Grid.Pos, delay: MoveDelay) returns (u: Unit)
      requires Valid() && InGrid(p)
      modifies this`units, this`uidCounter
      ensures Valid() && fresh(u) && units == old(units) + [u]
      ensures Standing(units) == old(Standing(units)) + {p}
      ensures u.team == team && u.Tile() == p && u.id == uidCounter == old(uidCounter) + 1
      ensures u.hp == BASE_HP && u.dmg == BASE_DMG && u.moveCd == delay && u.xp == 0 && !u.isElite
    {
      ghost var standing := Standing(units);
      uidCounter := uidCounter + 1;
      u := new Unit(uidCounter, p.x, p.y, team, delay);
      assert Standing(units) == standing;
      Enlist(u);
    }

    /** A tile is occupied exactly when some roster unit stands on it. */
    lemma OccupiedStanding(p: Grid.Pos)
      ensures Occupied(p) <==> p in Standing(units)
    {
      if p in Standing(units) {
        var u :| u in units && u.Tile() == p;
        var k :| 0 <= k < |units| && units[k] == u;
      }
    }

    /** `units.append(unit)` for a newly created unit. */
    method Enlist(u: Unit)
      requires Valid() && InGrid(u.Tile()) && u.hp > 0 && u !in units
      modifies this`units
      ensures Valid() && units == old(units) + [u]
      ensures Standing(units) == old(Standing(units)) + {u.Tile()}
    {
      units := units + [u];
      assert Lists.Distinct(units) by {
        forall a, b | 0 <= a < b < |units| ensures units[a] != units[b] {
          if b < |units| - 1 {
            assert units[a] == old(units)[a] && units[b] == old(units)[b];
          } else {
            assert units[a] in old(units);
          }
        }
      }
      assert Roster(units) by {
        forall v | v in units ensures InGrid(v.Tile()) && v.hp > 0 {
          if v != u {
            assert v in old(units);
          }
        }
      }
    }

    /**
     * One team's turn of the once-a-second economy: one resource earned and,
     * with 3 available, a spawn attempt that costs 3 whether or not a unit
     * found room.
     */
    method SpawnTurn(team: Team, tries: seq<Grid.Pos>, delay: MoveDelay) returns (spawned: Option<Unit>)
      requires Valid() && TriesOk(team, tries)
      modifies this`resources, this`units, this`uidCounter
      ensures Valid()
      ensures resources == old(resources).Set(team, Income(old(resources.Get(team))))
      ensures old(resources.Get(team)) + 1 < UNIT_COST ==> spawned.None?
      ensures spawned.None? ==> units == old(units)
      ensures spawned.Some? ==> fresh(spawned.value) && units == old(units) + [spawned.value]
      ensures SpawnOutcome(team, old(resources.Get(team)) + 1, old(Standing(units)), tries, spawned)
      ensures Standing(units) == old(Standing(units)) + Placed(spawned)
      ensures spawned.Some? ==>
        var u := spawned.value;
        && u.id == uidCounter == old(uidCounter) + 1
        && u.hp == BASE_HP && u.dmg == BASE_DMG && u.moveCd == delay && u.xp == 0 && !u.isElite
    {
      // `spawn_unit` does not read the resources, so the earned resource and
      // the price are booked together once the attempt is over.
      var budget := resources.Get(team) + 1;
      spawned := None;
      if budget >= UNIT_COST {
        spawned := SpawnUnit(team, tries, delay);
      }
      Book(team, if budget >= UNIT_COST then budget - UNIT_COST else budget);
      assert resources.blue == old(resources).Set(team, Income(old(resources.Get(team)))).blue;
      assert resources.red == old(resources).Set(team, Income(old(resources.Get(team)))).red;
    }

    /** Writes a team's new resource count. */
    method Book(team: Team, amount: int)
      requires Valid() && amount >= 0
      modifies this`resources
      ensures Valid() && resources == old(resources).Set(team, amount)
    {
      resources := resources.Set(team, amount);
    }

    /**
     * The resource-and-spawn block: on every 10th frame but the first, blue
     * and then red take their economy turn; red's drawn tiles are checked
     * against the roster that already holds blue's new unit.
     */
    method Economy(frame: nat, tries: PerTeam<seq<Grid.Pos>>, delays: PerTeam<MoveDelay>)
      returns (blue: Option<Unit>, red: Option<Unit>)
      requires Valid() && TriesOk(Blue, tries.blue) && TriesOk(Red, tries.red)
      modifies this`resources, this`units, this`uidCounter
      ensures Valid()
      ensures forall v :: v in old(units) ==> v in units
      ensures forall v :: v in units && v !in old(units) ==> fresh(v)
      ensures units == old(units) + Spawns(blue) + Spawns(red)
      ensures !(frame % FPS == 0 && frame != 0) ==>
        blue.None? && red.None? && units == old(units) && resources == old(resources)
      ensures frame % FPS == 0 && frame != 0 ==>
        resources == PerTeam(Income(old(resources.blue)), Income(old(resources.red)))
      ensures frame % FPS == 0 && frame != 0 ==>
        SpawnOutcome(Blue, old(resources.blue) + 1, old(Standing(units)), tries.blue, blue)
      ensures frame % FPS == 0 && frame != 0 ==>
        SpawnOutcome(Red, old(resources.red) + 1, old(Standing(units)) + Placed(blue), tries.red, red)
      ensures blue.Some? ==> fresh(blue.value)
      ensures red.Some? ==> fresh(red.value)
    {
      blue, red := None, None;
      if frame % FPS == 0 && frame != 0 {
        blue := SpawnTurn(Blue, tries.blue, delays.blue);
        red := SpawnTurn(Red, tries.red, delays.red);
      }
    }

    /**
     * The unit-logic loop: every unit on the roster as the frame began, in
     * order, tries to move and then to attack; a unit killed earlier in the
     * loop still takes its turn.
     */
    method UnitsAct(delays: nat -> MoveDelay)
      requires Valid()
      modifies this`units, this`kills
      modifies units`x, units`y, units`moveCd, units`hp, units`kills, units`xp, units`isElite, units`maxHp, units`dmg
      ensures Valid()
      ensures forall v :: v in units ==> v in old(units)
    {
      var snapshot := units;
      for i := 0 to |snapshot|
        invariant Valid()
        invariant forall v :: v in units ==> v in snapshot
      {
        var u := snapshot[i];
        Move(u, delays(i));
        assert forall k :: 0 <= k < |units| ==> units[k] in old(units);
        AttemptAttack(u);
      }
    }

    /**
     * One frame of the console loop: economy, unit logic, territory, income
     * and the HQ check, then the win check. Every non-HQ tile has taken one
     * step of the automaton, income went to each team's owned tiles, on an
     * HQ check frame every raider has struck, and a fallen HQ ends the game
     * with the other team as winner; otherwise a side without units loses.
     */
    method Frame(frame: nat, tries: PerTeam<seq<Grid.Pos>>, spawnDelays: PerTeam<MoveDelay>, moveDelays: nat -> MoveDelay)
      returns (winner: Option<Team>)
      requires Valid() && Running() && TriesOk(Blue, tries.blue) && TriesOk(Red, tries.red)
      modifies this`resources, this`units, this`uidCounter, this`kills, this`hqHp, units, controlMap, captureTeam, captureTimer, vacateTimer
      ensures Valid()
      ensures forall v :: v in units ==> v in old(units) || fresh(v)
      ensures forall y, x :: 0 <= y < HEIGHT && 0 <= x < WIDTH ==> TileAt(y, x) == Next(old(TileAt(y, x)), x, y)
      ensures frame % RESOURCE_INTERVAL == 0 ==> resources.blue == Earned(frame, old(resources)).blue + Owned(Blue)
      ensures frame % RESOURCE_INTERVAL == 0 ==> resources.red == Earned(frame, old(resources)).red + Owned(Red)
      ensures frame % RESOURCE_INTERVAL != 0 ==> resources == Earned(frame, old(resources))
      ensures frame % FPS == 0 ==> hqHp == HqRaid(Raiders(units), old(hqHp)).0
      ensures frame % FPS != 0 ==> hqHp == old(hqHp)
      ensures winner == if Running() then RosterWinner(units) else Some(HqWinner(hqHp))
      ensures winner.None? ==> Running() && RosterWinner(units) == None
      ensures winner.Some? ==>
        if Running() then winner == RosterWinner(units) else hqHp.Get(winner.value.Enemy()) <= 0
    {
      Act(frame, tries, spawnDelays, moveDelays);
      winner := Close(frame);
    }

    /**
     * The systems and the checks that close a frame, on the roster the unit
     * loop left: the map has taken one automaton step, income went to each
     * team's owned tiles, the raiders have struck and the winner is decided.
     */
    method Close(frame: nat) returns (winner: Option<Team>)
      requires Valid() && Running()
      modifies this`resources, this`hqHp, controlMap, captureTeam, captureTimer, vacateTimer
      ensures Valid()
      ensures forall y, x :: 0 <= y < HEIGHT && 0 <= x < WIDTH ==> TileAt(y, x) == Next(old(TileAt(y, x)), x, y)
      ensures frame % RESOURCE_INTERVAL == 0 ==> resources.blue == old(resources.blue) + Owned(Blue)
      ensures frame % RESOURCE_INTERVAL == 0 ==> resources.red == old(resources.red) + Owned(Red)
      ensures frame % RESOURCE_INTERVAL != 0 ==> resources == old(resources)
      ensures frame % FPS == 0 ==> hqHp == HqRaid(Raiders(units), old(hqHp)).0
      ensures frame % FPS != 0 ==> hqHp == old(hqHp)
      ensures winner == if Running() then RosterWinner(units) else Some(HqWinner(hqHp))
      ensures winner.None? ==> Running() && RosterWinner(units) == None
      ensures winner.Some? ==>
        if Running() then winner == RosterWinner(units) else hqHp.Get(winner.value.Enemy()) <= 0
    {
      Systems(frame);
      winner := Judge(frame);
    }

    /** The spawn block and the unit loop: the map is untouched and the resources are the spawn block's. */
    method Act(frame: nat, tries: PerTeam<seq<Grid.Pos>>, spawnDelays: PerTeam<MoveDelay>, moveDelays: nat -> MoveDelay)
      requires Valid() && TriesOk(Blue, tries.blue) && TriesOk(Red, tries.red)
      modifies this`resources, this`units, this`uidCounter, this`kills, units
      ensures Valid() && resources == Earned(frame, old(resources)) && hqHp == old(hqHp)
      ensures forall v :: v in units ==> v in old(units) || fresh(v)
      ensures forall y, x :: 0 <= y < HEIGHT && 0 <= x < WIDTH ==> TileAt(y, x) == old(TileAt(y, x))
    {
      var _, _ := Economy(frame, tries, spawnDelays);
      assert forall k :: 0 <= k < |units| ==> units[k] in old(units) || fresh(units[k]);
      UnitsAct(moveDelays);
    }

    /** `update_control_map` and then `award_control_resources`. */
    method Systems(frame: nat)
      requires Valid()
      modifies this`resources, controlMap, captureTeam, captureTimer, vacateTimer
      ensures Valid()
      ensures forall y, x :: 0 <= y < HEIGHT && 0 <= x < WIDTH ==> TileAt(y, x) == Next(old(TileAt(y, x)), x, y)
      ensures resources ==
        if frame % RESOURCE_INTERVAL == 0 then PerTeam(old(resources.blue) + Owned(Blue), old(resources.red) + Owned(Red))
        else old(resources)
    {
      UpdateControlMap();
      AwardControlResources(frame);
    }

    /**
     * The HQ check and the win check that close a frame: on a check frame
     * every raider in roster order strikes until an HQ falls; a fallen HQ
     * names the other team, and otherwise the roster decides.
     */
    method Judge(frame: nat) returns (winner: Option<Team>)
      requires Valid() && Running()
      modifies this`hqHp
      ensures Valid()
      ensures frame % FPS == 0 ==> hqHp == HqRaid(Raiders(units), old(hqHp)).0
      ensures frame % FPS != 0 ==> hqHp == old(hqHp)
      ensures winner == if Running() then RosterWinner(units) else Some(HqWinner(hqHp))
      ensures winner.None? ==> Running() && RosterWinner(units) == None
      ensures winner.Some? ==>
        if Running() then winner == RosterWinner(units) else hqHp.Get(winner.value.Enemy()) <= 0
    {
      ghost var rs := Raiders(units);
      ghost var raid := HqRaid(rs, hqHp);
      HqWinnerBeatFallenHq(rs, hqHp);
      RaidOverMeansFallen(rs, hqHp);
      RaidWithoutFall(rs, hqHp);
      var over := CheckHqStatus(frame);
      if over {
        assert hqHp == raid.0;
        return Some(HqWinner(hqHp));
      }
      assert Running();
      winner := RosterWinner(units);
    }
  }
}
