/**
 * The entities of the pygame engine: unit types and their stats, the `Unit`
 * and `HQ` objects the frame loop mutates in place, and the siege counter rule.
 */
module Forces {
  import opened Teams
  import opened Grid

  /** The keys of `UNIT_TYPES`, in dictionary order. */
  datatype Kind = Infantry | Tank | Scout | Shieldbearer | Medic | BarrierEng | RepairBot | Spotter

  datatype Stats = Stats(hp: nat, dmg: nat, speed: nat, cost: nat)

  const KINDS: seq<Kind> := [Infantry, Tank, Scout, Shieldbearer, Medic, BarrierEng, RepairBot, Spotter]

  /** One row of the `UNIT_TYPES` table. */
  function StatsOf(k: Kind): (s: Stats)
    ensures s.hp > 0 && s.dmg > 0 && 1 <= s.speed <= 2 && 2 <= s.cost <= 5
    ensures s.speed == 2 <==> k == Scout
  {
    match k
    case Infantry => Stats(100, 10, 1, 3)
    case Tank => Stats(200, 20, 1, 5)
    case Scout => Stats(60, 5, 2, 2)
    case Shieldbearer => Stats(120, 6, 1, 4)
    case Medic => Stats(80, 3, 1, 4)
    case BarrierEng => Stats(90, 4, 1, 5)
    case RepairBot => Stats(70, 2, 1, 4)
    case Spotter => Stats(60, 4, 1, 3)
  }

  /** Every unit type appears in `KINDS` exactly once. */
  lemma KindsListed(k: Kind)
    ensures k in KINDS
    ensures forall i, j :: 0 <= i < j < |KINDS| ==> KINDS[i] != KINDS[j]
  {
  }

  /** Radius of the diamond a unit of kind `k` reveals: Spotters see two tiles further. */
  function VisionRadius(k: Kind): (r: nat)
    ensures r == FOG_RADIUS + 2 <==> k == Spotter
    ensures k != Spotter ==> r == FOG_RADIUS
  {
    if k == Spotter then FOG_RADIUS + 2 else FOG_RADIUS
  }

  /**
   * Damage actually dealt: `int(dmg * (1 - dmg_reduction))`, where the
   * reduction is 0.5 under a shield aura and 0 otherwise.
   */
  function Damage(dmg: nat, shielded: bool): (eff: nat)
    ensures !shielded ==> eff == dmg
    ensures shielded ==> eff <= dmg && dmg - 1 <= 2 * eff <= dmg
  {
    if shielded then dmg / 2 else dmg
  }

  function Min(a: int, b: int): (m: int)
    ensures m <= a && m <= b && (m == a || m == b)
  {
    if a <= b then a else b
  }

  /** `random.randint(10, 20)`: the delay drawn after spawning and after every move. */
  type MoveDelay = d: int | 10 <= d <= 20 witness 10

  const ATTACK_COOLDOWN := 5
  const SIEGE_FRAMES: nat := 3

  class Unit {
    const uid: nat
    const team: Team
    const kind: Kind
    const maxHp: int
    const dmg: nat
    const speed: nat
    var x: int
    var y: int
    var hp: int
    /** `dmg_reduction == 0.5`; it is only ever 0.0 or 0.5. */
    var shielded: bool
    var lastHealFrame: int
    var moveCd: int
    /** The forest slow-down; starts at 0 here (see README). */
    var cooldown: int
    var hqCounter: int
    var attackCd: int

    constructor (uid: nat, team: Team, x: int, y: int, kind: Kind, moveCd: MoveDelay)
      ensures this.uid == uid && this.team == team && this.kind == kind
      ensures this.x == x && this.y == y
      ensures maxHp == StatsOf(kind).hp && hp == maxHp
      ensures dmg == StatsOf(kind).dmg && speed == StatsOf(kind).speed
      ensures !shielded && lastHealFrame == 0 && this.moveCd == moveCd
      ensures cooldown == 0 && hqCounter == 0 && attackCd == 0
    {
      this.uid := uid;
      this.team := team;
      this.kind := kind;
      this.x := x;
      this.y := y;
      maxHp := StatsOf(kind).hp;
      hp := StatsOf(kind).hp;
      dmg := StatsOf(kind).dmg;
      speed := StatsOf(kind).speed;
      shielded := false;
      lastHealFrame := 0;
      this.moveCd := moveCd;
      cooldown := 0;
      hqCounter := 0;
      attackCd := 0;
    }

    function Tile(): Pos
      reads this`x, this`y
    {
      Pos(x, y)
    }
  }

  /**
   * What every unit object keeps true, on the roster or not: it stands on the
   * board, its counters are in range, its hp never exceeds its maximum and its
   * stats are the row of its type.
   */
  ghost predicate UnitOk(u: Unit)
    reads u`x, u`y, u`hqCounter, u`hp, u`attackCd, u`moveCd, u`cooldown
  {
    && InBounds(u.Tile())
    && 0 <= u.hqCounter < SIEGE_FRAMES
    && u.hp <= u.maxHp
    && u.attackCd >= 0 && u.moveCd >= 0 && u.cooldown >= 0
    && u.maxHp == StatsOf(u.kind).hp && u.dmg == StatsOf(u.kind).dmg && u.speed == StatsOf(u.kind).speed
  }

  class Hq {
    const team: Team
    /** Top-left corner of the 2x2 block. */
    const x: int
    const y: int
    var hp: int

    constructor (team: Team, x: int, y: int)
      ensures this.team == team && this.x == x && this.y == y && hp == HQ_HP
    {
      this.team := team;
      this.x := x;
      this.y := y;
      hp := HQ_HP;
    }

    function Corner(): Pos {
      Pos(x, y)
    }

    /** The 2x2 block whose top-left corner is the HQ position. */
    function Tiles(): (ts: set<Pos>)
      ensures forall p :: p in ts <==> x <= p.x <= x + 1 && y <= p.y <= y + 1
      ensures Corner() in ts && |ts| == 4
    {
      var ts := {Pos(x, y), Pos(x + 1, y), Pos(x, y + 1), Pos(x + 1, y + 1)};
      assert |{Pos(x, y), Pos(x + 1, y)} + {Pos(x, y + 1)}| == 3;
      ts
    }

    /** `min(manhattan(t, p) for t in tiles())`. */
    function DistanceTo(p: Pos): (d: nat)
      ensures forall t :: t in Tiles() ==> d <= Manhattan(t, p)
      ensures exists t :: t in Tiles() && d == Manhattan(t, p)
    {
      var a, b := Manhattan(Pos(x, y), p), Manhattan(Pos(x + 1, y), p);
      var c, e := Manhattan(Pos(x, y + 1), p), Manhattan(Pos(x + 1, y + 1), p);
      var m1 := if a <= b then a else b;
      var m2 := if c <= e then c else e;
      if m1 <= m2 then m1 else m2
    }
  }

  /** What `decide_target` and the engage override hand to the mover. */
  datatype Target = UnitTarget(unit: Unit) | HqTarget(hq: Hq)

  /**
   * One siege tick of a unit that hit no adjacent enemy: the new counter and
   * whether the enemy HQ takes the unit's damage this tick.
   */
  function Siege(counter: nat, onEnemyHq: bool): (r: (nat, bool))
    requires counter < SIEGE_FRAMES
    ensures r.0 < SIEGE_FRAMES
    ensures r.1 <==> onEnemyHq && counter == SIEGE_FRAMES - 1
    ensures !onEnemyHq ==> r.0 == 0
    ensures onEnemyHq ==> r.0 == (counter + 1) % SIEGE_FRAMES
  {
    if onEnemyHq then
      if counter + 1 >= SIEGE_FRAMES then (0, true) else (counter + 1, false)
    else (0, false)
  }

  /** Counter and number of HQ hits after `n` consecutive ticks on the enemy HQ. */
  function SiegeRun(counter: nat, n: nat): (nat, nat)
    requires counter < SIEGE_FRAMES
    decreases n
  {
    if n == 0 then (counter, 0)
    else
      var (c, hit) := Siege(counter, true);
      var (c', hits) := SiegeRun(c, n - 1);
      (c', hits + if hit then 1 else 0)
  }

  /**
   * Standing on the enemy HQ from counter `c` for `n` ticks damages it
   * exactly `(c + n) / 3` times: the siege rate is one hit per three ticks.
   */
  lemma {:induction false} SiegeRate(c: nat, n: nat)
    requires c < SIEGE_FRAMES
    decreases n
    ensures SiegeRun(c, n) == ((c + n) % SIEGE_FRAMES, (c + n) / SIEGE_FRAMES)
  {
    if n > 0 {
      var (c1, hit) := Siege(c, true);
      SiegeRate(c1, n - 1);
      if hit {
        assert c1 == 0 && c == 2;
        assert (c + n) / 3 == (n - 1) / 3 + 1;
      } else {
        assert c1 == c + 1;
      }
    }
  }
}
