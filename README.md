# War engines: a verified Dafny model

The `war/` repository has two independent two-team battle simulations on a tile
grid. Each one wraps a small integer game engine in rendering code. This project
models both engines and proves what they promise.

- **Pygame engine** (`war/advanced_battle.py`). The map is 40x30 with open,
  wall and forest tiles. Each side has a 2x2 HQ. There are eight unit types,
  each with its own stats, and a Spotter sees further than the others.
  - Units find their way with a breadth-first search. It avoids walls, and it
    avoids occupied tiles only as the first step.
  - Each unit picks a target by a fixed priority: defend its HQ, regroup,
    advance, or hold. A visible enemy within 5 tiles overrides that choice.
  - Units hit adjacent enemies (half damage on a shielded target), then wait
    out a 5-frame cooldown.
  - A unit standing on the enemy HQ builds a siege counter and damages the HQ
    every third tick.
  - Support types shield, heal, build walls or repair HQs.
  - Every second, each side earns a resource and may spawn an affordable unit
    near its HQ.
  - Each side's fog of war is recomputed every frame.
  - A side wins when the other side's HQ falls.
- **Console engine** (`war/console_battle.py`). The map is 60x30 and has no
  terrain effects.
  - Units step toward the nearest enemy, one tile per axis, and fight enemies on
    their own tile.
  - A unit becomes elite after three kills.
  - Each tile runs a capture and vacate automaton kept in four parallel grids.
  - Owned tiles pay income.
  - A unit on the enemy HQ tile damages it once a second.
  - A side loses when its HQ falls or when it has no units left.

In both engines, units are objects updated in place. Here they are classes
(`Forces.Unit`, `Console.Unit`). Each engine's module-level globals (terrain,
roster, HQs, resources, control grids, kill tally) become one `World` class per
engine. Every loop over the roster, the grids, the spawn offsets or a search
queue is a method with loop invariants, and most of them are proved against a
specification function or predicate. The loops over the two teams or the two
HQs are unrolled into two calls (`Battle.World.Repair`,
`Battle.World.SpawnRound`, `Battle.World.Survey`, `Console.World.Economy`) or a
function (`Battle.World.Winners`). In the console engine, the per-team income
loop is one `PerTeam` update and the per-HQ raid loop is one comparison with
the enemy HQ's tile. The list comprehensions are recursive functions. The per-unit
loops of `Battle.World.Advance`, `Battle.World.UpdateAll` and
`Console.World.UnitsAct` keep only the soundness and roster bounds; the
"## Left out" section says so for each.

Randomness is passed in as parameters:
- a `random.randint` draw is a value of a subset type with the same bounds;
- a `random.choice` draw is an index taken modulo the list length;
- a `random.shuffle` draw is a permutation of the four directions.

The frame number, and the terrain the generator produced, are also parameters.

Modules:
- `Teams`: the two teams and per-team dictionaries.
- `Grid`: the pygame grid helpers and terrain.
- `Lists`: list removal as the rosters use it.
- `Fog`: the visibility loop.
- `Forces`: unit types, `Unit`, `Hq` and the siege rule.
- `Pathfinder`: `bfs` and `reachable`.
- `Battle`: the pygame world and the per-unit and per-frame logic.
- `Territory`: the console tile automaton.
- `Console`: the console world.

## Model

| member | source | states |
|---|---|---|
| Teams.Team.Enemy | war/advanced_battle.py:210 | The opposing team is always the other one. |
| Teams.PerTeam.Set | war/advanced_battle.py:423 | Writing one team's entry of a per-team dictionary leaves the other team's entry alone. |
| Grid.Abs | war/advanced_battle.py:57 | The absolute value is non-negative and equals the value or its negation. |
| Grid.Manhattan | war/advanced_battle.py:56-57 | The distance is non-negative and is zero exactly for equal tiles. |
| Grid.ManhattanTriangle | war/advanced_battle.py:56-57 | The distance is symmetric and satisfies the triangle inequality. |
| Grid.Place | war/advanced_battle.py:303 | Writing one terrain cell sets that tile and leaves every other tile and the board shape unchanged. |
| Grid.KeepInBounds | war/advanced_battle.py:67 | The `in_bounds` filter keeps exactly the in-bounds candidates. |
| Grid.Neighbors | war/advanced_battle.py:63-68 | `neighbors` yields exactly the in-bounds tiles at distance 1, at most four of them. |
| Grid.Nearest | war/advanced_battle.py:255 | `min(..., key=manhattan)` picks a tile at least as close as every other, and the first such tile. |
| Lists.Remove | war/advanced_battle.py:342-343 | Removal drops one occurrence of a present unit, keeps the rest as a multiset, and leaves a list without the unit unchanged. |
| Lists.RemoveAt | war/advanced_battle.py:342-343 | In a list without repeats, removing the element at index i cuts out exactly index i. |
| Lists.RemoveIdempotent | war/advanced_battle.py:469-474 | With the `if u in units` guard, a second removal of the same unit changes nothing. |
| Lists.RemoveMembers | war/console_battle.py:115 | In a list without repeats, removal keeps exactly every other element. |
| Lists.RemoveDistinct | war/console_battle.py:115 | Removal keeps a roster free of repeats. |
| Fog.Visible | war/advanced_battle.py:458-461 | The nested loops add a tile exactly when it is in bounds and within the radius of some source. |
| Forces.StatsOf | war/advanced_battle.py:25-36 | Every unit type has positive hp and damage and a cost from 2 to 5. Only the Scout has speed 2. |
| Forces.KindsListed | war/advanced_battle.py:25-36 | The type table lists every unit type exactly once. |
| Forces.VisionRadius | war/advanced_battle.py:454-457 | The vision radius is FOG_RADIUS + 2 exactly for a Spotter and FOG_RADIUS otherwise. |
| Forces.Damage | war/advanced_battle.py:334 | `int(dmg * (1 - reduction))` deals full damage unshielded and half (rounded down) under a shield. |
| Forces.Unit.constructor | war/advanced_battle.py:150-176 | A new unit has its type's stats, full hp, the drawn move delay and zeroed counters. |
| Forces.Hq.constructor | war/advanced_battle.py:127-130 | A new HQ has its team, its corner and HQ_HP. |
| Forces.Hq.Tiles | war/advanced_battle.py:133-136 | `tiles()` is exactly the 2x2 block below and right of the corner: four tiles, the corner included. |
| Forces.Hq.DistanceTo | war/advanced_battle.py:213 | The distance to the HQ is the least distance to any of its four tiles. |
| Forces.Siege | war/advanced_battle.py:348-358 | Off the enemy HQ the counter resets. On it the counter advances, and the third tick hits the HQ and resets it. The counter stays below 3. |
| Forces.SiegeRate | war/advanced_battle.py:349-356 | Standing n ticks on the enemy HQ from counter c hits it exactly (c + n) / 3 times and leaves the counter at (c + n) % 3. |
| Pathfinder.Chain | war/advanced_battle.py:192-193 | Following `came` back from a tile gives a walk from the start of length depth + 1. |
| Pathfinder.ChainPrefix | war/advanced_battle.py:192-193 | Every prefix of a tree walk is the tree walk of its last tile. |
| Pathfinder.FrontierCovers | war/advanced_battle.py:185-204 | Every walk no longer than the queue front's depth ends at a tile already in `came`, at no greater depth. |
| Pathfinder.FrontIsNearest | war/advanced_battle.py:186-187 | When the popped tile is a goal, no walk reaches a goal in fewer steps. |
| Pathfinder.ExhaustedMeansUnreachable | war/advanced_battle.py:205-206 | When the queue runs empty, no walk reaches a goal. |
| Pathfinder.ExpandStart | war/advanced_battle.py:186 | Popping a non-goal front tile starts its expansion in a state that keeps the search invariant. |
| Pathfinder.LayeredTail | war/advanced_battle.py:186 | After a pop, the queue stays repeat-free and within one level of the popped tile's depth. |
| Pathfinder.TreeAdd | war/advanced_battle.py:203 | Recording `came[n] = cur` for a new neighbour keeps `came` a tree of edges. |
| Pathfinder.LayeredAdd | war/advanced_battle.py:204 | Appending the new tile one level deeper keeps the queue layered. |
| Pathfinder.ExpandAdd | war/advanced_battle.py:195-204 | Adding an unseen, passable neighbour keeps the expansion invariant. |
| Pathfinder.ExpandSkip | war/advanced_battle.py:196-202 | Skipping a neighbour that is seen, a wall, or an occupied first step keeps the expansion invariant. |
| Pathfinder.ExpandDone | war/advanced_battle.py:195-204 | After all neighbours the full search invariant holds again. |
| Pathfinder.Expand | war/advanced_battle.py:186-204 | One pop and expansion keeps the search invariant, and either grows `came` or shortens the queue. |
| Pathfinder.FirstStep | war/advanced_battle.py:192-194 | The walk-back loop stops at the second tile of the tree walk to the goal, an edge away from the start. |
| Pathfinder.BfsStart | war/advanced_battle.py:181-183 | The search starts with the start tile alone, at depth 0, satisfying the invariant. |
| Pathfinder.Trace | war/advanced_battle.py:187-194 | For a goal at the front, the returned step is the first step of a shortest walk to the goals. |
| Pathfinder.Bfs | war/advanced_battle.py:179-206 | `bfs` returns None exactly on a goal and the start exactly when no goal is reachable. Otherwise it returns an in-bounds, non-wall, unoccupied 4-neighbour that begins a shortest walk. |
| Pathfinder.VisitSeen | war/advanced_battle.py:97-100 | Handling one neighbour with the `seen` set keeps the expansion invariant and `seen` equal to the tree's tiles. |
| Pathfinder.ExpandSeen | war/advanced_battle.py:94-100 | One pop and expansion of `reachable` keeps the search invariant, with `seen` tracking the tree. |
| Pathfinder.Reachable | war/advanced_battle.py:87-101 | `reachable` is true exactly when some walk over non-wall tiles joins the two HQ zones. |
| Battle.ClearBlock | war/advanced_battle.py:382-383 | Clearing an HQ block makes its four tiles open and leaves all others as they were. |
| Battle.ClearHqs | war/advanced_battle.py:382-383 | The setup terrain is the input with both 2x2 HQ blocks open. Every other tile is kept. |
| Battle.FirstHit | war/advanced_battle.py:330-333 | The index `attack` scans to is the first adjacent enemy, and None means there is none. |
| Battle.TeamOf | war/advanced_battle.py:250 | `team_units` holds exactly the roster units of the team. |
| Battle.SeenEnemies | war/advanced_battle.py:249 | `visible_enemies` holds exactly the enemy units on visible tiles. |
| Battle.WithinOf | war/advanced_battle.py:253 | The engage filter keeps exactly the units within the radius. |
| Battle.NearHqOf | war/advanced_battle.py:213 | The defend filter keeps exactly the units within 4 of some own-HQ tile. |
| Battle.TilesOf | war/advanced_battle.py:255 | The tile list matches the unit list position by position. |
| Battle.Closest | war/advanced_battle.py:255 | `min(close_enemies, key=...)` returns a unit of the list at least as close as every other, and the first such unit. |
| Battle.Affordable | war/advanced_battle.py:424 | `affordable` holds exactly the unit types whose cost is within the budget. |
| Battle.AffordableIn | war/advanced_battle.py:424 | The comprehension over a list of types keeps exactly its affordable ones. |
| Battle.PickKind | war/advanced_battle.py:425-426 | A type is drawn exactly when one is affordable, and the drawn type is affordable. |
| Battle.AffordableNone | war/advanced_battle.py:424-425 | No type is affordable exactly when the budget is below the Scout's cost, the cheapest. |
| Battle.WindowTilesExact | war/advanced_battle.py:429-439 | Part way through the offset loops, the list holds exactly the free tiles of the window already scanned: earlier columns, then earlier rows of the current column. |
| Battle.SpawnTilesExact | war/advanced_battle.py:429-439 | A tile is a spawn candidate exactly when it is at offsets -2..3 from the HQ corner, in bounds, not a wall, and no unit stands on it. |
| Battle.TilesJoined | war/advanced_battle.py:443 | Appending a spawned unit adds exactly its tile to the tiles the roster stands on. |
| Battle.UnitSources | war/advanced_battle.py:450-457 | A team has at most one vision source per unit, and every source is the tile and vision radius of one of its units. |
| Battle.UnitSourcesCover | war/advanced_battle.py:450-461 | The unit sources cover a tile exactly when some unit of the team is within its vision radius. |
| Battle.SourcesCover | war/advanced_battle.py:450-461 | Adding the HQ corner source covers exactly the tiles within 5 of the corner as well. |
| Battle.WallsOnlyTrans | war/advanced_battle.py:303 | "Only open tiles became walls" composes over successive changes. |
| Battle.World.constructor | war/advanced_battle.py:379-388 | Setup places both HQs and clears their eight tiles, leaves all other terrain as given, and starts with no units and 10 resources per team. |
| Battle.World.Attack | war/advanced_battle.py:325-359 | See the notes after this table. |
| Battle.World.SiegeTick | war/advanced_battle.py:348-358 | The counter follows `Siege`. The enemy HQ loses `dmg` exactly on the third tick, and the own HQ is untouched. |
| Battle.World.Strike | war/advanced_battle.py:334-346 | The victim loses its effective damage, the cooldown becomes 5, and a victim at 0 hp or below leaves the roster. |
| Battle.World.Wound | war/advanced_battle.py:334-338 | The damage and cooldown of a hit. Only the victim can reach 0 hp. |
| Battle.World.Bury | war/advanced_battle.py:469-474 | The guarded removal drops exactly that unit. The roster stays repeat-free, and an absent unit changes nothing. |
| Battle.World.MoveTo | war/advanced_battle.py:318-323 | The unit stands on the new tile, and entering forest sets the slow-down to 1. |
| Battle.World.NearestAlly | war/advanced_battle.py:217-227 | The scan finds the first other member at least distance, below 999, or none when every ally is 999 or more away. `min_d > 4` exactly when every ally is more than 4 away. |
| Battle.World.DecideTarget | war/advanced_battle.py:209-233 | See the notes after this table. |
| Battle.World.Rally | war/advanced_battle.py:215-233 | With no seen enemy near the own HQ, the choice is the regroup, advance or hold step of the priority order. |
| Battle.World.ChooseTarget | war/advanced_battle.py:249-257 | With a seen enemy within 5, the target is the first nearest seen enemy within 5, in roster order. Otherwise it is `decide_target`'s choice, with the drawn enemy when some are near the own HQ. |
| Battle.World.ShieldAura | war/advanced_battle.py:282-285 | Exactly the other teammates within 2 tiles become shielded. Everyone else keeps their flag. |
| Battle.World.Shield | war/advanced_battle.py:283-285 | The aura loop over the roster sets exactly those flags. |
| Battle.World.Heal | war/advanced_battle.py:287-293 | Each wounded teammate within 2 tiles gains 1 hp, never above max_hp. Everyone else is unchanged. |
| Battle.World.Mend | war/advanced_battle.py:289-291 | The healing loop over the roster applies exactly that change. |
| Battle.World.BarrierSpot | war/advanced_battle.py:297-302 | The scan picks the first shuffled direction whose neighbouring tile is on the board, open and free, and that tile is one step away. None means no direction qualifies. |
| Battle.World.PlaceBarrier | war/advanced_battle.py:295-305 | See the notes after this table. |
| Battle.World.RepairHq | war/advanced_battle.py:310-311 | An HQ within 2 of the unit gains 2 hp, capped at HQ_HP. Otherwise it is unchanged. |
| Battle.World.Repair | war/advanced_battle.py:307-312 | Each HQ (either team's) within 2 of the RepairBot gains 2 hp, capped at HQ_HP. |
| Battle.World.Advance | war/advanced_battle.py:265-279 | The unit moves at most `speed` tiles, only removes units, and ends on a non-wall tile no other unit occupies. |
| Battle.World.Round | war/advanced_battle.py:266-279 | The step is the answer of `bfs` as `Plans` states it. The unit stands on it with the fresh move delay, or stays put when there is no step. It only ever lands on a non-wall tile no other unit occupies. |
| Battle.World.Step | war/advanced_battle.py:267-276 | The move half of a round: the planned step as `Plans` states it, then the new tile, the fresh move delay and the forest slow-down. Without a step off the tile nothing changes. |
| Battle.World.PlanStep | war/advanced_battle.py:184 | `bfs` answers as `Plans` states: None on a goal, the own tile when no goal is reachable, and otherwise an in-bounds, non-wall 4-neighbour off the other units' tiles that starts a shortest walk. |
| Battle.World.Relocate | war/advanced_battle.py:273-275 | The unit stands on the step, with the fresh move delay and the forest rule applied. |
| Battle.World.Abilities | war/advanced_battle.py:281-316 | Exactly one ability runs, by unit type. Shieldbearer: the aura shields exactly the teammates within 2. Medic: once a second each wounded teammate within 2 gains 1 hp, capped, and the heal frame is recorded. BarrierEng: on every 300th frame the first walkable shuffled neighbour becomes a wall. RepairBot: once a second each HQ within 2 gains 2 hp, capped. The roster is unchanged. |
| Battle.World.Support | war/advanced_battle.py:281-293 | The Shieldbearer aura and the Medic heal, with the heal frame recorded only when the Medic heals. |
| Battle.World.Engineer | war/advanced_battle.py:295-312 | The Barrier Engineer wall on every 300th frame and the RepairBot HQ repair once a second. Only open tiles become walls, never the unit's own tile. |
| Battle.World.Update | war/advanced_battle.py:236-316 | See the notes after this table. |
| Battle.World.Aim | war/advanced_battle.py:249-262 | The target is the one `choose_target` picks (`Targets`: the first nearest seen enemy within 5, otherwise `decide_target`'s choice with the same draw). The goals are that unit's tile, or all four tiles of the target HQ. |
| Battle.World.TickAttack | war/advanced_battle.py:238-239 | The attack cooldown drops by one while positive. |
| Battle.World.Wait | war/advanced_battle.py:240-244 | A waiting unit counts its move delay down by one and then attacks exactly as `Attacked` describes for the roster it started with. |
| Battle.World.Pause | war/advanced_battle.py:238-244 | The attack cooldown ticks down, then the move delay counts down and the unit attacks with the ticked cooldown as `Attacked` describes. |
| Battle.World.SlowDown | war/advanced_battle.py:245-247 | A slowed unit only counts its slow-down off by one. |
| Battle.World.Act | war/advanced_battle.py:248-316 | The active branch moves at most `speed` tiles, onto a non-wall, unoccupied tile. It only adds walls and only removes units. |
| Battle.World.Pursue | war/advanced_battle.py:264-316 | The movement loop and then the ability: the unit moves at most `speed` tiles onto a non-wall, unoccupied tile, only walls are added and only units are removed. |
| Battle.World.SpawnCandidates | war/advanced_battle.py:429-439 | The candidate list is exactly `SpawnTiles`: the in-bounds, non-wall, unoccupied tiles at offsets -2..3 from the HQ corner, in scan order. |
| Battle.World.ScanColumn | war/advanced_battle.py:430-439 | One pass of the outer loop appends exactly the free tiles of its column, in row order. |
| Battle.World.ScanCell | war/advanced_battle.py:431-439 | One pass of the inner loop appends the tile exactly when it is in bounds, not a wall and unoccupied. |
| Battle.World.OccupiedTaken | war/advanced_battle.py:437 | `any(u.x == sx and u.y == sy for u in units)` holds exactly when the tile is one the roster stands on. |
| Battle.World.SpawnFor | war/advanced_battle.py:422-444 | See the notes after this table. |
| Battle.World.Draft | war/advanced_battle.py:424-444 | Spawning happens exactly when a type is affordable and a candidate tile exists. The unit's cost is within the budget. |
| Battle.World.Deploy | war/advanced_battle.py:428-443 | A unit appears on a candidate tile exactly when one exists. Otherwise the roster is unchanged. |
| Battle.World.Recruit | war/advanced_battle.py:442-443 | The new unit has the next uid, full hp and the given team, type and tile. It is appended to the roster, whose standing tiles gain exactly that tile. |
| Battle.World.Enlist | war/advanced_battle.py:443 | Appending a sound new unit keeps the world sound. |
| Battle.World.Economy | war/advanced_battle.py:421-445 | Off the 60th frames nothing changes. On them, `SpawnBlock`: blue and then red earn a resource and take their spawn turn as `SpawnOutcome` states, red against the roster that holds blue's new unit; the new units join the end of the roster and each team pays exactly for what spawned. |
| Battle.World.SpawnRound | war/advanced_battle.py:422-444 | Both spawn turns of a spawn frame, blue's first, with the outcomes, roster and resources of `SpawnBlock`. |
| Battle.World.RedTurn | war/advanced_battle.py:422-444 | Red's turn after blue's: red's spawn sees blue's new unit on the board, and blue's outcome still holds. |
| Battle.World.VisibleFor | war/advanced_battle.py:448-461 | `visible[team]` is exactly the in-bounds tiles within radius of a team unit (7 for a Spotter, otherwise 5) or within 5 of the team's HQ corner. |
| Battle.World.ResetShields | war/advanced_battle.py:464-465 | Every unit starts the frame unshielded. |
| Battle.World.Turn | war/advanced_battle.py:467-475 | `update` and the guarded death sweep for one unit: a unit at 0 hp or below is off the roster, its teammates stay, the world stays sound and only walls are added. |
| Battle.World.Sweep | war/advanced_battle.py:469-474 | The guarded death sweep removes the unit exactly when it is at 0 hp or below. On a sound world it never removes anything: every roster unit has hp above 0, and `attack` already removed any unit it killed. |
| Battle.World.Winners | war/advanced_battle.py:478-480 | A team is reported as winner exactly when the other team's HQ is at 0 hp or below. |
| Battle.World.Frame | war/advanced_battle.py:418-485 | A whole frame keeps the world sound and only adds walls. It reports exactly the teams whose enemy HQ has fallen. |
| Battle.World.Survey | war/advanced_battle.py:448-465 | Both teams' visibility sets are exactly `Sees`, and every unit is unshielded. |
| Battle.World.UpdateAll | war/advanced_battle.py:467-475 | Updating the roster copy with the death sweep keeps the world sound, only removes units and only adds walls. |
| Territory.StepTile | war/console_battle.py:222-247 | See the notes after this table. |
| Territory.BlankOk | war/console_battle.py:161-164 | The initial tile state satisfies the tile invariant. |
| Territory.StepTileOk | war/console_battle.py:222-247 | A step keeps the tile invariant: a capture team exactly while there is progress, and a vacate timer below its threshold that is zero when unowned. |
| Territory.StepTileOwner | war/console_battle.py:234-247 | The owner only changes to the occupying team, or to None on an empty tile. |
| Territory.StepTileCapture | war/console_battle.py:228-236 | On an occupied tile, progress counts up for the same team or restarts at 1 for a new one. The tile becomes the team's once progress reaches 30, so a newly arrived team never takes it at once. |
| Territory.HoldCaptures | war/console_battle.py:228-236 | Occupying a tile continuously from zero progress captures it on exactly the 30th frame, not before. |
| Territory.LeaveReleases | war/console_battle.py:242-247 | An owned tile left empty is lost exactly when the vacate timer reaches 100, and the timer is then cleared. |
| Console.HqPos | war/console_battle.py:173 | Each HQ tile lies on the map. |
| Console.HqOwner | war/console_battle.py:166-168 | Exactly the two HQ tiles have a permanent owner, their own team. |
| Console.StepToward | war/console_battle.py:93-103 | The clamped step stays on the map, moves at most one per axis, and closes the distance by one for each differing axis. |
| Console.Unit.constructor | war/console_battle.py:61-76 | A new unit has base hp 100, damage 10, the drawn move cooldown and no kills, xp or elite status. |
| Console.Unit.BecomeElite | war/console_battle.py:125-133 | See the notes after this table. |
| Console.Unit.AttemptMove | war/console_battle.py:81-104 | A running cooldown only counts down. With no enemy nothing happens. Otherwise the unit steps toward the first nearest enemy and draws a fresh cooldown. |
| Console.EnemyTiles | war/console_battle.py:85 | The enemy list is empty exactly when every unit is on the mover's team. |
| Console.EnemyTilesMembers | war/console_battle.py:85 | A tile is an enemy tile exactly when an enemy unit stands there. |
| Console.FirstOccupantIsFirst | war/console_battle.py:212-225 | `units_here[0].team` is the team of the first roster unit on the tile, and an empty tile has none. |
| Console.FirstOccupantSnoc | war/console_battle.py:213-214 | Appending a unit to the roster only sets the occupant of a tile nobody held. |
| Console.Raiders | war/console_battle.py:265-268 | The HQ check sees each unit's tile, team and damage in roster order. |
| Console.RaidOverMeansFallen | war/console_battle.py:271-272 | A reported game over means some HQ is at 0 hp or below. |
| Console.RaidWithoutFall | war/console_battle.py:265-273 | Without a game over, each HQ loses exactly the total damage of the enemies on it, and living HQs stay alive. |
| Console.RaidNeverHeals | war/console_battle.py:265-268 | A raid never raises an HQ's hp. |
| Console.HqWinnerBeatFallenHq | war/console_battle.py:379-381 | After a game over, the announced winner's enemy HQ has fallen. |
| Console.CountRowBound | war/console_battle.py:254-257 | The two teams' owned counts in a row add up to at most its width. |
| Console.CountRowsBound | war/console_battle.py:254-257 | The two teams' owned counts add up to at most the map size. |
| Console.CountRowHas | war/console_battle.py:256-257 | An owned tile is counted for its row. |
| Console.CountRowsHas | war/console_battle.py:256-257 | An owned tile is counted for the map. |
| Console.FirstVictim | war/console_battle.py:107-108 | The index `attempt_attack` hits is the first enemy on the attacker's tile, and None means there is none. |
| Console.CountTeam | war/console_battle.py:411-412 | A team's count is zero exactly when it has no unit. |
| Console.RosterWinnerFields | war/console_battle.py:411-415 | The game continues exactly while both teams have units, and a declared winner fields the whole roster. |
| Console.Income | war/console_battle.py:365-370 | One resource is earned, and 3 are paid whenever 3 are available. The balance never goes negative. |
| Console.FirstFree | war/console_battle.py:181-193 | The index `spawn_unit` settles on is the first drawn tile not taken, and None means all are taken. |
| Console.World.constructor | war/console_battle.py:161-177 | All tiles start blank except the HQ tiles, which are owned by their teams. Each team starts with 10 resources, a 300 hp HQ and no kills. |
| Console.World.UpdateControlMap | war/console_battle.py:209-247 | Every tile takes one automaton step driven by its first occupant, except the two HQ tiles, which keep their owners. The map invariant holds. |
| Console.World.Occupants | war/console_battle.py:211-214 | The lookup maps each occupied tile to the team of its first unit. |
| Console.World.UpdateRow | war/console_battle.py:216-247 | One row of tiles takes its step. Other rows are unchanged. |
| Console.World.UpdateTile | war/console_battle.py:218-247 | One tile takes `StepTile`. Every other tile is unchanged. |
| Console.World.OwnedBounds | war/console_battle.py:166-168 | Each team owns at least its HQ tile, and together they own at most the map. |
| Console.World.AwardControlResources | war/console_battle.py:249-259 | Off the 50th frames, nothing changes. On them, each team gains exactly its count of owned tiles. |
| Console.World.CheckHqStatus | war/console_battle.py:261-273 | Off the 10th frames, nothing changes and the game continues. On them, hp and the game-over flag follow the roster-order raid. |
| Console.World.AttemptAttack | war/console_battle.py:106-123 | See the notes after this table. |
| Console.World.Hit | war/console_battle.py:108-122 | The hit, the removal of a killed target, the kill tally and the attacker's promotion. |
| Console.World.Reward | war/console_battle.py:119-122 | A kill adds one kill and one xp, with promotion at 3 xp for a non-elite unit. |
| Console.World.Bury | war/console_battle.py:115 | The removal drops exactly that unit and keeps the roster repeat-free. |
| Console.World.Move | war/console_battle.py:373 | A move keeps the world sound and changes each coordinate by at most one. |
| Console.World.SpawnUnit | war/console_battle.py:179-193 | A fresh unit with the next id and base stats appears on the first drawn tile nobody stands on (`FirstFree`), and nobody spawns when all are taken. The standing tiles gain exactly that tile. |
| Console.World.Recruit | war/console_battle.py:191 | A fresh unit with the next id, base hp and damage and the drawn cooldown joins the end of the roster on the given tile. |
| Console.World.OccupiedStanding | war/console_battle.py:189 | The occupancy test holds exactly when some roster unit stands on the tile. |
| Console.World.Enlist | war/console_battle.py:191 | Appending a unit on the map keeps the world sound. |
| Console.World.SpawnTurn | war/console_battle.py:366-370 | The team's resources become `Income` of their old value. A unit spawns exactly when 3 are available and some drawn tile is free, and then it is the team's, on the first free drawn tile, with the next id and base stats (`SpawnOutcome`). |
| Console.World.Economy | war/console_battle.py:365-370 | Off the spawn frames nothing changes. On every 10th frame except frame 0, blue and then red take their turn as `SpawnOutcome` states, red against the roster that holds blue's new unit, and the new units join the end of the roster. |
| Console.World.UnitsAct | war/console_battle.py:372-374 | The unit loop keeps the world sound and only removes units. |
| Console.World.Frame | war/console_battle.py:363-418 | See the notes after this table. |
| Console.World.Act | war/console_battle.py:365-374 | The spawn block and the unit loop: resources are the spawn block's, the map and HQ hp are untouched, and new units are fresh. |
| Console.World.Close | war/console_battle.py:377-416 | The systems and checks that end a frame: the map step, the income, the raid and the winner, as in the `Frame` notes. |
| Console.World.Systems | war/console_battle.py:377-378 | Every non-HQ tile takes one automaton step, then each team gains its owned tiles on every 50th frame. |
| Console.World.Judge | war/console_battle.py:379-416 | On every 10th frame the raiders strike in roster order (`HqRaid`). The winner is the other team of a fallen HQ, otherwise the team left with units (`RosterWinner`). |

Notes on the longer contracts:

- **Battle.World.Attack.**
  - With the attack cooldown running, nothing changes.
  - Otherwise the first adjacent enemy loses its effective damage and the cooldown becomes 5. The target leaves the roster if it drops to 0 hp or below. Nobody else is hurt.
  - With no adjacent enemy, the siege rule applies to the counter and the enemy HQ.
- **Battle.World.DecideTarget.** The choice follows the priority order:
  1. the enemy the draw picks among the seen enemies within 4 of the own HQ (`close_enemies[pick % len(close_enemies)]`);
  2. otherwise, in a team under 3 whose members are all more than 4 away, the nearest other member;
  3. otherwise, with at least 5 members, the enemy HQ;
  4. otherwise the own HQ.
- **Battle.World.PlaceBarrier.** The first tile, in the shuffled direction order, that is on the board, open and free becomes a wall. With none, the board is unchanged.
- **Battle.World.Update.**
  - A waiting unit stays in place, counts its move delay down and does not change the board. After the attack cooldown ticks, it attacks as `Attacked` describes.
  - A slowed unit stays in place and changes nothing else.
  - Otherwise the unit moves at most `speed` tiles, onto a non-wall tile no other unit occupies.
  - Other units never move, and only walls are added.
- **Battle.World.SpawnFor.**
  - Resources become the old value + 1 - cost.
  - A unit spawns exactly when a type is affordable and a candidate tile exists.
  - The unit is fresh and on a candidate tile, and its cost is within the budget.
  - With no spawn, nothing is paid.
- **Territory.StepTile.**
  - On an occupied tile, the vacate timer resets and the capture team becomes the occupant's team.
  - On an empty tile, capture progress is cleared.
  - An empty unowned tile keeps its vacate timer.
- **Console.Unit.BecomeElite.**
  - The unit becomes elite with max_hp 150 and 50 more hp (not clamped) and damage 15.
  - The move cooldown drops by one but not below 2.
- **Console.World.AttemptAttack.**
  - With no enemy on the tile, nothing changes.
  - Otherwise the first one loses `dmg`.
  - A kill removes it, adds to the team's kills and to the attacker's kills and xp, and promotes the attacker once at 3 xp.
- **Console.World.Frame.**
  - Every tile except the two HQ tiles takes one automaton step, driven by the first occupant on the roster the unit loop left.
  - Resources are the spawn block's (`Income` per team on a spawn frame). On every 50th frame each team then gains one per owned tile.
  - On every 10th frame the raiders strike in roster order (`HqRaid`). Otherwise HQ hp is unchanged.
  - The winner is exactly `RosterWinner` while both HQs stand, and otherwise the other team of the fallen HQ.
  - No winner means both HQs stand and both teams have units.

Where the code and its written description differ, the model follows the code:

- **Console spawn cost.** The console economy (war/console_battle.py:368-370) takes 3 resources whenever 3 are available, even when `spawn_unit` found no free tile. `Console.Income` states exactly that. The pygame engine only pays when a unit actually spawns.

## Left out

- Rendering, UI and sound: pygame drawing, floating texts, the HUD, the console renderer, colours, trails, flashes, unit symbols and beeps. None of it changes engine state.
- The console fog block (war/console_battle.py:386-404). It is switched off (`FOG_ENABLED = False`). Even when on, every unit sees its own tile, so no unit would be hidden and the roster order would not change.
- CSV event logging (`log_event`), `print` diagnostics and the console attack log: these are output only.
- Random terrain generation in both engines: the terrain is an input. `reachable`, which the generator calls, is modelled.
- The random number generator: every draw is a parameter with the source's range.
- Wall-clock pacing (`clock.tick`, `time.sleep`, the 3-second HQ-win delay) and keyboard or window exit: these have no effect on the rules.
- The initial spawn loops (war/advanced_battle.py:391-400, war/console_battle.py:195-198): they only repeat random placements at setup. The console loop is repeated calls to `Console.World.SpawnUnit`, which is modelled.
- `main.py`, which only chooses which engine to import.
- Floats:
  - `dmg_reduction` takes only the values 0.0 and 0.5, so it is a `shielded` flag;
  - `int(dmg * 0.5)` is `dmg / 2` for non-negative damage;
  - health-bar ratios are rendering only.
- `barrier_cd` (war/advanced_battle.py:167): it is set and never read.
- `self.cooldown` is never assigned in `Unit.__init__` (war/advanced_battle.py:150-176). Its only assignment is in `move_to`. So the first `update` that reaches line 245 raises `AttributeError` for any unit that has not yet entered a forest tile. The model gives the field the evident intended start value of 0.
- The console `max_hp` exists only after `become_elite` and is never read. It is an `Option` that is `None` until promotion.
- `unit_lookup` keeps every unit on a tile, but only `units_here[0].team` is read. `Console.World.Occupants` keeps just that team.
- The pygame spawn turn adds the resource first and subtracts the cost later. `Battle.World.SpawnFor` writes the final balance once, which gives the same end state.
- The frame counter is a parameter: the caller advances it (war/advanced_battle.py:418).
- Battle.World.Advance: states the movement bound and the safety of the destination tile, not the exact path each round takes; `Battle.World.PlanStep` and `Pathfinder.Bfs` state the step itself.
- Battle.World.Act: states the movement, board and roster bounds, not the full new state. `Battle.World.Aim` states the target and `Battle.World.Abilities` the support effects exactly. The movement loop (`Battle.World.Advance`) keeps only bounds.
- Battle.World.Update: for the active branch, states the bounds of `Act` rather than the full new state.
- Battle.World.Frame: states the invariants, the walls-only change to the board and the winner report, not the full new state of every unit.
- Battle.World.UpdateAll: states the invariants and the roster and board bounds, not each unit's new state.
- Console.World.UnitsAct: states the invariants and that the roster only shrinks; `Console.Unit.AttemptMove` and `Console.World.AttemptAttack` state each unit's step.
- Console.World.Move: states only the one-step bound; `Console.Unit.AttemptMove` states the exact move.
- Battle.World.Round: states the planned step and the move exactly, but the attack that follows only through the roster and HQ bounds. `Battle.World.Attack` states the attack exactly. Round does not repeat it because the attack reads the tile the unit has just moved to.
- Battle.World.Pursue: states the bounds of the movement loop and the ability, not the full new state. `Battle.World.Round` and `Battle.World.Abilities` state each part.
- Battle.World.Turn: states the death sweep and `update`'s bounds, not `update`'s per-branch contract, which `Battle.World.Update` states. The sweep never removes anything. `attack` already removes a unit it kills (war/advanced_battle.py:342-343), so a dead unit is never in `units` at line 471. A unit cannot lose hp during its own `update` either. `Battle.World.Sweep` proves that the roster is unchanged.
- The blocked-step guard of the movement loop (war/advanced_battle.py:268-271) never fires. `bfs` already refuses other units' tiles as a first step, and the step is never the unit's own tile. `Battle.World.Step` states the move without the guard.
- Console.World.Act: states the resources and the roster growth, not the spawn outcome. Units move in the unit loop after spawning, so `Console.World.Economy` states the outcome at the point it happens.
- Console.World.Frame: states the spawn block only through the resources. `Console.World.Economy` states the spawns themselves.
