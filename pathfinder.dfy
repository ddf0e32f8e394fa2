/**
 * The breadth-first searches of the pygame engine: `Unit.bfs`, the pathfinder
 * every unit calls each movement step, and `reachable`, the connectivity test
 * the terrain generator runs between the two HQ zones.
 */
module Pathfinder {
  import opened Teams
  import opened Grid

  function Last(p: seq<Pos>): Pos
    requires |p| > 0
  {
    p[|p| - 1]
  }

  /**
   * The graph a search walks. From tile `u` one may step to an in-bounds
   * 4-neighbour `v` that is not WALL; a tile in `blocked` (occupied by another
   * unit) is refused only as a step out of `start`, never further along.
   */
  datatype Search = Search(board: Board, start: Pos, blocked: set<Pos>) {

    predicate Edge(u: Pos, v: Pos) {
      && BoardOk(board)
      && InBounds(v) && Manhattan(u, v) == 1
      && At(board, v) != Wall
      && !(u == start && v in blocked)
    }

    /** `p` is a walk from `start` along edges; it has |p| - 1 steps. */
    ghost predicate IsPath(p: seq<Pos>) {
      && |p| >= 1
      && p[0] == start
      && forall i :: 0 <= i < |p| - 1 ==> Edge(p[i], p[i + 1])
    }

    ghost predicate Reaches(goals: set<Pos>) {
      exists p :: IsPath(p) && Last(p) in goals
    }

    /** `s` is the second tile of a shortest walk from `start` into `goals`. */
    ghost predicate FirstStepOfShortest(goals: set<Pos>, s: Pos) {
      exists p ::
        && IsPath(p) && Last(p) in goals && |p| >= 2 && p[1] == s
        && forall p' :: IsPath(p') && Last(p') in goals ==> |p| <= |p'|
    }
  }

  /** Every tile of the board; the searches only ever add tiles from here. */
  ghost const ALL_TILES: set<Pos> := set x, y | 0 <= x < COLS && 0 <= y < ROWS :: Pos(x, y)

  lemma InAllTiles(p: Pos)
    requires InBounds(p)
    ensures p in ALL_TILES
  {
    assert p == Pos(p.x, p.y);
  }

  lemma AddTileShrinks(m: map<Pos, Option<Pos>>, n: Pos, v: Option<Pos>)
    requires InBounds(n) && n !in m
    ensures |ALL_TILES - m[n := v].Keys| < |ALL_TILES - m.Keys|
  {
    InAllTiles(n);
    assert m[n := v].Keys == m.Keys + {n};
    assert ALL_TILES - m.Keys == (ALL_TILES - (m.Keys + {n})) + {n};
  }

  // ----- The search tree `came` with its ghost distances -----

  /** `came` is a tree rooted at `start` whose parent links are edges and whose depths are `dist`. */
  ghost predicate Tree(s: Search, came: map<Pos, Option<Pos>>, dist: map<Pos, nat>) {
    && came.Keys == dist.Keys
    && s.start in came && came[s.start] == None && dist[s.start] == 0
    && forall v {:trigger came[v]} :: v in came && v != s.start ==>
         && came[v].Some? && came[v].value in came
         && s.Edge(came[v].value, v)
         && dist[v] == dist[came[v].value] + 1
  }

  /** The tree path from `start` down to `v`. */
  ghost function Chain(s: Search, came: map<Pos, Option<Pos>>, dist: map<Pos, nat>, v: Pos): (p: seq<Pos>)
    requires Tree(s, came, dist) && v in came
    ensures |p| == dist[v] + 1 && s.IsPath(p) && Last(p) == v
    decreases dist[v]
  {
    if v == s.start then [v]
    else
      var u := came[v].value;
      var p := Chain(s, came, dist, u) + [v];
      assert forall i :: 0 <= i < |p| - 2 ==> p[i] == Chain(s, came, dist, u)[i];
      p
  }

  lemma {:induction false} ChainPrefix(s: Search, came: map<Pos, Option<Pos>>, dist: map<Pos, nat>, v: Pos, k: nat)
    requires Tree(s, came, dist) && v in came && k <= dist[v]
    ensures Chain(s, came, dist, v)[k] in came
    ensures Chain(s, came, dist, v)[..k + 1] == Chain(s, came, dist, Chain(s, came, dist, v)[k])
    decreases dist[v]
  {
    if k < dist[v] {
      var u := came[v].value;
      assert Chain(s, came, dist, v) == Chain(s, came, dist, u) + [v];
      ChainPrefix(s, came, dist, u, k);
      assert Chain(s, came, dist, v)[..k + 1] == Chain(s, came, dist, u)[..k + 1];
    }
  }

  // ----- Frontier facts -----

  /** Queue entries are in the tree, pairwise distinct, and their depths grow by at most one along it. */
  ghost predicate Layered(q: seq<Pos>, came: map<Pos, Option<Pos>>, dist: map<Pos, nat>) {
    && came.Keys == dist.Keys
    && (forall v :: v in q ==> v in came)
    && (forall i, j :: 0 <= i < j < |q| ==> q[i] != q[j])
    && (forall i, j :: 0 <= i < j < |q| ==> dist[q[i]] <= dist[q[j]] <= dist[q[i]] + 1)
  }

  /** A tile that has left the queue has all its edge successors in the tree, at most one level deeper. */
  ghost predicate Closed(s: Search, q: seq<Pos>, came: map<Pos, Option<Pos>>, dist: map<Pos, nat>) {
    && came.Keys == dist.Keys
    && forall u, w {:trigger s.Edge(u, w)} :: u in came && u !in q && s.Edge(u, w) ==> w in came && dist[w] <= dist[u] + 1
  }

  ghost predicate BfsInv(s: Search, goals: set<Pos>, q: seq<Pos>, came: map<Pos, Option<Pos>>, dist: map<Pos, nat>) {
    && BoardOk(s.board)
    && Tree(s, came, dist)
    && Layered(q, came, dist)
    && Closed(s, q, came, dist)
    && (forall u :: u in came && u !in q ==> u !in goals)
    && (|q| > 0 ==> forall v :: v in came ==> dist[v] <= dist[q[0]] + 1)
    && (s.start in goals ==> q == [s.start])
    && (forall v :: v in came && v != s.start ==> InBounds(v))
  }

  /** Every walk of at most the front's depth ends at a tile already in the tree, no deeper than the walk. */
  lemma {:induction false} FrontierCovers(s: Search, goals: set<Pos>, q: seq<Pos>,
                                          came: map<Pos, Option<Pos>>, dist: map<Pos, nat>, p: seq<Pos>)
    requires BfsInv(s, goals, q, came, dist)
    requires s.IsPath(p) && (|q| == 0 || |p| - 1 <= dist[q[0]])
    ensures Last(p) in came && dist[Last(p)] <= |p| - 1
    decreases |p|
  {
    if |p| > 1 {
      var p' := p[..|p| - 1];
      assert s.IsPath(p') by {
        forall i | 0 <= i < |p'| - 1 ensures s.Edge(p'[i], p'[i + 1]) {
          assert s.Edge(p[i], p[i + 1]);
        }
      }
      FrontierCovers(s, goals, q, came, dist, p');
      var u := Last(p');
      assert s.Edge(u, Last(p)) by { assert s.Edge(p[|p| - 2], p[|p| - 1]); }
    }
  }

  /** When the front tile is a goal, no walk reaches a goal in fewer steps than its depth. */
  lemma FrontIsNearest(s: Search, goals: set<Pos>, q: seq<Pos>,
                       came: map<Pos, Option<Pos>>, dist: map<Pos, nat>)
    requires BfsInv(s, goals, q, came, dist) && |q| > 0
    ensures forall p :: s.IsPath(p) && Last(p) in goals ==> dist[q[0]] + 1 <= |p|
  {
    forall p | s.IsPath(p) && Last(p) in goals ensures dist[q[0]] + 1 <= |p| {
      if |p| - 1 < dist[q[0]] {
        FrontierCovers(s, goals, q, came, dist, p);
      }
    }
  }

  /** When the queue is empty no walk reaches a goal. */
  lemma ExhaustedMeansUnreachable(s: Search, goals: set<Pos>, came: map<Pos, Option<Pos>>, dist: map<Pos, nat>)
    requires BfsInv(s, goals, [], came, dist)
    ensures !s.Reaches(goals)
  {
    if s.Reaches(goals) {
      var p :| s.IsPath(p) && Last(p) in goals;
      FrontierCovers(s, goals, [], came, dist, p);
    }
  }

  /** The state part-way through expanding `cur`: its first `k` neighbours have been handled. */
  ghost predicate ExpandInv(s: Search, goals: set<Pos>, q0: seq<Pos>, came0: map<Pos, Option<Pos>>,
                            cur: Pos, d: nat, nbrs: seq<Pos>, k: nat,
                            q: seq<Pos>, came: map<Pos, Option<Pos>>, dist: map<Pos, nat>) {
    && k <= |nbrs| && |q0| > 0 && BoardOk(s.board)
    && Tree(s, came, dist) && Layered(q, came, dist)
    && came0.Keys <= came.Keys
    && (came.Keys == came0.Keys ==> q == q0[1..])
    && cur in came && dist[cur] == d && cur !in q
    && (forall v :: v in q ==> d <= dist[v] <= d + 1)
    && (forall v :: v in came ==> dist[v] <= d + 1)
    && (forall u, w {:trigger s.Edge(u, w)} :: u in came && u !in q && u != cur && s.Edge(u, w) ==> w in came && dist[w] <= dist[u] + 1)
    && (forall w {:trigger s.Edge(cur, w)} :: w in nbrs[..k] && s.Edge(cur, w) ==> w in came && dist[w] <= d + 1)
    && (forall u :: u in came && u !in q ==> u !in goals)
    && (forall v :: v in came && v != s.start ==> InBounds(v))
  }

  lemma ExpandStart(s: Search, goals: set<Pos>, q0: seq<Pos>, came0: map<Pos, Option<Pos>>, dist0: map<Pos, nat>)
    requires BfsInv(s, goals, q0, came0, dist0) && |q0| > 0 && q0[0] !in goals
    ensures ExpandInv(s, goals, q0, came0, q0[0], dist0[q0[0]], Neighbors(q0[0]), 0, q0[1..], came0, dist0)
  {
    var q := q0[1..];
    LayeredTail(q0, came0, dist0);
    assert forall v :: v in q0 && v != q0[0] ==> v in q by {
      forall v | v in q0 && v != q0[0] ensures v in q {
        var j :| 0 <= j < |q0| && q0[j] == v;
        assert q[j - 1] == v;
      }
    }
  }

  /** Popping the front of a layered queue leaves a layered queue within one level below the front. */
  lemma LayeredTail(q: seq<Pos>, came: map<Pos, Option<Pos>>, dist: map<Pos, nat>)
    requires Layered(q, came, dist) && |q| > 0
    ensures Layered(q[1..], came, dist) && q[0] !in q[1..]
    ensures forall v :: v in q[1..] ==> dist[q[0]] <= dist[v] <= dist[q[0]] + 1
  {
    var t := q[1..];
    forall v | v in t ensures v != q[0] && dist[q[0]] <= dist[v] <= dist[q[0]] + 1 {
      var j :| 0 <= j < |t| && t[j] == v;
      assert q[j + 1] == v;
    }
    forall i, j | 0 <= i < j < |t| ensures t[i] != t[j] && dist[t[i]] <= dist[t[j]] <= dist[t[i]] + 1 {
      assert t[i] == q[i + 1] && t[j] == q[j + 1];
    }
  }

  /** Hanging a new tile `n` under `cur`, one level deeper, keeps the tree. */
  lemma TreeAdd(s: Search, came: map<Pos, Option<Pos>>, dist: map<Pos, nat>, cur: Pos, n: Pos, d: nat)
    requires Tree(s, came, dist) && cur in came && dist[cur] == d && n !in came && s.Edge(cur, n)
    ensures Tree(s, came[n := Some(cur)], dist[n := d + 1])
  {
    var came', dist' := came[n := Some(cur)], dist[n := d + 1];
    forall v | v in came' && v != s.start
      ensures came'[v].Some? && came'[v].value in came' && s.Edge(came'[v].value, v)
      ensures dist'[v] == dist'[came'[v].value] + 1
    {
      if v != n {
        assert came[v] == came'[v];
        assert came[v].value != n;
      }
    }
  }

  /** Queueing a new tile one level below the front keeps the queue layered. */
  lemma LayeredAdd(q: seq<Pos>, came: map<Pos, Option<Pos>>, dist: map<Pos, nat>, cur: Pos, n: Pos, d: nat)
    requires Layered(q, came, dist) && n !in came && cur in came
    requires forall v :: v in q ==> d <= dist[v] <= d + 1
    ensures Layered(q + [n], came[n := Some(cur)], dist[n := d + 1])
  {
    var q', came', dist' := q + [n], came[n := Some(cur)], dist[n := d + 1];
    forall i, j | 0 <= i < j < |q'| ensures q'[i] != q'[j] && dist'[q'[i]] <= dist'[q'[j]] <= dist'[q'[i]] + 1 {
      if j == |q| {
        assert q'[i] == q[i] && q[i] in q;
      } else {
        assert q'[i] == q[i] && q'[j] == q[j];
      }
    }
  }

  /** The neighbours handled after step `k` are those handled before it and `nbrs[k]`. */
  lemma HandledNext(nbrs: seq<Pos>, k: nat)
    requires k < |nbrs|
    ensures forall w :: w in nbrs[..k + 1] <==> w in nbrs[..k] || w == nbrs[k]
  {
    assert nbrs[..k + 1] == nbrs[..k] + [nbrs[k]];
  }

  lemma ExpandAdd(s: Search, goals: set<Pos>, q0: seq<Pos>, came0: map<Pos, Option<Pos>>,
                  cur: Pos, d: nat, nbrs: seq<Pos>, k: nat,
                  q: seq<Pos>, came: map<Pos, Option<Pos>>, dist: map<Pos, nat>)
    requires ExpandInv(s, goals, q0, came0, cur, d, nbrs, k, q, came, dist) && k < |nbrs|
    requires nbrs[k] !in came && s.Edge(cur, nbrs[k])
    ensures ExpandInv(s, goals, q0, came0, cur, d, nbrs, k + 1,
                      q + [nbrs[k]], came[nbrs[k] := Some(cur)], dist[nbrs[k] := d + 1])
  {
    var n := nbrs[k];
    var q', came', dist' := q + [n], came[n := Some(cur)], dist[n := d + 1];
    HandledNext(nbrs, k);
    TreeAdd(s, came, dist, cur, n, d);
    LayeredAdd(q, came, dist, cur, n, d);
    assert forall v :: v in q' ==> d <= dist'[v] <= d + 1;
    assert forall u, w :: u in came' && u !in q' && u != cur && s.Edge(u, w) ==> w in came' && dist'[w] <= dist'[u] + 1;
    assert forall w :: w in nbrs[..k + 1] && s.Edge(cur, w) ==> w in came' && dist'[w] <= d + 1;
    assert came0.Keys <= came'.Keys && came'.Keys != came0.Keys;
    assert n != cur && cur in came' && dist'[cur] == d && cur !in q';
    assert forall v :: v in came' ==> dist'[v] <= d + 1;
    assert forall u :: u in came' && u !in q' ==> u !in goals;
    assert forall v :: v in came' && v != s.start ==> InBounds(v);
    assert ExpandInv(s, goals, q0, came0, cur, d, nbrs, k + 1, q', came', dist');
  }

  lemma ExpandSkip(s: Search, goals: set<Pos>, q0: seq<Pos>, came0: map<Pos, Option<Pos>>,
                   cur: Pos, d: nat, nbrs: seq<Pos>, k: nat,
                   q: seq<Pos>, came: map<Pos, Option<Pos>>, dist: map<Pos, nat>)
    requires ExpandInv(s, goals, q0, came0, cur, d, nbrs, k, q, came, dist) && k < |nbrs|
    requires nbrs[k] in came || !s.Edge(cur, nbrs[k])
    ensures ExpandInv(s, goals, q0, came0, cur, d, nbrs, k + 1, q, came, dist)
  {
    HandledNext(nbrs, k);
  }

  lemma ExpandDone(s: Search, goals: set<Pos>, q0: seq<Pos>, came0: map<Pos, Option<Pos>>, dist0: map<Pos, nat>,
                   q: seq<Pos>, came: map<Pos, Option<Pos>>, dist: map<Pos, nat>)
    requires BfsInv(s, goals, q0, came0, dist0) && |q0| > 0 && q0[0] !in goals
    requires ExpandInv(s, goals, q0, came0, q0[0], dist0[q0[0]], Neighbors(q0[0]), |Neighbors(q0[0])|, q, came, dist)
    ensures BfsInv(s, goals, q, came, dist)
  {
    var nbrs := Neighbors(q0[0]);
    assert nbrs[..|nbrs|] == nbrs;
    if |q| > 0 {
      assert forall v :: v in came ==> dist[v] <= dist[q[0]] + 1;
    }
  }

  /** Pop the front tile and add its unseen open neighbours, in the order of `neighbors`. */
  method Expand(s: Search, goals: set<Pos>, q0: seq<Pos>, came0: map<Pos, Option<Pos>>, ghost dist0: map<Pos, nat>)
    returns (q: seq<Pos>, came: map<Pos, Option<Pos>>, ghost dist: map<Pos, nat>)
    requires BfsInv(s, goals, q0, came0, dist0) && |q0| > 0 && q0[0] !in goals
    ensures BfsInv(s, goals, q, came, dist)
    ensures |ALL_TILES - came.Keys| < |ALL_TILES - came0.Keys| || (came.Keys == came0.Keys && |q| < |q0|)
  {
    var cur := q0[0];
    ghost var d := dist0[cur];
    q, came, dist := q0[1..], came0, dist0;
    var nbrs := Neighbors(cur);
    ExpandStart(s, goals, q0, came0, dist0);
    var k := 0;
    while k < |nbrs|
      invariant ExpandInv(s, goals, q0, came0, cur, d, nbrs, k, q, came, dist)
      invariant came.Keys == came0.Keys || |ALL_TILES - came.Keys| < |ALL_TILES - came0.Keys|
    {
      var n := nbrs[k];
      if n !in came && At(s.board, n) != Wall && !(cur == s.start && n in s.blocked) {
        ExpandAdd(s, goals, q0, came0, cur, d, nbrs, k, q, came, dist);
        AddTileShrinks(came, n, Some(cur));
        came := came[n := Some(cur)];
        dist := dist[n := d + 1];
        q := q + [n];
      } else {
        ExpandSkip(s, goals, q0, came0, cur, d, nbrs, k, q, came, dist);
      }
      k := k + 1;
    }
    ExpandDone(s, goals, q0, came0, dist0, q, came, dist);
  }

  /** Follow parent links back from a goal to the tile right after the start (the inner `while` of `bfs`). */
  method FirstStep(s: Search, came: map<Pos, Option<Pos>>, ghost dist: map<Pos, nat>, goal: Pos) returns (cur: Pos)
    requires Tree(s, came, dist) && goal in came && goal != s.start
    ensures |Chain(s, came, dist, goal)| >= 2 && cur == Chain(s, came, dist, goal)[1]
    ensures s.Edge(s.start, cur)
  {
    cur := goal;
    ghost var path := Chain(s, came, dist, goal);
    ghost var j: nat := dist[cur];
    while came[cur].Some? && came[cur].value != s.start
      invariant cur in came && cur != s.start && j == dist[cur] && j >= 1 && path[j] == cur
      decreases j
    {
      var parent := came[cur].value;
      ChainPrefix(s, came, dist, goal, j);
      assert path[..j + 1] == Chain(s, came, dist, cur);
      assert Chain(s, came, dist, cur) == Chain(s, came, dist, parent) + [cur];
      assert path[j - 1] == path[..j + 1][j - 1] == Chain(s, came, dist, parent)[j - 1] == parent;
      cur := parent;
      j := j - 1;
    }
  }

  /** The search starts with the start tile alone, at depth 0, in the queue and the tree. */
  lemma BfsStart(s: Search, goals: set<Pos>)
    requires BoardOk(s.board)
    ensures BfsInv(s, goals, [s.start], map[s.start := None], map[s.start := 0])
  {
  }

  /** The front of the queue is a goal away from the start: the first step towards it is a first step of a shortest walk. */
  method Trace(s: Search, goals: set<Pos>, q: seq<Pos>, came: map<Pos, Option<Pos>>, ghost dist: map<Pos, nat>)
    returns (step: Pos)
    requires BfsInv(s, goals, q, came, dist) && |q| > 0 && q[0] in goals && q[0] != s.start
    ensures s.Edge(s.start, step) && s.FirstStepOfShortest(goals, step)
  {
    var goal := q[0];
    FrontIsNearest(s, goals, q, came, dist);
    ghost var path := Chain(s, came, dist, goal);
    step := FirstStep(s, came, dist, goal);
    assert s.IsPath(path) && Last(path) in goals && |path| >= 2 && path[1] == step;
  }

  /**
   * `Unit.bfs`: breadth-first search from `s.start` towards `goals`.
   * None when already on a goal; `Some(start)` exactly when no goal can be
   * reached; otherwise the first step of a shortest walk, which is an open,
   * unoccupied, in-bounds 4-neighbour of the start.
   */
  method Bfs(s: Search, goals: set<Pos>) returns (r: Option<Pos>)
    requires BoardOk(s.board)
    ensures r == None <==> s.start in goals
    ensures r == Some(s.start) <==> s.start !in goals && !s.Reaches(goals)
    ensures r.Some? && r.value != s.start ==>
      && r.value in Neighbors(s.start)
      && InBounds(r.value)
      && At(s.board, r.value) != Wall
      && r.value !in s.blocked
      && s.FirstStepOfShortest(goals, r.value)
  {
    var q: seq<Pos> := [s.start];
    var came: map<Pos, Option<Pos>> := map[s.start := None];
    ghost var dist: map<Pos, nat> := map[s.start := 0];
    BfsStart(s, goals);
    while |q| > 0
      invariant BfsInv(s, goals, q, came, dist)
      decreases |ALL_TILES - came.Keys|, |q|
    {
      var cur := q[0];
      if cur in goals {
        if cur == s.start {
          return None;
        }
        var step := Trace(s, goals, q, came, dist);
        return Some(step);
      }
      q, came, dist := Expand(s, goals, q, came, dist);
    }
    ExhaustedMeansUnreachable(s, goals, came, dist);
    return Some(s.start);
  }

  /** The two tentative HQ zones `reachable` connects: `(2, ROWS // 2)` and `(COLS - 3, ROWS // 2)`. */
  const ZONE_START: Pos := Pos(2, ROWS / 2)
  const ZONE_GOAL: Pos := Pos(COLS - 3, ROWS / 2)

  /** One neighbour `nbrs[k]` of `cur` in `reachable`: mark it seen and queue it when it is new and not WALL. */
  method VisitSeen(s: Search, goals: set<Pos>, q0: seq<Pos>, ghost came0: map<Pos, Option<Pos>>,
                   cur: Pos, ghost d: nat, nbrs: seq<Pos>, k: nat,
                   q: seq<Pos>, seen: set<Pos>, ghost came: map<Pos, Option<Pos>>, ghost dist: map<Pos, nat>)
    returns (q': seq<Pos>, seen': set<Pos>, ghost came': map<Pos, Option<Pos>>, ghost dist': map<Pos, nat>)
    requires s.blocked == {} && nbrs == Neighbors(cur) && k < |nbrs|
    requires ExpandInv(s, goals, q0, came0, cur, d, nbrs, k, q, came, dist) && seen == came.Keys
    ensures ExpandInv(s, goals, q0, came0, cur, d, nbrs, k + 1, q', came', dist') && seen' == came'.Keys
    ensures |ALL_TILES - came'.Keys| < |ALL_TILES - came.Keys| || (came' == came && q' == q)
  {
    var n := nbrs[k];
    if n !in seen && At(s.board, n) != Wall {
      ExpandAdd(s, goals, q0, came0, cur, d, nbrs, k, q, came, dist);
      AddTileShrinks(came, n, Some(cur));
      q', seen', came', dist' := q + [n], seen + {n}, came[n := Some(cur)], dist[n := d + 1];
    } else {
      ExpandSkip(s, goals, q0, came0, cur, d, nbrs, k, q, came, dist);
      q', seen', came', dist' := q, seen, came, dist;
    }
  }

  /** The expansion step of `reachable`: as in `bfs`, but the visited tiles are a set (`seen`). */
  method ExpandSeen(s: Search, goals: set<Pos>, q0: seq<Pos>, seen0: set<Pos>,
                    ghost came0: map<Pos, Option<Pos>>, ghost dist0: map<Pos, nat>)
    returns (q: seq<Pos>, seen: set<Pos>, ghost came: map<Pos, Option<Pos>>, ghost dist: map<Pos, nat>)
    requires s.blocked == {}
    requires BfsInv(s, goals, q0, came0, dist0) && seen0 == came0.Keys && |q0| > 0 && q0[0] !in goals
    ensures BfsInv(s, goals, q, came, dist) && seen == came.Keys
    ensures |ALL_TILES - came.Keys| < |ALL_TILES - came0.Keys| || (came.Keys == came0.Keys && |q| < |q0|)
  {
    var cur := q0[0];
    ghost var d := dist0[cur];
    q, seen, came, dist := q0[1..], seen0, came0, dist0;
    var nbrs := Neighbors(cur);
    ExpandStart(s, goals, q0, came0, dist0);
    var k := 0;
    while k < |nbrs|
      invariant k <= |nbrs|
      invariant ExpandInv(s, goals, q0, came0, cur, d, nbrs, k, q, came, dist) && seen == came.Keys
      invariant came.Keys == came0.Keys || |ALL_TILES - came.Keys| < |ALL_TILES - came0.Keys|
    {
      q, seen, came, dist := VisitSeen(s, goals, q0, came0, cur, d, nbrs, k, q, seen, came, dist);
      k := k + 1;
    }
    ExpandDone(s, goals, q0, came0, dist0, q, came, dist);
  }

  /**
   * `reachable(grid)`: true exactly when some walk over non-WALL tiles leads
   * from ZONE_START to ZONE_GOAL.
   */
  method Reachable(board: Board) returns (r: bool)
    requires BoardOk(board)
    ensures r <==> Search(board, ZONE_START, {}).Reaches({ZONE_GOAL})
  {
    var s := Search(board, ZONE_START, {});
    var q: seq<Pos> := [s.start];
    var seen: set<Pos> := {s.start};
    ghost var came: map<Pos, Option<Pos>> := map[s.start := None];
    ghost var dist: map<Pos, nat> := map[s.start := 0];
    BfsStart(s, {ZONE_GOAL});
    while |q| > 0
      invariant BfsInv(s, {ZONE_GOAL}, q, came, dist) && seen == came.Keys
      decreases |ALL_TILES - came.Keys|, |q|
    {
      var cur := q[0];
      if cur == ZONE_GOAL {
        ghost var path := Chain(s, came, dist, cur);
        assert s.IsPath(path) && Last(path) in {ZONE_GOAL};
        return true;
      }
      q, seen, came, dist := ExpandSeen(s, {ZONE_GOAL}, q, seen, came, dist);
    }
    ExhaustedMeansUnreachable(s, {ZONE_GOAL}, came, dist);
    return false;
  }
}
