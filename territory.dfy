/**
 * The console engine's territory automaton, one tile at a time.
 *
 * Every frame each non-HQ tile of the console map is advanced by one step
 * that looks only at the tile's four counters (owner, capture team,
 * capture timer, vacate timer) and at the team of the first unit standing
 * on it. `StepTile` is that step; the grid-wide loop in the Console module
 * is proved to apply it to every tile.
 */
module Territory {
  import opened Teams

  /** Console refresh rate: frames per second. */
  const FPS: int := 10
  /** Frames of uninterrupted presence that capture a tile. */
  const CAPTURE_FRAMES: int := FPS * 3
  /** Frames without a friendly unit after which an owned tile is lost. */
  const VACATE_FRAMES: int := FPS * 10

  /** The four parallel per-tile entries of the control grids. */
  datatype TileState = TileState(
    owner: Option<Team>,
    captureTeam: Option<Team>,
    captureTimer: int,
    vacateTimer: int)

  /** Every tile starts unowned, with no capture progress. */
  const BLANK: TileState := TileState(None, None, 0, 0)

  /**
   * One frame of the automaton for a tile whose first occupant has team
   * `here` (`None` for an empty tile).
   */
  function StepTile(s: TileState, here: Option<Team>): (r: TileState)
    ensures here.Some? ==> r.vacateTimer == 0 && r.captureTeam == here
    ensures here.None? ==> r.captureTimer == 0 && r.captureTeam == None
    ensures here.None? && s.owner == None ==> r == s.(captureTimer := 0, captureTeam := None)
  {
    match here
    case Some(t) =>
      var timer := if s.captureTeam == here then s.captureTimer + 1 else 1;
      var owner := if timer >= CAPTURE_FRAMES then here else s.owner;
      TileState(owner, here, timer, 0)
    case None =>
      if s.owner.Some? then
        var vacate := s.vacateTimer + 1;
        if vacate >= VACATE_FRAMES then TileState(None, None, 0, 0)
        else TileState(s.owner, None, 0, vacate)
      else
        TileState(s.owner, None, 0, s.vacateTimer)
  }

  /**
   * The invariant every reachable tile keeps: a capture team exactly while
   * there is capture progress, and a vacate timer below its threshold that
   * is zero on unowned tiles.
   */
  predicate TileOk(s: TileState) {
    && s.captureTimer >= 0
    && (s.captureTeam.None? <==> s.captureTimer == 0)
    && 0 <= s.vacateTimer < VACATE_FRAMES
    && (s.owner.None? ==> s.vacateTimer == 0)
  }

  lemma BlankOk()
    ensures TileOk(BLANK)
  {
  }

  /** The step keeps the tile invariant. */
  lemma StepTileOk(s: TileState, here: Option<Team>)
    requires TileOk(s)
    ensures TileOk(StepTile(s, here))
  {
  }

  /** The owner changes only to the occupying team, or to `None` on an empty tile. */
  lemma StepTileOwner(s: TileState, here: Option<Team>)
    ensures var r := StepTile(s, here);
      r.owner != s.owner ==> (if here.Some? then r.owner == here else r.owner == None)
  {
  }

  /**
   * One occupied frame: the capture timer counts on while the same team
   * stays and restarts at 1 when another team arrives (so an interrupted
   * capture starts over); the occupant becomes owner once the timer reaches
   * CAPTURE_FRAMES, and the owner is otherwise untouched.
   */
  lemma StepTileCapture(s: TileState, t: Team)
    ensures var r := StepTile(s, Some(t));
      && r.captureTimer == (if s.captureTeam == Some(t) then s.captureTimer + 1 else 1)
      && r.owner == (if r.captureTimer >= CAPTURE_FRAMES then Some(t) else s.owner)
    ensures s.captureTeam != Some(t) ==> StepTile(s, Some(t)).owner == s.owner
  {
  }

  /** A tile occupied `n` frames in a row by team `t`. */
  function Hold(s: TileState, t: Team, n: nat): (r: TileState)
    decreases n
  {
    if n == 0 then s else StepTile(Hold(s, t, n - 1), Some(t))
  }

  /**
   * Continuous occupation by `t`, starting from zero progress or from
   * another team's progress: after `n` frames the capture timer is `n`, and
   * the owner is `t` from the `CAPTURE_FRAMES`-th frame on and untouched
   * before it.
   */
  lemma {:induction false} HoldCaptures(s: TileState, t: Team, n: nat)
    requires s.captureTimer == 0 || s.captureTeam != Some(t)
    ensures n > 0 ==> Hold(s, t, n).captureTeam == Some(t) && Hold(s, t, n).captureTimer == n
    ensures Hold(s, t, n).owner == if n >= CAPTURE_FRAMES then Some(t) else s.owner
  {
    if n > 0 {
      HoldCaptures(s, t, n - 1);
    }
  }

  /** A tile left empty `n` frames in a row. */
  function Leave(s: TileState, n: nat): (r: TileState)
    decreases n
  {
    if n == 0 then s else StepTile(Leave(s, n - 1), None)
  }

  /**
   * An owned tile left empty loses its owner exactly when the vacate timer
   * reaches `VACATE_FRAMES`, after which it stays unowned with a cleared timer.
   */
  lemma {:induction false} LeaveReleases(s: TileState, n: nat)
    requires s.owner.Some? && 0 <= s.vacateTimer < VACATE_FRAMES
    ensures var r := Leave(s, n);
      if s.vacateTimer + n >= VACATE_FRAMES then r.owner == None && r.vacateTimer == 0
      else r.owner == s.owner && r.vacateTimer == s.vacateTimer + n
  {
    if n > 0 {
      LeaveReleases(s, n - 1);
    }
  }
}
