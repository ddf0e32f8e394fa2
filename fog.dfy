/**
 * The fog-of-war visibility pass of the pygame engine (the block that builds
 * `visible[team]` each frame): every tile within Manhattan radius of a
 * friendly vision source is visible to that team.
 */
module Fog {
  import opened Grid

  /** A vision source: a unit position or an HQ corner, with its radius. */
  datatype Source = Source(origin: Pos, radius: nat)

  predicate Covers(src: Source, t: Pos) {
    Manhattan(src.origin, t) <= src.radius
  }

  /** Some source among the first `k` covers `t`. */
  ghost predicate CoveredBy(sources: seq<Source>, k: nat, t: Pos)
    requires k <= |sources|
  {
    exists j :: 0 <= j < k && Covers(sources[j], t)
  }

  /**
   * The set the nested loops build: for every source, every in-bounds tile
   * of the square around it whose Manhattan distance is within the radius.
   */
  method Visible(sources: seq<Source>) returns (vis: set<Pos>)
    ensures forall t :: t in vis <==> InBounds(t) && CoveredBy(sources, |sources|, t)
  {
    vis := {};
    var i := 0;
    while i < |sources|
      invariant 0 <= i <= |sources|
      invariant forall t :: t in vis <==> InBounds(t) && CoveredBy(sources, i, t)
    {
      var src := sources[i];
      var o, r := src.origin, src.radius;
      var x := o.x - r;
      while x < o.x + r + 1
        invariant o.x - r <= x <= o.x + r + 1
        invariant forall t :: t in vis <==>
          InBounds(t) && (CoveredBy(sources, i, t) || (Covers(src, t) && t.x < x))
      {
        var y := o.y - r;
        while y < o.y + r + 1
          invariant o.y - r <= y <= o.y + r + 1
          invariant forall t :: t in vis <==>
            InBounds(t) && (CoveredBy(sources, i, t) || (Covers(src, t) && (t.x < x || (t.x == x && t.y < y))))
        {
          if InBounds(Pos(x, y)) && Manhattan(o, Pos(x, y)) <= r {
            vis := vis + {Pos(x, y)};
          }
          y := y + 1;
        }
        x := x + 1;
      }
      assert forall t :: Covers(src, t) ==> t.x < x;
      assert forall t :: CoveredBy(sources, i + 1, t) <==> CoveredBy(sources, i, t) || Covers(src, t);
      i := i + 1;
    }
  }
}
