/** `hood_pyramid` (hood.cpp, hood.h): one precomputed hood per pixel of every
    level of the input pyramid, looked up by level and coordinates. */
module HoodFields {
  import opened Options
  import opened Surfaces
  import opened Pyramids
  import opened Hoods

  /** One level of the field: its dimensions and `hoods[x][y]`. */
  datatype FieldLevel = FieldLevel(w: int, h: int, hoods: seq<seq<Hood>>)

  /** The table has the level's dimensions: w columns of h hoods each. */
  predicate Shaped(f: FieldLevel) {
    f.w >= 1 && f.h >= 1 && |f.hoods| == f.w &&
    forall x :: 0 <= x < f.w ==> |f.hoods[x]| == f.h
  }

  /** The whole field: one level per pyramid level, finest first. */
  datatype Field = Field(levels: seq<FieldLevel>)

  predicate WellShaped(f: Field) {
    |f.levels| >= 1 && forall i :: 0 <= i < |f.levels| ==> Shaped(f.levels[i])
  }

  /** The table of one level: the hood of every pixel (x, y) of that level. */
  function BuildLevel(p: Pyramid, i: nat, d: nat): (f: FieldLevel)
    requires i < |p.levels|
    ensures Shaped(f)
  {
    var s := p.levels[i];
    FieldLevel(s.w, s.h, seq(s.w, x => seq(s.h, y => HoodAt(p, i, x, y, d))))
  }

  /** `hood_pyramid(p)` for texton diameter d. */
  function BuildField(p: Pyramid, d: nat): (f: Field)
    requires |p.levels| >= 1
    ensures WellShaped(f) && |f.levels| == |p.levels|
  {
    Field(seq(|p.levels|, i requires 0 <= i < |p.levels| => BuildLevel(p, i, d)))
  }

  /** `getHood(level, x, y)`: an out-of-range level is served from the last
      level; coordinates outside that level give no hood (a null pointer). */
  function GetHood(f: Field, level: int, x: int, y: int): (r: Option<Hood>)
    requires WellShaped(f)
    ensures var l := f.levels[ClampLevel(level, |f.levels|)];
      r.Some? <==> 0 <= x < l.w && 0 <= y < l.h
  {
    var l := f.levels[ClampLevel(level, |f.levels|)];
    if x < 0 || y < 0 || x >= l.w || y >= l.h then None
    else Some(l.hoods[x][y])
  }

  // ---------------------------------------------------------------------
  // Properties
  // ---------------------------------------------------------------------

  /** Looking up a hood in a built field gives exactly the hood of that pixel
      at the clamped level, and nothing outside that level's bounds. */
  lemma GetHoodOfBuild(p: Pyramid, d: nat, level: int, x: int, y: int)
    requires |p.levels| >= 1
    ensures var k := ClampLevel(level, |p.levels|);
      var s := p.levels[k];
      GetHood(BuildField(p, d), level, x, y)
        == if 0 <= x < s.w && 0 <= y < s.h then Some(HoodAt(p, k, x, y, d)) else None
  {
  }

  /** All hoods of one level of a built field have the same length. */
  lemma BuiltHoodsHaveEqualLength(p: Pyramid, d: nat, level: int, x: int, y: int, x': int, y': int)
    requires |p.levels| >= 1
    requires GetHood(BuildField(p, d), level, x, y).Some?
    requires GetHood(BuildField(p, d), level, x', y').Some?
    ensures |GetHood(BuildField(p, d), level, x, y).value| == |GetHood(BuildField(p, d), level, x', y').value|
    ensures |GetHood(BuildField(p, d), level, x, y).value| == HoodLength(|p.levels|, ClampLevel(level, |p.levels|), d)
  {
    var k := ClampLevel(level, |p.levels|);
    GetHoodOfBuild(p, d, level, x, y);
    GetHoodOfBuild(p, d, level, x', y');
  }
}
