/** The visiting order of the synthesis driver (`textureSynthesis`,
    tex_syn.cpp): levels from the coarsest down to level 0, each in raster
    order, rows top to bottom and pixels left to right. */
module Schedules {

  /** One write of the driver: pixel (x, y) of output level `level`. */
  datatype Visit = Visit(level: int, x: int, y: int)

  /** The first x pixels of row y of a level. */
  function RowPrefix(l: int, y: int, x: nat): (r: seq<Visit>)
    ensures |r| == x
  {
    seq(x, i requires 0 <= i < x => Visit(l, i, y))
  }

  /** Rows 0 .. h-1 of a w-wide level. */
  function LevelRows(l: int, w: nat, h: nat): seq<Visit> {
    if h == 0 then [] else LevelRows(l, w, h - 1) + RowPrefix(l, h - 1, w)
  }

  /** Levels hi-1 down to lo, each complete; `dims[i]` is level i's (w, h). */
  function Descending(dims: seq<(nat, nat)>, lo: nat): seq<Visit>
    requires lo <= |dims|
    decreases |dims| - lo
  {
    if lo == |dims| then [] else Descending(dims, lo + 1) + LevelRows(lo, dims[lo].0, dims[lo].1)
  }

  /** The whole schedule: every level, coarsest first. */
  function Schedule(dims: seq<(nat, nat)>): seq<Visit> {
    Descending(dims, 0)
  }

  /** Visit a strictly precedes visit b: a coarser level, or an earlier row,
      or an earlier pixel of the same row. */
  predicate Before(a: Visit, b: Visit) {
    a.level > b.level || (a.level == b.level && (a.y < b.y || (a.y == b.y && a.x < b.x)))
  }

  predicate StrictlyOrdered(s: seq<Visit>) {
    forall i, j :: 0 <= i < j < |s| ==> Before(s[i], s[j])
  }

  // ---------------------------------------------------------------------
  // Properties
  // ---------------------------------------------------------------------

  lemma OrderedConcat(a: seq<Visit>, b: seq<Visit>)
    requires StrictlyOrdered(a) && StrictlyOrdered(b)
    requires forall u, v :: u in a && v in b ==> Before(u, v)
    ensures StrictlyOrdered(a + b)
  {
    forall i, j | 0 <= i < j < |a + b|
      ensures Before((a + b)[i], (a + b)[j])
    {
      if j < |a| {
      } else if i >= |a| {
        assert (a + b)[i] == b[i - |a|] && (a + b)[j] == b[j - |a|];
      } else {
        assert (a + b)[i] in a && (a + b)[j] in b;
      }
    }
  }

  /** Extending a row prefix by one pixel appends that pixel's visit. */
  lemma RowPrefixSnoc(l: int, y: int, x: nat)
    ensures RowPrefix(l, y, x + 1) == RowPrefix(l, y, x) + [Visit(l, x, y)]
  {
    var a, b := RowPrefix(l, y, x + 1), RowPrefix(l, y, x) + [Visit(l, x, y)];
    forall i | 0 <= i < x + 1
      ensures a[i] == b[i]
    {
    }
  }

  /** A level's visits are exactly its pixels, in raster order. */
  lemma {:induction false} LevelRowsFacts(l: int, w: nat, h: nat)
    ensures StrictlyOrdered(LevelRows(l, w, h))
    ensures forall v :: v in LevelRows(l, w, h) <==> v.level == l && 0 <= v.x < w && 0 <= v.y < h
  {
    if h > 0 {
      LevelRowsFacts(l, w, h - 1);
      var row := RowPrefix(l, h - 1, w);
      forall v: Visit | v.level == l && 0 <= v.x < w && v.y == h - 1
        ensures v in row
      {
        assert row[v.x] == v;
      }
      OrderedConcat(LevelRows(l, w, h - 1), row);
    }
  }

  /** The schedule from level lo on is ordered and holds exactly the pixels of
      levels lo .. |dims|-1. */
  lemma {:induction false} DescendingFacts(dims: seq<(nat, nat)>, lo: nat)
    requires lo <= |dims|
    ensures StrictlyOrdered(Descending(dims, lo))
    ensures forall v :: v in Descending(dims, lo) <==>
      lo <= v.level < |dims| && 0 <= v.x < dims[v.level].0 && 0 <= v.y < dims[v.level].1
    decreases |dims| - lo
  {
    if lo < |dims| {
      DescendingFacts(dims, lo + 1);
      LevelRowsFacts(lo, dims[lo].0, dims[lo].1);
      OrderedConcat(Descending(dims, lo + 1), LevelRows(lo, dims[lo].0, dims[lo].1));
    }
  }

  /** Every pixel of every level is visited, nothing else is, and no visit
      repeats: each pixel is written exactly once, coarsest level first and
      in raster order within a level. */
  lemma ScheduleVisitsEachPixelOnce(dims: seq<(nat, nat)>)
    ensures StrictlyOrdered(Schedule(dims))
    ensures forall v :: v in Schedule(dims) <==>
      0 <= v.level < |dims| && 0 <= v.x < dims[v.level].0 && 0 <= v.y < dims[v.level].1
    ensures forall i, j :: 0 <= i < j < |Schedule(dims)| ==> Schedule(dims)[i] != Schedule(dims)[j]
  {
    DescendingFacts(dims, 0);
  }
}
