/** Neighbourhoods ("hoods", hood.cpp): the colours around a pixel, sampled
    from every pyramid level from the coarsest down to the current one. */
module Hoods {
  import opened Arith
  import opened Surfaces
  import opened Pyramids
  import opened Windows

  /** The sampled colours, in insertion order: `getColor(i)` is `h[i]` and
      `getColors()` is `|h|`. */
  type Hood = seq<Word>

  /** The window diameter at level l: ceil(d / 2^l), which
      `(int)ceil(pow(0.5, l) * d)` computes for the sizes that occur. */
  function ScaledDiameter(d: nat, l: nat): nat {
    (d + Pow2(l) - 1) / Pow2(l)
  }

  /** `int(pow(0.5, l) * x)`: division by 2^l truncated toward zero. */
  function Scale(x: int, l: nat): int {
    if x >= 0 then x / Pow2(l) else -((-x) / Pow2(l))
  }

  /** `hood::addLevel`: one sample per offset of the level's window, read
      around the centre (cx, cy) with wrap-around addressing. */
  function AddLevel(s: Surface, diameter: nat, cx: int, cy: int, causal: bool): (r: Hood)
    ensures |r| == Goal(diameter, causal) + 1
  {
    var win := Window(diameter, causal);
    seq(|win|, k requires 0 <= k < |win| => Get(s, cx + win[k].0, cy + win[k].1))
  }

  /** The samples level l contributes to the hood of (x, y) at level curL:
      window and centre are both scaled by the absolute level l, and only
      level curL is sampled causally. */
  function LevelSamples(p: Pyramid, curL: nat, l: nat, x: int, y: int, d: nat): Hood
    requires |p.levels| >= 1
  {
    AddLevel(GetLevel(p, l), ScaledDiameter(d, l), Scale(x, l), Scale(y, l), l == curL)
  }

  /** Levels l, l-1, ..., curL, concatenated coarsest first; their length
      is the sum of the closed-form counts of those levels. */
  function HoodFrom(p: Pyramid, curL: nat, l: nat, x: int, y: int, d: nat): (r: Hood)
    requires |p.levels| >= 1 && curL <= l
    ensures |r| == CountFrom(curL, l, d)
    decreases l - curL
  {
    AddLevelLength(GetLevel(p, l), ScaledDiameter(d, l), Scale(x, l), Scale(y, l), l == curL);
    LevelSamples(p, curL, l, x, y, d) + (if l == curL then [] else HoodFrom(p, curL, l - 1, x, y, d))
  }

  /** `hood(p, curL, x, y)` with texton diameter d. Its length (`getColors`)
      depends only on the level count, curL and the diameter, never on the
      position or on pixel values. */
  function HoodAt(p: Pyramid, curL: nat, x: int, y: int, d: nat): (r: Hood)
    requires |p.levels| >= 1
    ensures |r| == HoodLength(|p.levels|, curL, d)
  {
    if curL < |p.levels| then HoodFrom(p, curL, |p.levels| - 1, x, y, d) else []
  }

  // ---------------------------------------------------------------------
  // Reference sample counts
  // ---------------------------------------------------------------------

  /** Samples one level contributes, in closed form. */
  function LevelCount(diameter: nat, causal: bool): nat {
    if diameter == 1 then 2
    else if causal then diameter + 1
    else
      var w := Side(diameter);
      MulAtLeast(w, w);
      w * w + 1
  }

  /** Sum of LevelCount over levels curL .. top. */
  function CountFrom(curL: nat, top: nat, d: nat): nat
    requires curL <= top
    decreases top - curL
  {
    LevelCount(ScaledDiameter(d, top), top == curL) + (if top == curL then 0 else CountFrom(curL, top - 1, d))
  }

  /** The length of every hood built at level curL of an n-level pyramid. */
  function HoodLength(n: nat, curL: nat, d: nat): nat {
    if curL < n then CountFrom(curL, n - 1, d) else 0
  }

  // ---------------------------------------------------------------------
  // Properties
  // ---------------------------------------------------------------------

  /** The scaled diameter is ceil(d / 2^l), at least 1 for d >= 1. */
  lemma ScaledDiameterIsCeiling(d: nat, l: nat)
    ensures var r, P := ScaledDiameter(d, l), Pow2(l);
      r * P >= d && (r - 1) * P < d
    ensures d >= 1 ==> ScaledDiameter(d, l) >= 1
  {
    var P := Pow2(l);
    CeilingDiv(d, P);
  }

  lemma CeilingDiv(d: nat, P: int)
    requires P >= 1
    ensures var r := (d + P - 1) / P;
      r * P >= d && (r - 1) * P < d && (d >= 1 ==> r >= 1)
  {
    var a := d + P - 1;
    var r, m := a / P, a % P;
    assert a == r * P + m && 0 <= m < P;
    assert (r - 1) * P == r * P - P;
    if d >= 1 && r < 1 {
      assert false;
    }
  }

  /** For non-negative coordinates the centre is floor(x / 2^l). */
  lemma ScaleIsFloor(x: int, l: nat)
    requires x >= 0
    ensures Scale(x, l) * Pow2(l) <= x < (Scale(x, l) + 1) * Pow2(l)
  {
    var P := Pow2(l);
    assert x == (x / P) * P + x % P;
    assert (x / P + 1) * P == (x / P) * P + P;
  }

  /** Sample counts of one level agree with the closed form. */
  lemma AddLevelLength(s: Surface, diameter: nat, cx: int, cy: int, causal: bool)
    ensures |AddLevel(s, diameter, cx, cy, causal)| == LevelCount(diameter, causal)
  {
    SampleCounts(diameter);
  }

  /** `h` ends with `c`. */
  predicate EndsWith<T(==)>(h: seq<T>, c: seq<T>) {
    |c| <= |h| && h[|h| - |c|..] == c
  }

  /** The hood ends with the samples of level curL itself: its causal
      window (LevelSamples with l == curL), centred at
      (Scale(x, curL), Scale(y, curL)), the absolute level, so at curL > 0 the
      centre is not (x, y) itself. */
  lemma {:induction false} HoodEndsWithCausalLevel(p: Pyramid, curL: nat, x: int, y: int, d: nat)
    requires curL < |p.levels|
    ensures EndsWith(HoodAt(p, curL, x, y, d), LevelSamples(p, curL, curL, x, y, d))
  {
    HoodFromEndsWithCausalLevel(p, curL, |p.levels| - 1, x, y, d);
  }

  lemma {:induction false} HoodFromEndsWithCausalLevel(p: Pyramid, curL: nat, l: nat, x: int, y: int, d: nat)
    requires |p.levels| >= 1 && curL <= l
    ensures EndsWith(HoodFrom(p, curL, l, x, y, d), LevelSamples(p, curL, curL, x, y, d))
    decreases l - curL
  {
    var c := LevelSamples(p, curL, curL, x, y, d);
    var top := LevelSamples(p, curL, l, x, y, d);
    if l == curL {
      EndsWithConcat(HoodFrom(p, curL, l, x, y, d), top, [], c);
    } else {
      var rest := HoodFrom(p, curL, l - 1, x, y, d);
      HoodFromEndsWithCausalLevel(p, curL, l - 1, x, y, d);
      EndsWithConcat(HoodFrom(p, curL, l, x, y, d), top, rest, c);
    }
  }

  /** If `rest` ends with `c`, so does `top + rest`; and `c + []` ends with
      `c`. */
  lemma EndsWithConcat<T>(h: seq<T>, top: seq<T>, rest: seq<T>, c: seq<T>)
    requires h == top + rest
    requires EndsWith(rest, c) || (rest == [] && top == c)
    ensures EndsWith(h, c)
  {
    if rest == [] && top == c {
      assert h == c;
      assert c[|c| - |c|..] == c;
    } else {
      SuffixOfConcat(top, rest, |c|);
    }
  }

  /** A suffix no longer than the second part lies within it. */
  lemma SuffixOfConcat<T>(a: seq<T>, b: seq<T>, k: nat)
    requires k <= |b|
    ensures (a + b)[|a + b| - k..] == b[|b| - k..]
  {
    var lhs, rhs := (a + b)[|a + b| - k..], b[|b| - k..];
    forall i | 0 <= i < k
      ensures lhs[i] == rhs[i]
    {
      assert lhs[i] == (a + b)[|a| + (|b| - k) + i];
    }
  }

  /** Coarser levels come first and are full windows: the hood starts with
      the full window of the coarsest level. */
  lemma HoodStartsWithCoarsestLevel(p: Pyramid, curL: nat, x: int, y: int, d: nat)
    requires curL + 1 < |p.levels|
    ensures var n := |p.levels|;
      var c := AddLevel(p.levels[n - 1], ScaledDiameter(d, n - 1), Scale(x, n - 1), Scale(y, n - 1), false);
      |c| <= |HoodAt(p, curL, x, y, d)| && HoodAt(p, curL, x, y, d)[..|c|] == c
  {
  }

  /** Each causal sample is the pixel at an offset on a row above the target
      or on the target's row and not to its right. When the whole offset
      stays inside the surface, that pixel comes no later than the target in
      raster order: it was already visited, or is the target itself. Near
      the left or top edge the toroidal read can wrap to a pixel not yet
      visited. */
  lemma CausalSampleIsVisited(s: Surface, diameter: nat, cx: int, cy: int, k: nat)
    requires k < |AddLevel(s, diameter, cx, cy, true)|
    ensures var o := Window(diameter, true)[k];
      && AddLevel(s, diameter, cx, cy, true)[k] == Get(s, cx + o.0, cy + o.1)
      && (o.1 < 0 || (o.1 == 0 && o.0 <= 0))
      && (0 <= cx < s.w && 0 <= cy < s.h && 0 <= cx + o.0 < s.w && 0 <= cy + o.1 < s.h ==>
            Index(s, cx + o.0, cy + o.1) <= Index(s, cx, cy))
  {
    CausalWindowPrecedesTarget(diameter, k);
    var o := Window(diameter, true)[k];
    if 0 <= cx < s.w && 0 <= cy < s.h && 0 <= cx + o.0 < s.w && 0 <= cy + o.1 < s.h {
      ModSmall(cx, s.w);
      ModSmall(cy, s.h);
      ModSmall(cx + o.0, s.w);
      ModSmall(cy + o.1, s.h);
      RasterBefore(cx, cy, cx + o.0, cy + o.1, s.w);
    }
  }
}
