/** The Gaussian pyramid bookkeeping (gauss_pyramid.cpp, gauss_pyramid.h).
    The smooth 2x downsample (`zoomSurface`) and `gaussianBlur` are foreign or
    floating-point code; both are parameters of type Surface -> Surface. */
module Pyramids {
  import opened Arith
  import opened Surfaces

  /** Level 0 is the caller's surface; level i > 0 was derived from level i-1. */
  datatype Pyramid = Pyramid(levels: seq<Surface>)

  /** The level-count loop: how often n can be halved while it is above 1. */
  function HalvingCount(n: int): nat
    decreases n
  {
    if n > 1 then 1 + HalvingCount(n / 2) else 0
  }

  /** The automatic level count for a w x h source. */
  function AutoLevels(w: int, h: int): nat {
    HalvingCount(Min(w, h))
  }

  /** The height `t` the constructor settles on: a negative request means
      "automatic", which is floor(log2(min(w, h))), anything else is taken
      verbatim. */
  function Height(w: int, h: int, levels: int): (t: int)
    ensures levels >= 0 ==> t == levels
    ensures levels < 0 ==> t >= 0
    ensures levels < 0 && Min(w, h) >= 1 ==> Pow2(t) <= Min(w, h) < Pow2(t + 1)
    ensures levels < 0 && Min(w, h) < 1 ==> t == 0
  {
    if levels >= 0 then levels
    else
      assert Min(w, h) >= 1 ==> Pow2(AutoLevels(w, h)) <= Min(w, h) < Pow2(AutoLevels(w, h) + 1) by {
        if Min(w, h) >= 1 {
          HalvingCountIsLog2(Min(w, h));
        }
      }
      AutoLevels(w, h)
  }

  /** One construction step: downsample the previous level, then blur the new
      level only when the flag is set. */
  function Shrink(prev: Surface, blur: bool, down: Surface -> Surface, gauss: Surface -> Surface): Surface {
    if blur then gauss(down(prev)) else down(prev)
  }

  /** The levels the constructor pushes for height t: the source first, then
      levels 1 .. t-1 each derived from its predecessor. */
  function BuildLevels(source: Surface, t: int, blur: bool, down: Surface -> Surface, gauss: Surface -> Surface): (r: seq<Surface>)
    ensures |r| == Max(t, 1)
    ensures r[0] == source
    ensures forall i :: 1 <= i < |r| ==> r[i] == Shrink(r[i - 1], blur, down, gauss)
    decreases t
  {
    if t <= 1 then [source]
    else
      var prev := BuildLevels(source, t - 1, blur, down, gauss);
      prev + [Shrink(prev[|prev| - 1], blur, down, gauss)]
  }

  /** `gauss_pyramid(source, levels, blur)`: the stored levels are exactly
      those BuildLevels produces for the chosen height. */
  function Build(source: Surface, levels: int, blur: bool, down: Surface -> Surface, gauss: Surface -> Surface): (p: Pyramid)
    ensures |p.levels| == Max(Height(source.w, source.h, levels), 1)
    ensures |p.levels| >= 1 && p.levels[0] == source
    ensures forall i :: 1 <= i < |p.levels| ==> p.levels[i] == Shrink(p.levels[i - 1], blur, down, gauss)
  {
    Pyramid(BuildLevels(source, Height(source.w, source.h, levels), blur, down, gauss))
  }

  /** The level a request for level i is served from: out-of-range requests
      go to the last level. */
  function ClampLevel(i: int, n: int): (k: int)
    requires n >= 1
    ensures 0 <= k < n
    ensures 0 <= i < n ==> k == i
    ensures !(0 <= i < n) ==> k == n - 1
  {
    if i < 0 || i >= n then n - 1 else i
  }

  /** `getLevel(i)`. */
  function GetLevel(p: Pyramid, i: int): (r: Surface)
    requires |p.levels| >= 1
    ensures r in p.levels
    ensures 0 <= i < |p.levels| ==> r == p.levels[i]
    ensures !(0 <= i < |p.levels|) ==> r == p.levels[|p.levels| - 1]
  {
    p.levels[ClampLevel(i, |p.levels|)]
  }

  /** `getLevels()`. */
  function Levels(p: Pyramid): nat {
    |p.levels|
  }

  /** `reconstructPyramid()`: the finest level. */
  function Reconstruct(p: Pyramid): Surface
    requires |p.levels| >= 1
  {
    p.levels[0]
  }

  /** The destructor's loop from index i up to n-1. */
  function FreeFrom(i: int, n: int): (r: seq<int>)
    ensures forall j :: j in r ==> i <= j < n
    ensures forall j :: i <= j < n ==> j in r
    decreases n - i
  {
    if i >= n then [] else [i] + FreeFrom(i + 1, n)
  }

  /** The indices of the levels the destructor frees, in the order it frees
      them: every level but level 0. */
  function Released(p: Pyramid): (r: seq<int>)
    ensures 0 !in r
    ensures forall i :: i in r ==> 1 <= i < |p.levels|
    ensures forall i :: 1 <= i < |p.levels| ==> i in r
  {
    FreeFrom(1, |p.levels|)
  }

  // ---------------------------------------------------------------------
  // Properties
  // ---------------------------------------------------------------------

  /** The automatic count is floor(log2 n): 2^t <= n < 2^(t+1). */
  lemma {:induction false} HalvingCountIsLog2(n: int)
    requires n >= 1
    ensures Pow2(HalvingCount(n)) <= n < Pow2(HalvingCount(n) + 1)
  {
    if n > 1 {
      HalvingCountIsLog2(n / 2);
      var t := HalvingCount(n / 2);
      assert HalvingCount(n) == t + 1;
      assert Pow2(t + 1) == 2 * Pow2(t);
      assert Pow2(t + 2) == 2 * Pow2(t + 1);
    }
  }

  /** Automatic height of a source: 2^t <= min(w, h) < 2^(t+1). */
  lemma AutoLevelsIsLog2(s: Surface)
    ensures Pow2(AutoLevels(s.w, s.h)) <= Min(s.w, s.h) < Pow2(AutoLevels(s.w, s.h) + 1)
  {
    HalvingCountIsLog2(Min(s.w, s.h));
  }

  /** Building automatically and building with the automatically computed
      height give the same pyramid. */
  lemma AutoMatchesExplicit(source: Surface, blur: bool, down: Surface -> Surface, gauss: Surface -> Surface)
    ensures Build(source, -1, blur, down, gauss) == Build(source, AutoLevels(source.w, source.h), blur, down, gauss)
  {
  }

  /** The pyramid's finest level, its reconstruction and its only level the
      destructor keeps are the caller's surface itself. */
  lemma BuildKeepsSource(source: Surface, levels: int, blur: bool, down: Surface -> Surface, gauss: Surface -> Surface)
    ensures Reconstruct(Build(source, levels, blur, down, gauss)) == source
    ensures GetLevel(Build(source, levels, blur, down, gauss), 0) == source
    ensures Levels(Build(source, levels, blur, down, gauss)) >= 1
  {
  }

  /** Level 0 is never blurred, and with the flag off no level is: every
      level i > 0 is the i-fold downsample of the source. */
  lemma {:induction false} UnblurredLevelsAreDownsamples(source: Surface, levels: int, down: Surface -> Surface, gauss: Surface -> Surface, i: nat)
    requires i < Levels(Build(source, levels, false, down, gauss))
    ensures Build(source, levels, false, down, gauss).levels[i] == Iterate(down, source, i)
    decreases i
  {
    if i > 0 {
      UnblurredLevelsAreDownsamples(source, levels, down, gauss, i - 1);
    }
  }

  /** `down` applied i times. */
  function Iterate(f: Surface -> Surface, s: Surface, i: nat): Surface {
    if i == 0 then s else f(Iterate(f, s, i - 1))
  }
}
