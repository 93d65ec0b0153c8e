/** Window arithmetic of `hood::addLevel` (hood.cpp): half-width, sample goal
    and the order in which offsets around the centre are visited. */
module Windows {
  import opened Arith

  /** An offset (dx, dy) from the window's centre pixel. */
  type Offset = (int, int)

  /** Integer square root by upward search from r. */
  function ISqrtFrom(n: nat, r: nat): nat
    requires r <= n
    decreases n - r
  {
    if (r + 1) * (r + 1) > n then r
    else
      assert r + 1 <= n by {
        MulAtLeast(r + 1, r + 1);
      }
      ISqrtFrom(n, r + 1)
  }

  /** floor(sqrt(n)), which `(int)sqrt((float)diameter)` computes for the
      diameters that occur. */
  function ISqrt(n: nat): nat {
    ISqrtFrom(n, 0)
  }

  lemma {:induction false} ISqrtFromBounds(n: nat, r: nat)
    requires r <= n && r * r <= n
    ensures var s := ISqrtFrom(n, r); s * s <= n < (s + 1) * (s + 1)
    decreases n - r
  {
    if (r + 1) * (r + 1) <= n {
      assert r + 1 <= n by {
        MulAtLeast(r + 1, r + 1);
      }
      ISqrtFromBounds(n, r + 1);
    }
  }

  /** The search finds the integer square root: s*s <= n < (s+1)*(s+1). */
  lemma ISqrtIsFloorSqrt(n: nat)
    ensures ISqrt(n) * ISqrt(n) <= n < (ISqrt(n) + 1) * (ISqrt(n) + 1)
  {
    ISqrtFromBounds(n, 0);
  }

  /** The half-width of a level's window, clamped to at least 1. */
  function HalfWidth(diameter: nat): (hw: int)
    ensures hw >= 1
  {
    var s := ISqrt(diameter);
    if s == 0 then 1 else s
  }

  /** Side of the full square window. */
  function Side(diameter: nat): (w: int)
    ensures w >= 3
  {
    2 * HalfWidth(diameter) + 1
  }

  /** The loop bound `goal`: the diameter on the causal level, the square's
      area otherwise, and 1 when the chained test `diameter == halfWidth == 1`
      holds, which C++ reads as `(diameter == halfWidth) == 1`. */
  function Goal(diameter: nat, causal: bool): nat {
    var hw := HalfWidth(diameter);
    if diameter == hw then 1
    else if causal then diameter
    else
      var w := Side(diameter);
      MulAtLeast(w, w);
      w * w
  }

  /** One step of the traversal: move one column left, and after passing
      -hw jump back to +hw one row up. */
  function Step(o: Offset, hw: int): Offset {
    if o.0 - 1 < -hw then (hw, o.1 - 1) else (o.0 - 1, o.1)
  }

  /** The offsets the sampling loop visits, `count` of them, from `start`. */
  function Walk(start: Offset, hw: int, count: nat): (r: seq<Offset>)
    ensures |r| == count
    ensures count > 0 ==> r[0] == start
    decreases count
  {
    if count == 0 then [] else [start] + Walk(Step(start, hw), hw, count - 1)
  }

  /** The start of the traversal: the target pixel itself on the causal level,
      the square's corner (+hw, +hw) otherwise. */
  function Start(diameter: nat, causal: bool): Offset {
    var hw := HalfWidth(diameter);
    if causal then (0, 0) else (hw, hw)
  }

  /** All offsets one level contributes: the loop runs `i = 0 .. goal`
      inclusive, so there are goal + 1 of them. */
  function Window(diameter: nat, causal: bool): (r: seq<Offset>)
    ensures |r| == Goal(diameter, causal) + 1
  {
    Walk(Start(diameter, causal), HalfWidth(diameter), Goal(diameter, causal) + 1)
  }

  // ---------------------------------------------------------------------
  // Properties
  // ---------------------------------------------------------------------

  /** The k-th visited offset in closed form: with c0 = hw - start.x the
      starting column, the walk is at column (c0 + k) mod (2hw+1) counted from
      the right, (c0 + k) div (2hw+1) rows above the start row. */
  lemma {:induction false} WalkClosedForm(start: Offset, hw: int, count: nat, k: nat)
    requires hw >= 1 && -hw <= start.0 <= hw
    requires k < count
    ensures Walk(start, hw, count)[k]
      == (hw - (hw - start.0 + k) % (2 * hw + 1), start.1 - (hw - start.0 + k) / (2 * hw + 1))
    decreases k
  {
    var W := 2 * hw + 1;
    var c0 := hw - start.0;
    if k == 0 {
      ModSmall(c0, W);
    } else {
      var next := Step(start, hw);
      WalkClosedForm(next, hw, count - 1, k - 1);
      assert Walk(start, hw, count)[k] == Walk(next, hw, count - 1)[k - 1];
      if start.0 - 1 < -hw {
        assert c0 + 1 == W && next == (hw, start.1 - 1);
        DivModUnique(c0 + k, W, (k - 1) / W + 1, (k - 1) % W);
      } else {
        assert hw - next.0 + (k - 1) == c0 + k;
      }
    }
  }

  /** The chained comparison fires exactly for diameter 1. */
  lemma GoalIsOneExactlyForUnitDiameter(diameter: nat, causal: bool)
    ensures diameter == HalfWidth(diameter) <==> diameter == 1
    ensures diameter == 1 ==> Goal(diameter, causal) == 1
  {
    var hw := HalfWidth(diameter);
    if diameter >= 2 && hw == diameter {
      ISqrtIsFloorSqrt(diameter);
      MulAtLeast(diameter, diameter - 1);
      assert false;
    }
  }

  /** Sample counts: diameter+1 on the causal level, (2hw+1)^2 + 1 for a
      full window, and 2 for diameter 1. */
  lemma SampleCounts(diameter: nat)
    ensures diameter != 1 ==> |Window(diameter, true)| == diameter + 1
    ensures diameter != 1 ==> |Window(diameter, false)| == Side(diameter) * Side(diameter) + 1
    ensures diameter == 1 ==> |Window(diameter, true)| == 2 && |Window(diameter, false)| == 2
  {
    GoalIsOneExactlyForUnitDiameter(diameter, true);
  }

  /** The k-th offset of a full window. */
  lemma FullWindowAt(diameter: nat, k: nat)
    requires diameter != 1
    requires k <= Side(diameter) * Side(diameter)
    ensures var hw, W := HalfWidth(diameter), Side(diameter);
      && |Window(diameter, false)| == W * W + 1
      && Window(diameter, false)[k] == (hw - k % W, hw - k / W)
  {
    var hw, W := HalfWidth(diameter), Side(diameter);
    assert |Window(diameter, false)| == W * W + 1 by {
      SampleCounts(diameter);
    }
    assert Window(diameter, false)[k] == (hw - k % W, hw - k / W) by {
      var n := Goal(diameter, false) + 1;
      assert Window(diameter, false) == Walk((hw, hw), hw, n);
      WalkClosedForm((hw, hw), hw, n, k);
      assert hw - hw + k == k && 2 * hw + 1 == W;
    }
  }

  /** The k-th offset of a causal window. */
  lemma CausalWindowAt(diameter: nat, k: nat)
    requires k < |Window(diameter, true)|
    ensures var hw, W := HalfWidth(diameter), Side(diameter);
      Window(diameter, true)[k] == (hw - (hw + k) % W, 0 - (hw + k) / W)
  {
    var hw, W := HalfWidth(diameter), Side(diameter);
    var n := Goal(diameter, true) + 1;
    assert Window(diameter, true) == Walk((0, 0), hw, n);
    WalkClosedForm((0, 0), hw, n, k);
    var a := hw - 0 + k;
    assert a == hw + k && 2 * hw + 1 == W;
  }

  /** Row-major position of (dx, dy) in a square of side 2hw+1, counted from
      the top-right corner. */
  lemma SquarePosition(hw: int, W: int, dx: int, dy: int)
    requires hw >= 1 && W == 2 * hw + 1 && -hw <= dx <= hw && -hw <= dy <= hw
    ensures var k := (hw - dy) * W + (hw - dx);
      0 <= k < W * W && k % W == hw - dx && k / W == hw - dy
  {
    var r, c := hw - dy, hw - dx;
    assert 0 <= r * W;
    assert r * W <= (W - 1) * W by {
      assert (W - 1) * W - r * W == (W - 1 - r) * W;
    }
    assert (W - 1) * W + W == W * W;
    RowMajor(c, r, W);
  }

  /** A full window first visits every offset of the (2hw+1)^2 square,
      row by row from the top-right corner leftwards and upwards: offset
      (dx, dy) is visited at position (hw-dy)*(2hw+1) + (hw-dx). */
  lemma FullWindowCoversSquare(diameter: nat, dx: int, dy: int)
    requires diameter != 1
    requires -HalfWidth(diameter) <= dx <= HalfWidth(diameter)
    requires -HalfWidth(diameter) <= dy <= HalfWidth(diameter)
    ensures var hw, W := HalfWidth(diameter), Side(diameter);
      && |Window(diameter, false)| == W * W + 1
      && 0 <= (hw - dy) * W + (hw - dx) < W * W
      && Window(diameter, false)[(hw - dy) * W + (hw - dx)] == (dx, dy)
  {
    var hw, W := HalfWidth(diameter), Side(diameter);
    var k := (hw - dy) * W + (hw - dx);
    SquarePosition(hw, W, dx, dy);
    FullWindowAt(diameter, k);
  }

  /** Every offset a full window visits before the last lies in the square. */
  lemma FullWindowInSquare(diameter: nat, k: nat)
    requires diameter != 1
    requires k < Side(diameter) * Side(diameter)
    ensures |Window(diameter, false)| == Side(diameter) * Side(diameter) + 1
    ensures var o, hw := Window(diameter, false)[k], HalfWidth(diameter);
      -hw <= o.0 <= hw && -hw <= o.1 <= hw
  {
    var hw, W := HalfWidth(diameter), Side(diameter);
    FullWindowAt(diameter, k);
    DivBelow(k, W, W);
  }

  /** Because the loop runs to `goal` inclusive, a full window reads one
      pixel beyond its square, at (+hw, -hw-1). */
  lemma FullWindowExtraSample(diameter: nat)
    requires diameter != 1
    ensures |Window(diameter, false)| == Side(diameter) * Side(diameter) + 1
    ensures var W, hw := Side(diameter), HalfWidth(diameter);
      Window(diameter, false)[W * W] == (hw, -hw - 1)
  {
    var W := Side(diameter);
    FullWindowAt(diameter, W * W);
    DivModUnique(W * W, W, W, 0);
  }

  /** The causal window's first offset is (0, 0), the target itself, and
      every offset is on the target's row and not to its right, or on a row
      above. Where a read wraps round an edge is Hoods.CausalSampleIsVisited's
      concern. */
  lemma CausalWindowPrecedesTarget(diameter: nat, k: nat)
    requires k < |Window(diameter, true)|
    ensures Window(diameter, true)[0] == (0, 0)
    ensures var o := Window(diameter, true)[k];
      o.1 < 0 || (o.1 == 0 && o.0 <= 0)
    ensures -HalfWidth(diameter) <= Window(diameter, true)[k].0 <= HalfWidth(diameter)
  {
    var hw, W := HalfWidth(diameter), Side(diameter);
    assert Window(diameter, true)[0] == (0, 0) by {
      CausalWindowAt(diameter, 0);
      ModSmall(hw, W);
    }
    var a := hw + k;
    var o := Window(diameter, true)[k];
    assert o == (hw - a % W, 0 - a / W) by {
      CausalWindowAt(diameter, k);
    }
    assert 0 <= a % W < W;
    if a < W {
      assert a / W == 0 && a % W == a by {
        ModSmall(a, W);
      }
    } else {
      assert a / W >= 1 by {
        DivModUnique(a, W, (a - W) / W + 1, (a - W) % W);
      }
    }
  }
}
