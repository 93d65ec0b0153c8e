/** The pixel grid (sdl.cpp): a row-major buffer of 32-bit words read and
    written through `getPixel`/`putPixel` with partial wrap-around addressing. */
module Surfaces {
  import opened Options
  import opened Arith

  /** One pixel as the 32-bit word stored in the surface. */
  type Word = bv32

  /** The alpha byte of a word, all ones: `putPixel` ORs this into every write. */
  const OPAQUE: Word := 0xff00_0000

  datatype Image = Image(w: int, h: int, pixels: seq<Word>)

  /** A surface the synthesiser works on: non-empty, with exactly `w*h` words.
      Zero-sized surfaces make the source divide by zero and are not modelled. */
  type Surface = s: Image | s.w >= 1 && s.h >= 1 && |s.pixels| == s.w * s.h
    witness Image(1, 1, [0])

  predicate Opaque(p: Word) {
    p & OPAQUE == OPAQUE
  }

  // ---------------------------------------------------------------------
  // Addressing as written
  // ---------------------------------------------------------------------

  /** C/C++ `%` on a positive divisor: the remainder takes the sign of `a`. */
  function CRem(a: int, b: int): int
    requires b > 0
  {
    if a >= 0 then a % b else -((-a) % b)
  }

  /** The guard of `getPixel`/`putPixel`: `>` rather than `>=`, and a hit on
      either axis re-maps both axes. */
  predicate NeedsWrap(s: Surface, x: int, y: int) {
    x < 0 || x > s.w || y < 0 || y > s.h
  }

  /** The buffer index the source computes for (x, y); it may lie outside
      the buffer. */
  function RawIndex(s: Surface, x: int, y: int): int {
    if NeedsWrap(s, x, y) then
      CRem(y + s.h, s.h) * s.w + CRem(x + s.w, s.w)
    else
      y * s.w + x
  }

  /** `getPixel` as written; `None` when the computed index falls outside the
      buffer (a read the source performs with no defined result). */
  function GetPixelAsWritten(s: Surface, x: int, y: int): Option<Word> {
    var i := RawIndex(s, x, y);
    if 0 <= i < |s.pixels| then Some(s.pixels[i]) else None
  }

  /** `putPixel` as written; `None` when the computed index falls outside the
      buffer. */
  function PutPixelAsWritten(s: Surface, x: int, y: int, p: Word): Option<Surface> {
    var i := RawIndex(s, x, y);
    if 0 <= i < |s.pixels| then Some(s.(pixels := s.pixels[i := p | OPAQUE])) else None
  }

  // ---------------------------------------------------------------------
  // Toroidal addressing (the evidently intended rule)
  // ---------------------------------------------------------------------

  /** Toroidal wrap of one coordinate into [0, n). */
  function Wrap(x: int, n: int): (r: int)
    requires n >= 1
    ensures 0 <= r < n
  {
    x % n
  }

  /** Buffer index of (x, y) under toroidal addressing. */
  function Index(s: Surface, x: int, y: int): (i: int)
    ensures 0 <= i < |s.pixels|
  {
    IndexInBounds(s.w, s.h, Wrap(x, s.w), Wrap(y, s.h));
    Wrap(y, s.h) * s.w + Wrap(x, s.w)
  }

  /** Read with toroidal addressing: the word at the wrapped coordinate. */
  function Get(s: Surface, x: int, y: int): Word {
    s.pixels[Index(s, x, y)]
  }

  /** Write with toroidal addressing; like `putPixel`, the stored word always
      has its alpha byte forced to 0xff. */
  function Put(s: Surface, x: int, y: int, p: Word): (r: Surface)
    ensures r.w == s.w && r.h == s.h
    ensures Opaque(r.pixels[Index(s, x, y)])
    ensures forall k :: 0 <= k < |s.pixels| && k != Index(s, x, y) ==> r.pixels[k] == s.pixels[k]
  {
    s.(pixels := s.pixels[Index(s, x, y) := p | OPAQUE])
  }

  // ---------------------------------------------------------------------
  // Properties
  // ---------------------------------------------------------------------

  /** In range, both reads return the word at `y*w + x` with no wrapping. */
  lemma GetInRange(s: Surface, x: int, y: int)
    requires 0 <= x < s.w && 0 <= y < s.h
    ensures 0 <= y * s.w + x < |s.pixels|
    ensures GetPixelAsWritten(s, x, y) == Some(s.pixels[y * s.w + x])
    ensures Get(s, x, y) == s.pixels[y * s.w + x]
  {
    IndexInBounds(s.w, s.h, x, y);
    assert Wrap(x, s.w) == x;
    assert Wrap(y, s.h) == y;
    assert !NeedsWrap(s, x, y);
  }

  /** A coordinate in [-w, 0) (or [-h, 0)) is read at `x + w` (`y + h`),
      exactly as the toroidal rule says. */
  lemma GetNegativeWraps(s: Surface, x: int, y: int)
    requires -s.w <= x < 0 && 0 <= y < s.h
    ensures 0 <= y * s.w + x + s.w < |s.pixels|
    ensures GetPixelAsWritten(s, x, y) == Some(s.pixels[y * s.w + x + s.w])
    ensures Get(s, x, y) == Get(s, x + s.w, y)
  {
    IndexInBounds(s.w, s.h, x + s.w, y);
    ModSmall(x + s.w, s.w);
    ModSmall(y, s.h);
    DivModUnique(x, s.w, -1, x + s.w);
    DivModUnique(y + s.h, s.h, 1, y);
    assert NeedsWrap(s, x, y);
    assert RawIndex(s, x, y) == y * s.w + (x + s.w);
    assert Index(s, x, y) == y * s.w + (x + s.w);
    assert !NeedsWrap(s, x + s.w, y);
    assert Index(s, x + s.w, y) == y * s.w + (x + s.w);
  }

  /** Everywhere except on the lines x == w and y == h and beyond -w/-h, the
      source's read agrees with toroidal addressing. */
  lemma AsWrittenAgreesInWindow(s: Surface, x: int, y: int)
    requires -s.w <= x < s.w && -s.h <= y < s.h
    ensures GetPixelAsWritten(s, x, y) == Some(Get(s, x, y))
  {
    var x', y' := Wrap(x, s.w), Wrap(y, s.h);
    assert RawIndex(s, x, y) == y' * s.w + x' by {
      if NeedsWrap(s, x, y) {
        assert CRem(x + s.w, s.w) == x' by {
          ModShift(x, s.w);
        }
        assert CRem(y + s.h, s.h) == y' by {
          ModShift(y, s.h);
        }
      } else {
        assert x' == x by {
          ModSmall(x, s.w);
        }
        assert y' == y by {
          ModSmall(y, s.h);
        }
      }
    }
    assert Index(s, x, y) == y' * s.w + x';
  }

  /** A coordinate greater than w wraps to x mod w (and likewise for y). */
  lemma GetBeyondWraps(s: Surface, x: int, y: int)
    requires x > s.w && 0 <= y < s.h
    ensures GetPixelAsWritten(s, x, y) == Some(Get(s, x, y))
    ensures 0 <= y * s.w + x % s.w < |s.pixels|
    ensures Get(s, x, y) == s.pixels[y * s.w + x % s.w]
  {
    ModShift(x, s.w);
    DivModUnique(y + s.h, s.h, 1, y);
    ModSmall(y, s.h);
    assert NeedsWrap(s, x, y);
    assert CRem(x + s.w, s.w) == x % s.w == Wrap(x, s.w);
    assert CRem(y + s.h, s.h) == y == Wrap(y, s.h);
    IndexInBounds(s.w, s.h, x % s.w, y);
    assert RawIndex(s, x, y) == Index(s, x, y);
  }

  /** x == w is not wrapped: the read lands on the first pixel of the next
      row, not on pixel (0, y). */
  lemma GetAtWidthReadsNextRow(s: Surface, y: int)
    requires 0 <= y < s.h - 1
    ensures GetPixelAsWritten(s, s.w, y) == Some(Get(s, 0, y + 1))
  {
    assert !NeedsWrap(s, s.w, y);
    assert RawIndex(s, s.w, y) == (y + 1) * s.w;
    assert Wrap(0, s.w) == 0 && Wrap(y + 1, s.h) == y + 1;
    assert Index(s, 0, y + 1) == (y + 1) * s.w;
    IndexInBounds(s.w, s.h, 0, y + 1);
  }

  /** At the bottom-right corner, x == w reads one word past the buffer. */
  lemma GetAtWidthLastRowOutside(s: Surface)
    ensures GetPixelAsWritten(s, s.w, s.h - 1) == None
    ensures GetPixelAsWritten(s, s.w, s.h) == None
  {
    assert !NeedsWrap(s, s.w, s.h - 1) && !NeedsWrap(s, s.w, s.h);
    assert (s.h - 1) * s.w + s.w == s.w * s.h;
    assert RawIndex(s, s.w, s.h - 1) == s.w * s.h;
    assert RawIndex(s, s.w, s.h) == s.w * s.h + s.w;
  }

  /** Below -w the C remainder is negative: on row 0 the index is negative. */
  lemma GetBelowMinusWidthOutside(s: Surface, x: int)
    requires -2 * s.w < x < -s.w
    ensures RawIndex(s, x, 0) == x + s.w < 0
    ensures GetPixelAsWritten(s, x, 0) == None
  {
    assert NeedsWrap(s, x, 0);
    assert (-(x + s.w)) % s.w == -(x + s.w);
    assert CRem(x + s.w, s.w) == x + s.w;
    assert CRem(s.h, s.h) == 0;
    assert RawIndex(s, x, 0) == 0 * s.w + (x + s.w);
  }

  /** A 2x2 surface holding the words 1, 2 / 3, 4. */
  const Grid2x2: Surface := Image(2, 2, [1, 2, 3, 4])

  /** Concrete instance of the first defect: x == 2 on a 2-wide surface is
      read as pixel (0, 1), holding 3, where toroidal addressing reads pixel
      (0, 0), holding 1. */
  lemma WrapCounterexample()
    ensures GetPixelAsWritten(Grid2x2, 2, 0) == Some(3)
    ensures Get(Grid2x2, 2, 0) == 1
  {
    WidthReadCounterexample();
    WrappedReadOfGrid();
  }

  lemma WidthReadCounterexample()
    ensures GetPixelAsWritten(Grid2x2, 2, 0) == Some(3)
  {
    GetAtWidthReadsNextRow(Grid2x2, 0);
    GetInRange(Grid2x2, 0, 1);
  }

  lemma WrappedReadOfGrid()
    ensures Get(Grid2x2, 2, 0) == 1
  {
    GetPeriodic(Grid2x2, 0, 0);
    GetInRange(Grid2x2, 0, 0);
  }

  /** Concrete instance of the second defect: x == -3 on a 2-wide surface
      computes index -1, before the buffer. */
  lemma NegativeWrapCounterexample()
    ensures GetPixelAsWritten(Grid2x2, -3, 0) == None
  {
    GetBelowMinusWidthOutside(Grid2x2, -3);
  }

  /** Toroidal reads are periodic in both axes. */
  lemma GetPeriodic(s: Surface, x: int, y: int)
    ensures Get(s, x + s.w, y) == Get(s, x, y)
    ensures Get(s, x, y + s.h) == Get(s, x, y)
  {
    ModShift(x, s.w);
    ModShift(y, s.h);
    assert Wrap(x + s.w, s.w) == Wrap(x, s.w);
    assert Wrap(y + s.h, s.h) == Wrap(y, s.h);
  }

  /** Reading back what was written yields the word with alpha forced. */
  lemma GetAfterPut(s: Surface, x: int, y: int, p: Word)
    ensures Get(Put(s, x, y, p), x, y) == p | OPAQUE
    ensures Opaque(Get(Put(s, x, y, p), x, y))
  {
  }

  /** A put leaves every other cell unchanged. */
  lemma GetAfterPutOther(s: Surface, x: int, y: int, x': int, y': int, p: Word)
    requires Wrap(x', s.w) != Wrap(x, s.w) || Wrap(y', s.h) != Wrap(y, s.h)
    ensures Get(Put(s, x, y, p), x', y') == Get(s, x', y')
  {
    var a, b := Wrap(x, s.w), Wrap(y, s.h);
    var a', b' := Wrap(x', s.w), Wrap(y', s.h);
    RowMajor(a, b, s.w);
    RowMajor(a', b', s.w);
    assert Index(s, x, y) != Index(s, x', y');
  }

  /** Within the surface, a put at (x, y) leaves every other pixel's read
      unchanged. */
  lemma GetAfterPutInRange(s: Surface, x: int, y: int, x': int, y': int, p: Word)
    requires 0 <= x < s.w && 0 <= y < s.h && 0 <= x' < s.w && 0 <= y' < s.h
    requires (x', y') != (x, y)
    ensures Get(Put(s, x, y, p), x', y') == Get(s, x', y')
  {
    ModSmall(x, s.w);
    ModSmall(y, s.h);
    ModSmall(x', s.w);
    ModSmall(y', s.h);
    GetAfterPutOther(s, x, y, x', y', p);
  }

  /** A put at a wrapped coordinate equals a put at its normalised coordinate. */
  lemma PutWrapped(s: Surface, x: int, y: int, p: Word)
    ensures Put(s, x, y, p) == Put(s, Wrap(x, s.w), Wrap(y, s.h), p)
  {
    assert Wrap(Wrap(x, s.w), s.w) == Wrap(x, s.w);
    assert Wrap(Wrap(y, s.h), s.h) == Wrap(y, s.h);
    assert Index(s, x, y) == Index(s, Wrap(x, s.w), Wrap(y, s.h));
  }

  /** In range, `putPixel` as written stores exactly `Put`'s word, and its
      read-back self-check finds `p | 0xff000000`, so it never warns. */
  lemma PutAsWrittenInRange(s: Surface, x: int, y: int, p: Word)
    requires 0 <= x < s.w && 0 <= y < s.h
    ensures PutPixelAsWritten(s, x, y, p) == Some(Put(s, x, y, p))
    ensures GetPixelAsWritten(Put(s, x, y, p), x, y) == Some(p | OPAQUE)
  {
    var i := y * s.w + x;
    assert 0 <= i < |s.pixels| by {
      IndexInBounds(s.w, s.h, x, y);
    }
    assert Index(s, x, y) == i by {
      ModSmall(x, s.w);
      ModSmall(y, s.h);
    }
    assert RawIndex(s, x, y) == i;
    var t := Put(s, x, y, p);
    assert t.pixels == s.pixels[i := p | OPAQUE];
    assert RawIndex(t, x, y) == i;
  }
}
