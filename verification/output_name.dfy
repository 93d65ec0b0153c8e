/** Command-line handling in main.cpp that the synthesis depends on: forcing
    the texton diameter odd, and stripping the input path down to the base
    name used for the output file. */
module OutputNames {
  import opened Surfaces


  /** The texton diameter after `if (textonDiameter % 2 == 0)
      textonDiameter++;`, with C's truncating remainder: it is odd, it is
      the given diameter exactly when that one is already odd, and it is
      never more than one larger. */
  function OddDiameter(d: int): (r: int)
    ensures r % 2 == 1
    ensures r == d <==> d % 2 == 1
    ensures d <= r <= d + 1
  {
    if CRem(d, 2) == 0 then d + 1 else d
  }

  /** The largest index k <= i with path[k] == c, or -1. */
  function LastUpTo(path: string, c: char, i: int): (k: int)
    requires -1 <= i < |path|
    ensures -1 <= k <= i && (k >= 0 ==> path[k] == c)
    ensures forall j :: k < j <= i && 0 <= j ==> path[j] != c
    decreases i + 1
  {
    if i < 0 then -1
    else if path[i] == c then i
    else
      var k := LastUpTo(path, c, i - 1);
      assert forall j :: k < j <= i && 0 <= j ==> path[j] != c by {
        assert path[i] != c;
      }
      k
  }

  /** The last index of c in path, or -1. */
  function LastIndex(path: string, c: char): int {
    LastUpTo(path, c, |path| - 1)
  }

  /** The downward scan over path[i], path[i-1], ..., path[0]. A '/' moves
      `start` past it when its index exceeds `start` (or equals it, when
      `inclusive`); a '.' moves `end` onto it when its index exceeds `end`. */
  function ScanFrom(path: string, i: int, start: int, end: int, inclusive: bool): (int, int)
    requires -1 <= i < |path|
    decreases i + 1
  {
    if i < 0 then (start, end)
    else
      var start' := if path[i] == '/' && (i > start || (inclusive && i == start)) then i + 1 else start;
      var end' := if path[i] == '.' && i > end then i else end;
      ScanFrom(path, i - 1, start', end', inclusive)
  }

  /** (start, end) as the program computes them. */
  function BoundsAsWritten(path: string): (int, int) {
    ScanFrom(path, |path| - 1, 0, 0, false)
  }

  /** (start, end) with a leading '/' also skipped. */
  function Bounds(path: string): (int, int) {
    ScanFrom(path, |path| - 1, 0, 0, true)
  }

  /** The copy loop: path[start..end], empty when end <= start. */
  function Slice(path: string, b: (int, int)): string
    requires 0 <= b.0 && b.1 <= |path|
  {
    if b.0 < b.1 then path[b.0..b.1] else []
  }

  // ---------------------------------------------------------------------
  // Properties
  // ---------------------------------------------------------------------

  lemma {:induction false} ScanStart(path: string, i: int, s: int, e: int, inclusive: bool)
    requires -1 <= i < |path|
    requires s == 0 || s > i + 1
    ensures var k := LastUpTo(path, '/', i);
      ScanFrom(path, i, s, e, inclusive).0
        == if s > 0 then s else if k > 0 || (inclusive && k == 0) then k + 1 else 0
    decreases i + 1
  {
    if i >= 0 {
      var s' := if path[i] == '/' && (i > s || (inclusive && i == s)) then i + 1 else s;
      var e' := if path[i] == '.' && i > e then i else e;
      ScanStart(path, i - 1, s', e', inclusive);
    }
  }

  lemma {:induction false} ScanEnd(path: string, i: int, s: int, e: int, inclusive: bool)
    requires -1 <= i < |path|
    requires e == 0 || e > i
    ensures var k := LastUpTo(path, '.', i);
      ScanFrom(path, i, s, e, inclusive).1 == if e > 0 then e else if k > 0 then k else 0
    decreases i + 1
  {
    if i >= 0 {
      var s' := if path[i] == '/' && (i > s || (inclusive && i == s)) then i + 1 else s;
      var e' := if path[i] == '.' && i > e then i else e;
      ScanEnd(path, i - 1, s', e', inclusive);
    }
  }

  /** As written, `start` is one past the last '/' only when that '/' is not
      at index 0, and `end` is the last '.' only when it is not at index 0. */
  lemma BoundsAsWrittenCharacterised(path: string)
    ensures var b, slash, dot := BoundsAsWritten(path), LastIndex(path, '/'), LastIndex(path, '.');
      && b.0 == (if slash > 0 then slash + 1 else 0)
      && b.1 == (if dot > 0 then dot else 0)
  {
    ScanStart(path, |path| - 1, 0, 0, false);
    ScanEnd(path, |path| - 1, 0, 0, false);
  }

  /** With the corrected guard, `start` is one past the last '/', or 0 when
      there is none; `end` is unchanged. */
  lemma BoundsCharacterised(path: string)
    ensures var b, slash, dot := Bounds(path), LastIndex(path, '/'), LastIndex(path, '.');
      && b.0 == slash + 1
      && b.1 == (if dot > 0 then dot else 0)
  {
    ScanStart(path, |path| - 1, 0, 0, true);
    ScanEnd(path, |path| - 1, 0, 0, true);
  }

  /** `stripped` as the program builds it. */
  function StrippedAsWritten(path: string): (r: string)
    ensures |r| < 256 || |path| > 256
  {
    BoundsAsWrittenCharacterised(path);
    Slice(path, BoundsAsWritten(path))
  }

  /** The stripped name with a leading '/' skipped like any other. */
  function Stripped(path: string): (r: string)
    ensures |r| < 256 || |path| > 256
  {
    BoundsCharacterised(path);
    Slice(path, Bounds(path))
  }

  /** As written, the name has no '/' except possibly a first character
      copied from a path that starts with '/'. */
  lemma StrippedAsWrittenSlashOnlyFirst(path: string, k: int)
    requires 0 <= k < |StrippedAsWritten(path)|
    ensures StrippedAsWritten(path)[k] == '/' ==> k == 0 && path[0] == '/'
  {
    BoundsAsWrittenCharacterised(path);
  }

  /** The corrected name never contains '/', and is exactly the text after
      the last '/' up to the last '.', when that '.' comes later. */
  lemma StrippedHasNoSlash(path: string)
    ensures forall k :: 0 <= k < |Stripped(path)| ==> Stripped(path)[k] != '/'
    ensures var slash, dot := LastIndex(path, '/'), LastIndex(path, '.');
      slash + 1 < dot ==> Stripped(path) == path[slash + 1..dot]
  {
    BoundsCharacterised(path);
  }

  /** The name is empty exactly when the last '.' does not come after the
      first character of the base name: no extension, a leading-dot name, or
      a last '.' inside a directory component. */
  lemma StrippedEmptyIff(path: string)
    ensures Stripped(path) == [] <==> LastIndex(path, '.') <= LastIndex(path, '/') + 1
  {
    BoundsCharacterised(path);
  }

  /** On a path without a leading '/', both computations agree. */
  lemma AsWrittenAgreesWithoutLeadingSlash(path: string)
    requires |path| == 0 || path[0] != '/' || LastIndex(path, '/') > 0
    ensures StrippedAsWritten(path) == Stripped(path)
  {
    BoundsAsWrittenCharacterised(path);
    BoundsCharacterised(path);
  }

  /** "/tex.png" keeps its '/': the as-written name is "/tex". */
  lemma LeadingSlashCounterexample()
    ensures StrippedAsWritten("/tex.png") == "/tex"
    ensures Stripped("/tex.png") == "tex"
  {
    var p := "/tex.png";
    assert LastIndex(p, '/') == 0 by {
      assert p[0] == '/';
      assert LastUpTo(p, '/', 0) == 0;
    }
    assert LastIndex(p, '.') == 4 by {
      assert p[4] == '.';
    }
    BoundsAsWrittenCharacterised(p);
    BoundsCharacterised(p);
    assert p[0..4] == "/tex";
    assert p[1..4] == "tex";
  }
}
