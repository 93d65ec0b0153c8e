/** The exhaustive neighbourhood search of `checkRows` and `findBestMatch`
    (tex_syn.cpp), over an arbitrary score and colour per candidate pixel.
    Workers each scan a band of rows; their local winners are then published
    to the shared best in thread order. */
module Search {
  import opened Arith
  import opened Surfaces

  /** A candidate pixel (x, y) of the input level. */
  type Cand = (int, int)

  /** A best-so-far record: score, coordinates and colour. */
  datatype Best = Best(score: real, x: int, y: int, colour: Word)

  /** `TEX_SYN_THREADS`. */
  const Threads: int := 22

  /** A worker's initial record; the first candidate always replaces it. */
  const LocalStart: Best := Best(99999999.9, 0, 0, 0)

  /** The caller's initial record: a worker publishes only a score below it. */
  const SharedStart: Best := Best(999999999.9, 0, 0, 0)

  // ---------------------------------------------------------------------
  // Candidates
  // ---------------------------------------------------------------------

  /** Row y of a w-column level, left to right. */
  function Row(y: int, w: nat): (r: seq<Cand>)
    ensures |r| == w
  {
    seq(w, x requires 0 <= x < w => (x, y))
  }

  /** Rows y0 .. y1-1 in raster order. */
  function Rows(y0: int, y1: int, w: nat): (r: seq<Cand>)
    decreases y1 - y0
  {
    if y0 >= y1 then [] else Row(y0, w) + Rows(y0 + 1, y1, w)
  }

  lemma {:induction false} RowsSplit(a: int, b: int, c: int, w: nat)
    requires a <= b <= c
    ensures Rows(a, c, w) == Rows(a, b, w) + Rows(b, c, w)
    decreases b - a
  {
    if a < b {
      RowsSplit(a + 1, b, c, w);
    }
  }

  /** The band holds exactly the pixels of rows [y0, y1). */
  lemma {:induction false} RowsMembership(y0: int, y1: int, w: nat, c: Cand)
    ensures c in Rows(y0, y1, w) <==> y0 <= c.1 < y1 && 0 <= c.0 < w
    decreases y1 - y0
  {
    if y0 < y1 {
      RowsMembership(y0 + 1, y1, w, c);
      if c.1 == y0 && 0 <= c.0 < w {
        assert Row(y0, w)[c.0] == c;
      }
    }
  }

  lemma {:induction false} RowsNonEmpty(y0: int, y1: int, w: nat)
    requires y0 < y1 && w >= 1
    ensures |Rows(y0, y1, w)| >= 1 && Rows(y0, y1, w)[0] == (0, y0)
  {
    assert Row(y0, w)[0] == (0, y0);
  }

  // ---------------------------------------------------------------------
  // One worker
  // ---------------------------------------------------------------------

  /** The record for candidate c. */
  function Found(c: Cand, score: Cand -> real, colour: Cand -> Word): Best {
    Best(score(c), c.0, c.1, colour(c))
  }

  /** A later candidate replaces the record only with a strictly lower score. */
  function Consider(b: Best, c: Cand, score: Cand -> real, colour: Cand -> Word): Best {
    if score(c) < b.score then Found(c, score, colour) else b
  }

  /** The worker loop as written: the first candidate sets the score, but the
      coordinates stay (0, 0) and the colour is read at pixel (0, 0). */
  function ScanAsWritten(cs: seq<Cand>, score: Cand -> real, colour: Cand -> Word): Best
    decreases |cs|
  {
    if |cs| == 0 then LocalStart
    else if |cs| == 1 then Best(score(cs[0]), 0, 0, colour((0, 0)))
    else Consider(ScanAsWritten(cs[..|cs| - 1], score, colour), cs[|cs| - 1], score, colour)
  }

  /** The worker loop with the first candidate recorded like any other. */
  function Scan(cs: seq<Cand>, score: Cand -> real, colour: Cand -> Word): Best
    decreases |cs|
  {
    if |cs| == 0 then LocalStart
    else if |cs| == 1 then Found(cs[0], score, colour)
    else Consider(Scan(cs[..|cs| - 1], score, colour), cs[|cs| - 1], score, colour)
  }

  /** Index k holds a minimal score and every earlier candidate scores
      strictly higher: the first minimum in scan order. */
  predicate IsFirstMin(cs: seq<Cand>, score: Cand -> real, k: int) {
    && 0 <= k < |cs|
    && (forall j :: 0 <= j < |cs| ==> score(cs[k]) <= score(cs[j]))
    && (forall j :: 0 <= j < k ==> score(cs[k]) < score(cs[j]))
  }

  /** The first minimum of a non-empty candidate list. */
  function FirstMin(cs: seq<Cand>, score: Cand -> real): (k: nat)
    requires |cs| >= 1
    ensures IsFirstMin(cs, score, k)
    decreases |cs|
  {
    if |cs| == 1 then 0
    else
      var pre := cs[..|cs| - 1];
      var k := FirstMin(pre, score);
      assert forall j :: 0 <= j < |pre| ==> pre[j] == cs[j];
      if score(cs[|cs| - 1]) < score(cs[k]) then |cs| - 1 else k
  }

  /** There is only one first minimum. */
  lemma FirstMinUnique(cs: seq<Cand>, score: Cand -> real, k: int, k': int)
    requires IsFirstMin(cs, score, k) && IsFirstMin(cs, score, k')
    ensures k == k'
  {
    assert score(cs[k]) <= score(cs[k']) && score(cs[k']) <= score(cs[k]);
  }

  /** A corrected worker reports its first minimum: score, coordinates and
      colour of the same candidate. */
  lemma {:induction false} ScanFindsFirstMin(cs: seq<Cand>, score: Cand -> real, colour: Cand -> Word)
    requires |cs| >= 1
    ensures Scan(cs, score, colour) == Found(cs[FirstMin(cs, score)], score, colour)
    decreases |cs|
  {
    if |cs| > 1 {
      ScanFindsFirstMin(cs[..|cs| - 1], score, colour);
    }
  }

  /** The worker as written differs from the corrected one exactly when its
      winner is its first candidate: then it reports (0, 0) and the colour of
      pixel (0, 0). */
  lemma {:induction false} ScanAsWrittenVersusScan(cs: seq<Cand>, score: Cand -> real, colour: Cand -> Word)
    requires |cs| >= 1
    ensures ScanAsWritten(cs, score, colour)
      == if FirstMin(cs, score) == 0 then Best(score(cs[0]), 0, 0, colour((0, 0)))
         else Scan(cs, score, colour)
    decreases |cs|
  {
    if |cs| > 1 {
      var pre := cs[..|cs| - 1];
      ScanAsWrittenVersusScan(pre, score, colour);
      ScanFindsFirstMin(pre, score, colour);
      assert pre[0] == cs[0];
    }
  }

  /** A band that starts at pixel (0, 0) is scanned correctly as written. */
  lemma ScanAsWrittenExactFromOrigin(cs: seq<Cand>, score: Cand -> real, colour: Cand -> Word)
    requires |cs| >= 1 && cs[0] == (0, 0)
    ensures ScanAsWritten(cs, score, colour) == Scan(cs, score, colour)
  {
    ScanAsWrittenVersusScan(cs, score, colour);
    ScanFindsFirstMin(cs, score, colour);
  }

  // ---------------------------------------------------------------------
  // Publishing and combining
  // ---------------------------------------------------------------------

  /** The publish loop: the shared record is overwritten only by a strictly
      lower score. */
  function Publish(shared: Best, local: Best): (r: Best)
    ensures r == shared || r == local
    ensures r.score <= shared.score && r.score <= local.score
    ensures r != shared ==> local.score < shared.score
  {
    if local.score < shared.score then local else shared
  }

  lemma PublishAssociative(s: Best, a: Best, b: Best)
    ensures Publish(Publish(s, a), b) == Publish(s, Publish(a, b))
  {
  }

  /** Whichever of two workers publishes first, the final score is the same;
      only on a tie can the reported pixel depend on the order. */
  lemma PublishOrderScore(s: Best, a: Best, b: Best)
    ensures Publish(Publish(s, a), b).score == Publish(Publish(s, b), a).score
    ensures a.score != b.score ==> Publish(Publish(s, a), b) == Publish(Publish(s, b), a)
  {
  }

  /** Scanning a concatenation is publishing the second scan's winner over the
      first's. */
  lemma {:induction false} ScanConcat(c1: seq<Cand>, c2: seq<Cand>, score: Cand -> real, colour: Cand -> Word)
    requires |c1| >= 1 && |c2| >= 1
    ensures Scan(c1 + c2, score, colour) == Publish(Scan(c1, score, colour), Scan(c2, score, colour))
    decreases |c2|
  {
    var c := c1 + c2;
    assert c[..|c| - 1] == c1 + c2[..|c2| - 1];
    if |c2| > 1 {
      ScanConcat(c1, c2[..|c2| - 1], score, colour);
      PublishAssociative(Scan(c1, score, colour), Scan(c2[..|c2| - 1], score, colour), Found(c2[|c2| - 1], score, colour));
    }
  }

  // ---------------------------------------------------------------------
  // Bands of rows
  // ---------------------------------------------------------------------

  /** A band of rows [from, to). */
  type Band = (int, int)

  /** The bands are non-empty, consecutive and cover [a, b) exactly. */
  predicate Tiles(bands: seq<Band>, a: int, b: int) {
    && |bands| >= 1
    && bands[0].0 == a
    && bands[|bands| - 1].1 == b
    && (forall t :: 0 <= t < |bands| ==> bands[t].0 < bands[t].1)
    && (forall t :: 0 <= t < |bands| - 1 ==> bands[t].1 == bands[t + 1].0)
  }

  /** The rows the bands scan, in thread order. */
  function Scanned(bands: seq<Band>, w: nat): seq<Cand>
    decreases |bands|
  {
    if |bands| == 0 then [] else Rows(bands[0].0, bands[0].1, w) + Scanned(bands[1..], w)
  }

  /** Tiling bands scan exactly the pixels of rows [a, b), in raster order. */
  lemma {:induction false} ScannedTiles(bands: seq<Band>, a: int, b: int, w: nat)
    requires Tiles(bands, a, b)
    ensures a < b && Scanned(bands, w) == Rows(a, b, w)
    decreases |bands|
  {
    if |bands| == 1 {
      assert Scanned(bands[1..], w) == [];
    } else {
      var m := bands[0].1;
      assert Tiles(bands[1..], m, b) by {
        assert forall t :: 0 <= t < |bands| - 1 ==> bands[1..][t] == bands[t + 1];
      }
      ScannedTiles(bands[1..], m, b, w);
      RowsSplit(a, m, b, w);
    }
  }

  /** All workers run, then publish in thread order. */
  function Reduce(shared: Best, bands: seq<Band>, w: nat, scan: seq<Cand> -> Best): Best
    decreases |bands|
  {
    if |bands| == 0 then shared
    else Reduce(Publish(shared, scan(Rows(bands[0].0, bands[0].1, w))), bands[1..], w, scan)
  }

  /** Over tiling bands, the corrected workers together find what one worker
      scanning all of [a, b) finds. */
  lemma {:induction false} ReduceTiles(s: Best, bands: seq<Band>, a: int, b: int, w: nat, score: Cand -> real, colour: Cand -> Word)
    requires w >= 1 && Tiles(bands, a, b)
    ensures a < b
    ensures Reduce(s, bands, w, cs => Scan(cs, score, colour)) == Publish(s, Scan(Rows(a, b, w), score, colour))
    decreases |bands|
  {
    var m := bands[0].1;
    var first := Scan(Rows(a, m, w), score, colour);
    if |bands| > 1 {
      assert Tiles(bands[1..], m, b) by {
        assert forall t :: 0 <= t < |bands| - 1 ==> bands[1..][t] == bands[t + 1];
      }
      ReduceTiles(Publish(s, first), bands[1..], m, b, w, score, colour);
      RowsNonEmpty(a, m, w);
      RowsNonEmpty(m, b, w);
      RowsSplit(a, m, b, w);
      ScanConcat(Rows(a, m, w), Rows(m, b, w), score, colour);
      PublishAssociative(s, first, Scan(Rows(m, b, w), score, colour));
    }
  }

  // ---------------------------------------------------------------------
  // Splitting the rows among threads
  // ---------------------------------------------------------------------

  /** `numThreads`: never more threads than rows. */
  function ThreadCount(threads: int, h: int): int {
    if threads <= h then threads else h
  }

  /** The bands as written: every thread gets floor(h / n) rows, and the
      branch meant to hand the remainder to the last thread tests
      `t == numThreads`, which no thread index reaches. Without threads one
      call scans [0, h). */
  function BandsAsWritten(threads: int, h: int): seq<Band> {
    if threads <= 0 then [(0, h)]
    else
      var n := ThreadCount(threads, h);
      var q := if n >= 1 then h / n else 0;
      seq(Max(n, 0), t => if t == n then (q * t, h) else (q * t, q * (t + 1)))
  }

  /** The bands with the remainder given to the last thread. */
  function Bands(threads: int, h: int): seq<Band> {
    if threads <= 0 then [(0, h)]
    else
      var n := ThreadCount(threads, h);
      var q := if n >= 1 then h / n else 0;
      seq(Max(n, 0), t => if t == n - 1 then (q * t, h) else (q * t, q * (t + 1)))
  }

  lemma QuotientBounds(h: int, n: int)
    requires 1 <= n <= h
    ensures 1 <= h / n && n * (h / n) <= h < n * (h / n) + n
  {
    var q, r := h / n, h % n;
    assert h == n * q + r && 0 <= r < n;
    if q < 1 {
      assert false;
    }
  }

  /** Consecutive multiples of q as bands. */
  lemma BandStep(q: int, t: int)
    requires q >= 1 && t >= 0
    ensures q * t < q * (t + 1) && q * (t + 1) == q * t + q && 0 <= q * t
  {
  }

  /** With h >= n threads the corrected bands tile [0, h). */
  lemma BandsTile(threads: int, h: int)
    requires h >= 1
    ensures Tiles(Bands(threads, h), 0, h)
  {
    if threads > 0 {
      var n := ThreadCount(threads, h);
      var q := h / n;
      var bands := Bands(threads, h);
      QuotientBounds(h, n);
      forall t | 0 <= t < |bands|
        ensures bands[t].0 < bands[t].1
      {
        BandStep(q, t);
        if t == n - 1 {
          assert q * t + q == q * n;
        }
      }
      forall t | 0 <= t < |bands| - 1
        ensures bands[t].1 == bands[t + 1].0
      {
        BandStep(q, t);
      }
      assert bands[0].0 == 0 by {
        assert q * 0 == 0;
      }
    }
  }

  /** As written, the bands tile only [0, n * floor(h / n)): the last h mod n
      rows are never searched. */
  lemma BandsAsWrittenTile(threads: int, h: int)
    requires h >= 1 && threads >= 1
    ensures var n := ThreadCount(threads, h);
      Tiles(BandsAsWritten(threads, h), 0, n * (h / n)) && n * (h / n) <= h
  {
    var n := ThreadCount(threads, h);
    var q := h / n;
    var bands := BandsAsWritten(threads, h);
    QuotientBounds(h, n);
    forall t | 0 <= t < |bands|
      ensures bands[t] == (q * t, q * (t + 1)) && bands[t].0 < bands[t].1
    {
      BandStep(q, t);
    }
    assert bands[0].0 == 0 by {
      assert q * 0 == 0;
    }
    assert bands[n - 1].1 == n * q by {
      assert q * (n - 1 + 1) == n * q;
    }
  }

  // ---------------------------------------------------------------------
  // findBestMatch
  // ---------------------------------------------------------------------

  /** `findBestMatch` as written, on a w x h level. */
  function FindBestMatchAsWritten(threads: int, w: nat, h: int, score: Cand -> real, colour: Cand -> Word): Word {
    Reduce(SharedStart, BandsAsWritten(threads, h), w, cs => ScanAsWritten(cs, score, colour)).colour
  }

  /** `findBestMatch` with the remainder rows searched and each worker
      recording its first candidate faithfully. */
  function FindBestMatch(threads: int, w: nat, h: int, score: Cand -> real, colour: Cand -> Word): Word {
    Reduce(SharedStart, Bands(threads, h), w, cs => Scan(cs, score, colour)).colour
  }

  /** The corrected search returns the colour of the first pixel in raster
      order with the least score, whatever the thread count, as long as that
      score is below the caller's initial bound; otherwise colour 0. */
  lemma FindBestMatchIsFirstMin(threads: int, w: nat, h: int, score: Cand -> real, colour: Cand -> Word)
    requires w >= 1 && h >= 1
    ensures var all := Rows(0, h, w);
      |all| >= 1 &&
      var c := all[FirstMin(all, score)];
      FindBestMatch(threads, w, h, score, colour) == if score(c) < SharedStart.score then colour(c) else 0
  {
    var all := Rows(0, h, w);
    RowsNonEmpty(0, h, w);
    BandsTile(threads, h);
    ReduceTiles(SharedStart, Bands(threads, h), 0, h, w, score, colour);
    ScanFindsFirstMin(all, score, colour);
  }

  /** With threads switched off the search as written is already correct. */
  lemma SingleThreadAsWrittenIsExact(threads: int, w: nat, h: int, score: Cand -> real, colour: Cand -> Word)
    requires threads <= 0 && w >= 1 && h >= 1
    ensures FindBestMatchAsWritten(threads, w, h, score, colour) == FindBestMatch(threads, w, h, score, colour)
  {
    var all := Rows(0, h, w);
    RowsNonEmpty(0, h, w);
    ScanAsWrittenExactFromOrigin(all, score, colour);
    assert [(0, h)][1..] == [];
    assert Reduce(SharedStart, [(0, h)], w, cs => ScanAsWritten(cs, score, colour))
      == Publish(SharedStart, ScanAsWritten(all, score, colour));
    assert Reduce(SharedStart, [(0, h)], w, cs => Scan(cs, score, colour))
      == Publish(SharedStart, Scan(all, score, colour));
  }
  /** As written, exactly the pixels of rows [0, n * floor(h / n)) are handed
      to a thread; with h mod n rows left over, the bottom rows are skipped. */
  lemma AsWrittenScansOnlyFullBands(threads: int, w: nat, h: int, c: Cand)
    requires h >= 1 && threads >= 1
    ensures var n := ThreadCount(threads, h);
      c in Scanned(BandsAsWritten(threads, h), w) <==> 0 <= c.1 < n * (h / n) && 0 <= c.0 < w
  {
    var n := ThreadCount(threads, h);
    BandsAsWrittenTile(threads, h);
    ScannedTiles(BandsAsWritten(threads, h), 0, n * (h / n), w);
    RowsMembership(0, n * (h / n), w, c);
  }

  /** Colour r is 0, pixel (0, 0)'s, or the colour of a candidate in cs. */
  predicate ColourOf(r: Word, cs: seq<Cand>, colour: Cand -> Word) {
    r == 0 || r == colour((0, 0)) || exists c :: c in cs && r == colour(c)
  }

  /** A colour of some candidates is a colour of any list containing them. */
  lemma ColourOfWider(r: Word, cs: seq<Cand>, cs': seq<Cand>, colour: Cand -> Word)
    requires ColourOf(r, cs, colour) && forall c :: c in cs ==> c in cs'
    ensures ColourOf(r, cs', colour)
  {
    if c :| c in cs && r == colour(c) {
      assert c in cs';
    }
  }

  /** A worker as written reports colour 0 when idle, and otherwise the
      colour of pixel (0, 0) or of one of its candidates. */
  lemma ScanAsWrittenColour(cs: seq<Cand>, score: Cand -> real, colour: Cand -> Word)
    ensures ColourOf(ScanAsWritten(cs, score, colour).colour, cs, colour)
  {
    if |cs| >= 1 {
      ScanAsWrittenVersusScan(cs, score, colour);
      ScanFindsFirstMin(cs, score, colour);
      var k := FirstMin(cs, score);
      assert k != 0 ==> ScanAsWritten(cs, score, colour).colour == colour(cs[k]);
    }
  }

  /** Publishing the workers as written over `shared` leaves the shared
      colour, 0, pixel (0, 0)'s colour, or the colour of a scanned pixel. */
  lemma {:induction false} ReduceAsWrittenColour(shared: Best, bands: seq<Band>, w: nat, score: Cand -> real, colour: Cand -> Word)
    ensures var r := Reduce(shared, bands, w, cs => ScanAsWritten(cs, score, colour)).colour;
      r == shared.colour || ColourOf(r, Scanned(bands, w), colour)
    decreases |bands|
  {
    if |bands| > 0 {
      var cs, rest := Rows(bands[0].0, bands[0].1, w), Scanned(bands[1..], w);
      var local := ScanAsWritten(cs, score, colour);
      var next := Publish(shared, local);
      var r := Reduce(next, bands[1..], w, cs => ScanAsWritten(cs, score, colour)).colour;
      assert Scanned(bands, w) == cs + rest;
      ReduceAsWrittenColour(next, bands[1..], w, score, colour);
      if r == next.colour && next == local {
        ScanAsWrittenColour(cs, score, colour);
        ColourOfWider(r, cs, cs + rest, colour);
      } else if r != shared.colour {
        ColourOfWider(r, rest, cs + rest, colour);
      }
    }
  }

  /** As written, `findBestMatch` on a w x h level returns 0 or the colour
      of some pixel of the level: pixel (0, 0), or a pixel a thread scanned. */
  lemma FindBestMatchAsWrittenFromLevel(threads: int, w: nat, h: int, score: Cand -> real, colour: Cand -> Word)
    requires w >= 1 && h >= 1
    ensures var r := FindBestMatchAsWritten(threads, w, h, score, colour);
      r == 0 || exists x, y :: 0 <= x < w && 0 <= y < h && r == colour((x, y))
  {
    var bands := BandsAsWritten(threads, h);
    var r := FindBestMatchAsWritten(threads, w, h, score, colour);
    ReduceAsWrittenColour(SharedStart, bands, w, score, colour);
    assert ColourOf(r, Scanned(bands, w), colour);
    if r == colour((0, 0)) {
      assert 0 <= 0 < w && 0 <= 0 < h;
    } else if c :| c in Scanned(bands, w) && r == colour(c) {
      if threads >= 1 {
        AsWrittenScansOnlyFullBands(threads, w, h, c);
        BandsAsWrittenTile(threads, h);
      } else {
        assert Scanned(bands, w) == Rows(0, h, w) + Scanned([], w);
        RowsMembership(0, h, w, c);
      }
      assert 0 <= c.0 < w && 0 <= c.1 < h && r == colour((c.0, c.1));
    }
  }

  /** The corrected bands hand every pixel of the level to some thread. */
  lemma ScansEveryPixel(threads: int, w: nat, h: int, c: Cand)
    requires h >= 1
    ensures c in Scanned(Bands(threads, h), w) <==> 0 <= c.1 < h && 0 <= c.0 < w
  {
    BandsTile(threads, h);
    ScannedTiles(Bands(threads, h), 0, h, w);
    RowsMembership(0, h, w, c);
  }

  /** Two threads on a one-column, three-row level: the only perfect match is
      in row 2, which no thread searches as written. */
  lemma RemainderRowCounterexample()
    ensures FindBestMatchAsWritten(2, 1, 3, (c: Cand) => if c.1 == 2 then 0.0 else 1.0, (c: Cand) => if c == (0, 2) then 1 else 0) == 0
    ensures FindBestMatch(2, 1, 3, (c: Cand) => if c.1 == 2 then 0.0 else 1.0, (c: Cand) => if c == (0, 2) then 1 else 0) == 1
  {
    var score: Cand -> real := (c: Cand) => if c.1 == 2 then 0.0 else 1.0;
    var colour: Cand -> Word := (c: Cand) => if c == (0, 2) then 1 else 0;
    assert BandsAsWritten(2, 3) == [(0, 1), (1, 2)];
    assert Rows(0, 1, 1) == [(0, 0)] && Rows(1, 2, 1) == [(0, 1)];
    var first := Best(1.0, 0, 0, 0);
    assert ScanAsWritten([(0, 0)], score, colour) == first;
    assert ScanAsWritten([(0, 1)], score, colour) == first;
    assert [(0, 1), (1, 2)][1..] == [(1, 2)] && [(1, 2)][1..] == [];
    assert Reduce(SharedStart, [(0, 1), (1, 2)], 1, cs => ScanAsWritten(cs, score, colour))
      == Publish(Publish(SharedStart, first), first);
    var all := Rows(0, 3, 1);
    assert all == [(0, 0), (0, 1), (0, 2)];
    FindBestMatchIsFirstMin(2, 1, 3, score, colour);
    assert IsFirstMin(all, score, 2);
    FirstMinUnique(all, score, 2, FirstMin(all, score));
  }

  /** Two threads on a one-column, two-row level: thread 1's only candidate
      (0, 1) is the best match, but as written its colour is read at (0, 0). */
  lemma OriginColourCounterexample()
    ensures FindBestMatchAsWritten(2, 1, 2, (c: Cand) => if c.1 == 1 then 0.0 else 1.0, (c: Cand) => if c == (0, 1) then 7 else 3) == 3
    ensures FindBestMatch(2, 1, 2, (c: Cand) => if c.1 == 1 then 0.0 else 1.0, (c: Cand) => if c == (0, 1) then 7 else 3) == 7
  {
    var score: Cand -> real := (c: Cand) => if c.1 == 1 then 0.0 else 1.0;
    var colour: Cand -> Word := (c: Cand) => if c == (0, 1) then 7 else 3;
    assert BandsAsWritten(2, 2) == [(0, 1), (1, 2)];
    assert Rows(0, 1, 1) == [(0, 0)] && Rows(1, 2, 1) == [(0, 1)];
    assert ScanAsWritten([(0, 0)], score, colour) == Best(1.0, 0, 0, 3);
    assert ScanAsWritten([(0, 1)], score, colour) == Best(0.0, 0, 0, 3);
    assert [(0, 1), (1, 2)][1..] == [(1, 2)] && [(1, 2)][1..] == [];
    assert Reduce(SharedStart, [(0, 1), (1, 2)], 1, cs => ScanAsWritten(cs, score, colour))
      == Publish(Publish(SharedStart, Best(1.0, 0, 0, 3)), Best(0.0, 0, 0, 3));
    var all := Rows(0, 2, 1);
    assert all == [(0, 0), (0, 1)];
    FindBestMatchIsFirstMin(2, 1, 2, score, colour);
    assert IsFirstMin(all, score, 1);
    FirstMinUnique(all, score, 1, FirstMin(all, score));
  }
}
