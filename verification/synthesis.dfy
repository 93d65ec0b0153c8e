/** The synthesis driver (`textureSynthesis` and its use of `findBestMatch`,
    tex_syn.cpp): both pyramids, the hood index, and the coarse-to-fine
    raster loop that writes every output pixel. */
module Synthesis {
  import opened Arith
  import opened Surfaces
  import opened Pyramids
  import opened Hoods
  import opened HoodFields
  import opened Similarity
  import opened Search
  import opened Schedules

  /** The run's parameters: texton diameter, channel weights, the number
      of search threads, and whether the search runs as written or with the
      remainder rows and first-candidate record corrected. */
  datatype Config = Config(diameter: nat, weights: Weights, threads: int, searchAsWritten: bool)

  /** The score of candidate c: the distance between its index hood and the
      query hood. Candidates outside the level have no hood; the search never
      asks for one. */
  function HoodScore(field: Field, l: nat, query: Hood, w: Weights, c: Cand): real
    requires WellShaped(field)
  {
    match GetHood(field, l, c.0, c.1)
    case Some(hd) => Match(hd, query, w)
    case None => 0.0
  }

  function Scorer(field: Field, l: nat, query: Hood, w: Weights): Cand -> real
    requires WellShaped(field)
  {
    (c: Cand) => HoodScore(field, l, query, w, c)
  }

  /** A candidate's colour: the exemplar level's pixel at the candidate. */
  function Colourer(level: Surface): Cand -> Word {
    (c: Cand) => Get(level, c.0, c.1)
  }

  /** The colour `findBestMatch` picks for output pixel (x, y) on level l:
      the query hood read from the output pyramid, matched against the index
      hoods of exemplar level l, by the search as written or the corrected
      one. */
  function BestColour(cfg: Config, field: Field, inP: Pyramid, outP: Pyramid, l: nat, x: int, y: int): Word
    requires WellShaped(field) && |inP.levels| >= 1 && |outP.levels| >= 1
  {
    var query := HoodAt(outP, l, x, y, cfg.diameter);
    var level := GetLevel(inP, l);
    var score, colour := Scorer(field, l, query, cfg.weights), Colourer(level);
    if cfg.searchAsWritten then FindBestMatchAsWritten(cfg.threads, level.w, level.h, score, colour)
    else FindBestMatch(cfg.threads, level.w, level.h, score, colour)
  }

  /** An output word made from an exemplar pixel: some pixel of `ex` with
      alpha forced, or opaque black when no candidate beat the initial
      bound. */
  predicate FromExemplar(p: Word, ex: Surface) {
    p == OPAQUE || exists x, y :: 0 <= x < ex.w && 0 <= y < ex.h && p == Get(ex, x, y) | OPAQUE
  }

  /** Writing a chosen colour stores a word made from the exemplar. */
  lemma StoredWordFromExemplar(c: Word, ex: Surface)
    requires c == 0 || exists x, y :: 0 <= x < ex.w && 0 <= y < ex.h && c == Get(ex, x, y)
    ensures FromExemplar(c | OPAQUE, ex)
  {
    if c != 0 {
      var x, y :| 0 <= x < ex.w && 0 <= y < ex.h && c == Get(ex, x, y);
      assert c | OPAQUE == Get(ex, x, y) | OPAQUE;
    }
  }

  /** Dimensions of each level. */
  function Dims(p: Pyramid): (d: seq<(nat, nat)>)
    ensures |d| == |p.levels|
    ensures forall i :: 0 <= i < |p.levels| ==> d[i] == (p.levels[i].w, p.levels[i].h)
  {
    seq(|p.levels|, i requires 0 <= i < |p.levels| => (p.levels[i].w as nat, p.levels[i].h as nat))
  }

  // ---------------------------------------------------------------------
  // Properties of one search
  // ---------------------------------------------------------------------

  /** The colour chosen for an output pixel is a pixel of the exemplar level
      being matched, or 0, by either search. */
  lemma BestColourFromExemplar(cfg: Config, field: Field, inP: Pyramid, outP: Pyramid, l: nat, x: int, y: int)
    requires WellShaped(field) && |inP.levels| >= 1 && |outP.levels| >= 1
    ensures var ex, c := GetLevel(inP, l), BestColour(cfg, field, inP, outP, l, x, y);
      c == 0 || exists x', y' :: 0 <= x' < ex.w && 0 <= y' < ex.h && c == Get(ex, x', y')
  {
    var ex := GetLevel(inP, l);
    var score := Scorer(field, l, HoodAt(outP, l, x, y, cfg.diameter), cfg.weights);
    if cfg.searchAsWritten {
      FindBestMatchAsWrittenFromLevel(cfg.threads, ex.w, ex.h, score, Colourer(ex));
    } else {
      FindBestMatchIsFirstMin(cfg.threads, ex.w, ex.h, score, Colourer(ex));
      var all := Rows(0, ex.h, ex.w);
      var k := FirstMin(all, score);
      RowsMembership(0, ex.h, ex.w, all[k]);
    }
  }

  /** With threads switched off the two searches pick the same colour. */
  lemma SingleThreadSearchesAgree(cfg: Config, field: Field, inP: Pyramid, outP: Pyramid, l: nat, x: int, y: int)
    requires WellShaped(field) && |inP.levels| >= 1 && |outP.levels| >= 1 && cfg.threads <= 0
    ensures BestColour(cfg, field, inP, outP, l, x, y)
      == BestColour(cfg.(searchAsWritten := !cfg.searchAsWritten), field, inP, outP, l, x, y)
  {
    var ex := GetLevel(inP, l);
    var score := Scorer(field, l, HoodAt(outP, l, x, y, cfg.diameter), cfg.weights);
    SingleThreadAsWrittenIsExact(cfg.threads, ex.w, ex.h, score, Colourer(ex));
  }

  /** The input pyramid is built with the output pyramid's level count, so
      every index hood the search compares has exactly the query hood's
      length, and the size-mismatch warning in `match` cannot fire. */
  lemma QueryAndIndexHoodsAgree(input: Surface, outP: Pyramid, l: nat, x: int, y: int, cx: int, cy: int, d: nat,
                                down: Surface -> Surface, gauss: Surface -> Surface)
    requires |outP.levels| >= 1 && l < |outP.levels|
    ensures var inP := Build(input, |outP.levels|, false, down, gauss);
      |inP.levels| == |outP.levels| &&
      var ex := inP.levels[l];
      (0 <= cx < ex.w && 0 <= cy < ex.h ==>
        && GetHood(BuildField(inP, d), l, cx, cy).Some?
        && |GetHood(BuildField(inP, d), l, cx, cy).value| == |HoodAt(outP, l, x, y, d)|)
  {
    var inP := Build(input, |outP.levels|, false, down, gauss);
    GetHoodOfBuild(inP, d, l, cx, cy);
  }

  // ---------------------------------------------------------------------
  // The driver
  // ---------------------------------------------------------------------

  /** A colour choice for pixel (x, y) of the level being written, made
      from the levels as they stand. */
  type Picker = (seq<Surface>, int, int) -> Word

  /** The driver's choice on output level l: `findBestMatch` against the
      output pyramid as it stands. */
  function Picks(cfg: Config, field: Field, inP: Pyramid, l: nat): Picker
    requires WellShaped(field) && |inP.levels| >= 1
  {
    (ls: seq<Surface>, x: int, y: int) => if |ls| >= 1 then BestColour(cfg, field, inP, Pyramid(ls), l, x, y) else 0
  }

  /** Every choice is 0 or a pixel of `ex`. */
  ghost predicate PicksFromExemplar(pick: Picker, ex: Surface) {
    forall ls, x, y :: pick(ls, x, y) == 0
      || exists x', y' :: 0 <= x' < ex.w && 0 <= y' < ex.h && pick(ls, x, y) == Get(ex, x', y')
  }

  /** The search only ever picks from the exemplar level it matches. */
  lemma SearchPicksFromExemplar(cfg: Config, field: Field, inP: Pyramid, l: nat)
    requires WellShaped(field) && |inP.levels| >= 1
    ensures PicksFromExemplar(Picks(cfg, field, inP, l), GetLevel(inP, l))
  {
    forall ls: seq<Surface>, x: int, y: int | |ls| >= 1 {
      BestColourFromExemplar(cfg, field, inP, Pyramid(ls), l, x, y);
    }
  }

  /** One pixel write: pixel (x, y) of level l replaced by the picked colour. */
  function Step(pick: Picker, levels: seq<Surface>, l: nat, x: int, y: int): seq<Surface>
    requires l < |levels|
  {
    levels[l := Put(levels[l], x, y, pick(levels, x, y))]
  }

  /** The levels after pixels 0 .. n - 1 of row y were written in turn, each
      choice seeing the writes before it. */
  function RowWrites(pick: Picker, levels: seq<Surface>, l: nat, y: int, n: nat): (r: seq<Surface>)
    requires l < |levels|
    ensures |r| == |levels|
    decreases n
  {
    if n == 0 then levels
    else Step(pick, RowWrites(pick, levels, l, y, n - 1), l, n - 1, y)
  }

  /** The levels after rows 0 .. n - 1 of level l were written in turn, each
      across the level's width. */
  function LevelWrites(pick: Picker, levels: seq<Surface>, l: nat, n: nat): (r: seq<Surface>)
    requires l < |levels|
    ensures |r| == |levels|
    decreases n
  {
    if n == 0 then levels
    else RowWrites(pick, LevelWrites(pick, levels, l, n - 1), l, n - 1, levels[l].w)
  }

  /** Writing pixels 0 .. n - 1 of row y keeps every level's size and leaves
      the other levels, the other rows and the pixels not yet reached
      alone. */
  lemma {:induction false} RowWritesFacts(pick: Picker, levels: seq<Surface>, l: nat, y: int, n: nat)
    requires l < |levels| && 0 <= y < levels[l].h && n <= levels[l].w
    ensures var r := RowWrites(pick, levels, l, y, n);
      && (forall i :: 0 <= i < |levels| && i != l ==> r[i] == levels[i])
      && r[l].w == levels[l].w && r[l].h == levels[l].h
      && (forall x', y' :: 0 <= x' < levels[l].w && 0 <= y' < levels[l].h && (y' != y || n <= x') ==>
            Get(r[l], x', y') == Get(levels[l], x', y'))
    decreases n
  {
    if n > 0 {
      var prev := RowWrites(pick, levels, l, y, n - 1);
      RowWritesFacts(pick, levels, l, y, n - 1);
      var x, s := n - 1, prev[l];
      var c := pick(prev, x, y);
      var r := RowWrites(pick, levels, l, y, n);
      assert r[l] == Put(s, x, y, c);
      forall x', y' | 0 <= x' < s.w && 0 <= y' < s.h && (x', y') != (x, y)
        ensures Get(r[l], x', y') == Get(s, x', y')
      {
        GetAfterPutInRange(s, x, y, x', y', c);
      }
    }
  }

  /** When the choices come from `ex`, writing pixels 0 .. n - 1 of row y
      stores a word made from `ex` in each of them. */
  lemma {:induction false} RowWritesFromExemplar(pick: Picker, ex: Surface, levels: seq<Surface>, l: nat, y: int, n: nat)
    requires l < |levels| && 0 <= y < levels[l].h && n <= levels[l].w
    requires PicksFromExemplar(pick, ex)
    ensures var r := RowWrites(pick, levels, l, y, n);
      forall x' :: 0 <= x' < n ==> FromExemplar(Get(r[l], x', y), ex)
    decreases n
  {
    if n > 0 {
      var prev := RowWrites(pick, levels, l, y, n - 1);
      RowWritesFromExemplar(pick, ex, levels, l, y, n - 1);
      RowWritesFacts(pick, levels, l, y, n - 1);
      var x, s := n - 1, prev[l];
      var c := pick(prev, x, y);
      var r := RowWrites(pick, levels, l, y, n);
      assert r[l] == Put(s, x, y, c);
      GetAfterPut(s, x, y, c);
      StoredWordFromExemplar(c, ex);
      forall x' | 0 <= x' < x
        ensures Get(r[l], x', y) == Get(s, x', y)
      {
        GetAfterPutInRange(s, x, y, x', y, c);
      }
    }
  }

  /** Writing rows 0 .. n - 1 of level l keeps every level's size, leaves the
      other levels alone, and, when the choices come from `ex`, stores a word
      made from `ex` in every pixel of those rows. */
  lemma {:induction false} LevelWritesFacts(pick: Picker, ex: Surface, levels: seq<Surface>, l: nat, n: nat)
    requires l < |levels| && n <= levels[l].h
    ensures var r := LevelWrites(pick, levels, l, n);
      && (forall i :: 0 <= i < |levels| && i != l ==> r[i] == levels[i])
      && r[l].w == levels[l].w && r[l].h == levels[l].h
      && (PicksFromExemplar(pick, ex) ==>
            forall x', y' :: 0 <= x' < levels[l].w && 0 <= y' < n ==> FromExemplar(Get(r[l], x', y'), ex))
    decreases n
  {
    if n > 0 {
      var prev := LevelWrites(pick, levels, l, n - 1);
      LevelWritesFacts(pick, ex, levels, l, n - 1);
      RowWritesFacts(pick, prev, l, n - 1, levels[l].w);
      if PicksFromExemplar(pick, ex) {
        RowWritesFromExemplar(pick, ex, prev, l, n - 1, levels[l].w);
      }
    }
  }

  /** Every pixel of a level synthesised with the search holds a word made
      from the exemplar level it was matched against. */
  lemma SynthesizedLevelFromExemplar(cfg: Config, field: Field, inP: Pyramid, levels: seq<Surface>, l: nat)
    requires WellShaped(field) && |inP.levels| >= 1 && l < |levels|
    ensures var r := LevelWrites(Picks(cfg, field, inP, l), levels, l, levels[l].h);
      forall x, y :: 0 <= x < r[l].w && 0 <= y < r[l].h ==> FromExemplar(Get(r[l], x, y), GetLevel(inP, l))
  {
    SearchPicksFromExemplar(cfg, field, inP, l);
    LevelWritesFacts(Picks(cfg, field, inP, l), GetLevel(inP, l), levels, l, levels[l].h);
  }

  /** One step of the raster loop, `putPixel(curLevel, x, y, c)` on output
      level l, with c the picker's choice (`findBestMatch` in the driver):
      the pixel holds the choice with alpha forced and nothing else
      changes. */
  method WritePixel(pick: Picker, levels: seq<Surface>, l: nat, x: int, y: int)
    returns (r: seq<Surface>)
    requires l < |levels| && 0 <= x < levels[l].w && 0 <= y < levels[l].h
    ensures |r| == |levels|
    ensures forall i :: 0 <= i < |levels| && i != l ==> r[i] == levels[i]
    ensures r[l] == Put(levels[l], x, y, pick(levels, x, y))
    ensures r[l].w == levels[l].w && r[l].h == levels[l].h
    ensures Get(r[l], x, y) == pick(levels, x, y) | OPAQUE
    ensures forall x', y' :: 0 <= x' < r[l].w && 0 <= y' < r[l].h && (x', y') != (x, y) ==>
      Get(r[l], x', y') == Get(levels[l], x', y')
  {
    var c := pick(levels, x, y);
    var s := levels[l];
    r := levels[l := Put(s, x, y, c)];
    GetAfterPut(s, x, y, c);
    forall x', y' | 0 <= x' < s.w && 0 <= y' < s.h && (x', y') != (x, y)
      ensures Get(r[l], x', y') == Get(s, x', y')
    {
      GetAfterPutInRange(s, x, y, x', y', c);
    }
  }

  /** Synthesises row y of output level l left to right: the result is the
      row of writes `RowWrites`, each choice made against the levels as they
      stand at that moment. */
  method SynthesizeRow(pick: Picker, levels: seq<Surface>, l: nat, y: int)
    returns (r: seq<Surface>, visits: seq<Visit>)
    requires l < |levels| && 0 <= y < levels[l].h
    ensures r == RowWrites(pick, levels, l, y, levels[l].w)
    ensures visits == RowPrefix(l, y, levels[l].w)
  {
    r := levels;
    visits := [];
    var W := levels[l].w;
    var x := 0;
    while x < W
      invariant 0 <= x <= W
      invariant r == RowWrites(pick, levels, l, y, x)
      invariant visits == RowPrefix(l, y, x)
    {
      RowWritesFacts(pick, levels, l, y, x);
      var prev := r;
      r := WritePixel(pick, r, l, x, y);
      assert r == Step(pick, prev, l, x, y);
      RowPrefixSnoc(l, y, x);
      visits := visits + [Visit(l, x, y)];
      x := x + 1;
    }
  }

  /** Synthesises output level l row by row, top to bottom: the result is
      the sequence of row writes `LevelWrites`. */
  method SynthesizeLevel(pick: Picker, levels: seq<Surface>, l: nat)
    returns (r: seq<Surface>, visits: seq<Visit>)
    requires l < |levels|
    ensures r == LevelWrites(pick, levels, l, levels[l].h)
    ensures visits == LevelRows(l, levels[l].w, levels[l].h)
    ensures |r| == |levels|
    ensures forall i :: 0 <= i < |levels| && i != l ==> r[i] == levels[i]
    ensures r[l].w == levels[l].w && r[l].h == levels[l].h
  {
    r := levels;
    visits := [];
    var W, H := levels[l].w, levels[l].h;
    var y := 0;
    while y < H
      invariant 0 <= y <= H
      invariant r == LevelWrites(pick, levels, l, y)
      invariant visits == LevelRows(l, W, y)
    {
      LevelWritesFacts(pick, levels[l], levels, l, y);
      var row;
      r, row := SynthesizeRow(pick, r, l, y);
      visits := visits + row;
      y := y + 1;
    }
    LevelWritesFacts(pick, levels[l], levels, l, H);
  }

  /** `textureSynthesis(input, w, h)` with the noise image given: levels from
      the coarsest down to 0, each synthesised in raster order and blurred
      afterwards unless it is level 0, which is returned. The trace lists the
      pixel writes in order. */
  method TextureSynthesis(cfg: Config, input: Surface, noise: Surface, down: Surface -> Surface, gauss: Surface -> Surface)
    returns (result: Surface, trace: seq<Visit>)
    ensures result.w == noise.w && result.h == noise.h
    ensures trace == Schedule(Dims(Build(noise, -1, false, down, gauss)))
    ensures forall x, y :: 0 <= x < result.w && 0 <= y < result.h ==> FromExemplar(Get(result, x, y), input)
  {
    var outP := Build(noise, -1, false, down, gauss);
    var n := |outP.levels|;
    var inP := Build(input, n, false, down, gauss);
    var field := BuildField(inP, cfg.diameter);
    var dims := Dims(outP);
    var levels: seq<Surface> := outP.levels;
    trace := [];
    var l := n - 1;
    while l >= 0
      invariant -1 <= l < n
      invariant |levels| == n
      invariant forall i :: 0 <= i <= l ==> levels[i] == outP.levels[i]
      invariant trace == Descending(dims, l + 1)
      invariant l < 0 ==> levels[0].w == noise.w && levels[0].h == noise.h
      invariant l < 0 ==> forall x, y :: 0 <= x < levels[0].w && 0 <= y < levels[0].h ==>
        FromExemplar(Get(levels[0], x, y), input)
    {
      var before := levels;
      var visits;
      levels, visits := SynthesizeLevel(Picks(cfg, field, inP, l), levels, l);
      if l == 0 {
        SynthesizedLevelFromExemplar(cfg, field, inP, before, 0);
      }
      trace := trace + visits;
      if l > 0 {
        levels := levels[l := gauss(levels[l])];
      }
      l := l - 1;
    }
    result := levels[0];
  }
}
