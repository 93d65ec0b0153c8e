# texsyn in Dafny

texsyn synthesises a texture from a small exemplar image. It uses
multi-resolution neighbourhood matching in the style of Wei and Levoy. The
program builds two Gaussian pyramids, one of the exemplar and one of a noise
image of the requested size. It then precomputes a neighbourhood ("hood") for
every pixel of every exemplar level. Finally it rewrites the output pyramid
from the coarsest level to the finest, in raster order. Each output pixel gets
the colour of the exemplar pixel whose hood is closest to the output pixel's
current hood. The search is split across worker threads by rows of the
exemplar level.

This project models that deterministic core as pure functions and small
methods over immutable data:

| module | file | models |
|---|---|---|
| `Surfaces` | surface.dfy | `getPixel`/`putPixel`, both as written and with toroidal addressing |
| `Pyramids` | pyramid.dfy | `gauss_pyramid`: level count, construction, `getLevel`, destructor |
| `Windows` | window.dfy | the sampling walk of `hood::addLevel` |
| `Hoods` | hood.dfy | the `hood` constructor across levels |
| `HoodFields` | hood_field.dfy | `hood_pyramid` and `getHood` |
| `Similarity` | similarity.dfy | `match`, the weighted sum of squared channel differences |
| `Search` | search.dfy | `checkRows` and `findBestMatch`: worker scans, row bands, publication |
| `Schedules` | schedule.dfy | the order in which `textureSynthesis` writes pixels |
| `Synthesis` | synthesis.dfy | `textureSynthesis` itself |
| `OutputNames` | output_name.dfy | `main`'s odd-diameter fix and output-name stripping |

`Arith` and `Options` hold arithmetic helper lemmas and an `Option` type.

A pixel is a 32-bit word `0xAARRGGBB`. A surface is a non-empty `w x h`
row-major buffer of such words. A hood is a sequence of words: `getColor(i)`
is its i-th element and `getColors()` its length. The program is modelled with the two
build switches that its header turns on: multi-resolution synthesis and
weighted colours. The smooth 2x downsample (`zoomSurface`) and
`gaussianBlur` are parameters of type `Surface -> Surface`. The random noise
image is a parameter of the driver.

The driver runs either search. `Config.searchAsWritten` selects `findBestMatch`
as written, or the search with the two corrections listed under Findings.
With either one, every output pixel is an exemplar pixel with alpha forced, or
opaque black.

Where the repository's own description and its code differ, the model follows
the code:

- The chosen colour is read from the exemplar level being matched
  (tex_syn.cpp:121 and tex_syn.cpp:133), not from the finest level.
- Scaled window diameters are `ceil(d / 2^l)`, with no rounding up to an odd
  value (hood.cpp:41).
- The causal level samples `diameter + 1` offsets along the walk that starts
  at the target pixel (hood.cpp:61 and hood.cpp:72-83). This is not half of a
  square window.
- When no worker beats the caller's initial bound, the search returns colour 0
  (tex_syn.cpp:198).
- Publication re-checks nothing after the lock is taken (tex_syn.cpp:143-158).

## Model

| member | source | states |
|---|---|---|
| Surfaces.GetPixelAsWritten | CodeBlocksProject/src/sdl.cpp:154-177 | `getPixel` as written, `None` when the index leaves the buffer. No ensures; characterised by GetInRange, AsWrittenAgreesInWindow, GetAtWidthReadsNextRow, GetAtWidthLastRowOutside and GetBelowMinusWidthOutside. |
| Surfaces.PutPixelAsWritten | CodeBlocksProject/src/sdl.cpp:179-205 | `putPixel` as written. No ensures; characterised by PutAsWrittenInRange. |
| Surfaces.Get | CodeBlocksProject/src/sdl.cpp:154-177 | The corrected toroidal read. No ensures; characterised by GetInRange, GetNegativeWraps, GetBeyondWraps and GetPeriodic. |
| Surfaces.GetInRange | CodeBlocksProject/src/sdl.cpp:154-177 | Inside the surface, `getPixel` returns the word at `y*w + x`, and the toroidal read agrees with it. |
| Surfaces.GetNegativeWraps | CodeBlocksProject/src/sdl.cpp:156-161 | A coordinate in `[-w, 0)` is read at `x + w`, the same word the toroidal read returns. |
| Surfaces.AsWrittenAgreesInWindow | CodeBlocksProject/src/sdl.cpp:154-177 | For `-w <= x < w` and `-h <= y < h`, `getPixel` as written reads inside the buffer and returns the toroidal read. |
| Surfaces.GetBeyondWraps | CodeBlocksProject/src/sdl.cpp:156-161 | A column beyond `w` wraps to `x mod w`, and the source agrees with the toroidal read there. |
| Surfaces.GetAtWidthReadsNextRow | CodeBlocksProject/src/sdl.cpp:156-170 | The guard `x > w` lets `x == w` through unwrapped, so that read returns pixel `(0, y+1)` instead of `(0, y)`. |
| Surfaces.GetAtWidthLastRowOutside | CodeBlocksProject/src/sdl.cpp:156-170 | At the bottom row, or at `y == h`, a read at `x == w` falls past the end of the buffer. |
| Surfaces.GetBelowMinusWidthOutside | CodeBlocksProject/src/sdl.cpp:159-170 | For `-2w < x < -w`, C's remainder stays negative, and on row 0 the index `x + w` falls before the buffer. |
| Surfaces.WrapCounterexample | CodeBlocksProject/src/sdl.cpp:156-170 | On the 2x2 grid 1,2/3,4, `getPixel(2, 0)` returns 3, while toroidal addressing gives 1. |
| Surfaces.NegativeWrapCounterexample | CodeBlocksProject/src/sdl.cpp:159-170 | On the same grid, `getPixel(-3, 0)` computes an index outside the buffer. |
| Surfaces.GetPeriodic | CodeBlocksProject/src/sdl.cpp:156-161 | The corrected read is periodic with period `w` in x and `h` in y, which is the wrap the edge case aims for. |
| Surfaces.Put | CodeBlocksProject/src/sdl.cpp:179-198 | A write keeps the dimensions, stores an opaque word at the target cell, and leaves every other cell unchanged. |
| Surfaces.GetAfterPut | CodeBlocksProject/src/sdl.cpp:188-205 | Reading back a written pixel yields the written word with alpha forced to 0xff. |
| Surfaces.GetAfterPutOther | CodeBlocksProject/src/sdl.cpp:179-198 | A write changes no read of a cell whose wrapped coordinates differ. |
| Surfaces.GetAfterPutInRange | CodeBlocksProject/src/sdl.cpp:179-198 | Inside the surface, a write at `(x, y)` changes no other pixel's read. |
| Surfaces.PutWrapped | CodeBlocksProject/src/sdl.cpp:181-186 | Writing at a wrapped coordinate is the same as writing at its normalised coordinate. |
| Surfaces.PutAsWrittenInRange | CodeBlocksProject/src/sdl.cpp:179-205 | Inside the surface, `putPixel` as written equals the corrected write, and its read-back check finds the written word OR 0xff000000, so it never warns. |
| Pyramids.HalvingCountIsLog2 | CodeBlocksProject/src/gauss_pyramid.cpp:151-152 | The halving loop counts `floor(log2 n)`: `2^t <= n < 2^(t+1)`. |
| Pyramids.AutoLevelsIsLog2 | CodeBlocksProject/src/gauss_pyramid.cpp:147-153 | The automatic height of a `w x h` source is `floor(log2 min(w, h))`. |
| Pyramids.Height | CodeBlocksProject/src/gauss_pyramid.cpp:147-153 | A non-negative level request is used verbatim as the height. A negative one gives the automatic height `t = floor(log2 min(w, h))`, pinned down by `2^t <= min(w, h) < 2^(t+1)`. |
| Pyramids.BuildLevels | CodeBlocksProject/src/gauss_pyramid.cpp:156-173 | The constructor pushes `max(t, 1)` levels: the source first, then each level derived from its predecessor. |
| Pyramids.Build | CodeBlocksProject/src/gauss_pyramid.cpp:140-176 | The pyramid has `max(t, 1)` levels for the chosen height. Level 0 is the caller's surface, and every later level is the downsample of the one before, blurred only when the flag is set. |
| Pyramids.AutoMatchesExplicit | CodeBlocksProject/src/gauss_pyramid.cpp:147-153 | Requesting -1 levels builds the same pyramid as requesting the automatic height explicitly. |
| Pyramids.BuildKeepsSource | CodeBlocksProject/src/gauss_pyramid.h:89-94 | Reconstruction and `getLevel(0)` return the source surface itself, and every pyramid has at least one level. |
| Pyramids.UnblurredLevelsAreDownsamples | CodeBlocksProject/src/gauss_pyramid.cpp:161-173 | Without the blur flag, level i is the source downsampled i times. |
| Pyramids.GetLevel | CodeBlocksProject/src/gauss_pyramid.h:71-81 | `getLevel` always returns a level of the pyramid: level i when it exists, otherwise the last level. |
| Pyramids.Released | CodeBlocksProject/src/gauss_pyramid.cpp:178-184 | The destructor frees exactly levels `1 .. n-1` and never the caller's level 0. |
| Windows.ISqrtIsFloorSqrt | CodeBlocksProject/src/hood.cpp:56 | The half-width before clamping is the integer square root: `s*s <= d < (s+1)*(s+1)`. |
| Windows.Goal | CodeBlocksProject/src/hood.cpp:61-70 | The loop bound `goal`. No ensures; characterised by GoalIsOneExactlyForUnitDiameter and SampleCounts. |
| Windows.HalfWidth | CodeBlocksProject/src/hood.cpp:56-57 | After the clamp, the half-width is never 0. |
| Windows.Side | CodeBlocksProject/src/hood.cpp:65-68 | The full square window is at least 3 pixels wide. |
| Windows.Window | CodeBlocksProject/src/hood.cpp:72-83 | The loop runs `i = 0 .. goal` inclusive, so it visits `goal + 1` offsets. |
| Windows.WalkClosedForm | CodeBlocksProject/src/hood.cpp:72-83 | The k-th offset of the walk in closed form: a column counted mod `2hw+1` from the right, and a row that drops by one each time the column wraps. |
| Windows.GoalIsOneExactlyForUnitDiameter | CodeBlocksProject/src/hood.cpp:70 | The chained test `diameter == halfWidth == 1` fires exactly for diameter 1, and then the goal is 1. |
| Windows.SampleCounts | CodeBlocksProject/src/hood.cpp:61-72 | One level contributes `d + 1` samples when causal, `(2hw+1)^2 + 1` when full, and 2 for diameter 1. |
| Windows.FullWindowAt | CodeBlocksProject/src/hood.cpp:63-83 | The k-th offset of a full window is `(hw - k mod W, hw - k div W)`. |
| Windows.CausalWindowAt | CodeBlocksProject/src/hood.cpp:59-83 | The k-th offset of a causal window, which starts at the target pixel. |
| Windows.SquarePosition | CodeBlocksProject/src/hood.cpp:72-83 | Each offset of the square has exactly one row-major position, counted from the top-right corner. |
| Windows.FullWindowCoversSquare | CodeBlocksProject/src/hood.cpp:63-83 | A full window visits every offset of its `(2hw+1)^2` square, each at the position given by SquarePosition. |
| Windows.FullWindowInSquare | CodeBlocksProject/src/hood.cpp:63-83 | Every offset a full window visits before its last one lies inside the square. |
| Windows.FullWindowExtraSample | CodeBlocksProject/src/hood.cpp:72 | The inclusive bound makes a full window read one extra pixel at `(+hw, -hw-1)`, outside its square. |
| Windows.CausalWindowPrecedesTarget | CodeBlocksProject/src/hood.cpp:59-83 | A causal window starts at offset `(0, 0)`. Every offset lies on a row above, or on the target's row and not to its right, within `hw` columns of the target. |
| Hoods.AddLevel | CodeBlocksProject/src/hood.cpp:53-84 | `addLevel` appends `goal + 1` samples. |
| Hoods.LevelSamples | CodeBlocksProject/src/hood.cpp:36-44 | The samples one level adds to a hood. No ensures; characterised by AddLevelLength and HoodEndsWithCausalLevel. |
| Hoods.HoodAt | CodeBlocksProject/src/hood.cpp:22-51 | The `hood` constructor. The length of a hood (`getColors`) is HoodLength of the level count, curL and the diameter. It never depends on the position or the pixels, so two hoods built at the same level of pyramids with equally many levels have equal length. |
| Hoods.ScaledDiameterIsCeiling | CodeBlocksProject/src/hood.cpp:40-41 | The window diameter at level l is `ceil(d / 2^l)`, and it is at least 1 whenever d is. |
| Hoods.ScaleIsFloor | CodeBlocksProject/src/hood.cpp:40-44 | For coordinates `x >= 0`, the centre at level l is `floor(x / 2^l)`. |
| Hoods.AddLevelLength | CodeBlocksProject/src/hood.cpp:53-84 | Each level adds the closed-form sample count. |
| Hoods.HoodFrom | CodeBlocksProject/src/hood.cpp:29-48 | The level loop from l down to curL. The samples it concatenates number the sum of the levels' closed-form counts (CountFrom), proved from the recursive call's contract and AddLevelLength. |
| Hoods.HoodEndsWithCausalLevel | CodeBlocksProject/src/hood.cpp:31-44 | A hood ends with the samples of its own level: the causal window, centred at the scaled coordinates. |
| Hoods.HoodFromEndsWithCausalLevel | CodeBlocksProject/src/hood.cpp:31-47 | Every suffix of the level loop still ends with the causal window of level curL. |
| Hoods.HoodStartsWithCoarsestLevel | CodeBlocksProject/src/hood.cpp:31-44 | Below the top level, a hood starts with the full window of the coarsest level. |
| Hoods.CausalSampleIsVisited | CodeBlocksProject/src/hood.cpp:59-83 | Each causal sample is the pixel at an offset on a row above, or on the target's row and not to its right. When that offset stays inside the surface, the sample's raster index is at most the target's, so it is an already written pixel or the target itself. Near the left or top edge the wrapped read can reach a pixel not yet written. |
| HoodFields.BuildLevel | CodeBlocksProject/src/hood.cpp:119-135 | The table of one level has `w` columns of `h` hoods each. |
| HoodFields.BuildField | CodeBlocksProject/src/hood.cpp:108-137 | `hood_pyramid` holds one well-shaped table per pyramid level. |
| HoodFields.GetHood | CodeBlocksProject/src/hood.h:81-99 | `getHood` returns a hood exactly when the coordinates lie inside the clamped level, and a null pointer otherwise. |
| HoodFields.GetHoodOfBuild | CodeBlocksProject/src/hood.h:81-99 | A lookup in a built field returns the hood of that pixel at the clamped level, and nothing outside that level. |
| HoodFields.BuiltHoodsHaveEqualLength | CodeBlocksProject/src/hood.cpp:108-137 | All hoods of one level of the field have the same length, the closed-form hood length. |
| Similarity.Red | CodeBlocksProject/src/tex_syn.cpp:46-53 | The red channel of a pixel is a byte. |
| Similarity.Green | CodeBlocksProject/src/tex_syn.cpp:46-53 | The green channel of a pixel is a byte. |
| Similarity.Blue | CodeBlocksProject/src/tex_syn.cpp:46-53 | The blue channel of a pixel is a byte. |
| Similarity.SampleDistanceSelf | CodeBlocksProject/src/tex_syn.cpp:59-62 | One sample pair contributes nothing when both are the same pixel. |
| Similarity.SampleDistanceSymmetric | CodeBlocksProject/src/tex_syn.cpp:59-62 | One sample pair's contribution does not depend on the order of the pair. |
| Similarity.SampleDistanceNonNegative | CodeBlocksProject/src/tex_syn.cpp:59-62 | With non-negative weights, one sample pair's contribution is never negative. |
| Similarity.SampleDistanceZeroIff | CodeBlocksProject/src/tex_syn.cpp:59-62 | With positive weights, a pair contributes zero exactly when its red, green and blue agree. |
| Similarity.MatchUpToSymmetric | CodeBlocksProject/src/tex_syn.cpp:35-69 | Every partial sum of the loop is symmetric. |
| Similarity.MatchUpToSelf | CodeBlocksProject/src/tex_syn.cpp:35-69 | Every partial sum of a hood against itself is zero. |
| Similarity.MatchUpToNonNegative | CodeBlocksProject/src/tex_syn.cpp:35-69 | Every partial sum is non-negative for non-negative weights. |
| Similarity.MatchUpToZeroIff | CodeBlocksProject/src/tex_syn.cpp:35-69 | A partial sum is zero exactly when every pair summed so far has equal colours. |
| Similarity.Match | CodeBlocksProject/src/tex_syn.cpp:30-70 | `match`. No ensures; characterised by MatchSelfIsZero, MatchSymmetric, MatchNonNegative, MatchZeroIffSameColours and MatchIgnoresExtraSamples. |
| Similarity.MatchSelfIsZero | CodeBlocksProject/src/tex_syn.cpp:30-70 | A hood matches itself with distance 0. |
| Similarity.MatchSymmetric | CodeBlocksProject/src/tex_syn.cpp:30-70 | `match(a, b) == match(b, a)`. |
| Similarity.MatchNonNegative | CodeBlocksProject/src/tex_syn.cpp:30-70 | With non-negative weights, `match` is never negative. |
| Similarity.MatchZeroIffSameColours | CodeBlocksProject/src/tex_syn.cpp:30-70 | With positive weights, `match` is zero exactly when every compared pair has the same RGB. Alpha never counts. |
| Similarity.MatchUpToPrefix | CodeBlocksProject/src/tex_syn.cpp:35-69 | The first n terms depend only on the first n samples of each hood. |
| Similarity.MatchIgnoresExtraSamples | CodeBlocksProject/src/tex_syn.cpp:32-36 | Samples beyond the shorter hood never change the distance. |
| Search.RowsSplit | CodeBlocksProject/src/tex_syn.cpp:108-111 | Scanning rows `[a, c)` is scanning `[a, b)` and then `[b, c)`. |
| Search.RowsMembership | CodeBlocksProject/src/tex_syn.cpp:108-111 | The worker's loops enumerate exactly the pixels of rows `[by, ey)` and columns `[0, w)`. |
| Search.RowsNonEmpty | CodeBlocksProject/src/tex_syn.cpp:108-113 | A non-empty band's first candidate is `(0, by)`. |
| Search.ScanAsWritten | CodeBlocksProject/src/tex_syn.cpp:104-136 | `checkRows`' worker loop as written. No ensures; characterised by ScanAsWrittenVersusScan and ScanAsWrittenColour. |
| Search.Scan | CodeBlocksProject/src/tex_syn.cpp:104-136 | The corrected worker loop. No ensures; characterised by ScanFindsFirstMin and ScanConcat. |
| Search.FirstMin | CodeBlocksProject/src/tex_syn.cpp:125-134 | A non-empty list has a first minimum: a least score with every earlier score strictly higher. |
| Search.FirstMinUnique | CodeBlocksProject/src/tex_syn.cpp:125-134 | The first minimum is unique. |
| Search.ScanFindsFirstMin | CodeBlocksProject/src/tex_syn.cpp:104-136 | The corrected worker reports the score, coordinates and colour of its first minimum, because only a strictly lower score replaces the record. |
| Search.ScanAsWrittenVersusScan | CodeBlocksProject/src/tex_syn.cpp:115-134 | The worker as written differs from the corrected one exactly when its first candidate wins. It then reports `(0, 0)` and the colour of pixel `(0, 0)`. |
| Search.ScanAsWrittenExactFromOrigin | CodeBlocksProject/src/tex_syn.cpp:115-124 | A band that starts at pixel `(0, 0)` is scanned correctly as written. |
| Search.Publish | CodeBlocksProject/src/tex_syn.cpp:143-173 | Publishing leaves the shared record or the local one, whichever has the lower score. The shared record wins ties. |
| Search.PublishAssociative | CodeBlocksProject/src/tex_syn.cpp:143-173 | Publishing two results in turn is the same as publishing the better of the two. |
| Search.PublishOrderScore | CodeBlocksProject/src/tex_syn.cpp:143-173 | The final shared score does not depend on the order in which workers publish, and without a tie neither does the whole record. |
| Search.ScanConcat | CodeBlocksProject/src/tex_syn.cpp:104-173 | Scanning two bands and publishing the second winner over the first equals one scan of both. |
| Search.ScannedTiles | CodeBlocksProject/src/tex_syn.cpp:220-236 | Bands that tile `[a, b)` scan exactly rows `[a, b)` in raster order. |
| Search.ReduceTiles | CodeBlocksProject/src/tex_syn.cpp:220-250 | Over tiling bands, the workers together find what one worker scanning all the rows finds. |
| Search.QuotientBounds | CodeBlocksProject/src/tex_syn.cpp:211-215 | With at most h threads, every thread gets at least one row, and `n * floor(h/n)` falls short of h by less than n. |
| Search.BandsAsWritten | CodeBlocksProject/src/tex_syn.cpp:211-229 | The row bands as written. No ensures; characterised by BandsAsWrittenTile and AsWrittenScansOnlyFullBands. |
| Search.Bands | CodeBlocksProject/src/tex_syn.cpp:211-229 | The row bands with the remainder given to the last thread. No ensures; characterised by BandsTile and ScansEveryPixel. |
| Search.BandsTile | CodeBlocksProject/src/tex_syn.cpp:211-229 | When the last thread takes the remainder, the bands tile `[0, h)`. |
| Search.BandsAsWrittenTile | CodeBlocksProject/src/tex_syn.cpp:211-229 | As written, the bands tile only `[0, n * floor(h/n))`. |
| Search.FindBestMatchAsWritten | CodeBlocksProject/src/tex_syn.cpp:190-266 | `findBestMatch` as written. No ensures; characterised by FindBestMatchAsWrittenFromLevel, SingleThreadAsWrittenIsExact, RemainderRowCounterexample and OriginColourCounterexample. |
| Search.FindBestMatch | CodeBlocksProject/src/tex_syn.cpp:190-266 | The corrected `findBestMatch`. No ensures; characterised by FindBestMatchIsFirstMin. |
| Search.FindBestMatchIsFirstMin | CodeBlocksProject/src/tex_syn.cpp:190-266 | For any thread count, the corrected search returns the colour of the first pixel in raster order with the least score, or 0 when that score does not beat the initial bound. |
| Search.ScanAsWrittenColour | CodeBlocksProject/src/tex_syn.cpp:104-136 | A worker as written reports colour 0 when idle, and otherwise the colour of pixel `(0, 0)` or of one of its candidates. |
| Search.ReduceAsWrittenColour | CodeBlocksProject/src/tex_syn.cpp:143-173 | After the workers as written publish, the shared colour is the initial one, 0, pixel `(0, 0)`'s, or that of a scanned pixel. |
| Search.FindBestMatchAsWrittenFromLevel | CodeBlocksProject/src/tex_syn.cpp:190-266 | As written, `findBestMatch` returns 0 or the colour of some pixel of the level, whatever the thread count. |
| Search.SingleThreadAsWrittenIsExact | CodeBlocksProject/src/tex_syn.cpp:259-260 | With threads switched off, the search as written already equals the corrected one. |
| Search.AsWrittenScansOnlyFullBands | CodeBlocksProject/src/tex_syn.cpp:215-229 | As written, a pixel is searched exactly when its row is below `n * floor(h/n)`. |
| Search.ScansEveryPixel | CodeBlocksProject/src/tex_syn.cpp:211-236 | With the remainder handed out, every pixel of the level is searched by some thread. |
| Search.RemainderRowCounterexample | CodeBlocksProject/src/tex_syn.cpp:223-229 | Two threads on a 1x3 level: the only perfect match is in row 2, which the search as written never looks at. |
| Search.OriginColourCounterexample | CodeBlocksProject/src/tex_syn.cpp:115-124 | Two threads on a 1x2 level: thread 1 wins with its first candidate `(0, 1)`, yet as written it publishes the colour of `(0, 0)`. |
| Schedules.RowPrefixSnoc | CodeBlocksProject/src/tex_syn.cpp:299-311 | Each iteration of the x loop appends the visit of pixel `(x, y)`. |
| Schedules.LevelRowsFacts | CodeBlocksProject/src/tex_syn.cpp:295-317 | One level's writes are exactly its pixels, in strict raster order. |
| Schedules.DescendingFacts | CodeBlocksProject/src/tex_syn.cpp:287-326 | The writes from level lo up are ordered coarsest first, and they hold exactly the pixels of those levels. |
| Schedules.ScheduleVisitsEachPixelOnce | CodeBlocksProject/src/tex_syn.cpp:284-327 | Every pixel of every output level is written exactly once, coarsest level first, in raster order within a level. Nothing else is written. |
| Synthesis.BestColour | CodeBlocksProject/src/tex_syn.cpp:190-266 | `findBestMatch(inHoods, inPyramid, outPyramid, l, x, y)`: the query hood is matched over exemplar level l, by the search as written or the corrected one, as `Config` selects. No ensures; characterised by BestColourFromExemplar and SingleThreadSearchesAgree. |
| Synthesis.StoredWordFromExemplar | CodeBlocksProject/src/sdl.cpp:188-189 | Writing an exemplar colour or 0 stores that pixel with alpha forced, or opaque black. |
| Synthesis.BestColourFromExemplar | CodeBlocksProject/src/tex_syn.cpp:190-266 | With either search, as written or corrected, the colour chosen for an output pixel is 0 or a pixel of the exemplar level being matched. |
| Synthesis.SingleThreadSearchesAgree | CodeBlocksProject/src/tex_syn.cpp:259-260 | With threads switched off, the driver picks the same colour whether the search runs as written or corrected. |
| Synthesis.SearchPicksFromExemplar | CodeBlocksProject/src/tex_syn.cpp:305-306 | Every choice the driver's search makes on level l, against any state of the output levels, is 0 or a pixel of exemplar level l. |
| Synthesis.QueryAndIndexHoodsAgree | CodeBlocksProject/src/tex_syn.cpp:277-281 | The exemplar pyramid gets the output pyramid's level count, so every candidate hood has the query hood's length and `match` never sees a size mismatch. |
| Synthesis.Picks | CodeBlocksProject/src/tex_syn.cpp:305-306 | The driver's colour choice on level l: `findBestMatch` against the output levels as they stand. No ensures; characterised by SearchPicksFromExemplar. |
| Synthesis.RowWrites | CodeBlocksProject/src/tex_syn.cpp:299-310 | One row pass as a fold of pixel writes, each choice seeing the writes before it. It keeps the number of levels. Characterised by RowWritesFacts and RowWritesFromExemplar; SynthesizeRow equals it. |
| Synthesis.LevelWrites | CodeBlocksProject/src/tex_syn.cpp:295-317 | One level pass as a fold of row passes over rows `0 .. h-1`. It keeps the number of levels. Characterised by LevelWritesFacts; SynthesizeLevel equals it. |
| Synthesis.WritePixel | CodeBlocksProject/src/tex_syn.cpp:305-309 | One step stores the chosen colour, with alpha forced, at `(x, y)` of level l. No other pixel and no other level changes. In the driver the choice is `findBestMatch`'s, through `Picks`. |
| Synthesis.RowWritesFacts | CodeBlocksProject/src/tex_syn.cpp:299-310 | Writing the first n pixels of a row keeps every size and changes no other level, no other row, and no pixel not yet reached. |
| Synthesis.RowWritesFromExemplar | CodeBlocksProject/src/tex_syn.cpp:299-310 | When every choice comes from the exemplar, every written pixel of the row holds an exemplar word. |
| Synthesis.LevelWritesFacts | CodeBlocksProject/src/tex_syn.cpp:295-317 | Writing the first n rows keeps every size and changes no other level. When every choice comes from the exemplar, every pixel of those rows holds an exemplar word. |
| Synthesis.SynthesizedLevelFromExemplar | CodeBlocksProject/src/tex_syn.cpp:295-317 | After a level pass with the search's choices, every pixel of the level holds a word made from the exemplar level. |
| Synthesis.SynthesizeRow | CodeBlocksProject/src/tex_syn.cpp:299-311 | A row pass equals `RowWrites`: pixels `0 .. w-1` are written in turn, each with the colour chosen against the levels as they stand after the earlier writes. It visits the row left to right. |
| Synthesis.SynthesizeLevel | CodeBlocksProject/src/tex_syn.cpp:295-317 | A level pass equals `LevelWrites`, the row passes for rows `0 .. h-1` in turn. It visits the level in raster order, keeps every size and changes no other level. |
| Synthesis.TextureSynthesis | CodeBlocksProject/src/tex_syn.cpp:268-340 | The result has the noise image's size. Pixels are written in the schedule's order. Every result pixel is an exemplar pixel with alpha forced, or opaque black. |
| OutputNames.OddDiameter | CodeBlocksProject/src/main.cpp:60-63 | The diameter becomes odd; an odd diameter (negative ones included, under C's `%`) is kept, and an even one grows by exactly 1. |
| OutputNames.BoundsAsWritten | CodeBlocksProject/src/main.cpp:149-158 | `(start, end)` as the program computes them. No ensures; characterised by BoundsAsWrittenCharacterised. |
| OutputNames.Bounds | CodeBlocksProject/src/main.cpp:149-158 | `(start, end)` with a leading '/' also skipped. No ensures; characterised by BoundsCharacterised. |
| OutputNames.ScanStart | CodeBlocksProject/src/main.cpp:152-155 | The downward scan leaves `start` one past the last '/' among the remaining indices, except when that '/' is at index 0. |
| OutputNames.ScanEnd | CodeBlocksProject/src/main.cpp:152-158 | The downward scan leaves `end` at the last '.' among the remaining indices, except when that '.' is at index 0. |
| OutputNames.BoundsAsWrittenCharacterised | CodeBlocksProject/src/main.cpp:149-158 | As written, `start` is one past the last '/' unless that '/' is at index 0, and `end` is the last '.' unless it is at index 0. |
| OutputNames.BoundsCharacterised | CodeBlocksProject/src/main.cpp:149-158 | With the slash guard corrected, `start` is one past the last '/', or 0 when there is none. |
| OutputNames.StrippedAsWritten | CodeBlocksProject/src/main.cpp:149-162 | For a path of at most 256 characters, the stripped name and its terminator fit the 256-byte buffer. |
| OutputNames.Stripped | CodeBlocksProject/src/main.cpp:149-162 | The corrected name fits the buffer under the same condition. |
| OutputNames.StrippedAsWrittenSlashOnlyFirst | CodeBlocksProject/src/main.cpp:154-162 | As written, the name contains a '/' only as its first character, copied from a path that starts with '/'. |
| OutputNames.StrippedHasNoSlash | CodeBlocksProject/src/main.cpp:149-162 | The corrected name never contains '/'. When it is non-empty, it is the text between the last '/' and the last '.'. |
| OutputNames.StrippedEmptyIff | CodeBlocksProject/src/main.cpp:159-162 | The corrected name is empty exactly when the last '.' is not after the first character of the base name: no extension, or a '.' inside a directory. |
| OutputNames.AsWrittenAgreesWithoutLeadingSlash | CodeBlocksProject/src/main.cpp:149-162 | Unless the only '/' is a leading one, the name as written equals the corrected name. |
| OutputNames.LeadingSlashCounterexample | CodeBlocksProject/src/main.cpp:154-155 | "/tex.png" strips to "/tex" as written, and to "tex" once corrected. |

## Left out

- Blurring and downsampling: the blur (`gaussianBlur`, with its float kernel and byte accumulation) and the smooth downsample (`zoomSurface`) are not modelled. Both are parameters, because they are floating-point and foreign code. The blur's early return for a radius of 0 or less is part of that parameter.
- Channel decoding: `SDL_GetRGB` is modelled as byte extraction from `0xAARRGGBB`. The display format is assumed to be that 32-bit layout.
- Floating point: `pow`, `ceil`, `sqrt` and the `double` sum in `match` are modelled with exact integers and reals. `floor(float(h) / numThreads)` is modelled as integer division.
- Windows.ISqrtIsFloorSqrt: states the exact integer square root. The source's `(int)sqrt((float)d)` is assumed to round the same way for the diameters that occur.
- Hoods.ScaledDiameterIsCeiling: assumes `ceil(pow(0.5, l) * d)` is exact, which holds while the values fit a float's mantissa.
- Hoods.ScaleIsFloor: assumes `int(pow(0.5, l) * x)` is exact, as above. It states floor only for `x >= 0`, the only coordinates the driver passes.
- Concurrency: threads, the mutex, the spin-until-locked loop and thread creation are not modelled. Workers publish one after another in thread order. Search.PublishOrderScore shows the final score does not depend on that order, but on a tie the reported pixel may.
- Publication race: the source checks a worker's score before taking the lock and does not re-check after it (tex_syn.cpp:143-158). A worker can therefore overwrite a better result published in between. The model publishes atomically.
- Pointers: the `bestHood` pointer, which the callee reassigns without effect, and the `threadData` record are not modelled. The `Best` record keeps score, coordinates and colour.
- Noise: `noisify` is random, so the noise image is a parameter. `createSurface` is not modelled.
- Program shell: the display, event loop, `debug` output, timing, `dump`, `dumpData`, image loading and saving, `SDL_DisplayFormat`, and command-line parsing (`atoi`, `atof`, the argument-count checks) are I/O. The output file name's `sprintf` is left out too; only the stripped name is modelled.
- Unused state: each hood's `color` field and its `formatSurface` are never read by the matching, so they are not modelled.
- Memory management: the deletes and the `hood_pyramid` destructor are not modelled. The `gauss_pyramid` destructor is modelled only as the set of levels it frees.
- Zero-sized surfaces are excluded by the `Surface` type. The source divides by zero on them.
- Hoods.AddLevel: reads samples through the corrected toroidal read `Get` (first row of Findings), not `getPixel` as written. Surfaces.AsWrittenAgreesInWindow shows the two agree for `-w <= x < w` and `-h <= y < h`. Near the right and bottom edges a hood reads at `x + hw >= w`, where they differ.
- Synthesis.BestColour: with `searchAsWritten` set, the search is `findBestMatch` as written. The hoods it compares are still read with the corrected toroidal read, as for Hoods.AddLevel.
- Synthesis.WritePixel: takes the colour choice as a parameter. That the driver's choice is `findBestMatch`'s is stated by `Picks`, which Synthesis.TextureSynthesis passes to every level pass.
- Negative texton diameters: `Config.diameter` is a `nat`. `main` accepts a negative diameter through `atoi` (OutputNames.OddDiameter keeps it odd). hood.cpp:56 then takes the square root of a negative float, and converting that NaN to `int` is undefined behaviour, so such runs are not modelled.
- Synthesis.HoodScore: scores a candidate outside the level as 0.0. The source would dereference a null hood there, but the search never asks for such a candidate.
- Synthesis.TextureSynthesis: states where every output pixel comes from and the order of the writes, not the exact colours. Those depend on the blur and downsample parameters.
- Build switches: the single-resolution build and the unweighted build are not modelled separately. `UnitWeights` gives the unweighted distance.
- Configuration: `TEX_SYN_THREADS` (22) and the channel weights are fields of `Config`, as the command line can override them.

## Findings

| source | as written | input that shows it | evidently intended | confidence | as-written member | corrected member |
|---|---|---|---|---|---|---|
| CodeBlocksProject/src/sdl.cpp:156-161 | The edge test uses `x > w` and `y > h`, and wraps with C's `%`. So `x == w` is read unwrapped from the next row or past the buffer, and for `-2w < x < -w` on row 0 the index `x + w` is negative (GetBelowMinusWidthOutside). Hoods read at `x + hw` near the right edge, so this happens in practice. | 2x2 surface 1,2/3,4: `getPixel(2, 0)` reads 3, not 1; `getPixel(-3, 0)` reads index -1 | Toroidal wrap of both coordinates into `[0, w) x [0, h)` | high; not executed | Surfaces.WrapCounterexample | Surfaces.GetPeriodic |
| CodeBlocksProject/src/tex_syn.cpp:225-229 | The remainder branch tests `t == numThreads`, which the loop `t < numThreads` never reaches. The last `h mod n` rows of the exemplar level are never searched. | 2 threads, 1x3 level whose only perfect match is row 2: returns 0 instead of that pixel's colour | The last thread scans up to `h` | high; not executed | Search.RemainderRowCounterexample | Search.FindBestMatchIsFirstMin |
| CodeBlocksProject/src/tex_syn.cpp:115-124 | A worker's first candidate sets the best score, but the colour is read at pixel `(0, 0)` and the coordinates stay `(0, 0)`. A band that starts at row `by > 0` and whose first pixel wins reports the wrong colour. | 2 threads, 1x2 level where `(0, 1)` matches best: returns `(0, 0)`'s colour 3 instead of 7 | Read the colour at `(sx, sy)` and record `(sx, sy)` | high; not executed | Search.OriginColourCounterexample | Search.ScanFindsFirstMin |
| CodeBlocksProject/src/main.cpp:154-155 | The guard `i > start` never accepts a '/' at index 0. A path whose only '/' is its first character keeps that '/' in the stripped name. The output path then holds a doubled '/', which POSIX path resolution happens to absorb. | "/tex.png" strips to "/tex" | The base name without directory, "tex" | medium; not executed | OutputNames.LeadingSlashCounterexample | OutputNames.StrippedHasNoSlash |
