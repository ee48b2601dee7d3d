# Storyboard builder, modelled in Dafny

The program builds a contact sheet (a grid of thumbnails) for every video
listed in a spreadsheet. It also emits one record per video that succeeds:
an id, the video's name and the path of the preview image. This project
models the integer logic of that pipeline in `test_task.py`:

- **Frame sampler** (`extract_frames`): `frame_sampler.dfy`, module `FrameSampler`.
  A head and a tail of `total // 100 * 5` frames are trimmed. The request is
  refused when it is not positive or exceeds the remaining frames. Otherwise
  the step is `usable // (n - 1)` and the sampler seeks to `offset`,
  `offset + step`, ... (`n` positions). The model returns the seek positions.
  The frames decoded there are not modelled.
- **Grid resolver** (`create_frame_grid`): `grid_resolver.dfy`, module `GridResolver`.
  The requested column count is validated. If it does not divide the frame
  count, the resolver scans up over `c .. c+9` (default `c+10`) and down over
  `c .. 1` (default 1), then takes the nearer result, the upper one on a tie.
  Finally the frames are cut into `len // c` consecutive rows. Frames are a
  generic element type and the grid is a `seq<seq<T>>`.
- **Catalog pass** (`data_processing`): `catalog.dfy`, module `Catalog`.
  The loop over the paths skips a path when the sampler or the grid builder
  fails, and otherwise appends one record. The sampler, the grid builder,
  the name and image-path derivation and the id generator are function
  parameters.

`outcomes.dfy` holds the `Option`/`Result` values. Each failure keeps its
reason, although the program itself returns `None`. `arith.dfy` holds two
facts about multiplication and division.

The loops of `test_task.py` stay loops in the methods `ExtractFrames`,
`DataProcessing` and the two parts of `CreateFrameGrid`. Those two parts are
`ChooseColumns` (the two break-terminated scans) and `SliceRows` (the row
loop). Each method is proved equal to a specification function (`Sample`,
`ResolveColumns`, `Rows`, `Records(Processed(..))`), and the lemmas state
what those functions guarantee.

Behaviour of the code worth knowing:

- **Last seek position.** It is at most `total - offset`, and it equals
  `total - offset` whenever `n - 1` divides the usable count: with 100
  frames and 16 samples the last position is 95.
- **Short videos.** Below 100 frames nothing is trimmed. The last seek then
  lands on index `total`, one past the last frame, exactly when `n - 1`
  divides `total` (`SeekLandsOnTotal`). The pass's own request of 16 frames
  reaches this: videos of 30, 45, 60, 75 or 90 frames end on index `total`
  (`ShortVideoSeeksPastEnd`: 30 frames, 16 samples end on 30). The read
  result there is not checked, so resizing the missing frame raises and ends
  the whole pass; the model does not capture that crash, so
  `DefaultSampleCount`'s success condition holds for the positions only.
- **`n == 1`.** When at least one frame remains after trimming, it passes
  both guards and then divides by zero. The model
  reports this as the error `ZeroStep`.
- **Upward scan.** It covers `c .. c+9`. Its default `c+10` is never tested
  for divisibility.
- **Fallback.** When no divisor lies within 9 of `c`, the default `c+10` is
  used (`FallbackGrid`). Trailing frames are then dropped unless `c+10`
  divides the frame count: 23 frames with 11 columns give one row of 21
  (`FallbackDropsFrames`), while 23 frames with 13 columns give one row of
  all 23 (`FallbackKeepsAllFrames`). The resolved count never exceeds the
  frame count, so the grid always has at least one row.

## Model

| member | source | states |
|---|---|---|
| FrameSampler.ExtractFrames | test_task.py:9-70 | The sampler loop returns exactly the specified outcome. It succeeds iff the file exists and `2 <= n <= usable`. On success it returns `n` positions, the first at the offset and none past `total - offset`. |
| FrameSampler.SampleFailures | test_task.py:14-40 | It fails iff the file is missing, `n <= 0`, `n > usable` or `n == 1`. Too many frames gives `InsufficientFrames`, and `n == 1` gives the division-by-zero error when at least one frame remains after trimming. |
| FrameSampler.Usable | test_task.py:29-32 | The usable count is `total - 2*offset` and is never negative. |
| FrameSampler.NextPosition | test_task.py:43-65 | Consecutive seek positions are exactly one step apart, as `frame_pos += frame_step` advances them. |
| FrameSampler.StepPositive | test_task.py:34-40 | When `2 <= n <= usable`, the step `usable // (n-1)` is at least 1. |
| FrameSampler.StepsFit | test_task.py:40-65 | `n - 1` steps never exceed the usable frame count. |
| FrameSampler.PositionsBounded | test_task.py:28-65 | Every seek position lies in `[offset, total - offset]`. |
| FrameSampler.PositionsShape | test_task.py:40-65 | There are exactly `n` positions, the first at the offset and the last `<= total - offset`. They are evenly spaced by the step and strictly increasing. |
| FrameSampler.PositionsInsideLongVideo | test_task.py:28-51 | With at least 100 frames every position is a valid frame index (`< total`). |
| FrameSampler.SeekLandsOnTotal | test_task.py:28-51 | Every seek but the last is below `total`; the last equals `total` (one past the last frame) iff `total < 100` and `n - 1` divides `total`. |
| FrameSampler.ShortVideoSeeksPastEnd | test_task.py:28-51 | 50 frames and 2 samples give positions 0 and 50; 30 frames and 16 samples end on position 30. Both are past the last frame, because nothing is trimmed below 100 frames. |
| FrameSampler.HundredFramesSixteenSamples | test_task.py:28-65 | 100 frames and 16 samples give offset 5, usable 90, step 6 and positions `5 + 6i`, ending at 95. |
| GridResolver.ScanUp | test_task.py:98-107 | The upward scan returns the first divisor in `[lo, hi)`, or `hi` when there is none. Nothing before the result divides. |
| GridResolver.ScanDown | test_task.py:99-112 | The downward scan from `hi` returns the largest divisor `<= hi` (at least 1). Nothing above it up to `hi` divides. |
| GridResolver.ResolveColumns | test_task.py:93-119 | The result lies in `[1, len]` and in `[c-9, c+10]`, and is `c` when `c` divides. It is `c+10` exactly when no divisor lies within 9 of `c`, and otherwise it divides `len`. No divisor below `c+10` is nearer to `c`, and an equally near one is not higher. |
| GridResolver.ChooseColumns | test_task.py:93-119 | The two break-terminated scans and the nearer-result choice compute exactly the resolved column count. |
| GridResolver.SliceRows | test_task.py:121-131 | The loop advancing `start`/`end` by the width builds exactly the partition into consecutive rows. |
| GridResolver.RowCount | test_task.py:121-131 | The partition has `len // w` rows. |
| GridResolver.RowAt | test_task.py:122-131 | Row `k` is exactly `frames[k*w .. (k+1)*w]`. |
| GridResolver.FlattenRows | test_task.py:121-134 | Concatenating the rows gives the first `(len // w) * w` frames in order, and all frames when `w` divides `len`. |
| GridResolver.RowsWidth | test_task.py:127-130 | Every row has `w` frames. |
| GridResolver.CreateFrameGrid | test_task.py:73-135 | The two guards, the two scans and the row loop compute the specified grid. It fails iff `c <= 0` or `c > len`, without searching. On success it has `len // c'` rows, at least one, where `c'` is the resolved count. |
| GridResolver.EighteenFramesFiveColumns | test_task.py:104-119 | 18 frames and 5 columns resolve to 6. |
| GridResolver.TieGoesHigher | test_task.py:114-119 | 12 frames and 5 columns resolve to 6, not 4: ties go to the higher count. |
| GridResolver.FallbackDropsFrames | test_task.py:98-131 | 23 frames and 11 columns resolve to the default 21. The grid is one row of the first 21 frames. |
| GridResolver.FallbackGrid | test_task.py:98-134 | When no divisor lies within 9 of `c`, the grid has `c+10` columns and holds the first `(len // (c+10)) * (c+10)` frames in order; it holds all frames iff `c+10` divides `len`. |
| GridResolver.FallbackKeepsAllFrames | test_task.py:98-134 | 23 frames and 13 columns resolve to the default 23, which divides 23: one row holding every frame. |
| GridResolver.GridKeepsAllFrames | test_task.py:93-134 | When some divisor lies within 9 of `c`, the grid holds every frame once, in order, in rows of the resolved width. |
| Catalog.DataProcessing | test_task.py:155-187 | The loop appends one record per path for which both stages succeed, in input order, with the `k`-th id. There are never more records than paths. |
| Catalog.ProcessedBounds | test_task.py:156-177 | No more records than paths. Every recorded path is an input path for which both stages succeed. |
| Catalog.ProcessedComplete | test_task.py:156-187 | Every input path for which both the sampler and the grid builder succeed gets a record. |
| Catalog.ProcessedAppend | test_task.py:156-187 | Records of `a + b` are the records of `a` followed by those of `b`, so input order is preserved. |
| Catalog.ProcessedSingle | test_task.py:158-177 | A single path yields a record iff both stages succeed for it. |
| Catalog.MiddlePathSkipped | test_task.py:155-187 | Three paths, the second failing, give two records, for paths 1 and 3 in that order. |
| Catalog.DefaultSampleCount | test_task.py:158 | With 16 frames requested the sampler never divides by zero. It succeeds iff the file exists and at least 16 frames remain after trimming. |
| Catalog.DefaultGridAlwaysSquare | test_task.py:170-171 | Sixteen frames with 4 columns always give a grid of 4 rows of 4 consecutive frames, so the grid stage never skips a path in this pass. |

## Left out

- Video input and output: opening the capture, reading the frame count, seeking, decoding and releasing (`cv2.VideoCapture`, `get`, `set`, `read`, `release`, `destroyAllWindows`). These are foreign library calls. A decode failure (the unchecked `ret`) makes the library raise, and the model does not capture that crash.
- Frame count as a float: the library reports the frame count as a floating-point number, and the model takes it as a natural number.
- Resizing to 0.7 in both dimensions (`cv2.resize` with area interpolation): floating-point image resampling. Frames are opaque.
- Pixel work: `cv2.hconcat`, `cv2.vconcat` and `cv2.imwrite`. Only the row layout (a sequence of rows) is modelled.
- Catalog input: reading the spreadsheet and the check that the input file exists. The catalog pass takes the list of paths directly.
- Path handling and ids: `os.path` splitting, joining and normalising, and `uuid4`. They are the parameters `nameOf`, `imageOf` and `ids`.
- Output: the JSON serialisation (done twice), writing the output file, the script entry point and all diagnostic printing.
- Exceptions: the division by zero for `n == 1` is an error value in the model. The program instead raises, which would end the whole pass, but the pass always requests 16 frames, so it cannot happen there.
- Catalog.DataProcessing: the sampler and grid builder are arbitrary function parameters, not the modelled `ExtractFrames` and `CreateFrameGrid`. `DefaultSampleCount` and `DefaultGridAlwaysSquare` connect the two for the fixed request of 16 frames and 4 columns.
