# Mandelbrot renderer and movie scheduler: a Dafny model of mandel.c

`mandel.c` renders a Mandelbrot escape-time image into a raw pixel buffer and
stores it as a JPEG. With `-p <n>` it runs "movie mode" instead. It renders 50
frames of a zoom towards a fixed centre, shrinking the scale by 0.97 per frame.
Each frame is rendered by a child process that re-executes the program, and at
most `n` children run at the same time.

This project models the sequential logic under the I/O and process calls:

- `kernel.dfy` (module `Kernel`): the escape-time kernel `iterations_at_point`.
  It is a `while` loop over real coordinates, proved equal to `EscapeTime`, the
  first orbit index outside the disc of radius 2 (or the cap).
- `color.dfy` (module `Color`): `iteration_to_color`. `IterationToColorAsWritten`
  models the C expression with its 32-bit product. `IterationToColor` is the
  overflow-free mapping the renderer uses.
- `render.dfy` (module `Render`): main's viewport (centre ± scale/2, y scale
  from the aspect ratio), the pixel-to-plane mapping, and `compute_image` as
  nested loops writing an `array2<int>`. It also has main's single-image path.
- `framenames.dfy` (module `FrameNames`): the per-frame output name
  `"%s%02d.jpg"`, with and without the truncation to the 128-byte buffer.
  A Dafny `char` stands for one byte of the C string, so lengths and the
  127-character limit count bytes.
- `movie.dfy` (module `Movie`): `run_movie_mode`. It covers the frame scale
  `xscale·0.97^f`, the job each child is given, and the bounded-window
  scheduler. The scheduler returns a trace of launches and waits, and its
  contract is stated on that trace.
- `wrappers.dfy` (module `Wrappers`): `Option`.

In the scheduler, `fork` is abstracted as a parameter `forkSucceeds` that says
whether each frame's fork succeeds. `wait(NULL)` (`WaitAny`) reaps an arbitrary
running child, or returns at once when no child is left. A failed fork still
increments `active`, as in the source. That frame is silently missing, and the
exit status is 0 in every case.

## Model

| member | source | states |
|---|---|---|
| Kernel.IterationsAtPoint | mandel.c:129-148 | The loop returns the escape time of (x, y). The result is in [0, max], and 0 when max <= 0. Every orbit point before it is inside x²+y² <= 4, and the point at the result is outside unless the cap was reached. |
| Kernel.Step | mandel.c:138-142 | One step z := z² + c, with both new parts computed from the same old pair. Starting from 0 it gives c, the loop's starting point (x0, y0). Kernel.StepFromOrbit ties it to the C update. |
| Kernel.Orbit | mandel.c:131-144 | The n-th value of (x, y) in the loop, starting from (x0, y0). The orbit of the origin stays at the origin. |
| Kernel.EscapeFrom | mandel.c:136-147 | The loop continued from iteration n: the result lies between n and the cap. Kernel.EscapeFromIsFirstEscape shows it is the first escape at or after n. |
| Kernel.EscapeFromIsFirstEscape | mandel.c:136-147 | If the orbit points before n are inside, then so is every orbit point before EscapeFrom, and the one at it is outside unless the cap was reached. |
| Kernel.StepFromOrbit | mandel.c:138-142 | Both `xt` and `yt` are computed from the same old (x, y) pair, so the update is exactly one step z² + c of the orbit. |
| Kernel.EscapeTime | mandel.c:134-147 | The escape time is 0 for a non-positive cap and at most the cap otherwise. |
| Kernel.EscapeTimeIsFirstEscape | mandel.c:136-147 | EscapeTime meets the first-escape characterisation `IsEscapeTime`. |
| Kernel.EscapeTimeUnique | mandel.c:136-147 | Any count meeting that characterisation equals EscapeTime. |
| Kernel.ReachesCapIff | mandel.c:136 | For max >= 0 the result equals max iff the first max orbit points all stay inside the disc. |
| Kernel.OriginReachesCap | mandel.c:136-145 | The origin returns the cap. |
| Kernel.OutsidePointEscapesAtOnce | mandel.c:136 | A point with x²+y² > 4 returns 0 without iterating. |
| Color.Wrap32 | mandel.c:189 | The result is a C `int` congruent to the exact value modulo 2³², and equal to it when it fits. |
| Color.TruncDiv | mandel.c:189 | Truncation toward zero, as in the double-to-int conversion: \|q\|·\|b\| <= \|a\| < (\|q\|+1)·\|b\|, and q has the sign of a/b. |
| Color.IterationToColorAsWritten | mandel.c:189 | The C expression with its `int` product. It is undefined (None) for max = 0 and defined for max > 0. Without overflow, a negative colour needs a negative operand. |
| Color.IterationToColor | mandel.c:187-191 | The colour is floor(0xFFFFFF·iters/max) in [0, 0xFFFFFF]. It is 0 at count 0 and 0xFFFFFF at the cap. |
| Color.ColorMonotone | mandel.c:189 | A larger count never gives a smaller colour. |
| Color.ProductFitsIff | mandel.c:189 | 0xFFFFFF·iters fits in `int` iff iters <= 128. |
| Color.AsWrittenAgreesWithoutOverflow | mandel.c:189 | For iters <= 128 the C expression equals the intended colour. |
| Color.AsWrittenOverflowsAtDefaultCap | mandel.c:189 | With max = 1000, count 128 gives 2147483, count 129 gives −2130706 and count 1000 gives −402654. The intended values are 2164260 and 0xFFFFFF. |
| Color.AsWrittenUndefinedAtZeroCap | mandel.c:189 | With max = 0 the C expression has no defined value. The intended colour is 0. |
| Render.ViewportAround | mandel.c:100-113 | The viewport is xscale wide and centred on (xcenter, ycenter). Its height·width equals xscale·height. |
| Render.ViewportPixelsSquare | mandel.c:101 | In that viewport a pixel spans the same distance in x and y. |
| Render.PixelCoord | mandel.c:169-170 | The plane coordinate of pixel i of n over [lo, hi]. Pixel 0 is at lo, and the (absent) pixel n would be at hi. |
| Render.PixelPoint | mandel.c:169-170 | The plane point of pixel (i, j). Render.PixelPointInView states where it lies. |
| Render.PixelPointInView | mandel.c:169-170 | Every pixel of a non-degenerate view maps to a point inside it: xmin <= x < xmax and ymin <= y < ymax. |
| Render.PixelCoordInRange | mandel.c:169-170 | Pixel 0 maps to xmin (ymin). Every pixel maps into [min, max). |
| Render.PixelCoordIncreasing | mandel.c:169-170 | The pixel-to-plane mapping is strictly increasing when max > min. |
| Render.PixelColor | mandel.c:168-176 | The colour of pixel (i, j) is in [0, 0xFFFFFF]. |
| Render.ComputeImage | mandel.c:155-179 | Afterwards every pixel (i, j) of the width × height buffer holds the colour of its plane point. |
| Render.RenderImage | mandel.c:100-119 | A fresh width × height buffer holds, for every pixel, the colour of its point in main's viewport. |
| Render.FourByFourCornerIsBlack | mandel.c:164-176 | In a 4×4 image of [−2,2]² with cap 50, the corner pixel (−2, −2) is black. |
| Render.FourByFourCentreIsWhite | mandel.c:164-176 | In the same image, the pixel at the origin is white. |
| FrameNames.Decimal | mandel.c:251 | The `%d` numeral of n: at least one character, all digits, a single digit iff n < 10, and a leading `0` only for n = 0. |
| FrameNames.Pad2 | mandel.c:251 | The `%02d` numeral of n: at least two digits, and exactly two below 100. |
| FrameNames.FullFrameName | mandel.c:251 | The name `"%s%02d.jpg"` without length limit. It starts with the prefix, ends with `.jpg` and has only digits in between. FrameNames.FrameIndexRoundTrip reads the frame back from it. |
| FrameNames.DecimalRoundTrip | mandel.c:251 | Reading back the decimal numeral of n gives n. |
| FrameNames.Pad2RoundTrip | mandel.c:251 | Reading back the `%02d` numeral of n gives n. |
| FrameNames.Pad2Digits | mandel.c:251 | Below 100, `%02d` is the tens digit followed by the units digit. |
| FrameNames.FrameIndexRoundTrip | mandel.c:251 | The frame number is recovered from its untruncated name. |
| FrameNames.FullFrameNamesDistinct | mandel.c:251 | Different frames never share an untruncated name. |
| FrameNames.FrameNameAsWritten | mandel.c:242-251 | The name left in `out[128]` has at most 127 characters. It is a prefix of the full name, and is the full name when that fits. |
| FrameNames.AsWrittenNamesCollideIff | mandel.c:242-251 | For frames f ≠ g below 100, the truncated names coincide iff the prefix has >= 127 characters, or has 126 characters and f, g share the tens digit. |
| Movie.Pow | mandel.c:223-240 | `pow(b, n)`. For 0 < b <= 1, as for the zoom factor 0.97, it lies in (0, 1]. |
| Movie.FrameScale | mandel.c:240 | The scale of a frame, `xscale·0.97^frame`. Movie.FrameScaleStep and Movie.FrameScaleShrinks characterise it. |
| Movie.FrameScaleStep | mandel.c:240 | Frame 0 has the initial scale. Each frame's scale is 0.97 times the previous one. |
| Movie.FrameScaleShrinks | mandel.c:240 | For a positive initial scale, the frame scales are positive, at most the initial one, and strictly decreasing. |
| Movie.JobFor | mandel.c:240-263 | The arguments of a frame's child. Its output name reads back as the frame. For a positive initial scale, its scale is positive and at most the initial one. The name is the untruncated one (see Findings row 3). |
| Movie.JobsWriteDistinctFiles | mandel.c:244-263 | With the untruncated name (see Findings row 3), two frames' jobs write different files and share the centre. |
| Movie.WindowBounds | mandel.c:229-233 | Under the window discipline, 0 <= active <= cap after every step, and active < cap before every launch. |
| Movie.WaitAny | mandel.c:231-232 | wait(NULL) reaps one running child and removes it, or reaps nothing exactly when none is running. |
| Movie.WaitMatchesRunning | mandel.c:231 | When the running children are the forked ones not yet reaped, what wait(NULL) returns is a forked, not yet reaped child, or nothing only when all forked children have been reaped. |
| Movie.WaitOnce | mandel.c:231-232 | One `wait(NULL); active--;` appends a Reap event, keeps the bookkeeping consistent and decrements active. |
| Movie.ReapKeepsConsistent | mandel.c:231-232 | A wait keeps the bookkeeping consistent and decrements active. |
| Movie.LaunchKeepsConsistent | mandel.c:268-270 | A launch keeps the bookkeeping consistent and increments active. This holds whether or not the fork succeeded. |
| Movie.WaitWhileAbove | mandel.c:230-278 | The wait loops lower active to the floor (num_children − 1 before a launch, 0 in the drain), or leave it unchanged if already there. The new trace is the old one followed by exactly (active − active') Reap events. The bookkeeping stays consistent. |
| Movie.LaunchFrame | mandel.c:235-271 | Appends the launch of this frame's job and increments active. The frame runs as a child only if its fork succeeded. |
| Movie.RunMovieMode | mandel.c:216-282 | Launches the jobs of frames 0..49 in order under the window, with untruncated names (see Findings row 3). It ends with active = 0 and 50 waits. The reaped frames are a permutation of the frames whose fork succeeded. Every wait reaps a child forked and not yet reaped at that point, or nothing only when none is left. Returns 0. |
| Movie.SchedulerRunGuarantees | mandel.c:222-278 | Restates that result per frame and per step: frame f is launched f-th with its own job, and 0 <= active <= cap throughout with active < cap at each launch. Each successfully forked frame is reaped exactly once, and no other frame is. |
| Movie.RunningWithinActive | mandel.c:229-278 | Along a trace that follows the window and whose waits return only existing children, the reaped children are among the forked ones at every point, and the children running never outnumber active. |
| Movie.SchedulerChildrenGuarantees | mandel.c:229-278 | For the trace of a run, step by step: each Reap(f) takes a child f that was forked more often than reaped so far. Reap(None) happens only when every forked child has been reaped. At every point the children actually running number at most active, which is at most num_children. |

## Findings

| source | as written | input that shows it | evidently intended | confidence | as-written member | corrected member |
|---|---|---|---|---|---|---|
| mandel.c:189 | `0xFFFFFF*iters` is multiplied in 32-bit `int` before the conversion to double | default cap 1000, iters = 129: −2130706 (and −402654 at iters = 1000) | floor(0xFFFFFF·iters/max) in [0, 0xFFFFFF], monotone, 0xFFFFFF at the cap | high; not executed | Color.AsWrittenOverflowsAtDefaultCap | Color.ColorMonotone |
| mandel.c:189 | `max = 0` divides 0 by 0.0 and converts the NaN to `int` | `-m 0` | black (0), since the kernel does no iteration | medium; not executed | Color.AsWrittenUndefinedAtZeroCap | Color.IterationToColor |
| mandel.c:242-251 | the name is formatted into `char out[128]` and silently truncated to 127 characters | a 127-character `-o` prefix: all 50 frames write the same file; with 126 characters frames 0–9 share one name | one distinct file per frame | medium; not executed | FrameNames.AsWrittenNamesCollideIff | FrameNames.FullFrameNamesDistinct |

The rest of the model uses the corrected members. `Render.PixelColor` and
`Render.ComputeImage` use `Color.IterationToColor`. The movie jobs use
`FrameNames.FullFrameName`.

## Left out

- Floating point: coordinates, scales and `pow(0.97, frame)` are exact `real`s. IEEE-754 rounding of the kernel and of the viewport arithmetic is not modelled.
- Color.IterationToColorAsWritten: the double division followed by truncation is modelled as exact integer division rounding toward zero. For `int` operands the two agree.
- Color.IterationToColorAsWritten: signed overflow is undefined in C. The model takes the two's complement wrap-around that common compilers produce.
- Command-line parsing (`getopt`, `atof`, `atoi`), the help text and the `printf` messages: these are I/O.
- Negative `-W`/`-H` values: widths and heights are `nat`. What the image library does with negative sizes is not part of this model.
- The image library (`initRawImage`, `setImageCOLOR`, `setPixelCOLOR`, `storeJpegImageFile`, `freeRawImage`) is not part of this model. The buffer is an `array2<int>` indexed [column, row], and storing the JPEG is not modelled.
- Render.RenderImage: with a zero width, main's y scale divides by zero. The model skips the computation, since `compute_image` then writes no pixel anyway.
- The prefix and the names are sequences of `char`, one per byte of the C string. A multi-byte encoding of the prefix is not modelled.
- `fork`, `execv` and `wait`: a fork's outcome is the parameter `forkSucceeds`. Which child a wait reaps is an arbitrary choice. A child whose `execv` fails is treated like any other child.
- The child's arguments are formatted with `snprintf("%f")` and parsed back with `atof`. This loses digits (six decimals), and the model passes exact values in `FrameJob`.
- Child exit statuses are not inspected by the source (`wait(NULL)`), so the model records none and `RunMovieMode` always returns 0.
- main's dispatch `if (num_children > 0)` is modelled only as `RunMovieMode`'s requirement that `numChildren >= 1`.
- Render.ComputeImage: its contract states the final colour of every pixel. It does not state that each pixel is written exactly once; only the loop structure shows that.
- There is no thread pool or row partitioning in mandel.c, so none is modelled.
