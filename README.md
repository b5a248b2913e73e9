# softsrv: a verified model of the software rasteriser's core

softsrv is a small CPU renderer. It keeps a framebuffer, which is a colour buffer with four bytes per pixel (red, green, blue, alpha) plus a depth buffer. It draws pixels and lines into that buffer and blits the result to a platform bitmap. A fixed-timestep loop calls the update routine once for every elapsed period. This project models that core in Dafny and proves properties about it:

- `framebuffer.dfy`, module `Framebuffer`: the `framebuffer_t` and `bitmap_t` records, written as classes with array buffers, and the operations that act on them.
  - `create`, `destroy` and `clear`.
  - `blit_rgb`, plus `blit`'s dispatch on the build target.
- `draw.dfy`, module `Draw`:
  - `draw::pixel`.
  - `draw::line`, its endpoint swap and its two error-accumulating loops. Each loop is a method, proved against a function that lists the pixels it writes.
  - The pixel list is then shown to hold these properties:
    - a line has exactly |dy| pixels (steep) or |dx| pixels (shallow);
    - the pixels form a connected staircase;
    - they stay in the bounding box;
    - the loop ends exactly on the far endpoint;
    - the line is the same whichever endpoint comes first, when the rows differ;
    - endpoints inside the framebuffer keep every write inside it.
- `softsrv.dfy`, module `Softsrv`: `freq_t` and `freq_call`, modelled as a class and a method. It also covers `main`'s start-up and main loop.
  - The callback runs exactly ⌊(accumulator + elapsed) / ms⌋ times when that sum is non-negative, and never when it is below one period.
  - Across any number of calls with a clock that never goes backwards, the total number of runs depends only on the starting accumulator and the total time elapsed.
  - The uninitialised accumulator in `main` is recorded under "Findings".
- `image.dfy`, module `Image`: `path_ext`, the scan for a file extension.
  - It is a loop, proved against a function that gives the result as a suffix.
  - That function is characterised by the last dot at an index of at least 1.

Modelling choices:

- Times are exact reals, and the line's error term is an exact integer. `err` is kept scaled by `2*dy` (steep case) or `2*|dx|` (shallow case).
- The clock (`platform::time()`) is an input.
- The update callback is not run. `freq_call` returns the arguments it would have been called with.

## Model

| member | source | states |
|---|---|---|
| Framebuffer.Framebuffer.constructor | core/framebuffer.cpp:7 | the record `calloc` returns has zero dimensions and no buffers |
| Framebuffer.Create | core/framebuffer.cpp:6-13 | a fresh framebuffer with the requested dimensions, `w*h*4` zeroed colour bytes and `w*h` zeroed depth values, satisfying the size invariant `Valid` |
| Framebuffer.Destroy | core/framebuffer.cpp:15-26 | afterwards the dimensions are zero and both buffer references are dropped, whether or not they were present |
| Framebuffer.Cleared | core/framebuffer.cpp:28-33 | the cleared buffer keeps its length and every byte is zero |
| Framebuffer.ClearedIdempotent | core/framebuffer.cpp:28-33 | clearing twice is the same as clearing once |
| Framebuffer.Clear | core/framebuffer.cpp:28-33 | every colour byte becomes 0; the depth buffer and the size invariant are kept |
| Framebuffer.BlitRgb | core/framebuffer.cpp:43-48 | the first `w*h*4` bitmap bytes equal the colour buffer; the rest of the bitmap and the framebuffer are unchanged |
| Framebuffer.Dispatch | core/framebuffer.cpp:35-41 | no routine is chosen exactly on targets other than Windows and Apple; `blit_rgb` is chosen exactly on Apple |
| Framebuffer.Blit | core/framebuffer.cpp:35-41 | the routine chosen is `Dispatch(target)`; on Apple the bitmap receives the colour bytes as `BlitRgb` copies them; on other targets the bitmap is untouched |
| Draw.Offset | src/core/draw.cpp:6 | a pixel's byte offset is a multiple of four, so each pixel owns four consecutive bytes |
| Draw.Plot | src/core/draw.cpp:4-10 | writing one pixel keeps the buffer's length |
| Draw.PlotAt | src/core/draw.cpp:6-9 | after writing pixel (x, y), the bytes at offset `(x + y*w)*4` and the next two hold r, g and b; every other byte is unchanged |
| Draw.Pixel | src/core/draw.cpp:4-10 | writes red, green and blue at the pixel's offset and changes no other colour byte (the alpha byte included), nor the depth buffer |
| Draw.Paint | src/core/draw.cpp:41-47 | a sequence of pixel writes keeps the buffer's length |
| Draw.PaintSnoc | src/core/draw.cpp:41-47 | writing one more pixel after a sequence of writes is the write of the extended sequence |
| Draw.PaintAt | src/core/draw.cpp:4-10 | after writing a list of pixels, a byte holds the colour exactly when it is a red/green/blue byte of some listed pixel; otherwise it is unchanged |
| Draw.PixelBytes | src/core/draw.cpp:6-9 | a byte is one of the three colour bytes at a pixel's offset iff it is not an alpha byte and its pixel's offset is that one |
| Draw.PaintedSnoc | src/core/draw.cpp:41-47 | an offset is covered by the extended list iff the old list or the new pixel covers it |
| Draw.SteepFrom | src/core/draw.cpp:41-48 | from row y the steep loop writes one pixel per remaining row |
| Draw.ShallowFrom | src/core/draw.cpp:55-64 | with n iterations left the shallow loop writes n pixels |
| Draw.SteepHead | src/core/draw.cpp:41-42 | the first pixel written from a state is the state's (x, y) |
| Draw.SteepStep | src/core/draw.cpp:41-47 | one iteration writes (x, y) and continues from the updated x, row and error |
| Draw.ShallowHead | src/core/draw.cpp:55-57 | the first pixel written from a state is the state's (x, y) |
| Draw.ShallowStep | src/core/draw.cpp:55-63 | one iteration writes (x, y) and continues from x+d, the updated row and the updated error |
| Draw.Direction | src/core/draw.cpp:30-35 | the step is +1 or -1, and +1 exactly when x1 > x0 |
| Draw.SteepNext | src/core/draw.cpp:43-47 | an iteration of the steep loop keeps its invariant: the error stays in (-1/2, 1/2] and x never passes x1 |
| Draw.SteepLast | src/core/draw.cpp:41 | when the steep loop ends, x has reached x1 exactly |
| Draw.SteepWalk | src/core/draw.cpp:41-48 | from any invariant state the steep loop's pixels, followed by the far endpoint, form a staircase of one pixel per row, staying between the current x and x1 |
| Draw.ShallowNext | src/core/draw.cpp:58-63 | an iteration of the shallow loop keeps its invariant: the error stays in (-1/2, 1/2] and y never passes y1 |
| Draw.ShallowLast | src/core/draw.cpp:55 | when the shallow loop ends, (x, y) is the far endpoint exactly |
| Draw.ShallowWalk | src/core/draw.cpp:55-64 | from any invariant state the shallow loop's pixels, followed by the far endpoint, form a staircase of one pixel per column, with rows between the current y and y1 |
| Draw.SteepStart | src/core/draw.cpp:23-40 | the state in which the steep loop starts satisfies its invariant |
| Draw.ShallowStart | src/core/draw.cpp:23-54 | the state in which the shallow loop starts satisfies its invariant |
| Draw.SteepRaster | src/core/draw.cpp:37-48 | with ordered endpoints a steep line writes |dy| pixels: first (x0, y0), then one per row below y1, x moving by 0 or ±1 between x0 and x1, and ending next to (x1, y1) |
| Draw.ShallowRaster | src/core/draw.cpp:49-64 | with ordered endpoints a shallow line writes |dx| pixels: one per column from x0 towards, but not including, x1, y moving by 0 or +1 between y0 and y1, and ending next to (x1, y1) |
| Draw.Raster | src/core/draw.cpp:23-64 | with endpoints ordered by y, the chosen branch writes |dy| pixels when |dy| > |dx| and |dx| pixels otherwise |
| Draw.LinePoints | src/core/draw.cpp:12-66 | `line` writes as many pixels as the larger of |dx| and |dy|, whichever endpoint comes first |
| Draw.SteepLine | src/core/draw.cpp:12-48 | for any endpoints with |dy| > |dx|, `line` writes |dy| pixels forming a connected staircase from the endpoint with the smaller y to the other, the far endpoint excluded |
| Draw.ShallowLine | src/core/draw.cpp:12-66 | for any endpoints with |dy| <= |dx|, `line` writes |dx| pixels forming a connected staircase, one per column, the far endpoint excluded |
| Draw.LineInBox | src/core/draw.cpp:12-66 | every pixel `line` writes lies in the bounding box of its endpoints |
| Draw.LineSymmetric | src/core/draw.cpp:14-21 | when the rows differ, swapping the endpoints gives the same pixels in the same order |
| Draw.HorizontalLine | src/core/draw.cpp:49-64 | (0,5)→(10,5) writes columns 0..9 of row 5 |
| Draw.ReverseHorizontalLine | src/core/draw.cpp:49-64 | (10,5)→(0,5) writes columns 10 down to 1 of row 5, so the written set depends on the endpoint order |
| Draw.VerticalLine | src/core/draw.cpp:37-48 | (5,0)→(5,10) writes rows 0..9 of column 5 |
| Draw.PixelInside | src/core/draw.cpp:6 | a pixel inside a w-by-h framebuffer has its three colour bytes inside the colour buffer |
| Draw.EndpointsInside | src/core/draw.cpp:12-66 | when both endpoints lie inside the framebuffer, every pixel `line` writes does too, so `Line`'s precondition holds |
| Draw.SteepLoop | src/core/draw.cpp:37-48 | the steep `for` loop leaves the colour buffer as the writes of exactly the pixels `SteepFrom` lists |
| Draw.ShallowLoop | src/core/draw.cpp:49-64 | the shallow `while` loop leaves the colour buffer as the writes of exactly the pixels `ShallowFrom` lists |
| Draw.Line | src/core/draw.cpp:12-66 | the colour buffer ends up as the writes of `LinePoints`, whose shape the lemmas above give |
| Softsrv.Freq.constructor | src/softsrv.cpp:8-13 | a record holding the given period, times and accumulator |
| Softsrv.Ticks | src/softsrv.cpp:75-78 | the loop runs no times exactly when less than one period is accumulated |
| Softsrv.Periods | src/softsrv.cpp:75-78 | time handed out in periods is never negative |
| Softsrv.PeriodsProduct | src/softsrv.cpp:75-78 | subtracting `ms` n times removes `n*ms` |
| Softsrv.PeriodsAdd | src/softsrv.cpp:75-78 | periods handed out in two stretches add up |
| Softsrv.PeriodsMono | src/softsrv.cpp:75-78 | each extra period removes at least `ms` more |
| Softsrv.TicksBounds | src/softsrv.cpp:75-78 | for non-negative time, `Ticks` periods fit and one more does not |
| Softsrv.TicksUnique | src/softsrv.cpp:75-78 | a run count that leaves the remainder in [0, ms) is `Ticks` |
| Softsrv.TicksAbove | src/softsrv.cpp:75 | while a whole period remains, fewer than `Ticks` runs have happened, which is why the loop terminates |
| Softsrv.TicksRemainder | src/softsrv.cpp:75-78 | after `Ticks` runs, a non-negative amount leaves a remainder in [0, ms) |
| Softsrv.Runs | src/softsrv.cpp:75-78 | the loop's exit behaviour for a run count n (the last run started with at least a period left, and less than one is left after it): a positive count never hands out more than the accumulated time |
| Softsrv.RunsTicks | src/softsrv.cpp:75-78 | the loop's exit condition, with each run taken only while a period remains, holds of exactly one run count, `Ticks` |
| Softsrv.FreqCall | src/softsrv.cpp:70-79 | reads the time into `now` and `last`; adds the elapsed time; runs the callback with `ms` once per whole period, exactly `Ticks` of the accumulated time; leaves less than one period, and never a negative amount when the sum was non-negative |
| Softsrv.Period | src/softsrv.cpp:23-30 | the period is positive and 300 periods make one second |
| Softsrv.InitAsWritten | src/softsrv.cpp:29-31 | `main`'s set-up sets `ms` and `last` only; `now` and `accum` keep indeterminate values |
| Softsrv.Init | src/softsrv.cpp:29-31 | the set-up with the accumulator initialised to zero |
| Softsrv.UninitialisedAccum | src/softsrv.cpp:29-31 | concrete junk accumulators change the first pass's update count: 0 runs after one second instead of 300, or 3000 runs with no time elapsed |
| Softsrv.FirstPassAsWritten | src/softsrv.cpp:29-36 | as written, the first pass runs the update once per whole period of junk accumulator plus elapsed time |
| Softsrv.LatestStep | src/softsrv.cpp:33-37 | with a monotone clock, each reading is no earlier than the previous one and becomes the latest |
| Softsrv.Telescope | src/softsrv.cpp:72-77 | what accumulates over two calls is the start value plus all elapsed time minus all periods handed out |
| Softsrv.Pass | src/softsrv.cpp:33-37 | one main-loop pass sets `now` and `last` to the reading, keeps the accumulator in [0, ms) and accounts for every period handed out |
| Softsrv.Loop | src/softsrv.cpp:33-37 | over any monotone sequence of clock readings, the total number of updates is the number of whole periods in the starting accumulator plus the total time elapsed, however the time was split between calls; the final accumulator is that sum minus the periods handed out, `last` is the latest reading and `now` equals it (unchanged when there is no reading) |
| Softsrv.Run | src/softsrv.cpp:20-42 | `main` with the accumulator initialised creates an 800 by 600 framebuffer and runs the update once per whole 1/300 s since start, each time with the period as argument |
| Image.CharAt | src/core/image.cpp:16 | reading index `len` of a C string yields its NUL terminator |
| Image.DotBelow | src/core/image.cpp:15-21 | the scan's stopping index among indices below n: the last dot at index >= 1, or 0 if there is none |
| Image.ExtStart | src/core/image.cpp:15-21 | the scan stops at the last dot at an index of at least 1; with none it runs down to 0 |
| Image.Ext | src/core/image.cpp:11-26 | the extension is a suffix of the path |
| Image.PathExt | src/core/image.cpp:11-26 | for a C string (no NUL among its characters) the loop-and-copy returns exactly `Ext(path)` |
| Image.ExtLastDot | src/core/image.cpp:15-24 | a dot at index j >= 1 with no later dot gives `path[j..]`, the dot included |
| Image.ExtWhole | src/core/image.cpp:15-24 | with no dot after the first character, the whole path is returned |
| Image.ExtKeepsDot | src/core/image.cpp:15-24 | when a dot follows the first character, the extension starts with the dot and is shorter than the path |
| Image.ExtNoLaterDot | src/core/image.cpp:15-24 | the extension holds no dot after its first character |
| Image.ExtIdempotent | src/core/image.cpp:11-26 | taking the extension of an extension changes nothing |
| Image.ExtOfName | src/core/image.cpp:11-26 | "a.ppm" gives ".ppm" |
| Image.ExtOfLeadingDot | src/core/image.cpp:15 | ".ppm" is returned whole, because index 0 is never examined |
| Image.ExtOfNoDot | src/core/image.cpp:11-26 | "image" is returned whole |
| Image.ExtOfTwoDots | src/core/image.cpp:11-26 | "a.tar.gz" gives ".gz" |
| Image.ExtOfDirectoryDot | src/core/image.cpp:11-26 | "dir.d/file" gives ".d/file": directory separators are not considered |
| Image.ExtOfEmpty | src/core/image.cpp:15 | the empty path gives the empty result |

## Left out

- Interaction with the platform is not modelled:
  - Windowing, input polling and `platform::should_quit` are left out. The main loop is modelled as one `freq_call` per clock reading in a given sequence.
  - Presenting, `platform::init` and `platform::destroy` are left out.
- The body of `update` (src/softsrv.cpp:44-68) is left out. It calls `clear`, `pixel` and `line`, which are modelled, and uses `cos`/`sin` of the clock plus float-to-int casts, which are not.
- Framebuffer.Blit: on Windows only the choice of `blit_bgr` is recorded. `blit_bgr` is declared (src/core/framebuffer.h:21) but its body is not part of this model.
- Floating point is not modelled:
  - `double` times and the `double` line error term are exact here. Rounding is left out.
  - So is the `0.0/0.0` NaN that a zero-length line divides into. The shallow loop runs no times for that line, so nothing changes.
- Memory is not modelled:
  - `calloc`/`malloc` failure, `free`, and 32-bit `int` overflow of `w*h*4` and of pixel offsets are left out. Dimensions and coordinates are unbounded integers.
  - Framebuffer.Destroy drops the buffer references but does not model freeing memory or dangling aliases.
- Draw.Pixel requires only that the three written bytes lie inside the colour buffer. The source checks nothing, and a write outside the buffer is undefined behaviour rather than a modelled outcome.
- Draw.Plot: the function is total, and leaves the buffer unchanged for a pixel whose bytes would fall outside it. `Pixel` and `Line` only ever apply it to pixels that fit.
- Draw.Line writes |dy| (steep) or |dx| (shallow) pixels, so the far endpoint is never drawn.
- Image.PathExt returns the extension as a sequence of characters. The source `malloc`s exactly `size` bytes and writes no NUL terminator, so its result is not a valid C string. The terminator and the `strcmp` in `image_load` (src/core/image.cpp:28-38) are not part of this model.
- `image_load` compares the extension with "ppm", but `path_ext` returns it with the leading dot (see `Image.ExtKeepsDot`). `image_load` and `image_load_ppm` are stubs without a return value and are not part of this model.
- Softsrv.Loop and Softsrv.Run assume a clock that never goes backwards and no reading before the start time. `FreqCall` itself has no such requirement.

## Findings

| source | as written | input that shows it | evidently intended | confidence | as-written member | corrected member |
|---|---|---|---|---|---|---|
| src/softsrv.cpp:29-31 | `update_freq` is a local `freq_t` whose `accum` (and `now`) is never initialised before `freq_call` adds to it | indeterminate `accum` = -1.0: one second after start the first pass runs `update` 0 times instead of 300; `accum` = 10.0: it runs 3000 times with no time elapsed | `accum` starts at 0, so the update runs once per whole 1/300 s since start | not executed | Softsrv.FirstPassAsWritten | Softsrv.Run |
