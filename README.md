# Escape-time fractal kernel, modelled in Dafny

This project models the computational kernel of a small Mandelbrot-family
renderer (`mandlbrot.py`). The kernel has three parts:

- **the escape-iteration function** `mandelbrot(c, threshold)`. It starts from
  `z = 0`. For `i` in `0 .. threshold-1` it returns `i` as soon as `|z| > 2`;
  otherwise it applies the rule `z = (z + 1)^2 + c`. If nothing escapes it
  returns `threshold`;
- **the colour policy** `map_color(iterations, threshold)`. A count equal to
  the cap is white. Any other count gets `(0, 0, int(255 * iterations / threshold))`;
- **the image generator** `generate_mandelbrot`. It walks the pixels of an
  RGB buffer column by column. It maps column `x` and row `y` to the plane point
  `(x*(max_re-min_re)/width + min_re, y*(max_im-min_im)/height + min_im)` and
  writes the colour of that point's escape count to `img[y, x]`.

Files:

- `complex_plane.dfy` (module `ComplexPlane`): complex values as pairs of
  exact reals, the iteration rule `Step`, and the escape test `Escaped`. The
  test is stated as `|z|^2 > 4`, and `EscapedMatchesModulus` shows it
  agrees with `|z| > 2`.
- `escape.dfy` (module `Escape`): the specification `Orbit(c, i)`, meaning
  the value `z` holds at the `i`-th test, and `EscapeTime(c, threshold)`.
  It also holds the loop-with-early-return method `Mandelbrot` proved against
  them, and the lemmas that characterise the count.
- `color.dfy` (module `Color`): `MapColor`, with Python's `int()` of a true
  quotient modelled as division rounding toward zero (`TruncDiv`). The
  `ZeroDivisionError` of a zero cap is the `ZeroDivision` outcome.
- `render.dfy` (module `Render`): the affine pixel-to-plane map and the
  in-place fill `GenerateMandelbrot` of an `array2<Rgb>`. The first index is the
  row (imaginary axis) and the second the column (real axis), as `img[y, x]` in
  the source.

Notes on the model:

- Floating-point numbers are replaced by exact `real` arithmetic. The results
  hold for the idealised computation, not for IEEE-754 rounding.
- `threshold` is an unbounded `int`, as in Python. A negative cap runs no
  iteration and is returned unchanged. `MapColor` then paints it white.
- The colour policy's division by the cap can only fail when the cap is 0 and
  the count is not. The escape function never produces that pair:
  `PixelColor` proves that every pixel is painted and every channel lies in
  `0 .. 255`.
- With a cap of at least 1, a sample with `|1 + c| > 2` (such as
  `c = 10 + 10i`) gets the count 1. The first value tested is `z_0 = 0`
  (`mandlbrot.py:14-16`), which never escapes, and the first escaping value is
  `z_1 = 1 + c` (`EscapeTimeFarPoint`, `EscapeTimeNeverZero`). With a cap of 0
  the count is 0, and with a negative cap it is the cap itself
  (`EscapeTimeRange`).
- The comment at `mandlbrot.py:52` speaks of black, but the code returns white.
  The model follows the code.
- The rule `(z + 1)^2 + c` is not the textbook `z^2 + c`. `OrbitIsShiftedClassical`
  shows that `z_i + 1` is the textbook orbit of `c + 1` started from 1.

## Model

| member | source | states |
|---|---|---|
| `Escape.Mandelbrot` | mandlbrot.py:14-22 | The loop with early return computes exactly `EscapeTime(c, threshold)`. The result is in `[0, threshold]` for a non-negative cap and equals the cap when the cap is negative. |
| `Escape.EscapeFromFacts` | mandlbrot.py:15-22 | Resuming from index `i`, the count lies in `[i, threshold]`. Every orbit value tested before it stays inside the radius-2 disc. A count below the cap is an escaping value. |
| `Escape.EscapeTimeRange` | mandlbrot.py:15-22 | The count lies in `[0, threshold]` for `threshold >= 0`. For `threshold <= 0` it is the cap itself, so a cap of 0 gives 0. |
| `Escape.EscapeTimeIsFirstEscape` | mandlbrot.py:15-20 | For `n < threshold`, the count is `n` exactly when `z_n` escapes and `z_0 .. z_(n-1)` all stay inside (both directions). |
| `Escape.EscapeTimeIsThreshold` | mandlbrot.py:15-22 | For every cap, the count equals the cap exactly when none of `z_0 .. z_(threshold-1)` escapes (vacuously true for a cap of 0 or below). The value made by the last update is never tested. |
| `Escape.OriginInside` | mandlbrot.py:14-16 | The first value tested, `z_0 = 0`, never passes the escape test. |
| `Escape.EscapeTimeNeverZero` | mandlbrot.py:14-17 | With a cap of at least 1 the count is at least 1, because `z_0 = 0` is tested first. |
| `Escape.EscapeTimeStable` | mandlbrot.py:15-17 | A count that escaped below one cap stays the same under any larger cap. |
| `Escape.EscapeTimeFarPoint` | mandlbrot.py:14-20 | If `1 + c` is outside the disc, the count is 1 for every cap of at least 1. |
| `Escape.OrbitIsShiftedClassical` | mandlbrot.py:20 | The orbit of `(z+1)^2 + c` from 0, shifted by one, is the orbit of `w^2 + (c+1)` from 1. |
| `ComplexPlane.EscapedMatchesModulus` | mandlbrot.py:16 | For a modulus `m >= 0` with `m^2 = |z|^2`, the test `|z|^2 > 4` holds exactly when `m > 2`. |
| `ComplexPlane.StepIsShiftedClassical` | mandlbrot.py:20 | One step of `(z+1)^2 + c`, shifted by one, is one textbook step on `z + 1` with constant `c + 1`. |
| `Color.TruncDiv` | mandlbrot.py:55 | The quotient rounds toward zero: `|q|*|b| <= |a| < |q|*|b| + |b|`, and `q` has the sign of `a/b` (or is 0). |
| `Color.TruncDivNonNegative` | mandlbrot.py:55 | For a non-negative dividend and a positive divisor, rounding toward zero is floor division. |
| `Color.MapColor` | mandlbrot.py:51-56 | A count equal to the cap is white. Any other count is painted with red and green 0. Division by zero happens exactly when the cap is 0 and the count is not. |
| `Color.MapColorGradient` | mandlbrot.py:53-56 | For `0 <= it < thr` the colour is `(0, 0, 255*it/thr)`, and the blue value is in `[0, 254]`. |
| `Color.MapColorBlack` | mandlbrot.py:55 | For a positive cap, count 0 is painted `(0, 0, 0)`. |
| `Color.MapColorBlueMonotone` | mandlbrot.py:55 | For a fixed positive cap, the blue channel does not decrease in the count over `[0, thr)`. |
| `Color.MapColorInByteRange` | mandlbrot.py:51-56 | Every count the escape function can return (`[0, thr]`, or the cap itself) is painted without error, with all channels in `0 .. 255`. |
| `Render.PixelColor` | mandlbrot.py:43-45 | Colouring the escape count of any sample never divides by zero, and the colour fits the 8-bit channels. |
| `Render.PlaneCoordAtOrigin` | mandlbrot.py:40-41 | Pixel 0 of an axis maps to the window's minimum, so pixel `(0, 0)` is `(min_re, min_im)`. |
| `Render.PlaneCoordInWindow` | mandlbrot.py:40-41 | With `min < max`, the pixels `0 .. n-1` map into `[min, max)`. |
| `Render.PlaneCoordIncreasing` | mandlbrot.py:40-41 | With `min < max`, the mapped coordinate rises strictly with the pixel index. |
| `Render.GenerateMandelbrot` | mandlbrot.py:37-45 | After the fill, every cell `img[y, x]` of the `height x width` buffer holds the colour of the escape count of `(x*(max_re-min_re)/width + min_re, y*(max_im-min_im)/height + min_im)`. |

## Left out

- IEEE-754 double and complex arithmetic (`complex`, `abs`, `/`, `**`): the model uses exact reals, so rounding, overflow and NaN are not modelled.
- Numba's `@jit` and `prange` parallelism: the fill runs sequentially. Each cell's final value depends only on its own `(x, y)` (`GenerateMandelbrot`'s postcondition), so the order of the writes does not matter.
- Render.GenerateMandelbrot: says what every cell holds at the end, but not that each cell is written exactly once.
- `main`: the fixed dimensions and window, the `np.zeros` allocation, the PIL conversion, the file save and the message. These are I/O and foreign library calls.
- The commented-out alternative rules and colourings: they are dead code. The rule is the fixed `(z + 1)^2 + c`.
- The `uint8` dtype of the buffer: a channel is an `int`, and `0 .. 255` is proved instead (`Render.PixelColor`). What numpy would do with an out-of-range value passed in directly is not modelled.
