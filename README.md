# Newton-fractal rasterizer, modelled in Dafny

This project models the core of `main.cc`, a WebAssembly Newton-fractal renderer.
`render` visits every pixel of a `width` x `height` image, column by column. For
each pixel it maps the pixel to a start point in the complex plane and runs
`calculate` on it. `calculate` runs at most 2000 damped Newton steps on
p(z) = 1.61803 z^6 - 1. After each step it checks the new point against a
two-entry root table, ±0.9229299, in table order. It returns the first
(iteration, root) pair whose squared distance is below 0.05, or the sentinel
(0, 0) when the budget runs out. `render` turns the result into three HSV
integers, passes them to `HsvToRgb`, writes the three colour bytes at
`(y*width + x)*4` and sets alpha to 255 in the fourth byte.

Modules, one per component of `main.cc`:

- `Double` (`double.dfy`): doubles are a type parameter `D`. `Arith<D>` holds
  the double primitives the source uses (`+ - * / <`, `(double)n`, `0.0`, `1.0`)
  as uninterpreted functions. `Literals<D>` holds the source's double
  constants. Nothing in the model assumes IEEE-754 doubles obey real
  arithmetic.
- `ComplexArith` (`complex.dfy`): `struct complex` and `re`, written out
  component by component over `Arith<D>`. `powN` is a loop method, proved equal
  to `Power` (n - 1 multiplications by z, on the right).
- `Exact` (`exact.dfy`): the same formulas with `D := real`. It proves that the
  formulas are the textbook complex operations in exact arithmetic: `add`/`sub`
  round trip, `div`/`mul` round trip, `abssq` is zero only at 0, and `mul` is
  associative (so `powN` is a true power). These facts are about the formulas,
  not about double rounding.
- `Newton` (`newton.dfy`): `calculate` as a method with the source's nested
  loops and early return. It is proved equal to the recursive specification
  `Solve`. The lemmas about `Solve` state its range, first-hit semantics and
  sentinel behaviour.
- `Raster` (`raster.dfy`): `render` as a method over an `array<bv8>`. It is
  proved to leave the buffer equal to `Image`, a function of the inputs only.
  The buffer geometry (bounds, disjoint blocks, coverage, alpha) is proved about
  `Offset` and `Image`.

Inputs that would be I/O or foreign code become parameters:

- the double arithmetic (`Arith<D>`) and constants (`Literals<D>`);
- `HsvToRgb`, a total function from the three HSV integers to three bytes,
  because `hsv.h` is not part of this model.

The code
has one variant only: 2 roots, 2000 iterations, HSV colouring, scale 0.01.
Within it the plane coordinate comes from `y` centred by `width`, and from `x`
centred by `height`, exactly as written at main.cc:142-145.

## Model

| member | source | states |
|---|---|---|
| `ComplexArith.PowN` | main.cc:54-62 | the loop returns `Power(z, n)`: z times z, n - 1 times, always multiplying on the right; for n <= 1 the body never runs and z comes back unchanged |
| `ComplexArith.PowerAdd` | main.cc:54-62 | when the complex product is associative, `powN` obeys z^(m+n) = z^m * z^n for m, n >= 1, so it is a genuine power |
| `ComplexArith.MulCommutes` | main.cc:25-30 | if the double `+` and `*` commute (as IEEE-754 ones do, up to NaN payloads), the source's complex product commutes, even on doubles |
| `ComplexArith.AddCommutes` | main.cc:11-16 | if the double `+` commutes, complex `add` commutes |
| `Exact.AddSubRoundTrip` | main.cc:11-23 | in exact arithmetic, `z.add(b).sub(b) == z` |
| `Exact.AbsSqZeroIff` | main.cc:64-66 | in exact arithmetic, `abssq` is never negative and is zero exactly at the origin |
| `Exact.DivMulRoundTrip` | main.cc:25-39 | in exact arithmetic, `z.div(b).mul(b) == z` for every b other than 0; the unguarded reciprocal is 1/abssq(b), and that is non-zero here |
| `Exact.RealMulAssociative` | main.cc:25-30 | in exact arithmetic, the source's complex product is associative |
| `Exact.RealPowerAdd` | main.cc:54-62 | in exact arithmetic, `powN` satisfies z^(m+n) = z^m * z^n |
| `Newton.FirstRoot` | main.cc:125-129 | the root scan yields the lowest table index whose root is within the basin threshold of the stepped point, and none exactly when no root is |
| `Newton.Search` | main.cc:114-134 | every result has iteration in [0, 2000) and root in [0, 2), and is the sentinel or has an iteration no earlier than the current one |
| `Newton.Calculate` | main.cc:108-135 | the nested-loop method with early return computes `Solve(z0)`, with iteration in [0, 2000) and root in [0, 2) |
| `Newton.SearchFindsFirstHit` | main.cc:114-132 | if iteration j is the first hit at or after i, the search from the i-th value reports (j, lowest matching root at j) |
| `Newton.SearchNoHit` | main.cc:114-134 | if no iteration from i to 1999 hits, the search from the i-th value returns (0, 0) |
| `Newton.SearchReportsFirstHit` | main.cc:114-134 | every search result is either (0, 0) after no hit at all, or a hit at its iteration with no hit before it; z has been stepped exactly that many times, each time after a miss |
| `Newton.SolveFindsFirstHit` | main.cc:114-132 | `calculate` returns the earliest iteration at which some root passes the test, with the lowest such root |
| `Newton.SolveReportsFirstHit` | main.cc:114-132 | any result of `calculate` other than (0, 0) is a real hit, and no earlier iteration hit |
| `Newton.SolveSentinel` | main.cc:127-134 | `calculate` returns exactly (0, 0) if and only if no iteration hits, or the first step lands near root 0; the two cases cannot be told apart |
| `Raster.HsvArgsRange` | main.cc:151 | for every result `calculate` can return, the hue `(root*100) % 255` equals `root*100` (0 or 100), and saturation `255 - 6*iteration` and value `12*iteration` lie in [-11739, 255] and [0, 23988], far inside a C int |
| `Raster.HsvArgsFitByte` | main.cc:151 | saturation and value both lie in [0, 255] if and only if iteration <= 21; from iteration 22 on, the int expressions of line 151 leave [0, 255] |
| `Raster.OffsetInBounds` | main.cc:147-154 | for every pixel, the offsets `idx .. idx+3` written by `render` lie in [0, width*height*4) |
| `Raster.BlocksDisjoint` | main.cc:147 | `(x, y, j) -> (y*width + x)*4 + j` is injective on the pixel grid and j in [0, 4), so each pixel owns a disjoint 4-byte block |
| `Raster.EncodeIndex` | main.cc:140-147 | every byte of the buffer is byte `i % 4` of the block of some grid pixel, so the grid's blocks cover the whole buffer |
| `Raster.ImageBlock` | main.cc:147-154 | the finished image holds the pixel's three `HsvToRgb` bytes at idx .. idx+2 and 255 at idx+3 |
| `Raster.PixelAlpha` | main.cc:153-154 | after `render`, `buf[(y*width + x)*4 + 3] == 255` for every pixel |
| `Raster.ImageAlpha` | main.cc:153-154 | every byte at an offset that is 3 mod 4 in the finished image is 255 |
| `Raster.Render` | main.cc:137-157 | the in-place fill, with outer loop over x and inner loop over y, leaves the buffer equal to `Image` whatever it held before: every byte is written, with no dependence on hidden state; with a zero or negative dimension no byte changes |
| `Raster.RenderColumn` | main.cc:141-155 | the inner loop over y, for one column x: if the buffer holds the image for every column before x and its initial bytes elsewhere, then afterwards it holds the image for column x as well |
| `Raster.PutPixel` | main.cc:149-154 | the four writes of one pixel set bytes idx .. idx+2 to the colour and idx+3 to 255, and change no other byte |

## Left out

- Complex `pow` (main.cc:41-52): it uses `atan2`, `log`, `exp`, `cos` and `sin` on doubles besides double arithmetic, and nothing in `calculate` or `render` calls it.
- `hue` and `hslToRgb` (main.cc:78-106): they are float arithmetic with truncating casts, and nothing in `render` calls them.
- `HsvToRgb`, `HsvColor`, `RgbColor`: they live in `hsv.h`, which is not part of this model. The conversion is a parameter, so any truncation of the int arguments to bytes is not modelled.
- Double rounding, NaN and infinity: every double operation is uninterpreted. The real-number facts in `Exact` are not claimed for doubles. The unguarded `1.0 / abssq` in `div` is kept as written, with division left uninterpreted.
- Raster.Render: when both dimensions are positive, it requires a buffer of exactly `width*height*4` bytes and `width*height*4 <= 2^31`. The source computes `idx` in a 32-bit `int`, so a larger image would overflow it, which is undefined behaviour in C. A shorter buffer would be written out of bounds, and the source has no check for it. A longer one works in the source, since bytes from `width*height*4` on are never touched; the model excludes it because the interface fixes the length. With a zero or negative dimension nothing is required, and the model shows that no byte is written.
- server.py: a static-file HTTP server with socket I/O only.
- Concurrency: the code is single-threaded.
