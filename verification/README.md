# Metaballs field kernel, modelled in Dafny

The program draws a window of "metaballs": moving circular sources whose
inverse-distance influences are summed at every pixel, clamped, thresholded to
one of two grey levels and written into a row-major RGBA byte buffer each frame.
The balls bounce off the window edges by flipping the sign of their velocity,
never by clamping their position, and a mouse click adds a ball.

This project models that core of `src/main.rs`:

- `geometry.dfy` (module `Geometry`): raylib's `Vector2` with `real`
  components, `abs`, and the square root. The square root is not computed: every
  member that needs it receives `sqrt: real -> real` and states what it assumes.
  `PositiveOnPositives` is enough for `dist` to be defined. `StrictlyIncreasing`
  is needed for the monotonicity lemma. `IsSquareRoot` is needed for the exact
  threshold boundary.
- `metaball.dfy` (module `Metaballs`): the `Metaball` struct as a class whose
  `Update` changes `position` and `vel` in place, its `Dist` influence
  function, and `Reflect`, the per-axis reflection rule that specifies `Update`.
- `field.dfy` (module `Field`): the clamp and threshold, the per-pixel sum
  (`FieldSum` as its specification, `FieldAt` as the loop over the balls), the
  byte layout `4 * x + 4 * y * width`, and `FillBuffer`, the nested `x`/`y` loop
  that writes the buffer in place.
- `mainloop.dfy` (module `MainLoop`): the state `main` keeps across frames, as
  the class `Simulation`. It holds the ball collection, the buffer and the bounds.
  Its methods advance every ball, refill the buffer and append a clicked ball.

`f32` is modelled as `real`, so rounding, infinities and NaN are outside the
model. `u8` is the newtype `uint8`. The frame time, the click position and the
randomly drawn ball sizes and velocities are parameters.

A ball of size 50 lights exactly the pixels with `0 < d2 <= 625`, where `d2`
is the squared distance to its centre. Its own centre stays dark, because `dist`
returns 0 when `d2 == 0` (src/main.rs:65). `SingleBallBoundary` states the
boundary, and `SingleBallCentreDark` proves the centre is dark.

## Model

| member | source | states |
|---|---|---|
| `Geometry.Abs` | src/main.rs:74-82 | `abs` is never negative and is the value or its negation; for a negative value it is the negation |
| `Geometry.SquareRootIsPositiveAndIncreasing` | src/main.rs:66 | the real square root meets both weaker assumptions made of `sqrt`: positive on positive inputs, and strictly increasing |
| `Metaballs.Reflect` | src/main.rs:73-83 | one axis of `update`: the magnitude of the velocity is kept and only its sign may flip; it is unchanged exactly when neither the "at or past the limit moving outwards" case nor the "below zero moving outwards" case holds; at or past a non-negative limit the new velocity is never positive; below zero (and below the limit) it is never negative |
| `Metaballs.ReflectIdempotent` | src/main.rs:73-83 | with a non-negative limit, applying the rule a second time at the same coordinate changes nothing, so a turned velocity is never turned back |
| `Metaballs.Metaball.constructor` | src/main.rs:53-57 | a ball holds exactly the position, size, velocity and limit it was built from; the random draws of `new` and `new_pos` are its arguments |
| `Metaballs.Metaball.Dist` | src/main.rs:60-68 | `dist` is 0 when the query point is the ball's position; it is 0 exactly when the squared distance or the size is 0; it is positive exactly when the squared distance is non-zero and the size is positive; it is never negative for a non-negative size |
| `Metaballs.Metaball.Update` | src/main.rs:70-84 | the new position is the old position plus `vel * elapsed`, unclamped; each velocity component is `Reflect` of the old component at the new coordinate, the two axes independently; `size` and `limit` are unchanged |
| `Metaballs.DistPointSymmetric` | src/main.rs:60-67 | the influence at `position + (dx, dy)` equals the influence at `position - (dx, dy)` |
| `Metaballs.DistDecreasing` | src/main.rs:63-66 | for an increasing `sqrt` and a positive size, a larger non-zero squared distance gives a strictly smaller influence |
| `Field.Clamp` | src/main.rs:134 | `clamp(0, 255)` lands in the range, is the identity inside it, and gives the nearer bound outside it |
| `Field.Luminance` | src/main.rs:134 | the grey level is always 0 or 200; it is 200 exactly when the raw (unclamped) sum is at least 100 and 0 exactly when it is below 100 |
| `Field.FieldSum` | src/main.rs:128-132 | the sum over no balls is 0; when every ball has a non-negative size, the sum is non-negative |
| `Field.FieldSumAppend` | src/main.rs:130-131 | appending a ball adds exactly its influence times 50 to the sum at every point, on top of the sum of the earlier balls |
| `Field.FieldAt` | src/main.rs:128-132 | the loop over the balls returns the sum that `FieldSum` specifies |
| `Field.PixelByte` | src/main.rs:134-141 | the alpha byte is 255; each colour byte is 0 or 200, and 200 exactly when the pixel's sum is at least 100 |
| `Field.ColourChannelsAgree` | src/main.rs:138-140 | the bytes at offsets +0, +1 and +2 of a pixel are equal |
| `Field.NoBallsIsBlack` | src/main.rs:128-141 | with no balls every pixel is (0, 0, 0, 255) |
| `Field.SingleBallBoundary` | src/main.rs:128-134 | one ball of size 50, real square root: a point is lit exactly when its squared distance to the centre is positive and at most 625 |
| `Field.SingleBallLitAt25` | src/main.rs:128-134 | a ball of size 50 at (5, 5) lights the point (5, 30), at squared distance 625 |
| `Field.SingleBallDarkAt26` | src/main.rs:128-134 | the same ball leaves (5, 31), at squared distance 676, dark |
| `Field.SingleBallCentreDark` | src/main.rs:65 | a single ball leaves its own centre dark, whatever its size |
| `Field.Offset` | src/main.rs:135-141 | the offset `4*x + 4*y*width` of a pixel of the window is a non-negative multiple of 4 that decodes back to the pixel, column `(o/4) % width` and row `(o/4) / width` |
| `Field.OffsetInBounds` | src/main.rs:135-141 | every byte index `4*x + 4*y*width + c` for a pixel of the window and a channel `c < 4` lies in `[0, width*height*4)` |
| `Field.OffsetInjective` | src/main.rs:135-141 | two (pixel, channel) pairs with the same byte index are the same pair |
| `Field.PixelsDisjoint` | src/main.rs:135-141 | the four-byte ranges of two distinct pixels do not overlap |
| `Field.OffsetCovers` | src/main.rs:122-141 | every index of the buffer is the byte of a pixel of the window and a channel, namely the ones it decodes to |
| `Field.WritePixel` | src/main.rs:138-141 | the four writes put the grey level at +0..+2 and 255 at +3, and change no other byte |
| `Field.FillPixel` | src/main.rs:128-141 | one pass of the loop body finishes pixel `(x, y)` and leaves every other finished pixel finished |
| `Field.FillBuffer` | src/main.rs:124-143 | after the `x`-outer, `y`-inner loop every pixel of the window holds its prescribed four bytes, and every byte of the buffer holds the byte its index decodes to, so no byte is left unwritten |
| `MainLoop.Simulation.constructor` | src/main.rs:89-108 | the screen is 800 by 600, every ball is bounded by it, the buffer has `800*600*4` bytes, all 255 (a white image), and the balls are the five initial ones |
| `MainLoop.Simulation.AdvanceAll` | src/main.rs:118-120 | every ball is updated as `Update` states, against the window bounds; the collection itself is unchanged |
| `MainLoop.Simulation.Render` | src/main.rs:122-143 | the buffer is refilled from the current balls as `FillBuffer` states, so two renders of the same balls give the same buffer |
| `MainLoop.Simulation.Tick` | src/main.rs:116-143 | the balls move first, each as `Update` states (new position, velocity reflected per axis at the new position, size unchanged), and the buffer is then filled from their new positions |
| `MainLoop.Simulation.Spawn` | src/main.rs:155-157 | exactly one new ball is appended after the existing ones, which stay as they were; it sits at the click position, has the drawn size and velocity, and is bounded by the window |

## Left out

- The raylib window, texture upload, drawing, frame-rate display and mouse polling (src/main.rs:93-96, 108-109, 145-157): foreign I/O with no logic of their own. The click position is a parameter of `Spawn`.
- `Grid::draw` (src/main.rs:9-18): it only issues line-drawing calls and has no result to state.
- `random`, and the draws in `Metaball::new` and `Metaball::new_pos` (src/main.rs:21-26, 37-58): they depend on raylib's random generator, and the truncating `as i32` casts make the ranges the library's business. The drawn values are arguments of the constructors and of `Spawn`, with no range constraint; the simulation starts from exactly five of them.
- The frame clock and the `window_should_close` loop (src/main.rs:114-116): `elapsed` is a parameter of `AdvanceAll` and `Tick`.
- The `unsafe` slice over the image's raw memory (src/main.rs:122): the buffer is an owned array of the same length.
- IEEE-754 `f32` rounding, overflow and NaN, and the actual value of `sqrt`: arithmetic is on `real`, and `sqrt` is a parameter with stated assumptions.
- The `i32`/`usize` index arithmetic is on unbounded integers. For the 800 by 600 screen no index exceeds `i32`.
- Metaballs.Metaball.Dist: the contract says `dist` is 0 exactly when the squared distance (or the size) is 0. It does not go on to say that a zero squared distance happens only at the ball's own position. That last step is nonlinear real arithmetic that the solver does not complete.
