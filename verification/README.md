# CHIP-8 framebuffer

A Dafny model of the framebuffer owned by the `Renderer` class of a CHIP-8
emulator. The screen is a fixed grid of 32 rows by 64 columns of pixels that
are 0 (off) or 1 (on). Two operations change it:

- `setPixel(x, y)`, the simplified DRW primitive. It wraps both coordinates
  onto the screen with `%`, XORs the addressed pixel with 1, and returns
  `true` exactly when a lit pixel was erased. That return value is the
  collision flag.
- `clear()`, the CLS command. It turns every pixel off.

`framebuffer.dfy` (module `Framebuffer`) holds the grid as an immutable
`seq<seq<int>>` with its shape invariant `WellFormed`. It defines the
operations as pure functions and proves their properties. `renderer.dfy`
(module `RendererModel`) wraps the grid in a `Renderer` class, the source's class
without its canvas, whose `Valid()` is that invariant. Its constructor
establishes `Valid()` and `display == Blank()`, the zero-filled allocation
of lines 38-41. It also replays sequences of DRW/CLS commands against the pure
model.

Two defects of the source are noted in the header of `framebuffer.dfy`. The
model follows the behaviour the source's comments describe, not these defects:

- `Array(this.PIXEL_ROWS).map(...)` (line 39) and `this.display.map(...)`
  (line 65) never call their callback on the holes of a sparse array. As
  written, the rows are holes rather than zero-filled arrays.
- `setPixel` takes any `number`, but only non-negative integer coordinates
  wrap into range (lines 53-58). JavaScript `%` keeps the sign of its
  dividend and keeps fractions. A negative or fractional `y` makes
  `display[y]` undefined, and `setPixel` throws a TypeError at line 56. A
  negative or fractional `x` toggles a non-index property of the row
  (`^` treats its initial `undefined` as 0) and returns true iff that
  property is now 0; the 32×64 grid is unchanged. A negative exact multiple of the width or height gives `-0`,
  which indexes cell 0. The model takes natural-number coordinates, for
  which JavaScript `%` and Dafny `%` agree.

## Model

| member | source | states |
|---|---|---|
| Framebuffer.Blank | src/chip_components/renderer.ts:38-41 | the initial display is well-formed (32 rows of 64 cells, each 0 or 1) and every pixel is off |
| Framebuffer.Wrap | src/chip_components/renderer.ts:52-54 | a wrapped coordinate is below the screen extent, so indexing never goes out of range; an on-screen coordinate is kept unchanged |
| Framebuffer.WrapShift | src/chip_components/renderer.ts:52-54 | wrap-around is periodic: adding any whole number of screen widths gives the same wrapped coordinate |
| Framebuffer.XorOne | src/chip_components/renderer.ts:56 | XOR with 1 flips the lowest bit of a cell value and keeps every higher bit |
| Framebuffer.XorOneOnBit | src/chip_components/renderer.ts:56 | on a pixel value, XOR with 1 is the complement 1 - v, so cells stay in {0,1} |
| Framebuffer.XorOneInvolution | src/chip_components/renderer.ts:56 | XOR with 1 applied twice is the identity |
| Framebuffer.SetPixel | src/chip_components/renderer.ts:44-59 | the result is well-formed; the cell at (y mod 32, x mod 64) is complemented and every other cell is unchanged; the collision flag is true iff that cell was 1 before, iff it is 0 after |
| Framebuffer.SetPixelChangesOneCell | src/chip_components/renderer.ts:53-56 | the set of cells in which the display differs after `setPixel` is exactly the one wrapped (y, x) cell |
| Framebuffer.SetPixelInvolution | src/chip_components/renderer.ts:56-58 | drawing the same pixel twice restores the original display, and the two collision flags are negations of each other |
| Framebuffer.SetPixelWraps | src/chip_components/renderer.ts:52-56 | `setPixel(x + 64k, y + 32j)` gives the same display and collision flag as `setPixel(x, y)` |
| Framebuffer.DrawOnBlank | src/chip_components/renderer.ts:44-58 | on a blank screen the first draw of a pixel reports no collision, the second reports one and leaves the screen blank again |
| Framebuffer.Clear | src/chip_components/renderer.ts:61-66 | every row is replaced by 64 zeros: the row count is kept, every cell is off, and a well-formed display stays well-formed |
| Framebuffer.ClearIsBlank | src/chip_components/renderer.ts:61-65 | on any well-formed display, CLS yields the initial all-off display, whatever the display held before |
| Framebuffer.ClearIdempotent | src/chip_components/renderer.ts:64-65 | CLS applied twice is the same as CLS applied once |
| RendererModel.Renderer.SetPixel | src/chip_components/renderer.ts:51-59 | in-place DRW keeps `Valid()`; the display becomes the pure `SetPixel` result for the old display; the returned collision flag is true iff the addressed wrapped cell was 1 before the call |
| RendererModel.Renderer.Clear | src/chip_components/renderer.ts:64-66 | in-place CLS keeps `Valid()` and leaves the initial all-off display |
| RendererModel.Apply | src/chip_components/renderer.ts:51-66 | one DRW or CLS command keeps the display well-formed; after CLS every pixel is off |
| RendererModel.Run | src/chip_components/renderer.ts:51-66 | any sequence of DRW and CLS commands keeps the display at 32 rows of 64 cells, each 0 or 1 |
| RendererModel.RunEndingInClsIsBlank | src/chip_components/renderer.ts:61-65 | whatever commands ran before, a trailing CLS leaves the initial all-off display |
| RendererModel.DoubleDrawCancels | src/chip_components/renderer.ts:56-58 | two consecutive draws of the same pixel anywhere in a command sequence can be removed without changing the final display |

## Left out

- Canvas acquisition and its two error paths (lines 18-31) are DOM I/O. So is the assignment of the canvas and context. The source also reads `this.canvas` at line 25 before assigning it at line 30; this is not modelled either.
- Canvas resizing by the scale factor (lines 33-36) is a DOM side effect. The `scale` field is therefore not modelled, and the `Renderer` constructor takes no argument.
- There is no drawing pass in the source, so none is modelled.
- Negative and fractional coordinates are excluded; coordinates are `nat`. In the source, a negative or fractional `y` makes `display[y]` undefined and `setPixel` throws a TypeError (lines 54-56). A negative or fractional `x` toggles a non-index property of the row (`^` treats its initial `undefined` as 0) and returns true iff that property is now 0, so repeated draws alternate false, true; the 32×64 grid is unchanged (lines 53, 56-58). This error path and the stray property are not modelled.
- JavaScript sparse-array `map` semantics (lines 39, 65) are not modelled. The model uses the zero-filled grid the comments describe.
- Framebuffer.XorOne: defined on non-negative integers only, not on JavaScript's 32-bit signed conversion. Cells only ever hold 0 or 1, so the two agree on every value the display can contain.
