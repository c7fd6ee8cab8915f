/**
 The CHIP-8 framebuffer: a fixed grid of 32 rows by 64 columns whose cells are
 0 (off) or 1 (on), with the two operations of the renderer that change it:
 the simplified DRW primitive (XOR one pixel, report a collision) and CLS
 (turn every pixel off).

 The grid is an immutable value and both operations are pure functions; the
 stateful renderer in module RendererModel is a thin wrapper around them.

 Two defects of the JavaScript implementation are deliberately NOT modelled;
 the model follows the behaviour its comments describe:
 - `Array(rows).map(...)` and `display.map(...)` never call their callback on
   the holes of a sparse array, so as written the grid rows are holes rather
   than zero-filled arrays. The model builds the zero-filled grid the comment
   on the allocation promises (Blank) and the zero-filled rows `clear` is
   meant to produce (Clear).
 - Only non-negative integer coordinates wrap into range. JavaScript `%`
   keeps the sign of its dividend and keeps fractions. A negative or
   fractional `y` makes `display[y]` undefined, so `setPixel` throws a
   TypeError. A negative or fractional `x` toggles a non-index property
   of the row (`^` treats its initial `undefined` as 0) and returns true iff
   that property is now 0; the 32 by 64 grid is unchanged. Coordinates here are natural numbers, for
   which JavaScript `%` and Dafny `%` agree.
 */
module Framebuffer {

  /** Number of pixel columns (the x extent of the screen). */
  const PixelCols: nat := 64

  /** Number of pixel rows (the y extent of the screen). */
  const PixelRows: nat := 32

  /** Row-major pixel grid: `g[y][x]` is the pixel in column x of row y. */
  type Grid = seq<seq<int>>

  /** A pixel value is 0 (off) or 1 (on). */
  predicate IsBit(v: int) {
    v == 0 || v == 1
  }

  /** The shape invariant of the display: 32 rows of 64 cells, each 0 or 1. */
  predicate WellFormed(g: Grid) {
    && |g| == PixelRows
    && (forall row :: 0 <= row < |g| ==> |g[row]| == PixelCols)
    && (forall row, col :: 0 <= row < |g| && 0 <= col < |g[row]| ==> IsBit(g[row][col]))
  }

  /** True when every cell of the grid is off. */
  predicate AllOff(g: Grid) {
    forall row, col :: 0 <= row < |g| && 0 <= col < |g[row]| ==> g[row][col] == 0
  }

  /** The display as allocated by the constructor: every pixel off. */
  function Blank(): (g: Grid)
    ensures WellFormed(g)
    ensures AllOff(g)
  {
    seq(PixelRows, _ => seq(PixelCols, _ => 0))
  }

  /** Any two all-off well-formed grids are the same grid. */
  lemma AllOffIsBlank(g: Grid)
    requires WellFormed(g) && AllOff(g)
    ensures g == Blank()
  {
    var b := Blank();
    forall row | 0 <= row < PixelRows
      ensures g[row] == b[row]
    {
      assert |g[row]| == |b[row]|;
    }
  }

  /**
   Reduction of a non-negative coordinate onto the screen: the remainder of
   `x` modulo `n`. A coordinate already on screen is kept as it is.
   */
  function Wrap(x: nat, n: nat): (r: nat)
    requires n > 0
    ensures r < n
    ensures x < n ==> r == x
  {
    x % n
  }

  /** One more lap around the screen lands on the same pixel. */
  lemma WrapStep(x: nat, n: nat)
    requires n > 0
    ensures Wrap(x + n, n) == Wrap(x, n)
  {
    var q, r := x / n, x % n;
    var q', r' := (x + n) / n, (x + n) % n;
    var d := q' - q - 1;
    assert d * n == r - r' by {
      assert x + n == q' * n + r';
      assert x == q * n + r;
    }
    if d > 0 {
      MulAtLeast(d, n);
    } else if d < 0 {
      MulAtLeast(-d, n);
    }
  }

  /** A positive multiple of a positive number is at least that number. */
  lemma MulAtLeast(d: int, n: int)
    requires d > 0 && n > 0
    ensures d * n >= n
  {
  }

  /** Wrap-around is periodic: adding any number of laps changes nothing. */
  lemma {:induction false} WrapShift(x: nat, n: nat, k: nat)
    requires n > 0
    ensures Wrap(x + n * k, n) == Wrap(x, n)
    decreases k
  {
    if k > 0 {
      WrapShift(x, n, k - 1);
      assert x + n * k == (x + n * (k - 1)) + n;
      WrapStep(x + n * (k - 1), n);
    }
  }

  /**
   JavaScript `v ^ 1` on a non-negative integer: the lowest bit is flipped
   and every higher bit is kept.
   */
  function XorOne(v: nat): (r: nat)
    ensures r % 2 != v % 2
    ensures r / 2 == v / 2
  {
    if v % 2 == 0 then v + 1 else v - 1
  }

  /** On a pixel value, XOR with 1 is the complement 1 - v and stays a bit. */
  lemma XorOneOnBit(v: int)
    requires IsBit(v)
    ensures IsBit(XorOne(v))
    ensures XorOne(v) == 1 - v
  {
  }

  /** XOR with 1 is an involution. */
  lemma XorOneInvolution(v: nat)
    ensures XorOne(XorOne(v)) == v
  {
  }

  /** The result of the DRW primitive: the new display and the collision flag. */
  datatype Step = Step(display: Grid, collision: bool)

  /**
   The simplified DRW primitive `setPixel(x, y)`: wrap both coordinates onto
   the screen, XOR the addressed pixel with 1, and report a collision exactly
   when the pixel is off afterwards (JavaScript `!` on a number is true only
   for 0), that is, when a lit pixel was erased.
   */
  function SetPixel(g: Grid, x: nat, y: nat): (s: Step)
    requires WellFormed(g)
    ensures WellFormed(s.display)
    ensures forall row, col :: 0 <= row < PixelRows && 0 <= col < PixelCols ==>
      s.display[row][col] ==
        (if row == Wrap(y, PixelRows) && col == Wrap(x, PixelCols) then 1 - g[row][col] else g[row][col])
    ensures s.collision <==> g[Wrap(y, PixelRows)][Wrap(x, PixelCols)] == 1
    ensures s.collision <==> s.display[Wrap(y, PixelRows)][Wrap(x, PixelCols)] == 0
  {
    var row := Wrap(y, PixelRows);
    var col := Wrap(x, PixelCols);
    XorOneOnBit(g[row][col]);
    var v := XorOne(g[row][col]);
    Step(g[row := g[row][col := v]], v == 0)
  }

  /** The CLS command: every row of the display is replaced by 64 zeros. */
  function Clear(g: Grid): (r: Grid)
    ensures |r| == |g|
    ensures forall row :: 0 <= row < |r| ==> |r[row]| == PixelCols
    ensures AllOff(r)
    ensures WellFormed(g) ==> WellFormed(r)
  {
    seq(|g|, _ => seq(PixelCols, _ => 0))
  }

  /** The cells in which two well-formed grids differ, as (row, column) pairs. */
  function ChangedCells(a: Grid, b: Grid): set<(int, int)>
    requires WellFormed(a) && WellFormed(b)
  {
    set row, col | 0 <= row < PixelRows && 0 <= col < PixelCols && a[row][col] != b[row][col] :: (row, col)
  }

  /** `setPixel` changes exactly one cell: the wrapped (y, x) one. */
  lemma SetPixelChangesOneCell(g: Grid, x: nat, y: nat)
    requires WellFormed(g)
    ensures ChangedCells(g, SetPixel(g, x, y).display) == {(Wrap(y, PixelRows), Wrap(x, PixelCols))}
  {
    var s := SetPixel(g, x, y);
    var target := (Wrap(y, PixelRows), Wrap(x, PixelCols));
    var changed := ChangedCells(g, s.display);
    assert s.display[target.0][target.1] != g[target.0][target.1];
    assert target in changed;
    forall cell | cell in changed
      ensures cell == target
    {
    }
  }

  /**
   Drawing the same pixel twice restores the original display, and the two
   collision flags are negations of each other.
   */
  lemma SetPixelInvolution(g: Grid, x: nat, y: nat)
    requires WellFormed(g)
    ensures SetPixel(SetPixel(g, x, y).display, x, y).display == g
    ensures SetPixel(SetPixel(g, x, y).display, x, y).collision == !SetPixel(g, x, y).collision
  {
    var first := SetPixel(g, x, y);
    var second := SetPixel(first.display, x, y);
    forall row | 0 <= row < PixelRows
      ensures second.display[row] == g[row]
    {
      forall col | 0 <= col < PixelCols
        ensures second.display[row][col] == g[row][col]
      {
      }
    }
  }

  /**
   Coordinates wrap around: drawing k columns-widths further right and j
   row-heights further down addresses the same pixel with the same result.
   */
  lemma SetPixelWraps(g: Grid, x: nat, y: nat, k: nat, j: nat)
    requires WellFormed(g)
    ensures SetPixel(g, x + PixelCols * k, y + PixelRows * j) == SetPixel(g, x, y)
  {
    WrapShift(x, PixelCols, k);
    WrapShift(y, PixelRows, j);
  }

  /** CLS gives the blank display whatever the display held before. */
  lemma ClearIsBlank(g: Grid)
    requires WellFormed(g)
    ensures Clear(g) == Blank()
  {
    AllOffIsBlank(Clear(g));
  }

  /** CLS is idempotent. */
  lemma ClearIdempotent(g: Grid)
    ensures Clear(Clear(g)) == Clear(g)
  {
  }

  /** On a blank screen: the first draw lights the pixel, the second erases it. */
  lemma DrawOnBlank(x: nat, y: nat)
    ensures !SetPixel(Blank(), x, y).collision
    ensures SetPixel(SetPixel(Blank(), x, y).display, x, y).collision
    ensures SetPixel(SetPixel(Blank(), x, y).display, x, y).display == Blank()
  {
    SetPixelInvolution(Blank(), x, y);
  }
}
