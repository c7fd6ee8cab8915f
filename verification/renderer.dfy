/**
 The renderer as an object: it owns the framebuffer and changes it in place
 through `setPixel` and `clear`, keeping the framebuffer's shape invariant.
 Canvas acquisition, its two error paths and canvas resizing are environment
 I/O and are not part of this model.

 Also here: replay of a sequence of DRW/CLS commands against the pure model,
 which states that the shape invariant survives any sequence of operations.
 */
module RendererModel {
  import opened Framebuffer

  /**
   The source's `Renderer` class without its canvas, context and scale: it
   owns the display and changes it in place.
   */
  class Renderer {
    /** The pixel grid: `display[y][x]` is the pixel in column x of row y. */
    var display: Grid

    predicate Valid()
      reads this
    {
      WellFormed(display)
    }

    /** Allocates the display with every pixel off. */
    constructor()
      ensures Valid()
      ensures display == Blank()
    {
      display := Blank();
    }

    /** Simplified DRW: XOR one pixel in place and report whether a lit pixel was erased. */
    method SetPixel(x: nat, y: nat) returns (collision: bool)
      requires Valid()
      modifies this
      ensures Valid()
      ensures display == Framebuffer.SetPixel(old(display), x, y).display
      ensures collision <==> old(display)[Wrap(y, PixelRows)][Wrap(x, PixelCols)] == 1
    {
      var s := Framebuffer.SetPixel(display, x, y);
      display := s.display;
      collision := s.collision;
    }

    /** CLS: turn every pixel off. */
    method Clear()
      requires Valid()
      modifies this
      ensures Valid()
      ensures display == Blank()
    {
      ClearIsBlank(display);
      display := Framebuffer.Clear(display);
    }
  }

  /** One operation on the framebuffer. */
  datatype Command = Draw(x: nat, y: nat) | Cls

  /** The display after one command. */
  function Apply(g: Grid, c: Command): (r: Grid)
    requires WellFormed(g)
    ensures WellFormed(r)
    ensures c.Cls? ==> AllOff(r)
  {
    match c
    case Draw(x, y) => Framebuffer.SetPixel(g, x, y).display
    case Cls => Framebuffer.Clear(g)
  }

  /** The display after a sequence of commands, applied first to last. */
  function Run(g: Grid, cmds: seq<Command>): (r: Grid)
    requires WellFormed(g)
    ensures WellFormed(r)
    decreases |cmds|
  {
    if cmds == [] then g else Run(Apply(g, cmds[0]), cmds[1..])
  }

  /** Running `cmds` then `c` is running `cmds` and applying `c` to the result. */
  lemma {:induction false} RunSnoc(g: Grid, cmds: seq<Command>, c: Command)
    requires WellFormed(g)
    ensures Run(g, cmds + [c]) == Apply(Run(g, cmds), c)
    decreases |cmds|
  {
    if cmds == [] {
      assert [] + [c] == [c];
    } else {
      assert (cmds + [c])[1..] == cmds[1..] + [c];
      RunSnoc(Apply(g, cmds[0]), cmds[1..], c);
    }
  }

  /** Whatever was drawn before, a trailing CLS leaves the blank display. */
  lemma RunEndingInClsIsBlank(g: Grid, cmds: seq<Command>)
    requires WellFormed(g)
    ensures Run(g, cmds + [Cls]) == Blank()
  {
    RunSnoc(g, cmds, Cls);
    ClearIsBlank(Run(g, cmds));
  }

  /**
   Drawing the same pixel twice in a row anywhere in a command sequence can be
   cancelled without changing the final display.
   */
  lemma {:induction false} DoubleDrawCancels(g: Grid, before: seq<Command>, x: nat, y: nat, after: seq<Command>)
    requires WellFormed(g)
    ensures Run(g, before + [Draw(x, y), Draw(x, y)] + after) == Run(g, before + after)
    decreases |before|
  {
    if before == [] {
      assert ([] + [Draw(x, y), Draw(x, y)] + after)[1..][1..] == after;
      SetPixelInvolution(g, x, y);
      assert [] + after == after;
    } else {
      assert (before + [Draw(x, y), Draw(x, y)] + after)[1..] == before[1..] + [Draw(x, y), Draw(x, y)] + after;
      assert (before + after)[1..] == before[1..] + after;
      DoubleDrawCancels(Apply(g, before[0]), before[1..], x, y, after);
    }
  }
}
