/** The frame buffer of the headless display: a map of pixels changed since the last commit, the
    committed pixels, a default colour and a deferred reset.  `history` records every draw
    command ever received; Valid() says that the fields together show what a plain screen painted
    with that history shows. */
module FrameBuffers {
  import opened Canvas
  import opened Events
  import opened Screenshot
  import opened Wrappers

  /** The pixel has the colour of some command that covers it. */
  ghost predicate DrawnBy(model: Model, history: seq<Command>, p: (int, int), color: int) {
    exists c :: c in history && Covers(c, p.0, p.1) && color == CheckColor(model, c.color)
  }

  /** The three bytes of a pixel, red first, are the colour that a plain screen shows there. */
  ghost predicate PixelShows(
      model: Model, width: int, height: int, commands: seq<Command>, image: seq<int>, x: int, y: int) {
    var p := 3 * (y * width + x);
    && 0 <= p && p + 2 < |image| && (forall i :: p <= i < p + 3 ==> 0 <= image[i] < 0x100)
    && Shows(model, commands, x, y, image[p] * 0x10000 + image[p + 1] * 0x100 + image[p + 2])
  }

  /** An image of three bytes a pixel that shows, at every pixel, what a plain screen shows after the commands. */
  ghost predicate ShowsHistory(model: Model, width: int, height: int, commands: seq<Command>, image: seq<int>) {
    && |image| == 3 * (width * height)
    && forall x, y :: InRect(0, 0, width, height, x, y) ==> PixelShows(model, width, height, commands, image, x, y)
  }

  class FrameBuffer {
    const model: Model
    const width: int
    const height: int
    var pixels: map<(int, int), int>
    var screenshotPixels: map<(int, int), int>
    var defaultColor: int
    var drawDefaultColor: bool
    var resetScreenshotPixels: bool
    ghost var history: seq<Command>

    predicate OnScreen(x: int, y: int) {
      InRect(0, 0, width, height, x, y)
    }

    /** What the screen shows at a pixel once all that is pending is committed. */
    function Shown(x: int, y: int): int
      reads this
    {
      if (x, y) in pixels then pixels[(x, y)]
      else if !resetScreenshotPixels && (x, y) in screenshotPixels then screenshotPixels[(x, y)]
      else defaultColor
    }

    ghost predicate Valid()
      reads this
    {
      && width > 0 && height > 0
      && (resetScreenshotPixels ==> drawDefaultColor)
      && (forall x, y :: OnScreen(x, y) ==> Shown(x, y) == ColorAt(model, history, x, y))
      && (forall p :: p in pixels ==> DrawnBy(model, history, p, pixels[p]))
      && (forall p :: p in screenshotPixels ==> DrawnBy(model, history, p, screenshotPixels[p]))
      && (defaultColor == 0 || exists c :: c in history && defaultColor == CheckColor(model, c.color))
    }

    /** A command inside the screen, with a colour of 24 bits. */
    ghost predicate Acceptable(c: Command) {
      StaysInside(c, width, height) && Fits(CheckColor(model, c.color))
    }

    /** Every command so far was inside the screen and had a colour of 24 bits. */
    ghost predicate AllAcceptable()
      reads this`history
    {
      forall c :: c in history ==> Acceptable(c)
    }

    /** Then every stored pixel is on the screen and every stored colour has 24 bits. */
    lemma StoredPixelsAreSound()
      requires Valid() && AllAcceptable()
      ensures Fits(defaultColor)
      ensures forall p :: p in pixels ==> OnScreen(p.0, p.1) && Fits(pixels[p])
      ensures forall p :: p in screenshotPixels ==> OnScreen(p.0, p.1) && Fits(screenshotPixels[p])
    {
      forall p, color | DrawnBy(model, history, p, color)
        ensures OnScreen(p.0, p.1) && Fits(color)
      {
        var c :| c in history && Covers(c, p.0, p.1) && color == CheckColor(model, c.color);
        assert Acceptable(c);
      }
    }

    /** The committed pixels alone already show the whole history. */
    ghost predicate Published()
      reads this
    {
      forall x, y :: OnScreen(x, y) ==>
        (if (x, y) in screenshotPixels then screenshotPixels[(x, y)] else defaultColor)
          == ColorAt(model, history, x, y)
    }

    constructor (model: Model)
      ensures Valid() && Published()
      ensures this.model == model && (width, height) == ScreenSize(model)
      ensures history == []
    {
      this.model := model;
      width, height := ScreenSize(model).0, ScreenSize(model).1;
      pixels, screenshotPixels := map[], map[];
      defaultColor := 0;
      drawDefaultColor, resetScreenshotPixels := false, false;
      history := [];
    }

    method DrawPoint(x: int, y: int, color: int)
      requires Valid()
      modifies this
      ensures Valid()
      ensures history == old(history) + [Point(x, y, color)]
      ensures pixels == old(pixels)[(x, y) := CheckColor(model, color)]
      ensures screenshotPixels == old(screenshotPixels) && defaultColor == old(defaultColor)
    {
      pixels := pixels[(x, y) := CheckColor(model, color)];
      history := history + [Point(x, y, color)];
      OneMore(old(history), Point(x, y, color));
      StillDrawn(old(history), Point(x, y, color));
      assert Covers(Point(x, y, color), x, y);
    }

    method DrawHorizontalLine(x0: int, y: int, lineWidth: int, color: int)
      requires Valid()
      modifies this
      ensures Valid()
      ensures history == old(history) + [Line(x0, y, lineWidth, color)]
      ensures screenshotPixels == old(screenshotPixels) && defaultColor == old(defaultColor)
    {
      hide DrawnBy, ColorAt;
      ghost var command := Line(x0, y, lineWidth, color);
      var c := CheckColor(model, color);
      for x := x0 to if lineWidth > 0 then x0 + lineWidth else x0
        invariant resetScreenshotPixels == old(resetScreenshotPixels)
        invariant screenshotPixels == old(screenshotPixels)
        invariant defaultColor == old(defaultColor) && drawDefaultColor == old(drawDefaultColor)
        invariant history == old(history)
        invariant forall px, py :: (px, py) in pixels <==>
          (px, py) in old(pixels) || InRect(x0, y, x - x0, 1, px, py)
        invariant forall px, py :: (px, py) in pixels ==>
          pixels[(px, py)] == if InRect(x0, y, x - x0, 1, px, py) then c else old(pixels)[(px, py)]
      {
        pixels := pixels[(x, y) := c];
      }
      history := history + [command];
      OneMore(old(history), command);
      StillDrawn(old(history), command);
      LastDraws(old(history), command);
      forall p | p in pixels
        ensures DrawnBy(model, history, p, pixels[p])
      {
        assert p == (p.0, p.1);
        if !Covers(command, p.0, p.1) {
          assert p in old(pixels) && pixels[p] == old(pixels)[p];
        }
      }
    }

    /** A rectangle covering the whole screen drops all pixels instead of painting them. */
    method DrawRect(x0: int, y0: int, rectWidth: int, rectHeight: int, color: int) returns (events: seq<TextEvent>)
      requires Valid()
      modifies this
      ensures Valid()
      ensures history == old(history) + [Rect(x0, y0, rectWidth, rectHeight, color)]
      ensures (x0, y0, rectWidth, rectHeight) == (0, 0, width, height) ==>
        events == [TextEvent("", 0, 0, 0, 0, true)] && pixels == map[]
      ensures (x0, y0, rectWidth, rectHeight) != (0, 0, width, height) ==>
        events == [] && defaultColor == old(defaultColor) && screenshotPixels == old(screenshotPixels)
    {
      hide DrawnBy, ColorAt;
      ghost var command := Rect(x0, y0, rectWidth, rectHeight, color);
      var c := CheckColor(model, color);
      if x0 == 0 && y0 == 0 && rectWidth == width && rectHeight == height {
        defaultColor := c;
        drawDefaultColor := true;
        pixels := map[];
        resetScreenshotPixels := true;
        history := history + [command];
        OneMore(old(history), command);
        StillDrawn(old(history), command);
        LastDraws(old(history), command);
        return [TextEvent("", 0, 0, 0, 0, true)];
      }
      for x := x0 to if rectWidth > 0 then x0 + rectWidth else x0
        invariant resetScreenshotPixels == old(resetScreenshotPixels)
        invariant screenshotPixels == old(screenshotPixels)
        invariant defaultColor == old(defaultColor) && drawDefaultColor == old(drawDefaultColor)
        invariant history == old(history)
        invariant forall px, py :: (px, py) in pixels <==>
          (px, py) in old(pixels) || InRect(x0, y0, x - x0, rectHeight, px, py)
        invariant forall px, py :: (px, py) in pixels ==>
          pixels[(px, py)] == if InRect(x0, y0, x - x0, rectHeight, px, py) then c else old(pixels)[(px, py)]
      {
        ghost var before := pixels;
        for y := y0 to if rectHeight > 0 then y0 + rectHeight else y0
          invariant resetScreenshotPixels == old(resetScreenshotPixels)
          invariant screenshotPixels == old(screenshotPixels)
          invariant defaultColor == old(defaultColor) && drawDefaultColor == old(drawDefaultColor)
          invariant history == old(history)
          invariant forall px, py :: (px, py) in pixels <==>
            (px, py) in before || InRect(x, y0, 1, y - y0, px, py)
          invariant forall px, py :: (px, py) in pixels ==>
            pixels[(px, py)] == if InRect(x, y0, 1, y - y0, px, py) then c else before[(px, py)]
        {
          pixels := pixels[(x, y) := c];
        }
      }
      history := history + [command];
      OneMore(old(history), command);
      StillDrawn(old(history), command);
      LastDraws(old(history), command);
      forall p | p in pixels
        ensures DrawnBy(model, history, p, pixels[p])
      {
        assert p == (p.0, p.1);
        if !Covers(command, p.0, p.1) {
          assert p in old(pixels) && pixels[p] == old(pixels)[p];
        }
      }
      return [];
    }

    /** One more command decides the colour of what it covers and of nothing else. */
    lemma OneMore(h: seq<Command>, c: Command)
      ensures forall x, y ::
        ColorAt(model, h + [c], x, y) == if Covers(c, x, y) then CheckColor(model, c.color) else ColorAt(model, h, x, y)
    {
      assert (h + [c])[..|h + [c]| - 1] == h;
    }

    lemma StillDrawn(h: seq<Command>, c: Command)
      ensures forall p, color :: DrawnBy(model, h, p, color) ==> DrawnBy(model, h + [c], p, color)
      ensures forall d :: d in h ==> d in h + [c]
    {
      forall p, color | DrawnBy(model, h, p, color)
        ensures DrawnBy(model, h + [c], p, color)
      {
        var d :| d in h && Covers(d, p.0, p.1) && color == CheckColor(model, d.color);
        assert d in h + [c];
      }
    }

    lemma LastDraws(h: seq<Command>, c: Command)
      ensures c in h + [c]
      ensures forall x, y :: Covers(c, x, y) ==> DrawnBy(model, h + [c], (x, y), CheckColor(model, c.color))
    {
      assert (h + [c])[|h|] == c;
    }

    /** Commit the pending pixels into the screenshot. */
    method UpdateScreenshot()
      requires Valid()
      modifies this`screenshotPixels, this`resetScreenshotPixels
      ensures Valid() && Published() && !resetScreenshotPixels
      ensures screenshotPixels == (if old(resetScreenshotPixels) then map[] else old(screenshotPixels)) + pixels
    {
      if resetScreenshotPixels {
        screenshotPixels := map[];
        resetScreenshotPixels := false;
      }
      screenshotPixels := screenshotPixels + pixels;
      assert forall x, y :: OnScreen(x, y) ==> Shown(x, y) == ColorAt(model, history, x, y);
    }

    /** The headless commit: nothing to do when nothing was drawn. */
    method Update() returns (redrawn: bool)
      requires Valid()
      modifies this
      ensures Valid() && Published()
      ensures history == old(history)
      ensures redrawn <==> old(pixels) != map[] || old(drawDefaultColor)
      ensures pixels == map[] && !drawDefaultColor
    {
      hide DrawnBy, ColorAt;
      if pixels != map[] || drawDefaultColor {
        UpdateScreenshot();
        pixels := map[];
        drawDefaultColor := false;
        assert forall x, y :: OnScreen(x, y) ==> Shown(x, y) == ColorAt(model, history, x, y);
        return true;
      }
      assert forall x, y :: OnScreen(x, y) ==> Shown(x, y) == ColorAt(model, history, x, y);
      return false;
    }

    /** The colour of a committed pixel when only the pixels of `done` have been written. */
    ghost function Written(done: set<(int, int)>, i: nat): int
      requires width > 0
      reads this
    {
      var p := PixelOf(i, width);
      if p in done && p in screenshotPixels then screenshotPixels[p] else defaultColor
    }

    /** The screenshot bytes; None stands for the OverflowError of `to_bytes`.  The pixels are
        visited in an arbitrary order. */
    method GetImage() returns (image: Option<seq<int>>)
      requires Valid()
      ensures image.None? <==>
        || !(0 <= defaultColor < 0x100_0000)
        || exists p :: p in screenshotPixels && !(0 <= screenshotPixels[p] < 0x100_0000)
      ensures AllAcceptable() ==> image.Some?
      ensures AllAcceptable() && Published() ==> image.value == PlainImage(model, width, height, history)
      ensures AllAcceptable() && Published() ==> ShowsHistory(model, width, height, history, image.value)
    {
      if AllAcceptable() {
        StoredPixelsAreSound();
      }
      hide DrawnBy, ColorAt, ColorByte, SliceAssign, PlainImage, Written;
      if !Fits(defaultColor) {
        return None;
      }
      ghost var inside := forall p :: p in screenshotPixels ==> OnScreen(p.0, p.1);
      var background := defaultColor;
      var n := width * height;
      Arith.MulMono(0, width, height);
      var data := seq(3 * n, i requires 0 <= i => ColorByte(background, i % 3));
      var todo := screenshotPixels.Keys;
      ghost var done := {};
      while todo != {}
        invariant todo + done == screenshotPixels.Keys && todo !! done
        invariant forall p :: p in done ==> Fits(screenshotPixels[p])
        invariant inside ==> |data| == 3 * (width * height)
        invariant inside ==> forall i :: 0 <= i < |data| ==> data[i] == ColorByte(Written(done, i), i % 3)
        decreases todo
      {
        var p :| p in todo;
        var color := screenshotPixels[p];
        if !Fits(color) {
          return None;
        }
        if inside {
          WriteOne(data, done, p);
        }
        data := SliceAssign(data, 3 * (p.1 * width + p.0), ColorBytes(color));
        todo, done := todo - {p}, done + {p};
      }
      if inside && Published() {
        ImageIsPlain(data);
        if AllAcceptable() {
          ImageShowsHistory();
        }
      }
      return Some(data);
    }

    /** The plain image shows the history, three bytes a pixel. */
    lemma ImageShowsHistory()
      requires Valid() && AllAcceptable()
      ensures ShowsHistory(model, width, height, history, PlainImage(model, width, height, history))
    {
      hide PlainImage, DrawnBy;
      forall x, y | InRect(0, 0, width, height, x, y)
        ensures PixelShows(model, width, height, history, PlainImage(model, width, height, history), x, y)
      {
        ColorFits(x, y);
        PixelBytesAreShown(model, width, height, history, x, y);
        hide Shows, ColorAt;
      }
    }

    lemma ColorFits(x: int, y: int)
      requires AllAcceptable()
      ensures 0 <= ColorAt(model, history, x, y) < 0x1000000
    {
      ColorIsShown(model, history, x, y);
      hide ColorAt;
      forall k | 0 <= k < |history|
        ensures Acceptable(history[k])
      {
        assert history[k] in history;
      }
    }

    /** Writing one more pixel. */
    lemma WriteOne(data: seq<int>, done: set<(int, int)>, p: (int, int))
      requires width > 0 && p in screenshotPixels && OnScreen(p.0, p.1) && |data| == 3 * (width * height)
      requires forall i :: 0 <= i < |data| ==> data[i] == ColorByte(Written(done, i), i % 3)
      ensures var next := SliceAssign(data, 3 * (p.1 * width + p.0), ColorBytes(screenshotPixels[p]));
        |next| == |data| && forall i :: 0 <= i < |next| ==> next[i] == ColorByte(Written(done + {p}, i), i % 3)
    {
      hide ColorByte, SliceAssign, ColorBytes;
      OnScreenWrite(data, width, height, p.0, p.1, screenshotPixels[p]);
    }

    /** Bytes that show every committed pixel are the plain image. */
    lemma ImageIsPlain(data: seq<int>)
      requires Valid() && Published() && |data| == 3 * (width * height)
      requires forall i :: 0 <= i < |data| ==> data[i] == ColorByte(Written(screenshotPixels.Keys, i), i % 3)
      ensures data == PlainImage(model, width, height, history)
    {
      hide DrawnBy, ColorAt;
      forall i | 0 <= i < |data|
        ensures data[i] == PlainImage(model, width, height, history)[i]
      {
        PixelOfOnScreen(width, height, i);
      }
    }
  }

  /** What a graphic library asks of the frame buffer, in any order. */
  datatype Action = Draw(command: Command) | Refresh | Snapshot

  /** The draw commands of a script, without its refreshes and snapshots. */
  function Drawn(script: seq<Action>): seq<Command> {
    if |script| == 0 then []
    else
      var before := Drawn(script[..|script| - 1]);
      match script[|script| - 1]
      case Draw(c) => before + [c]
      case Refresh => before
      case Snapshot => before
  }

  /** Any script of on-screen draws, refreshes and snapshots, followed by a refresh, leaves a
      screenshot equal to the plain screen painted with the same draws in the same order. */
  method Render(model: Model, script: seq<Action>) returns (image: Option<seq<int>>)
    requires var (w, h) := ScreenSize(model);
      forall a :: a in script && a.Draw? ==>
        && 0 <= CheckColor(model, a.command.color) < 0x100_0000
        && forall x, y :: Covers(a.command, x, y) ==> 0 <= x < w && 0 <= y < h
    ensures image == Some(PlainImage(model, ScreenSize(model).0, ScreenSize(model).1, Drawn(script)))
    ensures ShowsHistory(model, ScreenSize(model).0, ScreenSize(model).1, Drawn(script), image.value)
  {
    var fb := new FrameBuffer(model);
    for i := 0 to |script|
      invariant fresh(fb) && fb.Valid() && fb.AllAcceptable()
      invariant fb.model == model && (fb.width, fb.height) == ScreenSize(model)
      invariant fb.history == Drawn(script[..i])
    {
      assert script[..i + 1][..i] == script[..i];
      match script[i]
      case Draw(c) =>
        assert script[i] in script && fb.Acceptable(c);
        match c {
          case Point(x, y, color) => fb.DrawPoint(x, y, color);
          case Line(x, y, w, color) => fb.DrawHorizontalLine(x, y, w, color);
          case Rect(x, y, w, h, color) =>
            var _ := fb.DrawRect(x, y, w, h, color);
        }
      case Refresh =>
        var _ := fb.Update();
      case Snapshot =>
        fb.UpdateScreenshot();
    }
    assert script[..|script|] == script;
    var _ := fb.Update();
    image := fb.GetImage();
  }
}
