/** The BAGL graphic library: rectangles, filled circles and bitmaps drawn point by point into the
    frame buffer. */
module BaglLibrary {
  import opened Arith
  import opened Canvas
  import opened FrameBuffers
  import opened Wrappers
  import RectFill
  import Circle
  import Bitmap

  /** Where the last bitmap ended, kept for a continuation packet. */
  datatype DrawState = DrawState(
    x: int, y: int, width: int, height: int, colors: seq<int>, bpp: nat, xx: int, yy: int)

  class Bagl {
    const fb: FrameBuffer
    const screenWidth: int
    const screenHeight: int
    var drawState: DrawState

    ghost predicate Valid()
      reads this, fb
    {
      fb.Valid()
    }

    constructor (fb: FrameBuffer)
      requires fb.Valid()
      ensures Valid() && StateOk() && this.fb == fb && (screenWidth, screenHeight) == (fb.width, fb.height)
      ensures drawState == DrawState(0, 0, 0, 0, [], 0, 0, 0)
    {
      this.fb := fb;
      screenWidth, screenHeight := fb.width, fb.height;
      drawState := DrawState(0, 0, 0, 0, [], 0, 0, 0);
    }

    /** Fill a rectangle: the counter runs down from width * height, and rows are told apart by
        byte offsets of the original screen memory. */
    method HalDrawRect(color: int, x: int, y: int, width0: int, height0: int)
      requires Valid()
      modifies fb
      ensures Valid()
      ensures fb.history == old(fb.history)
        + RectFill.Trace(screenWidth, screenHeight, RectFill.Box(color, x, y, width0, height0))
    {
      var width, height := width0, height0;
      if x + width > screenWidth || x < 0 {
        if x > screenWidth {
          return;
        } else {
          width := screenWidth - x;
        }
      }
      if y + height > screenHeight || y < 0 {
        if y > screenHeight {
          return;
        } else {
          height := screenHeight - y;
        }
      }
      FillRows(color, x, y, width, height);
    }

    /** The counting loop of the filler, for sizes already clipped. */
    method FillRows(color: int, x: int, y0: int, width: int, height0: int)
      requires Valid()
      modifies fb
      ensures Valid()
      ensures fb.history == old(fb.history) + RectFill.Walk(color, x, y0, width, height0)
    {
      var y, height := y0, height0;
      var yx := ScreenOffset(x, y);
      var yxLineMax := yx + width;
      var xx := x;
      var requestedX := x;
      var i := width * height;

      ghost var walk := RectFill.Walk(color, x, y0, width, height);
      hide FrameBuffer.Valid, RectFill.Walk, ScreenOffset;
      ghost var rows, size, row, col, n := height, i, 0, 0, 0;
      assert |walk| == Max(0, size) && InRow(width, row, col, n);
      hide InRow;
      while i > 0
        invariant Valid()
        invariant 0 <= n <= |walk| && i == size - n
        invariant InRow(width, row, col, n) && 0 <= row && 0 <= col < Max(width, 1)
        invariant y == y0 + row && xx == x + col && height == rows - row
        invariant yx == yxLineMax - width + col
        invariant fb.history == old(fb.history) + walk[..n]
        decreases i
      {
        i := i - 1;
        fb.DrawPoint(xx, y, color);
        NextOfWalk(color, x, y0, width, rows, row, col, n);
        n := n + 1;
        yx := yx + 1;
        xx := xx + 1;
        col := col + 1;
        if yx >= yxLineMax {
          y := y + 1;
          height := height - 1;
          yx := ScreenOffset(x, y);
          yxLineMax := yx + width;
          xx := requestedX;
          row, col := row + 1, 0;
        }
        if height == 0 {
          WalkIsOver(width, rows, col, n);
          break;
        }
      }
      assert walk[..|walk|] == walk;
    }

    /** Byte offset in the screen memory, which has eight rows to a line. */
    function ScreenOffset(x: int, y: int): int {
      (y / 8) * screenWidth + x
    }

    /** The index of a row and column in a walk of the given width. */
    static ghost predicate InRow(width: int, row: int, col: int, n: nat) {
      n == row * Max(width, 1) + col
    }

    /** The point at a row and column of the walk, and where the next one is. */
    static lemma NextOfWalk(color: int, x: int, y: int, width: int, height: int, row: int, col: int, n: nat)
      requires InRow(width, row, col, n) && 0 <= col < Max(width, 1)
      requires n < |RectFill.Walk(color, x, y, width, height)|
      ensures var walk := RectFill.Walk(color, x, y, width, height);
        walk[..n + 1] == walk[..n] + [Point(x + col, y + row, color)]
      ensures InRow(width, row, col + 1, n + 1)
      ensures col + 1 == Max(width, 1) ==> InRow(width, row + 1, 0, n + 1)
    {
      DivModUnique(row, col, Max(width, 1));
      assert RectFill.Walk(color, x, y, width, height)[n] == Point(x + col, y + row, color);
    }

    /** When the last row is complete, so is the walk. */
    static lemma WalkIsOver(width: int, rows: nat, col: nat, n: nat)
      requires InRow(width, rows, col, n) && n <= Max(0, width * rows)
      ensures n == Max(0, width * rows)
    {
      if width < 0 {
        MulMono(width, 0, rows);
      }
    }

    method DrawOctant(o: Circle.Octant, drawInt: bool, xChanged: bool, color: int, colorInt: int, dRadius: int)
      requires Valid()
      modifies fb
      ensures Valid()
      ensures fb.history == RectFill.After(screenWidth, screenHeight, old(fb.history),
        Circle.OctantBoxes(o, drawInt, xChanged, color, colorInt, dRadius))
    {
      if drawInt {
        if !o.needsMove || xChanged {
          DrawBox(RectFill.Box(colorInt, o.inner.0, o.inner.1, o.inner.2, 1));
          DrawBox(RectFill.Box(color, o.outer.0, o.outer.1, dRadius, 1));
          RectFill.AfterAppend(screenWidth, screenHeight, old(fb.history),
            [RectFill.Box(colorInt, o.inner.0, o.inner.1, o.inner.2, 1)],
            [RectFill.Box(color, o.outer.0, o.outer.1, dRadius, 1)]);
        } else {
          DrawBox(RectFill.Box(color, o.outer.0, o.outer.1, dRadius, 1));
        }
      } else {
        DrawBox(RectFill.Box(color, o.simple.0, o.simple.1, o.simple.2, 1));
      }
    }

    method DrawBox(b: RectFill.Box)
      requires Valid()
      modifies fb
      ensures Valid()
      ensures fb.history == RectFill.After(screenWidth, screenHeight, old(fb.history), [b])
    {
      HalDrawRect(b.color, b.x, b.y, b.width, b.height);
      RectFill.TracesOne(screenWidth, screenHeight, b);
    }

    /** One octant, drawn only when its flag is set. */
    method DrawFlagged(q: Circle.Quarter, far: bool, xc: int, yc: int, s: Circle.Step, b: Circle.Brush)
      requires Valid()
      modifies fb
      ensures Valid()
      ensures fb.history == RectFill.After(screenWidth, screenHeight, old(fb.history),
        Circle.FlagBoxes(q, far, xc, yc, s, b))
    {
      if HasBit(b.octants, if far then Circle.FarFlag(q) else Circle.NearFlag(q)) {
        var o := Circle.OctantOf(q, far, xc, yc, if far then s.y else s.x, if far then s.x else s.y, b.thickness);
        DrawOctant(o, b.ring, s.xChanged, b.color, b.innerColor, b.thickness);
      } else {
        RectFill.AfterNone(screenWidth, screenHeight, fb.history);
      }
    }

    method DrawQuarter(q: Circle.Quarter, xc: int, yc: int, s: Circle.Step, b: Circle.Brush)
      requires Valid()
      modifies fb
      ensures Valid()
      ensures fb.history == RectFill.After(screenWidth, screenHeight, old(fb.history),
        Circle.QuarterBoxes(q, xc, yc, s, b))
    {
      DrawFlagged(q, false, xc, yc, s, b);
      DrawFlagged(q, true, xc, yc, s, b);
      RectFill.AfterAppend(screenWidth, screenHeight, old(fb.history),
        Circle.FlagBoxes(q, false, xc, yc, s, b), Circle.FlagBoxes(q, true, xc, yc, s, b));
    }

    method DrawCircleStep(xc: int, yc: int, s: Circle.Step, b: Circle.Brush)
      requires Valid()
      modifies fb
      ensures Valid()
      ensures fb.history == RectFill.After(screenWidth, screenHeight, old(fb.history),
        Circle.StepBoxes(xc, yc, s, b))
    {
      ghost var h := fb.history;
      ghost var dr, dl := Circle.QuarterBoxes(Circle.DownRight, xc, yc, s, b), Circle.QuarterBoxes(Circle.DownLeft, xc, yc, s, b);
      ghost var ur, ul := Circle.QuarterBoxes(Circle.UpRight, xc, yc, s, b), Circle.QuarterBoxes(Circle.UpLeft, xc, yc, s, b);
      DrawQuarter(Circle.DownRight, xc, yc, s, b);
      DrawQuarter(Circle.DownLeft, xc, yc, s, b);
      RectFill.AfterAppend(screenWidth, screenHeight, h, dr, dl);
      DrawQuarter(Circle.UpRight, xc, yc, s, b);
      RectFill.AfterAppend(screenWidth, screenHeight, h, dr + dl, ur);
      DrawQuarter(Circle.UpLeft, xc, yc, s, b);
      RectFill.AfterAppend(screenWidth, screenHeight, h, dr + dl + ur, ul);
    }

    /** The midpoint loop.  It plots the integers nearest to the circle, row by row from the centre
        row to the diagonal, and every one of them. */
    method DrawCircleHelper(
        color: int, xCenter: int, yCenter: int, radius: int, octants: int, radiusInt: int, colorInt: int)
      requires Valid()
      modifies fb
      ensures Valid()
      ensures
        var b := Circle.Brush(color, colorInt, octants, radiusInt > 0 && radius - radiusInt > 0, radius - radiusInt);
        fb.history == RectFill.After(screenWidth, screenHeight, old(fb.history),
          Circle.CircleBoxes(xCenter, yCenter, Circle.Steps(radius), b))
    {
      var x, y := radius, 0;
      var decisionOver2 := 1 - x;
      var dRadius := radius - radiusInt;
      var lastX := x;
      var drawInt := radiusInt > 0 && dRadius > 0;
      var b := Circle.Brush(color, colorInt, octants, drawInt, dRadius);
      ghost var steps := Circle.Steps(radius);
      hide LoopInvariant, Circle.Steps, Circle.StepBoxes, Circle.CircleBoxes, RectFill.After;
      LoopStart(radius);
      NothingDrawn(xCenter, yCenter, steps, b, fb.history);
      while y <= x
        invariant Valid()
        invariant LoopInvariant(radius, x, y, decisionOver2, lastX)
        invariant 0 <= y <= |steps|
        invariant fb.history == RectFill.After(screenWidth, screenHeight, old(fb.history),
          Circle.CircleBoxes(xCenter, yCenter, steps[..y], b))
        decreases x - y
      {
        var s := Circle.Step(x, y, lastX != x);
        PlotsNextStep(radius, x, y, decisionOver2, lastX);
        LoopStep(radius, x, y, decisionOver2, lastX);
        DrawCircleStep(xCenter, yCenter, s, b);
        Circle.OneMoreStep(xCenter, yCenter, steps, y, b);
        RectFill.AfterAppend(screenWidth, screenHeight, old(fb.history),
          Circle.CircleBoxes(xCenter, yCenter, steps[..y], b), Circle.StepBoxes(xCenter, yCenter, s, b));
        lastX := x;
        y := y + 1;
        if decisionOver2 <= 0 {
          decisionOver2 := decisionOver2 + 2 * y + 1;
        } else {
          x := x - 1;
          decisionOver2 := decisionOver2 + 2 * (y - x) + 1;
        }
      }
      LoopEnd(radius, x, y, decisionOver2, lastX);
      assert steps[..y] == steps;
    }

    lemma NothingDrawn(xc: int, yc: int, steps: seq<Circle.Step>, b: Circle.Brush, history: seq<Command>)
      ensures RectFill.After(screenWidth, screenHeight, history, Circle.CircleBoxes(xc, yc, steps[..0], b)) == history
    {
    }

    /** The decision variable measures the next half-integer point against the circle; while the
        loop runs, x is the integer nearest to the circle. */
    static ghost predicate LoopInvariant(r: int, x: int, y: int, decision: int, lastX: int) {
      if r < 0 then x == r && y == 0
      else if r == 0 then (x, y, decision, lastX) in {(0, 0, 1, 0), (-1, 1, 6, 0)}
      else RoundInvariant(r, x, y, decision, lastX)
    }

    static ghost predicate RoundInvariant(r: int, x: int, y: int, decision: int, lastX: int)
      requires r >= 1
    {
      && y >= 0
      && decision == x * x - x + (y + 1) * (y + 1) - r * r
      && (y <= x ==> Circle.Nearest(r, x, y) && y <= r)
      && (y > x ==> !Circle.BeforeDiagonal(r, y))
      && (y == 0 ==> lastX == x)
      && (0 < y <= r + 1 ==> Circle.Nearest(r, lastX, y - 1))
    }

    static lemma LoopStart(r: int)
      ensures LoopInvariant(r, r, 0, 1 - r, r)
    {
      if r >= 1 {
        MulMono(1, r, r);
      }
    }

    static lemma PlotsNextStep(r: int, x: int, y: int, decision: int, lastX: int)
      requires y <= x && LoopInvariant(r, x, y, decision, lastX)
      ensures 0 <= y < |Circle.Steps(r)| && Circle.Steps(r)[y] == Circle.Step(x, y, lastX != x)
    {
      if r >= 1 {
        Circle.NearestIsUnique(r, x, Circle.NearestX(r, y), y);
        Circle.BeforeDiagonalMeans(r, y);
        Circle.RowsIsFirst(r, y);
        if y > 0 {
          Circle.NearestIsUnique(r, lastX, Circle.NearestX(r, y - 1), y - 1);
        }
      }
    }

    static lemma LoopEnd(r: int, x: int, y: int, decision: int, lastX: int)
      requires y > x && LoopInvariant(r, x, y, decision, lastX)
      ensures y >= |Circle.Steps(r)|
    {
      if r >= 1 {
        Circle.RowsIsFirst(r, y);
      }
    }

    static lemma LoopStep(r: int, x: int, y: int, decision: int, lastX: int)
      requires y <= x && LoopInvariant(r, x, y, decision, lastX)
      ensures decision <= 0 ==> LoopInvariant(r, x, y + 1, decision + 2 * (y + 1) + 1, x)
      ensures decision > 0 ==> LoopInvariant(r, x - 1, y + 1, decision + 2 * (y + 1 - (x - 1)) + 1, x)
    {
      if r >= 1 {
        if decision <= 0 {
          StepOut(r, x, y, decision, lastX);
        } else {
          StepIn(r, x, y, decision, lastX);
        }
      }
    }

    static lemma StepOut(r: int, x: int, y: int, decision: int, lastX: int)
      requires r >= 1 && y <= x && RoundInvariant(r, x, y, decision, lastX) && decision <= 0
      ensures RoundInvariant(r, x, y + 1, decision + 2 * (y + 1) + 1, x)
    {
      var y' := y + 1;
      assert y' * y' == y * y + 2 * y + 1 && (y' + 1) * (y' + 1) == y' * y' + 2 * y' + 1;
      if y' <= x {
        Circle.SquareOrder(y', r);
        MulMono(1, x, x);
      }
    }

    static lemma StepIn(r: int, x: int, y: int, decision: int, lastX: int)
      requires r >= 1 && y <= x && RoundInvariant(r, x, y, decision, lastX) && decision > 0
      ensures RoundInvariant(r, x - 1, y + 1, decision + 2 * (y + 1 - (x - 1)) + 1, x)
    {
      var y', x' := y + 1, x - 1;
      assert y' * y' == y * y + 2 * y + 1 && (y' + 1) * (y' + 1) == y' * y' + 2 * y' + 1;
      assert x' * x' == x * x - 2 * x + 1;
      if y' <= x' {
        assert Circle.Nearest(r, x', y');
        assert x' * x' - x' >= 0 by { MulMono(1, x', x'); }
        Circle.SquareOrder(y', r);
      } else {
        PastDiagonal(r, x, y);
      }
    }

    /** Stepping in to or across the diagonal leaves the octant. */
    static lemma PastDiagonal(r: int, x: int, y: int)
      requires r >= 1 && 0 <= y <= x <= y + 1 && Circle.Nearest(r, x, y)
      requires x * x - x + (y + 1) * (y + 1) > r * r
      ensures !Circle.BeforeDiagonal(r, y + 1)
    {
      var y' := y + 1;
      assert 2 * y' * y' == y' * y' + y' * y';
      if x == y {
        assert y' * y' == y * y + 2 * y + 1;
      } else {
        assert x == y';
      }
    }

    /** Unpack one byte, least significant group first.  `n` is the ghost index of the pixel at
        (xx, yy) and `n'` that of the pixel reached. */
    method DrawBitmapByte(ch: int, xx0: int, yy0: int, x: int, requestedXw: int, requestedYh: int,
                          bpp: int, pixelMask: int, colors: seq<int>,
                          ghost p: Bitmap.Picture, ghost n: nat, ghost base: seq<Command>)
      returns (xx: int, yy: int, done: bool, ghost n': nat)
      requires Valid() && Bitmap.IsPicture(p)
      requires p.x == x && requestedXw == p.width + x && requestedYh == p.height + p.y
      requires p.bpp == bpp && pixelMask == Pow2(bpp) - 1 && p.colors == colors
      requires p.start <= n < Bitmap.Stop(p) && (xx0, yy0) == Bitmap.Position(p, n)
      requires (n - p.start) % Bitmap.PerByte(p) == 0
      requires ch == Bitmap.ByteAt(p, (n - p.start) / Bitmap.PerByte(p))
      requires fb.history == base + Bitmap.Visited(screenWidth, screenHeight, p, n)
      modifies fb
      ensures Valid()
      ensures fb.history == base + Bitmap.Visited(screenWidth, screenHeight, p, n')
      ensures (xx, yy) == Bitmap.Position(p, n')
      ensures done <==> n' == Bitmap.Stop(p)
      ensures n < n' <= n + Bitmap.PerByte(p) && n' <= Bitmap.Stop(p)
      ensures !done ==> n' == n + Bitmap.PerByte(p)
    {
      hide Bitmap.Stop, Bitmap.Position, Bitmap.Visited, Bitmap.Group, Bitmap.ByteAt, Bitmap.PerByte;
      xx, yy := xx0, yy0;
      n' := n;
      var i := 0;
      while i < 8
        invariant 0 <= i <= 8 && i == bpp * (n' - n)
        invariant Valid() && n <= n' < Bitmap.Stop(p)
        invariant (xx, yy) == Bitmap.Position(p, n')
        invariant fb.history == base + Bitmap.Visited(screenWidth, screenHeight, p, n')
        decreases 8 - i
      {
        DrawGroup(ch, i, xx, yy, pixelMask, colors, p, n, n', base);
        Bitmap.NextPosition(p, n');
        n' := n' + 1;
        xx := xx + 1;
        if xx >= requestedXw {
          xx := x;
          yy := yy + 1;
          if yy >= requestedYh {
            return xx, yy, true, n';
          }
        }
        i := i + bpp;
      }
      return xx, yy, false, n';
    }

    /** One pixel of the byte, when it is on the screen. */
    method DrawGroup(ch: int, i: nat, xx: int, yy: int, pixelMask: int, colors: seq<int>,
                     ghost p: Bitmap.Picture, ghost n: nat, ghost m: nat, ghost base: seq<Command>)
      requires Valid() && Bitmap.IsPicture(p) && pixelMask == Pow2(p.bpp) - 1 && p.colors == colors
      requires p.start <= n <= m && i == p.bpp * (m - n) && i < 8 && (n - p.start) % Bitmap.PerByte(p) == 0
      requires ch == Bitmap.ByteAt(p, (n - p.start) / Bitmap.PerByte(p)) && (xx, yy) == Bitmap.Position(p, m)
      requires fb.history == base + Bitmap.Visited(screenWidth, screenHeight, p, m)
      modifies fb
      ensures Valid() && fb.history == base + Bitmap.Visited(screenWidth, screenHeight, p, m + 1)
    {
      hide Bitmap.Position, Bitmap.Visited, Bitmap.Group, Bitmap.ByteAt, Bitmap.PerByte, Pow2;
      GroupOfByte(p, n - p.start, m - n);
      ghost var was := fb.history;
      if 0 <= xx < screenWidth && 0 <= yy < screenHeight {
        // (ch >> i) & pixelMask
        fb.DrawPoint(xx, yy, colors[ch / Pow2(i) % (pixelMask + 1)]);
      }
      OneMorePixel(p, m, base, was, fb.history);
    }

    lemma OneMorePixel(p: Bitmap.Picture, n: nat, base: seq<Command>, was: seq<Command>, now: seq<Command>)
      requires Bitmap.IsPicture(p) && p.start <= n
      requires was == base + Bitmap.Visited(screenWidth, screenHeight, p, n)
      requires now == was + Bitmap.Visit(screenWidth, screenHeight, p, n)
      ensures now == base + Bitmap.Visited(screenWidth, screenHeight, p, n + 1)
    {
    }

    /** The j-th group of the byte that starts at group m. */
    static lemma GroupOfByte(p: Bitmap.Picture, m: nat, j: nat)
      requires Bitmap.IsPicture(p) && m % Bitmap.PerByte(p) == 0 && j < Bitmap.PerByte(p)
      ensures Bitmap.Group(p, m + j) == Bitmap.ByteAt(p, m / Bitmap.PerByte(p)) / Pow2(p.bpp * j) % Pow2(p.bpp)
    {
      var per := Bitmap.PerByte(p);
      hide Bitmap.PerByte, Bitmap.ByteAt, Pow2;
      DivModUnique(m / per, j, per);
      assert m == m / per * per;
      assert (m + j) / per == m / per && (m + j) % per == j;
    }

    /** The part of an extent that fits between pos and the edge of the screen. */
    static function Fit(pos: int, extent: int, limit: int): int {
      if pos + extent > limit then limit - pos else extent
    }

    /** A resume point inside the rows of the clipped rectangle or below them. */
    predicate Resumable(x: int, y: int, width: int, restore: Option<(int, int)>) {
      restore.Some? ==> x <= restore.value.0 < x + Max(Fit(x, width, screenWidth), 1) && y <= restore.value.1
    }

    /** The clipped picture that a call unpacks. */
    function Clipped(x: int, y: int, width: int, height: int, colors: seq<int>, bpp: int, bitmap: seq<int>,
                     restore: Option<(int, int)>): (p: Bitmap.Picture)
      requires Resumable(x, y, width, restore)
      ensures Bitmap.Position(p, p.start) == if restore.Some? then restore.value else (x, y)
      ensures p.x == x && p.width == Fit(x, width, screenWidth)
      ensures p.y == y && p.height == Fit(y, height, screenHeight)
      ensures p.colors == colors && p.bpp == bpp && p.bitmap == bitmap
    {
      var stride := Max(Fit(x, width, screenWidth), 1);
      if restore.Some? then
        RowMajorBound(restore.value.1 - y, restore.value.0 - x, stride, 0);
        DivModUnique(restore.value.1 - y, restore.value.0 - x, stride);
        Bitmap.Picture(x, y, Fit(x, width, screenWidth), Fit(y, height, screenHeight), colors, bpp, bitmap,
                       (restore.value.1 - y) * stride + (restore.value.0 - x))
      else
        Bitmap.Picture(x, y, Fit(x, width, screenWidth), Fit(y, height, screenHeight), colors, bpp, bitmap, 0)
    }

    /** The draw state can be resumed from, and its rectangle is complete. */
    predicate StateOk()
      reads this
    {
      var s := drawState;
      && Resumable(s.x, s.y, s.width, Some((s.xx, s.yy)))
      && (s.bpp in {1, 2, 4} ==> |s.colors| >= Pow2(s.bpp) && s.yy >= s.y + s.height)
    }

    /** A bitmap drawn afresh: the rectangle, cut at the right and bottom edges, is filled row by row with the
        colours of its bit groups, and the next row is where unpacking ends. */
    lemma FreshPicture(x: int, y: int, width: int, height: int, colors: seq<int>, bpp: int, bitmap: seq<int>,
                       px: int, py: int)
      requires bpp in {1, 2, 4} && |colors| >= Pow2(bpp) && width >= 1 && height >= 1
      requires x < screenWidth && y < screenHeight && InRect(0, 0, screenWidth, screenHeight, px, py)
      ensures var p := Clipped(x, y, width, height, colors, bpp, bitmap, None);
        && p.bitmap == bitmap && p.bpp == bpp && p.colors == colors && Bitmap.IsPicture(p)
        && Bitmap.Position(p, Bitmap.End(p)) == (x, y + Min(height, screenHeight - y))
      ensures InRect(x, y, width, height, px, py) ==> 0 <= (py - y) * Min(width, screenWidth - x) + (px - x)
      ensures var p := Clipped(x, y, width, height, colors, bpp, bitmap, None);
        Last(Bitmap.Visited(screenWidth, screenHeight, p, Bitmap.End(p)), px, py) ==
          if InRect(x, y, width, height, px, py)
          then Some(p.colors[Bitmap.Group(p, (py - y) * Min(width, screenWidth - x) + (px - x))]) else None
    {
      var p := Clipped(x, y, width, height, colors, bpp, bitmap, None);
      hide Pow2;
      CutSizes(x, y, width, height, colors, bpp, bitmap);
      hide Clipped, Bitmap.Visited, Bitmap.End, Bitmap.Group, Bitmap.Position;
      Bitmap.EndOfWhole(p);
      Bitmap.WholePicture(screenWidth, screenHeight, p, px, py);
    }

    lemma CutSizes(x: int, y: int, width: int, height: int, colors: seq<int>, bpp: int, bitmap: seq<int>)
      requires width >= 1 && height >= 1 && x < screenWidth && y < screenHeight
      ensures var p := Clipped(x, y, width, height, colors, bpp, bitmap, None);
        p.start == 0 && 1 <= p.width == Min(width, screenWidth - x) && 1 <= p.height == Min(height, screenHeight - y)
    {
    }

    /** Unpack a bitmap into a rectangle.  `ok` is false when Python would raise a ValueError, which
        happens only for zero bits per pixel. */
    method HalDrawBitmapWithinRect(x: int, y: int, width0: int, height0: int, colors: seq<int>, bpp: nat,
                                   bitmap0: seq<int>, restore: Option<(int, int)>)
      returns (ok: bool)
      requires Valid() && Resumable(x, y, width0, restore)
      requires bpp in {1, 2, 4} ==> |colors| >= Pow2(bpp)
      modifies this, fb
      ensures Valid() && (old(StateOk()) || (x < screenWidth && y < screenHeight && bpp in {0, 1, 2, 4} && ok) ==> StateOk())
      ensures bpp == 3 || bpp > 4 || x >= screenWidth || y >= screenHeight ==>
        ok && fb.history == old(fb.history) && drawState == old(drawState)
      ensures
        var p := Clipped(x, y, width0, height0, colors, bpp, bitmap0, restore);
        && (x < screenWidth && y < screenHeight && bpp == 0 ==>
             && fb.history == old(fb.history)
             && (ok <==> bitmap0 == [] && Bitmap.Position(p, p.start).1 >= y + p.height))
        && (x < screenWidth && y < screenHeight && bpp in {1, 2, 4} ==>
             && ok
             && fb.history == old(fb.history) + Bitmap.Visited(screenWidth, screenHeight, p, Bitmap.End(p))
             && var (xx, yy) := Bitmap.Position(p, Bitmap.End(p));
                drawState == DrawState(x, y, p.width, p.height, colors, bpp, xx, yy))
    {
      if bpp == 3 || bpp > 4 {
        return true;
      }
      if x >= screenWidth || y >= screenHeight {
        return true;
      }
      var width, height := width0, height0;
      if x + width > screenWidth {
        width := screenWidth - x;
      }
      if y + height > screenHeight {
        height := screenHeight - y;
      }
      var pixelMask := Pow2(bpp) - 1;
      var requestedXw := width + x;
      var requestedYh := height + y;
      var (xx, yy) := if restore.Some? then restore.value else (x, y);

      ghost var p := Clipped(x, y, width0, height0, colors, bpp, bitmap0, restore);
      if bpp == 0 {
        // range(0, 8, 0) raises on the first byte, if there is one
        if |bitmap0| > 0 || yy < requestedYh {
          return false;
        }
      } else {
        hide FrameBuffer.Valid, Clipped, Bitmap.Position, Bitmap.End, Bitmap.Visited;
        Bitmap.EndsBelow(p);
        xx, yy := UnpackBytes(x, requestedXw, requestedYh, xx, yy, bpp, pixelMask, colors, bitmap0, p);
      }
      drawState := DrawState(x, y, width, height, colors, bpp, xx, yy);
      return true;
    }

    /** The loop over the bytes: the stream is padded with zeros inside the rectangle. */
    method UnpackBytes(x: int, requestedXw: int, requestedYh: int, xx0: int, yy0: int, bpp: int, pixelMask: int,
                       colors: seq<int>, bitmap0: seq<int>, ghost p: Bitmap.Picture)
      returns (xx: int, yy: int)
      requires Valid() && Bitmap.IsPicture(p)
      requires p.x == x && requestedXw == p.width + x && requestedYh == p.height + p.y
      requires p.bpp == bpp && pixelMask == Pow2(bpp) - 1 && p.colors == colors && p.bitmap == bitmap0
      requires (xx0, yy0) == Bitmap.Position(p, p.start)
      modifies fb
      ensures Valid()
      ensures fb.history == old(fb.history) + Bitmap.Visited(screenWidth, screenHeight, p, Bitmap.End(p))
      ensures (xx, yy) == Bitmap.Position(p, Bitmap.End(p))
    {
      xx, yy := xx0, yy0;
      ghost var n, k := p.start, 0;
      var bitmap := bitmap0;
      Bitmap.StopIsAfterStart(p);
      NothingVisited(p);
      hide Bitmap.Stop, Bitmap.Visited, Bitmap.PerByte, Bitmap.End, Bitmap.Position, Bitmap.Stride, Pow2;
      hide FrameBuffer.Valid;
      while |bitmap| > 0 || yy < requestedYh
        invariant Valid() && k >= 0
        invariant (xx, yy) == Bitmap.Position(p, n)
        invariant p.start <= n < Bitmap.Stop(p) && n == p.start + Bitmap.PerByte(p) * k
        invariant bitmap == bitmap0[Min(k, |bitmap0|)..]
        invariant p.start / Bitmap.Stride(p) >= p.height ==> k <= |bitmap0|
        invariant fb.history == old(fb.history) + Bitmap.Visited(screenWidth, screenHeight, p, n)
        decreases Bitmap.Stop(p) - n
      {
        Bitmap.BytesConsumed(p, k, n);
        Bitmap.RowsGrow(p, n);
        var ch := 0;
        if |bitmap| > 0 {
          ch, bitmap := bitmap[0], bitmap[1..];
        }
        var done;
        ghost var n';
        xx, yy, done, n' := DrawBitmapByte(ch, xx, yy, x, requestedXw, requestedYh, bpp, pixelMask, colors,
                                           p, n, old(fb.history));
        if done {
          Bitmap.EndsWithRow(p, k);
          return;
        }
        Bitmap.OneMoreByte(p, k, n);
        k, n := k + 1, n';
      }
      Bitmap.RowsGrow(p, n);
      Bitmap.EndsWithStream(p, k, n);
    }

    /** A continuation packet: unpack more bytes from where the last bitmap ended, which is never inside its
        rectangle. */
    method ContinueBitmap(bitmap: seq<int>) returns (ok: bool)
      requires Valid() && StateOk()
      modifies this, fb
      ensures Valid() && StateOk()
      ensures
        var s := old(drawState);
        var p := Clipped(s.x, s.y, s.width, s.height, s.colors, s.bpp, bitmap, Some((s.xx, s.yy)));
        s.x < screenWidth && s.y < screenHeight && s.bpp in {1, 2, 4} ==>
          && ok
          && fb.history == old(fb.history) + Bitmap.Visited(screenWidth, screenHeight, p, Bitmap.End(p))
          && p.start / Bitmap.Stride(p) >= p.height
    {
      var s := drawState;
      ghost var p := Clipped(s.x, s.y, s.width, s.height, s.colors, s.bpp, bitmap, Some((s.xx, s.yy)));
      Bitmap.RowsGrow(p, p.start);
      hide Clipped, Bitmap.Position, Bitmap.End, Bitmap.Visited, FrameBuffer.Valid;
      ok := HalDrawBitmapWithinRect(s.x, s.y, s.width, s.height, s.colors, s.bpp, bitmap, Some((s.xx, s.yy)));
    }

    lemma NothingVisited(p: Bitmap.Picture)
      ensures Bitmap.IsPicture(p) ==> Bitmap.Visited(screenWidth, screenHeight, p, p.start) == []
    {
    }
  }
}
