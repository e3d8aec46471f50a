/** The NBGL graphic library: images drawn point by point into the frame buffer. */
module NbglLibrary {
  import opened Arith
  import opened Bytes
  import opened Canvas
  import opened FrameBuffers
  import opened ImageFile
  import opened ImageScan
  import opened Wrappers
  import Screenshot

  /** How a draw call ends: normally, with a Python exception, or by leaving the program. */
  datatype Outcome = Drawn | ValueError | Exit | Rejected(error: Error)

  class Nbgl {
    const fb: FrameBuffer
    const screenWidth: int
    const screenHeight: int

    ghost predicate Valid()
      reads fb
    {
      fb.Valid()
    }

    constructor (fb: FrameBuffer)
      requires fb.Valid()
      ensures Valid() && this.fb == fb && (screenWidth, screenHeight) == (fb.width, fb.height)
    {
      this.fb := fb;
      screenWidth, screenHeight := fb.width, fb.height;
    }

    /** What drawing an image does: an unknown transformation leaves the program, bad colours raise
        on the first pixel, anything else paints the closed-form scan. */
    static function Effect(i: Image): (Outcome, seq<Command>)
      requires i.area.color >= 0
    {
      if !KnownTransformation(i.transformation) then (Exit, [])
      else if |i.buffer| == 0 then (Drawn, [])
      else if BadColors(i.bpp, i.colorMap, i.area.color) then (ValueError, [])
      else (Drawn, Trace(i))
    }

    method DrawImage(area: Area, bpp0: int, transformation: int, buffer: seq<byte>, colorMap0: byte)
      returns (outcome: Outcome)
      requires Valid() && area.color >= 0
      modifies fb
      ensures Valid()
      ensures var (result, points) := Effect(Image(area, bpp0, transformation, buffer, colorMap0));
        outcome == result && fb.history == old(fb.history) + points
      ensures outcome == Exit <==> !(0 <= transformation <= 4)
      ensures outcome == ValueError <==>
        && 0 <= transformation <= 4 && |buffer| > 0
        && (!(bpp0 in {1, 2, 4}) || (bpp0 == 4 && !(colorMap0 < 4 && area.color < 4)))
      ensures outcome != Drawn ==> fb.history == old(fb.history)
    {
      ghost var image := Image(area, bpp0, transformation, buffer, colorMap0);
      var x, y;
      if transformation == 0 {
        x := area.x0 + area.width - 1;
        y := area.y0;
      } else if transformation == 1 {
        x := area.x0 + area.width - 1;
        y := area.y0 + area.height - 1;
      } else if transformation == 2 {
        x := area.x0;
        y := area.y0;
      } else if transformation == 3 {
        x := area.x0;
        y := area.y0 + area.height - 1;
      } else if transformation == 4 {
        x := area.x0;
        y := area.y0;
      } else {
        return Exit;
      }
      if |buffer| == 0 {
        return Drawn;
      }
      if BadColors(bpp0, colorMap0, area.color) {
        // the colour of the first pixel raises, before it is drawn
        return ValueError;
      }
      ghost var n := 0;
      FirstPosition(area, transformation);
      hide Position, Place, Trace, PixelCount, Capacity, DrawnCount, FrameBuffer.Valid;
      assert Trace(image)[..0] == [];
      for b := 0 to |buffer|
        invariant Valid()
        invariant n == Pixels(bpp0, b) && n <= DrawnCount(image)
        invariant transformation != 3 ==> n < Capacity(area)
        invariant (x, y) == Position(area, transformation, n)
        invariant fb.history == old(fb.history) + Trace(image)[..n]
      {
        var done;
        x, y, done, n := DrawByte(image, b, buffer[b], bpp0, transformation, area, colorMap0, x, y, old(fb.history));
        if done {
          return Drawn;
        }
      }
      StreamIsOver(image, n);
      assert Trace(image)[..n] == Trace(image);
      return Drawn;
    }

    /** The pixels of one byte, most significant group first. */
    method DrawByte(ghost image: Image, ghost b: nat, value: byte, bpp: int, transformation: int, area: Area,
                    colorMap: byte, x0: int, y0: int, ghost base: seq<Command>)
      returns (x: int, y: int, done: bool, ghost n: nat)
      requires Valid() && Drawable(image) && b < |image.buffer| && value == image.buffer[b]
      requires bpp == image.bpp && transformation == image.transformation
      requires area == image.area && colorMap == image.colorMap
      requires Pixels(bpp, b) <= DrawnCount(image) && (transformation != 3 ==> Pixels(bpp, b) < Capacity(area))
      requires (x0, y0) == Position(area, transformation, Pixels(bpp, b))
      requires fb.history == base + Trace(image)[..Pixels(bpp, b)]
      modifies fb
      ensures Valid()
      ensures n <= DrawnCount(image) && (done ==> n == DrawnCount(image))
      ensures !done ==> n == Pixels(bpp, b + 1) && (transformation != 3 ==> n < Capacity(area))
      ensures (x, y) == Position(area, transformation, n)
      ensures fb.history == base + Trace(image)[..n]
      ensures done ==> fb.history == base + Trace(image)
    {
      hide Position, Place, Group, PixelColor, Trace, PixelCount, Capacity, DrawnCount, FrameBuffer.Valid;
      hide BadColors, KnownTransformation, Pow2;
      var bitStep := BitStep(bpp);
      var i := 0;
      x, y, done, n := x0, y0, false, Pixels(bpp, b);
      while i < 8
        invariant Valid()
        invariant 0 <= i <= 8 && Pixels(bpp, b) <= n && i == Bits(bpp, n - Pixels(bpp, b))
        invariant n <= DrawnCount(image)
        invariant transformation != 3 ==> n < Capacity(area)
        invariant (x, y) == Position(area, transformation, n)
        invariant fb.history == base + Trace(image)[..n]
        decreases 8 - i
      {
        DrawGroup(image, b, n, value, i, bpp, area.color, colorMap, x, y, base);
        n := n + 1;
        x, y, done := Advance(area, transformation, x, y, n - 1);
        if done {
          assert Trace(image)[..n] == Trace(image);
          return;
        }
        i := i + bitStep;
      }
    }

    /** One pixel: the bits of the byte from bit i on, counted from the most significant. */
    method DrawGroup(ghost image: Image, ghost b: nat, ghost n: nat, value: byte, i: nat, bpp: int, color: int,
                     colorMap: byte, x: int, y: int, ghost base: seq<Command>)
      requires Valid() && Drawable(image) && b < |image.buffer| && value == image.buffer[b]
      requires bpp == image.bpp && color == image.area.color && colorMap == image.colorMap
      requires Pixels(bpp, b) <= n <= DrawnCount(image) && (image.transformation != 3 ==> n < Capacity(image.area))
      requires i < 8 && i == Bits(bpp, n - Pixels(bpp, b))
      requires (x, y) == Position(image.area, image.transformation, n)
      requires fb.history == base + Trace(image)[..n]
      modifies fb
      ensures Valid() && n < DrawnCount(image) && fb.history == base + Trace(image)[..n + 1]
      ensures image.transformation != 3 && n + 1 == Capacity(image.area) ==> n + 1 == DrawnCount(image)
    {
      hide Position, Place, Group, PixelColor, Trace, PixelCount, Capacity, DrawnCount, FrameBuffer.Valid, Pow2;
      ByteGroup(image, b, n - Pixels(bpp, b));
      var nib := value / Pow2(8 - BitStep(bpp) - i) % Pow2(BitStep(bpp));
      PixelDrawn(image, n, x, y, nib);
      fb.DrawPoint(x, y, PixelColor(bpp, colorMap, color, nib));
    }

    /** One step of the scan; `done` when the last column or row is complete, which transformation 3
        never finds out. */
    static method Advance(area: Area, transformation: int, x0: int, y0: int, ghost k: nat)
      returns (x: int, y: int, done: bool)
      requires KnownTransformation(transformation) && (transformation == 3 || k < Capacity(area))
      requires (x0, y0) == Position(area, transformation, k)
      ensures (x, y) == Position(area, transformation, k + 1)
      ensures done <==> transformation != 3 && k + 1 == Capacity(area)
      ensures transformation != 3 ==> k + 1 <= Capacity(area)
    {
      NextPosition(area, transformation, k);
      hide Position, Place, Capacity;
      x, y, done := x0, y0, false;
      if transformation == 0 {
        if y < area.y0 + area.height - 1 {
          y := y + 1;
        } else {
          y := area.y0;
          x := x - 1;
          if x < area.x0 {
            done := true;
          }
        }
      } else if transformation == 1 {
        if y > area.y0 {
          y := y - 1;
        } else {
          y := area.y0 + area.height - 1;
          x := x - 1;
          if x < area.x0 {
            done := true;
          }
        }
      } else if transformation == 2 {
        if y < area.y0 + area.height - 1 {
          y := y + 1;
        } else {
          y := area.y0;
          x := x + 1;
          if x >= area.x0 + area.width {
            done := true;
          }
        }
      } else if transformation == 3 {
        if y > area.y0 {
          y := y - 1;
        } else {
          y := area.y0 + area.height - 1;
          x := x + 1;
        }
      } else {
        if x < area.x0 + area.width - 1 {
          x := x + 1;
        } else {
          x := area.x0;
          y := y + 1;
          if y >= area.y0 + area.height {
            done := true;
          }
        }
      }
    }

    static lemma FirstPosition(a: Area, t: int)
      requires KnownTransformation(t)
      ensures Position(a, t, 0) ==
        (if t == 0 || t == 1 then a.x0 + a.width - 1 else a.x0, if t == 1 || t == 3 then a.y0 + a.height - 1 else a.y0)
    {
    }

    /** The j-th group of byte b. */
    static lemma ByteGroup(i: Image, b: nat, j: nat)
      requires b < |i.buffer| && j < PerByte(i.bpp)
      ensures var k := Pixels(i.bpp, b) + j;
        && k < PixelCount(i) && k / PerByte(i.bpp) == b
        && Group(i.bpp, i.buffer, k) == i.buffer[b] / Pow2(8 - BitStep(i.bpp) - Bits(i.bpp, j)) % Pow2(BitStep(i.bpp))
    {
      hide Pow2;
      DivModUnique(b, j, PerByte(i.bpp));
      assert b * PerByte(i.bpp) == Pixels(i.bpp, b);
    }

    static lemma PixelDrawn(i: Image, n: nat, x: int, y: int, nib: nat)
      requires Drawable(i) && n < PixelCount(i) && (i.transformation != 3 ==> n < Capacity(i.area))
      requires (x, y) == Position(i.area, i.transformation, n)
      requires n / PerByte(i.bpp) < |i.buffer| && nib == Group(i.bpp, i.buffer, n)
      ensures n < DrawnCount(i) && !BadColors(i.bpp, i.colorMap, i.area.color) && i.area.color >= 0
      ensures KnownTransformation(i.transformation) && nib < Pow2(BitStep(i.bpp))
      ensures Trace(i)[..n + 1] == Trace(i)[..n] + [Point(x, y, PixelColor(i.bpp, i.colorMap, i.area.color, nib))]
      ensures i.transformation != 3 && n + 1 == Capacity(i.area) ==> n + 1 == DrawnCount(i)
    {
      assert Trace(i)[..n + 1] == Trace(i)[..n] + [Trace(i)[n]];
      hide Position, Group, PixelColor;
    }

    /** When all bytes are used and the scan never stopped, every point is drawn. */
    static lemma StreamIsOver(i: Image, n: nat)
      requires n == Pixels(i.bpp, |i.buffer|) && n <= DrawnCount(i)
      ensures n == DrawnCount(i)
    {
    }

    method HalDrawImage(data: seq<byte>) returns (outcome: Outcome)
      requires Valid()
      modifies fb
      ensures Valid()
      ensures match ParseImage(screenWidth, screenHeight, data)
        case Err(e) => outcome == Rejected(e) && fb.history == old(fb.history)
        case Ok(image) =>
          outcome == Effect(image).0 && fb.history == old(fb.history) + Effect(image).1
    {
      var parsed := ParseImage(screenWidth, screenHeight, data);
      match parsed
      case Err(e) => outcome := Rejected(e);
      case Ok(i) => outcome := DrawImage(i.area, i.bpp, i.transformation, i.buffer, i.colorMap);
    }

    /** Rewrite an image file into the packet of an image and draw it. */
    method HalDrawImageFile(gunzip: Gunzip, data: seq<byte>) returns (outcome: Outcome)
      requires Valid()
      modifies fb
      ensures Valid()
      ensures match FilePacket(screenWidth, screenHeight, gunzip, data)
        case Err(e) => outcome == Rejected(e) && fb.history == old(fb.history)
        case Ok(packet) =>
          match ParseImage(screenWidth, screenHeight, packet)
          case Err(e) => outcome == Rejected(e) && fb.history == old(fb.history)
          case Ok(image) => outcome == Effect(image).0 && fb.history == old(fb.history) + Effect(image).1
    {
      hide Effect, ParseImage, ParseHeader, ImagePacket, Decompressed, FrameBuffer.Valid, AreaAccepted;
      var area := ParseArea(data);
      if area.Err? {
        return Rejected(area.error);
      }
      if !AreaAccepted(screenWidth, screenHeight, area.value) {
        return Rejected(AssertionError);
      }
      var body := data[10..];
      var header := ParseHeader(area.value, body);
      if header.Err? {
        return Rejected(header.error);
      }
      var h := header.value;
      var buffer := Slice(body, 8, 8 + h.bufferSize);
      if h.compression == 0 {
        outcome := HalDrawImage(ImagePacket(h.area, buffer, 0, body[|body| - 1]));
        return;
      }
      var output := DecompressChunks(gunzip, buffer);
      if output.Err? {
        return Rejected(output.error);
      }
      outcome := HalDrawImage(ImagePacket(h.area, output.value, 0, body[|body| - 1]));
    }

    /** The points of an image whose area is on the screen are acceptable to the frame buffer: inside the
        screen, and with colours that a screenshot can hold. */
    lemma ImageIsAcceptable(i: Image)
      requires Drawable(i) && NonEmpty(i.area) && (i.transformation == 3 ==> PixelCount(i) <= i.area.width * i.area.height)
      requires (screenWidth, screenHeight) == (fb.width, fb.height)
      requires 0 <= i.area.x0 && i.area.x0 + i.area.width <= screenWidth
      requires 0 <= i.area.y0 && i.area.y0 + i.area.height <= screenHeight
      ensures forall c :: c in Trace(i) ==> fb.Acceptable(c)
    {
      var t := Trace(i);
      forall k | 0 <= k < |t|
        ensures fb.Acceptable(t[k])
      {
        InsideEnough(i, k);
        hide Position, Place, PixelColor, Group, Trace, Drawable;
      }
    }

    static lemma InsideEnough(i: Image, k: nat)
      requires Drawable(i) && NonEmpty(i.area) && k < DrawnCount(i)
      requires i.transformation == 3 ==> PixelCount(i) <= i.area.width * i.area.height
      ensures var c := PixelAt(i, k); c.Point? && Inside(i.area, c.x, c.y) && Screenshot.Fits(c.color)
    {
      PositionInside(i.area, i.transformation, k);
    }

    /** An image is drawn, the screen refreshed and a screenshot taken: it is the plain screen painted with
        everything drawn before and then with the image. */
    method DrawAndCapture(i: Image) returns (image: Option<seq<int>>)
      requires Valid() && fb.AllAcceptable() && (screenWidth, screenHeight) == (fb.width, fb.height)
      requires Drawable(i) && NonEmpty(i.area) && (i.transformation == 3 ==> PixelCount(i) <= i.area.width * i.area.height)
      requires 0 <= i.area.x0 && i.area.x0 + i.area.width <= screenWidth
      requires 0 <= i.area.y0 && i.area.y0 + i.area.height <= screenHeight
      modifies fb
      ensures Valid() && fb.AllAcceptable()
      ensures image == Some(PlainImage(fb.model, screenWidth, screenHeight, old(fb.history) + Trace(i)))
      ensures ShowsHistory(fb.model, screenWidth, screenHeight, old(fb.history) + Trace(i), image.value)
    {
      ImageIsAcceptable(i);
      assert |i.buffer| == 0 ==> Trace(i) == [];
      hide Trace;
      var _ := DrawImage(i.area, i.bpp, i.transformation, i.buffer, i.colorMap);
      assert old(fb.history) + [] == old(fb.history);
      var _ := fb.Update();
      image := fb.GetImage();
    }
  }
}
