/** The bytes of a screenshot, and the Python slice assignment that writes one pixel into them. */
module Screenshot {
  import opened Arith
  import opened Canvas

  /** A colour that `to_bytes(3, "big")` accepts. */
  predicate Fits(color: int) {
    0 <= color < 0x1000000
  }

  function ColorBytes(color: int): (bytes: seq<int>)
    ensures |bytes| == 3
  {
    [ColorByte(color, 0), ColorByte(color, 1), ColorByte(color, 2)]
  }

  /** How Python turns a slice bound into an index: negative bounds count from the end, and
      everything is clamped to the sequence. */
  function SliceBound(i: int, n: nat): (index: int)
    ensures 0 <= index <= n
  {
    if i < 0 then Max(0, n + i) else Min(i, n)
  }

  /** `data[pos : pos + 3] = bytes`: it may move or add bytes when `pos` is out of range. */
  function SliceAssign(data: seq<int>, pos: int, bytes: seq<int>): seq<int> {
    var start := SliceBound(pos, |data|);
    var stop := Max(start, SliceBound(pos + 3, |data|));
    data[..start] + bytes + data[stop..]
  }

  /** The pixel whose bytes include byte i. */
  function PixelOf(i: nat, width: int): (int, int)
    requires width > 0
  {
    (i / 3 % width, i / 3 / width)
  }

  /** Painting one pixel of a plain screen: its three bytes change, the others stay. */
  function PlainWrite(data: seq<int>, width: int, x: int, y: int, color: int): seq<int>
    requires width > 0
  {
    seq(|data|, i requires 0 <= i < |data| =>
      if PixelOf(i, width) == (x, y) then ColorByte(color, i % 3) else data[i])
  }

  lemma PixelBytes(width: int, height: int, x: int, y: int, i: nat)
    requires InRect(0, 0, width, height, x, y)
    ensures 0 <= 3 * (y * width + x) && 3 * (y * width + x) + 3 <= 3 * (width * height)
    ensures 3 * (y * width + x) <= i < 3 * (y * width + x) + 3 <==> PixelOf(i, width) == (x, y)
  {
    RowMajorBound(y, x, width, height);
    DivModUnique(y, x, width);
  }

  lemma PixelOfOnScreen(width: int, height: int, i: nat)
    requires width > 0 && i < 3 * (width * height)
    ensures InRect(0, 0, width, height, PixelOf(i, width).0, PixelOf(i, width).1)
  {
    RowMajorBound(i / 3 / width, i / 3 % width, width, height);
  }

  lemma OnScreenWrite(data: seq<int>, width: int, height: int, x: int, y: int, color: int)
    requires InRect(0, 0, width, height, x, y) && |data| == 3 * (width * height)
    ensures SliceAssign(data, 3 * (y * width + x), ColorBytes(color)) == PlainWrite(data, width, x, y, color)
  {
    var pos := 3 * (y * width + x);
    PixelBytes(width, height, x, y, 0);
    var written := SliceAssign(data, pos, ColorBytes(color));
    forall i | 0 <= i < |data|
      ensures written[i] == PlainWrite(data, width, x, y, color)[i]
    {
      PixelBytes(width, height, x, y, i);
      assert pos <= i < pos + 3 ==> written[i] == ColorByte(color, i % 3);
    }
  }

  /** Writing at the computed offset paints that pixel, for every picture and every colour,
      exactly when the pixel is on the screen. */
  lemma WriteIsPlainIffOnScreen(width: int, height: int, x: int, y: int)
    requires width > 0 && height > 0
    ensures (forall data: seq<int>, color: int | |data| == 3 * (width * height) && Fits(color) ::
               SliceAssign(data, 3 * (y * width + x), ColorBytes(color)) == PlainWrite(data, width, x, y, color))
            <==> InRect(0, 0, width, height, x, y)
  {
    if InRect(0, 0, width, height, x, y) {
      forall data: seq<int>, color: int | |data| == 3 * (width * height) && Fits(color)
        ensures SliceAssign(data, 3 * (y * width + x), ColorBytes(color)) == PlainWrite(data, width, x, y, color)
      {
        OnScreenWrite(data, width, height, x, y, color);
      }
    } else {
      MulMono(0, width, height);
      var blank := seq(3 * (width * height), _ => 0);
      var white := 0xFFFFFF;
      var pos := 3 * (y * width + x);
      var written := SliceAssign(blank, pos, ColorBytes(white));
      assert written[SliceBound(pos, |blank|)] == 255;
      forall i | 0 <= i < |blank|
        ensures PlainWrite(blank, width, x, y, white)[i] == 0
      {
        PixelOfOnScreen(width, height, i);
      }
      assert Fits(white) && written != PlainWrite(blank, width, x, y, white);
    }
  }
}
