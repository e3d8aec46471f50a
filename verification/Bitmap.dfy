/** What the BAGL bitmap unpacker paints: pixels in row-major order, bits taken least significant
    first, missing bytes read as zero. */
module Bitmap {
  import opened Arith
  import opened Canvas
  import opened Wrappers

  /** A bitmap to unpack into a rectangle already clipped to the screen, from pixel `start` on. */
  datatype Picture = Picture(
    x: int, y: int, width: int, height: int, colors: seq<int>, bpp: int, bitmap: seq<int>, start: nat)

  predicate IsPicture(p: Picture) {
    p.bpp in {1, 2, 4} && |p.colors| >= Pow2(p.bpp)
  }

  /** Row length as the unpacker sees it: a width below one acts as one. */
  function Stride(p: Picture): (w: int)
    ensures w >= 1
  {
    Max(p.width, 1)
  }

  /** Pixels in one byte. */
  function PerByte(p: Picture): (per: int)
    requires IsPicture(p)
    ensures per * p.bpp == 8
  {
    if p.bpp == 1 then 8 else if p.bpp == 2 then 4 else 2
  }

  /** The bytes of the stream, then zeros. */
  function ByteAt(p: Picture, k: nat): int {
    if k < |p.bitmap| then p.bitmap[k] else 0
  }

  /** The m-th bit group of the stream. */
  function Group(p: Picture, m: nat): (color: int)
    requires IsPicture(p)
    ensures 0 <= color < Pow2(p.bpp)
  {
    ByteAt(p, m / PerByte(p)) / Pow2(p.bpp * (m % PerByte(p))) % Pow2(p.bpp)
  }

  /** Groups in the order of their bits: the least significant bits of a byte come first, and bytes that are
      missing are zero. */
  lemma GroupIsBits(p: Picture, b: nat, j: nat, byte: int)
    requires IsPicture(p) && j < 8 / p.bpp && byte == if b < |p.bitmap| then p.bitmap[b] else 0
    ensures p.bpp == 1 ==> Group(p, 8 * b + j) == byte / Weight(j) % 2
    ensures p.bpp == 2 ==> Group(p, 4 * b + j) == byte / Weight(2 * j) % 4
    ensures p.bpp == 4 ==> Group(p, 2 * b + j) == byte / Weight(4 * j) % 16
  {
    Pow2Values();
    hide Pow2;
    if p.bpp == 1 {
      assert (8 * b + j) / 8 == b && (8 * b + j) % 8 == j;
    } else if p.bpp == 2 {
      assert (4 * b + j) / 4 == b && (4 * b + j) % 4 == j;
    } else {
      assert (2 * b + j) / 2 == b && (2 * b + j) % 2 == j;
    }
  }

  /** The weight of bit k of a byte. */
  function Weight(k: nat): (w: int)
    requires k < 8
    ensures w == Pow2(k)
  {
    Pow2Values();
    [1, 2, 4, 8, 16, 32, 64, 128][k]
  }

  function Position(p: Picture, n: nat): (int, int) {
    (p.x + n % Stride(p), p.y + n / Stride(p))
  }

  /** Index of the pixel that is drawn at (px, py), if px is in the columns of the picture. */
  function IndexOf(p: Picture, px: int, py: int): int {
    (py - p.y) * Stride(p) + (px - p.x)
  }

  predicate InColumns(p: Picture, px: int) {
    p.x <= px < p.x + Stride(p)
  }

  lemma PositionTellsIndex(p: Picture, n: nat, px: int, py: int)
    ensures InColumns(p, px) && n == IndexOf(p, px, py) <==> Position(p, n) == (px, py)
  {
    if InColumns(p, px) && n == IndexOf(p, px, py) {
      DivModUnique(py - p.y, px - p.x, Stride(p));
    }
  }

  /** The points drawn for the pixels start .. n: those on the screen. */
  function Visited(screenWidth: int, screenHeight: int, p: Picture, n: int): (t: seq<Command>)
    requires IsPicture(p)
    ensures forall c :: c in t ==> c.Point? && InRect(0, 0, screenWidth, screenHeight, c.x, c.y)
    decreases n - p.start
  {
    if n <= p.start then []
    else Visited(screenWidth, screenHeight, p, n - 1) + Visit(screenWidth, screenHeight, p, n - 1)
  }

  /** The first index after the start where a row ends at or below the bottom of the rectangle. */
  function Stop(p: Picture): int {
    Stride(p) * Max(p.height, p.start / Stride(p) + 1)
  }

  /** Where unpacking ends: inside the rectangle the stream is padded up to its end, below it
      only the bytes at hand are used, up to the end of the row. */
  function End(p: Picture): (n: nat)
    requires IsPicture(p)
    ensures p.start <= n <= Stop(p)
  {
    StopIsAfterStart(p);
    MulMono(0, |p.bitmap|, PerByte(p));
    if p.start / Stride(p) < p.height then Stop(p)
    else Min(Stop(p), p.start + PerByte(p) * |p.bitmap|)
  }

  predicate RowEnds(p: Picture, n: nat) {
    n % Stride(p) == 0 && n / Stride(p) >= p.height
  }

  /** Unpacking stops at Stop and not before. */
  lemma StopIsFirst(p: Picture, n: nat)
    requires p.start < n <= Stop(p)
    ensures RowEnds(p, n) <==> n == Stop(p)
  {
    var w := Stride(p);
    var rows := Max(p.height, p.start / w + 1);
    DivModUnique(rows, 0, w);
    if RowEnds(p, n) && n != Stop(p) {
      RowMajorBound(n / w, n % w, w, rows);
      assert n / w < rows;
      assert n / w < p.start / w + 1;
      MulMono(n / w, p.start / w, w);
    }
  }

  /** One pixel to the right, or to the start of the next row, where unpacking may be over. */
  lemma NextPosition(p: Picture, n: nat)
    requires p.start <= n < Stop(p)
    ensures var (x, y) := Position(p, n);
      if x + 1 >= p.width + p.x
      then Position(p, n + 1) == (p.x, y + 1) && (y + 1 >= p.height + p.y <==> n + 1 == Stop(p))
      else Position(p, n + 1) == (x + 1, y) && n + 1 != Stop(p)
  {
    RowMajorStep(n, Stride(p));
    StopIsFirst(p, n + 1);
  }

  /** The points drawn for pixel n. */
  function Visit(screenWidth: int, screenHeight: int, p: Picture, n: nat): seq<Command>
    requires IsPicture(p) && p.start <= n
  {
    var (x, y) := Position(p, n);
    if InRect(0, 0, screenWidth, screenHeight, x, y) then [Point(x, y, p.colors[Group(p, n - p.start)])] else []
  }

  lemma StopIsAfterStart(p: Picture)
    ensures p.start < Stop(p)
  {
    var w := Stride(p);
    RowMajorBound(p.start / w, p.start % w, w, Max(p.height, p.start / w + 1));
  }

  /** A pixel is painted exactly when its index lies between the start and the end, with the
      colour of its own bit group. */
  lemma {:induction false} VisitedPicture(
      screenWidth: int, screenHeight: int, p: Picture, n: int, px: int, py: int)
    requires IsPicture(p) && InRect(0, 0, screenWidth, screenHeight, px, py)
    ensures var m := IndexOf(p, px, py);
      Last(Visited(screenWidth, screenHeight, p, n), px, py)
      == if p.start <= m < n && InColumns(p, px) then Some(p.colors[Group(p, m - p.start)]) else None
    decreases n - p.start
  {
    hide Group, IndexOf, Position, Stride, InColumns;
    if n > p.start {
      VisitedPicture(screenWidth, screenHeight, p, n - 1, px, py);
      PositionTellsIndex(p, n - 1, px, py);
      LastAppend(Visited(screenWidth, screenHeight, p, n - 1), Visit(screenWidth, screenHeight, p, n - 1), px, py);
    }
  }

  lemma EndOfWhole(p: Picture)
    requires IsPicture(p) && p.start == 0 && p.width >= 1 && p.height >= 1
    ensures Stride(p) == p.width && End(p) == p.width * p.height
    ensures Position(p, End(p)) == (p.x, p.y + p.height)
  {
    DivModUnique(p.height, 0, p.width);
  }

  /** A fresh bitmap in a non-empty rectangle: every on-screen pixel of the rectangle gets the
      colour of its bit group, however short the stream is, and nothing else is painted. */
  lemma WholePicture(screenWidth: int, screenHeight: int, p: Picture, px: int, py: int)
    requires IsPicture(p) && p.start == 0 && p.width >= 1 && p.height >= 1
    requires InRect(0, 0, screenWidth, screenHeight, px, py)
    ensures InRect(p.x, p.y, p.width, p.height, px, py) ==> 0 <= (py - p.y) * p.width + (px - p.x)
    ensures Last(Visited(screenWidth, screenHeight, p, End(p)), px, py)
      == if InRect(p.x, p.y, p.width, p.height, px, py)
         then Some(p.colors[Group(p, (py - p.y) * p.width + (px - p.x))]) else None
  {
    EndOfWhole(p);
    VisitedPicture(screenWidth, screenHeight, p, End(p), px, py);
    if p.x <= px < p.x + p.width {
      RowMajorBound(py - p.y, px - p.x, p.width, p.height);
    }
    hide Group, End, Visited, Position;
  }

  /** An index of one row belongs to that row. */
  lemma IndexInRow(m: int, row: int, col: int, w: int, start: nat)
    requires w >= 1 && 0 <= col < w && m == row * w + col
    requires start <= m < w * (start / w + 1)
    ensures row == start / w
  {
    RowMajorBound(row, col, w, start / w + 1);
    RowMajorBound(row, col, w, start / w);
    assert start == w * (start / w) + start % w;
  }

  /** A continuation that starts below the rectangle never paints inside it: at most the rest of one row
      of pixels below it, and no more than the bytes at hand. */
  lemma ContinuationMissesRectangle(screenWidth: int, screenHeight: int, p: Picture, px: int, py: int)
    requires IsPicture(p) && p.start / Stride(p) >= p.height
    requires InRect(0, 0, screenWidth, screenHeight, px, py)
    requires Last(Visited(screenWidth, screenHeight, p, End(p)), px, py).Some?
    ensures py >= p.y + p.height && py == p.y + p.start / Stride(p)
    ensures IndexOf(p, px, py) < p.start + PerByte(p) * |p.bitmap|
  {
    VisitedPicture(screenWidth, screenHeight, p, End(p), px, py);
    IndexInRow(IndexOf(p, px, py), py - p.y, px - p.x, Stride(p), p.start);
  }

  /** Where unpacking ends: in the columns of the picture and below its rectangle. */
  lemma EndsBelow(p: Picture)
    requires IsPicture(p)
    ensures var (x, y) := Position(p, End(p));
      p.x <= x < p.x + Stride(p) && p.y <= y && p.y + p.height <= y
  {
    var n := End(p);
    RowsGrow(p, n);
    if p.start / Stride(p) < p.height {
      assert n == Stride(p) * p.height;
      hide End, Stop;
      RowMajorBound(n / Stride(p), n % Stride(p), Stride(p), p.height);
    }
  }

  lemma OneMoreByte(p: Picture, k: nat, n: nat)
    requires IsPicture(p) && n == p.start + PerByte(p) * k
    ensures n + PerByte(p) == p.start + PerByte(p) * (k + 1)
  {
  }

  /** The end of a run in which k whole bytes were unpacked. */
  lemma BytesConsumed(p: Picture, k: nat, n: nat)
    requires IsPicture(p) && n == p.start + PerByte(p) * k
    ensures (n - p.start) % PerByte(p) == 0 && (n - p.start) / PerByte(p) == k
  {
    DivModUnique(k, 0, PerByte(p));
  }

  /** The stream is exhausted below the rectangle, before the end of a row. */
  lemma EndsWithStream(p: Picture, k: nat, n: nat)
    requires IsPicture(p) && n == p.start + PerByte(p) * k && p.start <= n < Stop(p)
    requires k >= |p.bitmap| && n / Stride(p) >= p.height
    requires p.start / Stride(p) >= p.height ==> k <= |p.bitmap|
    ensures n == End(p)
  {
    if p.start / Stride(p) < p.height {
      RowMajorBound(n / Stride(p), n % Stride(p), Stride(p), p.height);
    }
  }

  /** The last row of the run is complete. */
  lemma EndsWithRow(p: Picture, k: nat)
    requires IsPicture(p)
    requires p.start / Stride(p) >= p.height ==> k < |p.bitmap| && Stop(p) <= p.start + PerByte(p) * (k + 1)
    ensures Stop(p) == End(p)
  {
    if p.start / Stride(p) >= p.height {
      MulMono(k + 1, |p.bitmap|, PerByte(p));
    }
  }

  /** The row of pixel n, never above the row of the start. */
  lemma RowsGrow(p: Picture, n: nat)
    requires n >= p.start
    ensures n / Stride(p) >= p.start / Stride(p)
    ensures Position(p, n).1 == p.y + n / Stride(p)
  {
    RowMajorBound(n / Stride(p), n % Stride(p), Stride(p), p.start / Stride(p));
    assert p.start == Stride(p) * (p.start / Stride(p)) + p.start % Stride(p);
  }
}
