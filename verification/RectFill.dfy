/** What the BAGL rectangle filler asks of the frame buffer: the sequence of points it draws, and
    the set of pixels that sequence paints. */
module RectFill {
  import opened Arith
  import opened Canvas
  import opened Wrappers

  datatype Box = Box(color: int, x: int, y: int, width: int, height: int)

  predicate InBox(b: Box, x: int, y: int) {
    InRect(b.x, b.y, b.width, b.height, x, y)
  }

  /** The extent kept of an interval that starts at pos; None when the filler gives up. */
  function ClipExtent(pos: int, extent: int, limit: int): Option<int> {
    if pos + extent > limit || pos < 0 then
      if pos > limit then None else Some(limit - pos)
    else Some(extent)
  }

  /** The k-th point of a walk over rows of the given width.  A width below one acts as one. */
  function WalkPoint(color: int, x: int, y: int, width: int, k: nat): Command {
    var stride := Max(width, 1);
    Point(x + k % stride, y + k / stride, color)
  }

  /** width * height points, row after row.  Two negative sizes have a positive product: the
      filler then walks down a single column. */
  function Walk(color: int, x: int, y: int, width: int, height: int): (t: seq<Command>)
    ensures |t| == Max(0, width * height)
    ensures forall k :: 0 <= k < |t| ==> t[k] == WalkPoint(color, x, y, width, k)
  {
    seq(Max(0, width * height), k requires 0 <= k => WalkPoint(color, x, y, width, k))
  }

  /** The points drawn for a box on a screen of the given size. */
  function Trace(screenWidth: int, screenHeight: int, b: Box): seq<Command> {
    match ClipExtent(b.x, b.width, screenWidth)
    case None => []
    case Some(width) =>
      match ClipExtent(b.y, b.height, screenHeight)
      case None => []
      case Some(height) => Walk(b.color, b.x, b.y, width, height)
  }

  /** The position is not negative, and not both sizes are negative. */
  predicate WellPlaced(b: Box) {
    b.x >= 0 && b.y >= 0 && (b.width >= 0 || b.height >= 0)
  }

  /** The box is well placed or draws nothing. */
  predicate Clean(screenWidth: int, screenHeight: int, b: Box) {
    Trace(screenWidth, screenHeight, b) == [] || WellPlaced(b)
  }

  /** No pixel is drawn twice. */
  lemma WalkVisitsOnce(color: int, x: int, y: int, width: int, height: int, j: nat, k: nat)
    requires j < k < |Walk(color, x, y, width, height)|
    ensures var t := Walk(color, x, y, width, height); t[j].x != t[k].x || t[j].y != t[k].y
  {
    var w := Max(width, 1);
    assert j == w * (j / w) + j % w && k == w * (k / w) + k % w;
  }

  lemma WalkAt(color: int, x: int, y: int, width: int, height: int, row: int, col: int)
    requires 0 <= col < width && 0 <= row < height
    ensures var k := row * width + col;
      0 <= k < width * height && Walk(color, x, y, width, height)[k] == Point(x + col, y + row, color)
  {
    RowMajorBound(row, col, width, height);
    DivModUnique(row, col, width);
  }

  lemma WalkStaysInside(color: int, x: int, y: int, width: int, height: int, k: nat)
    requires width >= 0 && height >= 0
    requires k < |Walk(color, x, y, width, height)|
    ensures var p := Walk(color, x, y, width, height)[k]; InRect(x, y, width, height, p.x, p.y)
  {
    if width > 0 {
      RowMajorBound(k / width, k % width, width, height);
    }
  }

  lemma WalkCovers(color: int, x: int, y: int, width: int, height: int, px: int, py: int)
    requires width >= 0 || height >= 0
    ensures Last(Walk(color, x, y, width, height), px, py)
      == if InRect(x, y, width, height, px, py) then Some(color) else None
  {
    var t := Walk(color, x, y, width, height);
    if width < 0 {
      MulMono(width, 0, height);
    } else if height < 0 {
      MulMono(height, 0, width);
    } else if InRect(x, y, width, height, px, py) {
      var k := (py - y) * width + (px - x);
      WalkAt(color, x, y, width, height, py - y, px - x);
      forall j | k < j < |t|
        ensures !Covers(t[j], px, py)
      {
        WalkVisitsOnce(color, x, y, width, height, k, j);
      }
      LastIs(t, k, px, py);
    } else {
      forall k | 0 <= k < |t|
        ensures !Covers(t[k], px, py)
      {
        WalkStaysInside(color, x, y, width, height, k);
      }
      LastNone(t, px, py);
    }
  }

  /** Where the filler ends a row or column that starts at pos.  From a negative start it goes on to
      the edge of the screen, whatever the extent. */
  function End(pos: int, extent: int, limit: int): int {
    if pos < 0 then limit else Min(pos + extent, limit)
  }

  /** The picture of any box, at any position. */
  lemma TracePicture(screenWidth: int, screenHeight: int, b: Box, px: int, py: int)
    requires b.width >= 0 || b.height >= 0
    ensures Last(Trace(screenWidth, screenHeight, b), px, py)
      == if b.x <= px < End(b.x, b.width, screenWidth) && b.y <= py < End(b.y, b.height, screenHeight)
         then Some(b.color) else None
  {
    var width, height := ClipExtent(b.x, b.width, screenWidth), ClipExtent(b.y, b.height, screenHeight);
    if width.Some? && height.Some? {
      WalkCovers(b.color, b.x, b.y, width.value, height.value, px, py);
    }
  }

  /** A box that draws anything draws its own position. */
  lemma TraceStart(screenWidth: int, screenHeight: int, b: Box)
    requires Trace(screenWidth, screenHeight, b) != []
    ensures Trace(screenWidth, screenHeight, b)[0] == Point(b.x, b.y, b.color)
    ensures Last(Trace(screenWidth, screenHeight, b), b.x, b.y).Some?
  {
    var t := Trace(screenWidth, screenHeight, b);
    assert t[0] == Point(b.x, b.y, b.color);
    LastNone(t, b.x, b.y);
  }

  /** The filler paints the part of the rectangle that is on the screen, and nothing else. */
  ghost predicate PaintsIntersection(screenWidth: int, screenHeight: int, b: Box) {
    forall px, py :: Last(Trace(screenWidth, screenHeight, b), px, py)
      == if InBox(b, px, py) && InRect(0, 0, screenWidth, screenHeight, px, py) then Some(b.color) else None
  }

  /** For all integers: it does so exactly when the box is well placed or draws nothing. */
  lemma TraceIsIntersection(screenWidth: int, screenHeight: int, b: Box)
    ensures PaintsIntersection(screenWidth, screenHeight, b) <==> Clean(screenWidth, screenHeight, b)
  {
    var t := Trace(screenWidth, screenHeight, b);
    if !Clean(screenWidth, screenHeight, b) {
      TraceStart(screenWidth, screenHeight, b);
      assert !InBox(b, b.x, b.y) || !InRect(0, 0, screenWidth, screenHeight, b.x, b.y);
    } else {
      forall px, py
        ensures Last(t, px, py) == if InBox(b, px, py) && InRect(0, 0, screenWidth, screenHeight, px, py)
                                   then Some(b.color) else None
      {
        CleanPicture(screenWidth, screenHeight, b, px, py);
      }
    }
  }

  lemma CleanPicture(screenWidth: int, screenHeight: int, b: Box, px: int, py: int)
    requires Clean(screenWidth, screenHeight, b)
    ensures Last(Trace(screenWidth, screenHeight, b), px, py)
      == if InBox(b, px, py) && InRect(0, 0, screenWidth, screenHeight, px, py) then Some(b.color) else None
  {
    if b.width >= 0 || b.height >= 0 {
      TracePicture(screenWidth, screenHeight, b, px, py);
    }
  }

  /** The filler draws only on the screen exactly when the box is well placed or draws nothing; two
      negative sizes are left out. */
  lemma TraceStaysInside(screenWidth: int, screenHeight: int, b: Box)
    ensures Clean(screenWidth, screenHeight, b) ==>
      forall c :: c in Trace(screenWidth, screenHeight, b) ==> StaysInside(c, screenWidth, screenHeight)
    ensures !Clean(screenWidth, screenHeight, b) && (b.width >= 0 || b.height >= 0) ==>
      var t := Trace(screenWidth, screenHeight, b);
      t[0] in t && !StaysInside(t[0], screenWidth, screenHeight)
  {
    var t := Trace(screenWidth, screenHeight, b);
    if Clean(screenWidth, screenHeight, b) {
      forall k | 0 <= k < |t|
        ensures StaysInside(t[k], screenWidth, screenHeight)
      {
        CleanPicture(screenWidth, screenHeight, b, t[k].x, t[k].y);
        LastNone(t, t[k].x, t[k].y);
      }
    } else {
      TraceStart(screenWidth, screenHeight, b);
      assert Covers(t[0], b.x, b.y);
    }
  }

  /** Every pixel is drawn once. */
  lemma TraceVisitsOnce(screenWidth: int, screenHeight: int, b: Box)
    ensures var t := Trace(screenWidth, screenHeight, b);
      forall j, k :: 0 <= j < k < |t| ==> t[j].x != t[k].x || t[j].y != t[k].y
  {
    var t := Trace(screenWidth, screenHeight, b);
    var width, height := ClipExtent(b.x, b.width, screenWidth), ClipExtent(b.y, b.height, screenHeight);
    forall j, k | 0 <= j < k < |t|
      ensures t[j].x != t[k].x || t[j].y != t[k].y
    {
      WalkVisitsOnce(b.color, b.x, b.y, width.value, height.value, j, k);
    }
  }

  /** The points drawn for a list of boxes, in order. */
  function Traces(screenWidth: int, screenHeight: int, boxes: seq<Box>): seq<Command> {
    if |boxes| == 0 then []
    else Traces(screenWidth, screenHeight, boxes[..|boxes| - 1]) + Trace(screenWidth, screenHeight, boxes[|boxes| - 1])
  }

  lemma {:induction false} TracesAppend(screenWidth: int, screenHeight: int, a: seq<Box>, b: seq<Box>)
    ensures Traces(screenWidth, screenHeight, a + b)
      == Traces(screenWidth, screenHeight, a) + Traces(screenWidth, screenHeight, b)
    decreases |b|
  {
    hide Trace;
    if |b| == 0 {
      assert a + b == a;
    } else {
      assert (a + b)[..|a + b| - 1] == a + b[..|b| - 1];
      TracesAppend(screenWidth, screenHeight, a, b[..|b| - 1]);
    }
  }

  lemma TracesOne(screenWidth: int, screenHeight: int, b: Box)
    ensures Traces(screenWidth, screenHeight, [b]) == Trace(screenWidth, screenHeight, b)
  {
    assert [b][..0] == [];
  }

  /** History after drawing the boxes, from what it was. */
  function After(screenWidth: int, screenHeight: int, history: seq<Command>, boxes: seq<Box>): seq<Command> {
    history + Traces(screenWidth, screenHeight, boxes)
  }

  lemma AfterNone(screenWidth: int, screenHeight: int, history: seq<Command>)
    ensures After(screenWidth, screenHeight, history, []) == history
  {
  }

  lemma AfterAppend(screenWidth: int, screenHeight: int, history: seq<Command>, a: seq<Box>, b: seq<Box>)
    ensures After(screenWidth, screenHeight, After(screenWidth, screenHeight, history, a), b)
      == After(screenWidth, screenHeight, history, a + b)
  {
    TracesAppend(screenWidth, screenHeight, a, b);
  }

  predicate Drawn(boxes: seq<Box>, x: int, y: int) {
    exists k :: 0 <= k < |boxes| && InBox(boxes[k], x, y)
  }

  /** Boxes of one colour, at least one size of each not negative. */
  predicate OneColor(boxes: seq<Box>, color: int) {
    forall b :: b in boxes ==> b.color == color && (b.width >= 0 || b.height >= 0)
  }

  /** Clean boxes paint the on-screen part of their union. */
  lemma {:induction false} CleanUnion(
      screenWidth: int, screenHeight: int, boxes: seq<Box>, color: int, x: int, y: int)
    requires OneColor(boxes, color) && forall b :: b in boxes ==> Clean(screenWidth, screenHeight, b)
    ensures Last(Traces(screenWidth, screenHeight, boxes), x, y)
      == if Drawn(boxes, x, y) && InRect(0, 0, screenWidth, screenHeight, x, y) then Some(color) else None
    decreases |boxes|
  {
    hide Clean, Trace, InRect;
    if |boxes| > 0 {
      var init, b := boxes[..|boxes| - 1], boxes[|boxes| - 1];
      CleanUnion(screenWidth, screenHeight, init, color, x, y);
      CleanPicture(screenWidth, screenHeight, b, x, y);
      LastAppend(Traces(screenWidth, screenHeight, init), Trace(screenWidth, screenHeight, b), x, y);
      assert Drawn(init, x, y) ==> Drawn(boxes, x, y);
      assert InBox(b, x, y) ==> Drawn(boxes, x, y);
      if Drawn(boxes, x, y) && !InBox(b, x, y) {
        var k :| 0 <= k < |boxes| && InBox(boxes[k], x, y);
        assert InBox(init[k], x, y);
      }
    }
  }

  /** What any box paints stays painted in the one colour. */
  lemma {:induction false} TracesCover(
      screenWidth: int, screenHeight: int, boxes: seq<Box>, color: int, b: Box, x: int, y: int)
    requires OneColor(boxes, color) && b in boxes && Last(Trace(screenWidth, screenHeight, b), x, y).Some?
    ensures Last(Traces(screenWidth, screenHeight, boxes), x, y) == Some(color)
    decreases |boxes|
  {
    var init, last := boxes[..|boxes| - 1], boxes[|boxes| - 1];
    LastAppend(Traces(screenWidth, screenHeight, init), Trace(screenWidth, screenHeight, last), x, y);
    TracePicture(screenWidth, screenHeight, last, x, y);
    hide Trace;
    if Last(Trace(screenWidth, screenHeight, last), x, y).None? {
      assert b in init;
      TracesCover(screenWidth, screenHeight, init, color, b, x, y);
    }
  }

  /** The boxes paint the on-screen part of their union, and nothing else. */
  ghost predicate PaintsUnion(screenWidth: int, screenHeight: int, boxes: seq<Box>, color: int) {
    forall x, y :: Last(Traces(screenWidth, screenHeight, boxes), x, y)
      == if Drawn(boxes, x, y) && InRect(0, 0, screenWidth, screenHeight, x, y) then Some(color) else None
  }

  /** Boxes of one colour do so exactly when every one of them is clean. */
  lemma TracesPaintUnion(screenWidth: int, screenHeight: int, boxes: seq<Box>, color: int)
    requires OneColor(boxes, color)
    ensures PaintsUnion(screenWidth, screenHeight, boxes, color)
      <==> forall b :: b in boxes ==> Clean(screenWidth, screenHeight, b)
  {
    if forall b :: b in boxes ==> Clean(screenWidth, screenHeight, b) {
      forall x, y
        ensures Last(Traces(screenWidth, screenHeight, boxes), x, y)
          == if Drawn(boxes, x, y) && InRect(0, 0, screenWidth, screenHeight, x, y) then Some(color) else None
      {
        CleanUnion(screenWidth, screenHeight, boxes, color, x, y);
      }
    } else {
      var b :| b in boxes && !Clean(screenWidth, screenHeight, b);
      TraceStart(screenWidth, screenHeight, b);
      TracesCover(screenWidth, screenHeight, boxes, color, b, b.x, b.y);
      assert !InRect(0, 0, screenWidth, screenHeight, b.x, b.y);
    }
  }

  /** When a single row of pixels is clean. */
  lemma RowIsClean(screenWidth: int, screenHeight: int, b: Box)
    requires screenWidth > 0 && screenHeight > 0 && b.height == 1 && b.width >= 0
    ensures Clean(screenWidth, screenHeight, b) <==>
      (b.x >= 0 || b.y >= screenHeight) && (b.y >= 0 || b.x >= screenWidth || (b.x >= 0 && b.width == 0))
  {
    var width, height := ClipExtent(b.x, b.width, screenWidth), ClipExtent(b.y, 1, screenHeight);
    if width.Some? && height.Some? {
      assert width.value >= 0 && height.value >= 0;
      MulMono(1, Max(1, width.value), height.value);
      assert width.value == 0 || height.value == 0 || width.value * height.value >= 1;
    }
  }
}
