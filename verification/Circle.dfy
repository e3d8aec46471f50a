/** The discrete circle: which points the midpoint loop must visit, stated without the loop, and
    which pixels a filled quadrant then consists of. */
module Circle {
  import opened Arith
  import opened Canvas
  import opened RectFill
  import opened Wrappers

  /** x is the integer nearest to the circle of radius r on row y: squared distances of the two
      half-integer neighbours, x - 1/2 and x + 1/2, lie on either side of r * r. */
  predicate Nearest(r: int, x: int, y: int) {
    x >= 1 && x * x - x + y * y <= r * r < x * x + x + y * y
  }

  lemma NearestIsUnique(r: int, x: int, x': int, y: int)
    requires Nearest(r, x, y) && Nearest(r, x', y)
    ensures x == x'
  {
    Widens(x, x');
    Widens(x', x);
  }

  lemma Widens(x: int, x': int)
    requires x >= 0
    ensures x < x' ==> x * x + x <= x' * x' - x'
  {
    if x < x' {
      var d := x' - x;
      assert x' * x' - x' == x * x + x + (d - 1) * (2 * x + d) by {
        assert x' * x' == (x + d) * (x + d);
      }
      MulMono(0, d - 1, 2 * x + d);
    }
  }

  /** The x >= from with x * x - x <= s < x * x + x. */
  function Search(s: int, from: int): (x: int)
    requires from >= 1 && from * from - from <= s
    ensures x >= from && x * x - x <= s < x * x + x
    decreases s - from * from + from
  {
    if s < from * from + from then from else Search(s, from + 1)
  }

  /** The integer nearest to the circle on row y. */
  function NearestX(r: int, y: int): (x: int)
    requires 0 <= y <= r
    ensures Nearest(r, x, y)
  {
    MulMono(y, r, r);
    MulMono(y, r, y);
    Search(r * r - y * y, 1)
  }

  /** Row y belongs to the octant next to the centre row: the circle is not yet past the diagonal. */
  predicate BeforeDiagonal(r: int, y: int) {
    2 * y * y - y <= r * r
  }

  lemma BeforeDiagonalMeans(r: int, y: int)
    requires 1 <= r && 0 <= y
    ensures BeforeDiagonal(r, y) <==> y <= r && y <= NearestX(r, y)
  {
    if y <= r {
      var x := NearestX(r, y);
      Widens(x, y);
      if y <= x {
        Widens(y, x);
      }
    } else {
      MulMono(r + 1, y, y);
      MulMono(r, y, r);
    }
  }

  lemma BeforeDiagonalDown(r: int, y: int, y': int)
    requires 0 <= y <= y' && BeforeDiagonal(r, y')
    ensures BeforeDiagonal(r, y)
  {
    MulMono(y, y', y);
    MulMono(y, y', y');
    if y < y' {
      MulMono(1, y', y' - y);
      assert y' * (y' - y) == y' * y' - y' * y;
    }
  }

  /** The number of rows from the centre to the diagonal, at least `from`. */
  function RowsFrom(r: int, from: nat): (n: nat)
    requires 1 <= r && from <= r + 1
    requires forall y :: 0 <= y < from ==> BeforeDiagonal(r, y)
    ensures 0 <= from <= n <= r + 1
    ensures !BeforeDiagonal(r, n)
    ensures forall y :: 0 <= y < n ==> BeforeDiagonal(r, y)
    decreases r + 1 - from
  {
    if BeforeDiagonal(r, from) then
      BeforeDiagonalMeans(r, from);
      RowsFrom(r, from + 1)
    else from
  }

  function Rows(r: int): (n: nat)
    requires 1 <= r
    ensures 1 <= n <= r + 1 && !BeforeDiagonal(r, n)
    ensures forall y :: 0 <= y < n ==> BeforeDiagonal(r, y)
  {
    MulMono(0, r, r);
    RowsFrom(r, 0)
  }

  /** One iteration of the loop: the point it plots and whether x moved since the last one. */
  datatype Step = Step(x: int, y: int, xChanged: bool)

  function StepAt(r: int, y: int): Step
    requires 0 <= y <= r
  {
    Step(NearestX(r, y), y, y > 0 && NearestX(r, y) != NearestX(r, y - 1))
  }

  /** The points of one octant, from the centre row to the diagonal. */
  function Steps(r: int): (steps: seq<Step>)
    ensures r >= 1 ==> |steps| == Rows(r)
    ensures r >= 1 ==> forall y :: 0 <= y < |steps| ==> y <= r && steps[y] == StepAt(r, y)
  {
    if r < 0 then []
    else if r == 0 then [Step(0, 0, false)]
    else
      seq(Rows(r), y requires 0 <= y < Rows(r) => StepAt(r, y))
  }

  lemma StepBounds(r: int, k: int)
    requires r >= 1 && 0 <= k < |Steps(r)|
    ensures 0 <= Steps(r)[k].y <= Steps(r)[k].x <= r
    ensures Nearest(r, Steps(r)[k].x, Steps(r)[k].y)
  {
    BeforeDiagonalMeans(r, k);
    Widens(r, Steps(r)[k].x);
    MulMono(0, k, k);
  }

  // ----- the octants of one step

  /** The weights of the octant flags come in pairs, one pair for each quarter of the circle. */
  datatype Quarter = UpRight | UpLeft | DownRight | DownLeft

  function NearFlag(q: Quarter): int {
    match q
    case DownRight => 1
    case DownLeft => 4
    case UpRight => 16
    case UpLeft => 64
  }

  function FarFlag(q: Quarter): int {
    2 * NearFlag(q)
  }

  /** A call of `_draw_octant`: the box it draws alone, or the inner and outer boxes of a ring. */
  datatype Octant = Octant(needsMove: bool, inner: (int, int, int), outer: (int, int), simple: (int, int, int))

  function OctantBoxes(o: Octant, ring: bool, xChanged: bool, color: int, innerColor: int, thickness: int): seq<Box> {
    if ring then
      (if !o.needsMove || xChanged then [Box(innerColor, o.inner.0, o.inner.1, o.inner.2, 1)] else [])
        + [Box(color, o.outer.0, o.outer.1, thickness, 1)]
    else [Box(color, o.simple.0, o.simple.1, o.simple.2, 1)]
  }

  /** The octant drawn for a flag: a run of `length` pixels in the row `distance` rows away. */
  function OctantOf(q: Quarter, far: bool, xc: int, yc: int, length: int, distance: int, thickness: int): Octant {
    var cut := length - (thickness - 1);
    match q
    case DownRight => Octant(far, (xc, distance + yc, cut), (xc + cut, distance + yc), (xc, distance + yc - 1, length))
    case DownLeft =>
      Octant(far, (xc - length, distance + yc, cut), (xc - length - (thickness - 1), distance + yc),
             (xc - length, distance + yc - 1, length))
    case UpRight => Octant(far, (xc, yc - distance, cut), (xc + cut, yc - distance), (xc, yc - distance, length))
    case UpLeft =>
      Octant(far, (xc - length, yc - distance, cut), (xc - length - (thickness - 1), yc - distance),
             (xc - length, yc - distance, length))
  }

  datatype Brush = Brush(color: int, innerColor: int, octants: int, ring: bool, thickness: int)

  /** The boxes of one octant: nothing when its flag is not set. */
  function FlagBoxes(q: Quarter, far: bool, xc: int, yc: int, s: Step, b: Brush): seq<Box> {
    if HasBit(b.octants, if far then FarFlag(q) else NearFlag(q)) then
      var o := OctantOf(q, far, xc, yc, if far then s.y else s.x, if far then s.x else s.y, b.thickness);
      OctantBoxes(o, b.ring, s.xChanged, b.color, b.innerColor, b.thickness)
    else []
  }

  function QuarterBoxes(q: Quarter, xc: int, yc: int, s: Step, b: Brush): seq<Box> {
    FlagBoxes(q, false, xc, yc, s, b) + FlagBoxes(q, true, xc, yc, s, b)
  }

  /** The boxes of one step, in the order of the octant flags. */
  function StepBoxes(xc: int, yc: int, s: Step, b: Brush): seq<Box> {
    QuarterBoxes(DownRight, xc, yc, s, b) + QuarterBoxes(DownLeft, xc, yc, s, b)
    + QuarterBoxes(UpRight, xc, yc, s, b) + QuarterBoxes(UpLeft, xc, yc, s, b)
  }

  function CircleBoxes(xc: int, yc: int, steps: seq<Step>, b: Brush): seq<Box> {
    if |steps| == 0 then []
    else CircleBoxes(xc, yc, steps[..|steps| - 1], b) + StepBoxes(xc, yc, steps[|steps| - 1], b)
  }

  lemma OneMoreStep(xc: int, yc: int, steps: seq<Step>, n: nat, b: Brush)
    requires n < |steps|
    ensures CircleBoxes(xc, yc, steps[..n + 1], b) == CircleBoxes(xc, yc, steps[..n], b) + StepBoxes(xc, yc, steps[n], b)
  {
    assert steps[..n + 1][..n] == steps[..n];
  }

  // ----- the filled quarter

  /** The pixels of a filled quarter of radius r, at column offset i and row offset j from the
      corner at the centre. */
  predicate Filled(r: int, i: int, j: int) {
    && i >= 0 && j >= 0
    && if BeforeDiagonal(r, j) then i * i + i + j * j <= r * r
       else (i + 1) * (i + 1) + j * j - j <= r * r
  }

  /** Column and row offsets of a pixel inside a quarter.  The two lower quarters start one row
      above the centre row, the two left ones one column left of the centre column. */
  function Offset(q: Quarter, xc: int, yc: int, x: int, y: int): (int, int) {
    match q
    case DownRight => (x - xc, y - yc + 1)
    case DownLeft => (xc - 1 - x, y - yc + 1)
    case UpRight => (x - xc, yc - y)
    case UpLeft => (xc - 1 - x, yc - y)
  }

  /** The pixels of one quarter painted by one step: a run of x pixels y rows away and a run of y
      pixels x rows away. */
  predicate InRun(s: Step, i: int, j: int) {
    (j == s.y && 0 <= i < s.x) || (j == s.x && 0 <= i < s.y)
  }

  lemma FilledIsInSomeRun(r: int, i: int, j: int) returns (k: int)
    requires r >= 1 && Filled(r, i, j)
    ensures 0 <= k < |Steps(r)| && InRun(Steps(r)[k], i, j)
  {
    if BeforeDiagonal(r, j) {
      k := j;
      NearRowReaches(r, i, j);
      hide BeforeDiagonal, Filled;
      RowsIsFirst(r, j);
    } else {
      k := LargestRoot(r * r - j * j + j, i + 1);
      hide Filled;
      FarRowIsVisited(r, j, k);
      hide BeforeDiagonal, Nearest;
    }
  }

  lemma NearRowReaches(r: int, i: int, j: int)
    requires r >= 1 && j >= 0 && i >= 0 && BeforeDiagonal(r, j) && i * i + i + j * j <= r * r
    ensures j <= r && i < NearestX(r, j)
  {
    BeforeDiagonalMeans(r, j);
    Widens(NearestX(r, j), i + 1);
  }

  /** The largest k with k * k <= s. */
  lemma LargestRoot(s: int, from: int) returns (k: int)
    requires from >= 0 && from * from <= s
    ensures k >= from && k * k <= s < (k + 1) * (k + 1)
    decreases s - from * from
  {
    k := from;
    if (k + 1) * (k + 1) <= s {
      k := LargestRoot(s, k + 1);
    }
  }

  lemma SquareOrder(a: int, b: int)
    requires a >= 0 && b >= 0
    ensures a <= b <==> a * a <= b * b
  {
    if a <= b {
      MulMono(a, b, a);
      MulMono(a, b, b);
    } else {
      MulMono(b + 1, a, a);
      MulMono(b, a, b);
    }
  }

  lemma FarRowIsNearest(r: int, j: int, k: int)
    requires r >= 1 && j >= 0 && !BeforeDiagonal(r, j)
    requires k >= 1 && k * k + j * j - j <= r * r < (k + 1) * (k + 1) + j * j - j
    ensures k < j && k <= r && Nearest(r, j, k)
  {
    SquareOrder(j, k);
    assert k < j;
    assert (k + 1) * (k + 1) == k * k + 2 * k + 1;
    MulMono(1, j, j);
    SquareOrder(k, r);
  }

  lemma RowsIsFirst(r: int, y: int)
    requires r >= 1 && y >= 0
    ensures BeforeDiagonal(r, y) <==> y < Rows(r)
  {
    if Rows(r) <= y && BeforeDiagonal(r, y) {
      BeforeDiagonalDown(r, Rows(r), y);
    }
  }

  /** A row j past the diagonal is reached from the row k whose run is widest there. */
  lemma FarRowIsVisited(r: int, j: int, k: int)
    requires r >= 1 && j >= 0 && !BeforeDiagonal(r, j)
    requires k >= 1 && k * k + j * j - j <= r * r < (k + 1) * (k + 1) + j * j - j
    ensures k < |Steps(r)| && Steps(r)[k].x == j
  {
    FarRowIsNearest(r, j, k);
    NearestIsUnique(r, j, NearestX(r, k), k);
    BeforeDiagonalMeans(r, k);
    RowsIsFirst(r, k);
  }

  lemma NearRunIsFilled(r: int, x: int, i: int, j: int)
    requires r >= 1 && 0 <= j && BeforeDiagonal(r, j) && Nearest(r, x, j) && 0 <= i < x
    ensures Filled(r, i, j)
  {
    Widens(i + 1, x);
  }

  lemma FarRunIsFilled(r: int, y: int, i: int, j: int)
    requires r >= 1 && 0 <= i < y <= j && Nearest(r, j, y)
    ensures Filled(r, i, j)
  {
    if BeforeDiagonal(r, j) {
      FarRunBeforeDiagonal(r, y, i, j);
    } else {
      SquareOrder(i + 1, y);
    }
  }

  lemma FarRunBeforeDiagonal(r: int, y: int, i: int, j: int)
    requires 0 <= i < y <= j && Nearest(r, j, y) && BeforeDiagonal(r, j)
    ensures i * i + i + j * j <= r * r
  {
    Widens(i, y);
    if y < j {
      Widens(y, j);
    }
  }

  lemma RunIsFilled(r: int, k: int, i: int, j: int)
    requires r >= 1 && 0 <= k < |Steps(r)| && InRun(Steps(r)[k], i, j)
    ensures Filled(r, i, j)
  {
    var s := Steps(r)[k];
    StepBounds(r, k);
    if j == s.y && 0 <= i < s.x {
      NearRunIsFilled(r, s.x, i, j);
    } else {
      FarRunIsFilled(r, s.y, i, j);
    }
  }

  /** A filled quarter is a staircase: a pixel brings with it everything nearer to the corner. */
  lemma FilledIsStaircase(r: int, i: int, j: int, i': int, j': int)
    requires r >= 1 && Filled(r, i, j) && 0 <= i' <= i && 0 <= j' <= j
    ensures Filled(r, i', j')
  {
    MulMono(i', i, i);
    MulMono(i', i, i');
    MulMono(j', j, j);
    MulMono(j', j, j');
    if BeforeDiagonal(r, j) {
      BeforeDiagonalDown(r, j', j);
    } else if j' < j {
      MulMono(0, j - j' - 1, j + j');
      assert (j - j' - 1) * (j + j') == j * j - j' * j' - j - j';
    }
  }

  /** The rows of a filled quarter are 0 .. r, without a gap. */
  lemma FilledRows(r: int, j: int)
    requires r >= 1
    ensures (exists i :: Filled(r, i, j)) <==> 0 <= j <= r
  {
    if 0 <= j <= r {
      MulMono(j, r, r);
      MulMono(j, r, j);
      if !BeforeDiagonal(r, j) && j < r {
        MulMono(1, j, r - j);
        assert (r - j) * (r + j) == r * r - j * j;
        MulMono(1, r - j, r + j);
      }
      assert Filled(r, 0, j);
    }
    forall i | Filled(r, i, j)
      ensures j <= r
    {
      MulMono(0, i, i);
      if j > r {
        MulMono(r + 1, j, j);
        MulMono(r, j - 1, j);
        assert j * j - j == (j - 1) * j;
        MulMono(r, j, r);
        MulMono(1, i + 1, i + 1);
      }
    }
  }

  /** The rows and columns visited by the loop together are exactly 0 .. r. */
  lemma VisitedRowsAndColumns(r: int, k: int)
    requires r >= 1
    ensures (exists n :: 0 <= n < |Steps(r)| && (Steps(r)[n].y == k || Steps(r)[n].x == k)) <==> 0 <= k <= r
  {
    if 0 <= k <= r {
      FilledRows(r, k);
      var i :| Filled(r, i, k);
      var n := FilledIsInSomeRun(r, i, k);
    }
    forall n | 0 <= n < |Steps(r)| && (Steps(r)[n].y == k || Steps(r)[n].x == k)
      ensures 0 <= k <= r
    {
      StepBounds(r, n);
    }
  }

  // ----- from runs to boxes

  predicate FlagsAgree(octants: int) {
    forall q: Quarter :: HasBit(octants, NearFlag(q)) <==> HasBit(octants, FarFlag(q))
  }

  /** The pixel lies in a filled quarter selected by the flags. */
  predicate InQuarters(r: int, xc: int, yc: int, octants: int, x: int, y: int) {
    exists q: Quarter :: HasBit(octants, NearFlag(q))
      && Filled(r, Offset(q, xc, yc, x, y).0, Offset(q, xc, yc, x, y).1)
  }

  /** The quarter's boxes of one step are its two runs. */
  lemma QuarterIsRun(q: Quarter, xc: int, yc: int, s: Step, b: Brush, x: int, y: int)
    requires !b.ring
    requires HasBit(b.octants, NearFlag(q)) <==> HasBit(b.octants, FarFlag(q))
    ensures Drawn(QuarterBoxes(q, xc, yc, s, b), x, y) <==>
      HasBit(b.octants, NearFlag(q)) && InRun(s, Offset(q, xc, yc, x, y).0, Offset(q, xc, yc, x, y).1)
  {
    var boxes := QuarterBoxes(q, xc, yc, s, b);
    if HasBit(b.octants, NearFlag(q)) {
      assert |boxes| == 2;
      assert Drawn(boxes, x, y) <==> InBox(boxes[0], x, y) || InBox(boxes[1], x, y);
    } else {
      assert |boxes| == 0;
    }
  }

  lemma DrawnAppend(a: seq<Box>, b: seq<Box>, x: int, y: int)
    ensures Drawn(a + b, x, y) <==> Drawn(a, x, y) || Drawn(b, x, y)
  {
    var c := a + b;
    if Drawn(a, x, y) {
      var k :| 0 <= k < |a| && InBox(a[k], x, y);
      assert InBox(c[k], x, y);
    }
    if Drawn(b, x, y) {
      var k :| 0 <= k < |b| && InBox(b[k], x, y);
      assert InBox(c[|a| + k], x, y);
    }
    if Drawn(c, x, y) {
      var k :| 0 <= k < |c| && InBox(c[k], x, y);
      assert InBox(if k < |a| then a[k] else b[k - |a|], x, y);
    }
  }

  predicate InStep(xc: int, yc: int, s: Step, octants: int, x: int, y: int) {
    exists q: Quarter :: HasBit(octants, NearFlag(q))
      && InRun(s, Offset(q, xc, yc, x, y).0, Offset(q, xc, yc, x, y).1)
  }

  lemma StepIsRuns(xc: int, yc: int, s: Step, b: Brush, x: int, y: int)
    requires !b.ring && FlagsAgree(b.octants)
    ensures Drawn(StepBoxes(xc, yc, s, b), x, y) <==> InStep(xc, yc, s, b.octants, x, y)
  {
    var dr, dl := QuarterBoxes(DownRight, xc, yc, s, b), QuarterBoxes(DownLeft, xc, yc, s, b);
    var ur, ul := QuarterBoxes(UpRight, xc, yc, s, b), QuarterBoxes(UpLeft, xc, yc, s, b);
    DrawnAppend(dr, dl, x, y);
    DrawnAppend(dr + dl, ur, x, y);
    DrawnAppend(dr + dl + ur, ul, x, y);
    forall q: Quarter
      ensures Drawn(QuarterBoxes(q, xc, yc, s, b), x, y) <==>
        HasBit(b.octants, NearFlag(q)) && InRun(s, Offset(q, xc, yc, x, y).0, Offset(q, xc, yc, x, y).1)
    {
      QuarterIsRun(q, xc, yc, s, b, x, y);
    }
  }

  lemma {:induction false} CircleIsRuns(xc: int, yc: int, steps: seq<Step>, b: Brush, x: int, y: int)
    requires !b.ring && FlagsAgree(b.octants)
    ensures Drawn(CircleBoxes(xc, yc, steps, b), x, y) <==>
      exists k :: 0 <= k < |steps| && InStep(xc, yc, steps[k], b.octants, x, y)
    decreases |steps|
  {
    if |steps| > 0 {
      var init, s := steps[..|steps| - 1], steps[|steps| - 1];
      CircleIsRuns(xc, yc, init, b, x, y);
      StepIsRuns(xc, yc, s, b, x, y);
      DrawnAppend(CircleBoxes(xc, yc, init, b), StepBoxes(xc, yc, s, b), x, y);
      assert forall k :: 0 <= k < |init| ==> init[k] == steps[k];
    }
  }

  /** Filling with whole quarters draws exactly the closed-form quarters, for every radius. */
  lemma FillDrawsQuarters(r: int, xc: int, yc: int, b: Brush, x: int, y: int)
    requires r >= 1 && !b.ring && FlagsAgree(b.octants)
    ensures Drawn(CircleBoxes(xc, yc, Steps(r), b), x, y) <==> InQuarters(r, xc, yc, b.octants, x, y)
  {
    CircleIsRuns(xc, yc, Steps(r), b, x, y);
    if InQuarters(r, xc, yc, b.octants, x, y) {
      var q: Quarter :| HasBit(b.octants, NearFlag(q))
        && Filled(r, Offset(q, xc, yc, x, y).0, Offset(q, xc, yc, x, y).1);
      var k := FilledIsInSomeRun(r, Offset(q, xc, yc, x, y).0, Offset(q, xc, yc, x, y).1);
      assert InStep(xc, yc, Steps(r)[k], b.octants, x, y);
    }
    if k :| 0 <= k < |Steps(r)| && InStep(xc, yc, Steps(r)[k], b.octants, x, y) {
      var q: Quarter :| HasBit(b.octants, NearFlag(q))
        && InRun(Steps(r)[k], Offset(q, xc, yc, x, y).0, Offset(q, xc, yc, x, y).1);
      RunIsFilled(r, k, Offset(q, xc, yc, x, y).0, Offset(q, xc, yc, x, y).1);
    }
  }

  // ----- the picture on a screen

  /** Every pixel of the selected quarters that lies left of the screen lies below it as well, and
      every one above the screen lies right of it as well. */
  ghost predicate KeepsClear(screenWidth: int, screenHeight: int, r: int, xc: int, yc: int, octants: int) {
    forall x, y :: InQuarters(r, xc, yc, octants, x, y) ==>
      (x >= 0 || y >= screenHeight) && (y >= 0 || x >= screenWidth)
  }

  lemma BoxOfStep(xc: int, yc: int, s: Step, b: Brush, box: Box) returns (q: Quarter)
    requires box in StepBoxes(xc, yc, s, b)
    ensures box in QuarterBoxes(q, xc, yc, s, b)
  {
    q := if box in QuarterBoxes(DownRight, xc, yc, s, b) then DownRight
      else if box in QuarterBoxes(DownLeft, xc, yc, s, b) then DownLeft
      else if box in QuarterBoxes(UpRight, xc, yc, s, b) then UpRight
      else UpLeft;
  }

  lemma {:induction false} BoxOfCircle(xc: int, yc: int, steps: seq<Step>, b: Brush, box: Box)
      returns (k: nat, q: Quarter)
    requires box in CircleBoxes(xc, yc, steps, b)
    ensures k < |steps| && box in QuarterBoxes(q, xc, yc, steps[k], b)
    decreases |steps|
  {
    k := |steps| - 1;
    if box in StepBoxes(xc, yc, steps[k], b) {
      q := BoxOfStep(xc, yc, steps[k], b, box);
    } else {
      k, q := BoxOfCircle(xc, yc, steps[..k], b, box);
    }
  }

  lemma FlagBoxIsRow(q: Quarter, far: bool, xc: int, yc: int, s: Step, b: Brush, box: Box)
    requires !b.ring && 0 <= s.y <= s.x && box in FlagBoxes(q, far, xc, yc, s, b)
    ensures box.color == b.color && box.width >= 0 && box.height == 1
  {
    hide HasBit;
  }

  /** A box of a fill is one row of pixels in the colour of the brush. */
  lemma FillBoxIsRow(r: int, xc: int, yc: int, b: Brush, box: Box)
    requires r >= 1 && !b.ring && box in CircleBoxes(xc, yc, Steps(r), b)
    ensures box.color == b.color && box.width >= 0 && box.height == 1
  {
    var k, q := BoxOfCircle(xc, yc, Steps(r), b, box);
    var s := Steps(r)[k];
    StepBounds(r, k);
    hide FlagBoxes, CircleBoxes, Steps, Nearest;
    FlagBoxIsRow(q, box !in FlagBoxes(q, false, xc, yc, s, b), xc, yc, s, b, box);
  }

  predicate LeftOf(q: Quarter) {
    q.UpLeft? || q.DownLeft?
  }

  predicate Above(q: Quarter) {
    q.UpLeft? || q.UpRight?
  }

  /** The pixel at an offset from the corner of a quarter. */
  function PixelOf(q: Quarter, xc: int, yc: int, i: int, j: int): (p: (int, int))
    ensures Offset(q, xc, yc, p.0, p.1) == (i, j)
  {
    (if LeftOf(q) then xc - 1 - i else xc + i, if Above(q) then yc - j else yc - 1 + j)
  }

  /** A box of a fill starts at a pixel of its quarter, or is empty and next to one. */
  lemma BoxTouchesQuarter(r: int, k: nat, q: Quarter, xc: int, yc: int, b: Brush, box: Box) returns (i: int, j: int)
    requires r >= 1 && !b.ring && FlagsAgree(b.octants) && k < |Steps(r)|
    requires box in QuarterBoxes(q, xc, yc, Steps(r)[k], b)
    ensures HasBit(b.octants, NearFlag(q)) && Filled(r, i, j) && box.y == PixelOf(q, xc, yc, i, j).1
    ensures box.x == PixelOf(q, xc, yc, i, j).0 || (box.width == 0 && box.x == PixelOf(q, xc, yc, i, j).0 + 1)
  {
    var s := Steps(r)[k];
    StepBounds(r, k);
    assert HasBit(b.octants, NearFlag(q));
    j := if box in FlagBoxes(q, false, xc, yc, s, b) then s.y else s.x;
    i := if LeftOf(q) && box.width >= 1 then box.width - 1 else 0;
    if box.width >= 1 {
      RunIsFilled(r, k, i, j);
    } else {
      hide Filled;
      FilledCorner(r, j);
    }
  }

  lemma FilledCorner(r: int, j: int)
    requires r >= 1 && 0 <= j <= r
    ensures Filled(r, 0, j)
  {
    FilledRows(r, j);
    var i :| Filled(r, i, j);
    FilledIsStaircase(r, i, j, 0, j);
  }

  /** All boxes of a fill are clean exactly when its quarters keep clear of the left and top edges. */
  lemma FillBoxesAreClean(screenWidth: int, screenHeight: int, r: int, xc: int, yc: int, b: Brush)
    requires r >= 1 && !b.ring && FlagsAgree(b.octants) && screenWidth > 0 && screenHeight > 0
    ensures (forall box :: box in CircleBoxes(xc, yc, Steps(r), b) ==> Clean(screenWidth, screenHeight, box))
      <==> KeepsClear(screenWidth, screenHeight, r, xc, yc, b.octants)
  {
    var boxes := CircleBoxes(xc, yc, Steps(r), b);
    hide CircleBoxes, Steps, Clean, Filled, QuarterBoxes, FlagsAgree;
    if KeepsClear(screenWidth, screenHeight, r, xc, yc, b.octants) {
      forall box | box in boxes
        ensures Clean(screenWidth, screenHeight, box)
      {
        FillBoxIsRow(r, xc, yc, b, box);
        var k, q := BoxOfCircle(xc, yc, Steps(r), b, box);
        var i, j := BoxTouchesQuarter(r, k, q, xc, yc, b, box);
        var (x, y) := PixelOf(q, xc, yc, i, j);
        assert InQuarters(r, xc, yc, b.octants, x, y);
        RowIsClean(screenWidth, screenHeight, box);
      }
    }
    if forall box :: box in boxes ==> Clean(screenWidth, screenHeight, box) {
      forall x, y | InQuarters(r, xc, yc, b.octants, x, y)
        ensures (x >= 0 || y >= screenHeight) && (y >= 0 || x >= screenWidth)
      {
        FillDrawsQuarters(r, xc, yc, b, x, y);
        var k :| 0 <= k < |boxes| && InBox(boxes[k], x, y);
        FillBoxIsRow(r, xc, yc, b, boxes[k]);
        RowIsClean(screenWidth, screenHeight, boxes[k]);
      }
    }
  }

  /** The picture of a filled circle: its quarters where they are on the screen, and nothing else. */
  ghost predicate PaintsQuarters(screenWidth: int, screenHeight: int, r: int, xc: int, yc: int, b: Brush) {
    forall x, y :: Last(Traces(screenWidth, screenHeight, CircleBoxes(xc, yc, Steps(r), b)), x, y)
      == if InQuarters(r, xc, yc, b.octants, x, y) && InRect(0, 0, screenWidth, screenHeight, x, y)
         then Some(b.color) else None
  }

  /** For every radius and centre: a fill paints its quarters exactly when they keep clear of the left
      and top edges. */
  lemma FillPaintsQuarters(screenWidth: int, screenHeight: int, r: int, xc: int, yc: int, b: Brush)
    requires r >= 1 && !b.ring && FlagsAgree(b.octants) && screenWidth > 0 && screenHeight > 0
    ensures PaintsQuarters(screenWidth, screenHeight, r, xc, yc, b)
      <==> KeepsClear(screenWidth, screenHeight, r, xc, yc, b.octants)
  {
    var boxes := CircleBoxes(xc, yc, Steps(r), b);
    hide CircleBoxes, Steps, Clean, InQuarters, Drawn, Traces, KeepsClear;
    forall box | box in boxes
      ensures box.color == b.color && box.width >= 0
    {
      FillBoxIsRow(r, xc, yc, b, box);
    }
    FillBoxesAreClean(screenWidth, screenHeight, r, xc, yc, b);
    TracesPaintUnion(screenWidth, screenHeight, boxes, b.color);
    forall x, y
      ensures Drawn(boxes, x, y) <==> InQuarters(r, xc, yc, b.octants, x, y)
    {
      FillDrawsQuarters(r, xc, yc, b, x, y);
    }
  }

  /** The centre is a radius away from the edges that a selected quarter points to; the lower quarters
      start one row above the centre. */
  predicate CentreFits(r: int, xc: int, yc: int, octants: int) {
    forall q: Quarter :: HasBit(octants, NearFlag(q)) ==>
      xc >= (if LeftOf(q) then r else 0) && yc >= (if Above(q) then r else 1)
  }

  lemma FilledBounds(r: int, i: int, j: int)
    requires r >= 1 && Filled(r, i, j)
    ensures 0 <= i < r && 0 <= j <= r
  {
    FilledRows(r, j);
    MulMono(0, j, j);
    if i >= r {
      SquareOrder(r, i);
      if j >= 1 {
        MulMono(1, j, j);
      }
    }
  }

  /** The widest rows and the top row of a quarter. */
  lemma FilledExtremes(r: int)
    requires r >= 1
    ensures Filled(r, r - 1, 0) && Filled(r, r - 1, 1) && Filled(r, 0, 0) && Filled(r, 0, 1) && Filled(r, 0, r)
  {
    MulMono(1, r, r);
    assert (r - 1) * (r - 1) + (r - 1) == r * r - r;
    FilledCorner(r, 0);
    FilledCorner(r, 1);
    FilledCorner(r, r);
  }

  /** A caller can check the centre: if it fits, the fill keeps clear, and only then if the centre is
      not beyond the right or bottom edge. */
  lemma CentreKeepsClear(screenWidth: int, screenHeight: int, r: int, xc: int, yc: int, octants: int)
    requires r >= 1 && screenWidth > 0 && screenHeight > 0
    ensures CentreFits(r, xc, yc, octants) ==> KeepsClear(screenWidth, screenHeight, r, xc, yc, octants)
    ensures xc < screenWidth && yc <= screenHeight && KeepsClear(screenWidth, screenHeight, r, xc, yc, octants) ==>
      CentreFits(r, xc, yc, octants)
  {
    hide Filled;
    if CentreFits(r, xc, yc, octants) {
      forall x, y | InQuarters(r, xc, yc, octants, x, y)
        ensures x >= 0 && y >= 0
      {
        var q: Quarter :| HasBit(octants, NearFlag(q))
          && Filled(r, Offset(q, xc, yc, x, y).0, Offset(q, xc, yc, x, y).1);
        FilledBounds(r, Offset(q, xc, yc, x, y).0, Offset(q, xc, yc, x, y).1);
      }
    }
    if xc < screenWidth && yc <= screenHeight && KeepsClear(screenWidth, screenHeight, r, xc, yc, octants) {
      forall q: Quarter | HasBit(octants, NearFlag(q))
        ensures xc >= (if LeftOf(q) then r else 0) && yc >= (if Above(q) then r else 1)
      {
        FilledExtremes(r);
        var (x, y) := PixelOf(q, xc, yc, if LeftOf(q) then r - 1 else 0, if Above(q) then 1 else 0);
        assert InQuarters(r, xc, yc, octants, x, y);
        var (x', y') := PixelOf(q, xc, yc, 0, if Above(q) then r else 0);
        assert InQuarters(r, xc, yc, octants, x', y');
      }
    }
  }

  // ----- rounded rectangles

  /** The octants of a single corner. */
  function Corner(q: Quarter): (octants: int)
  {
    match q
    case DownRight => 3
    case DownLeft => 12
    case UpRight => 48
    case UpLeft => 192
  }

  lemma CornerFlags(q: Quarter, p: Quarter)
    ensures HasBit(Corner(q), NearFlag(p)) <==> p == q
    ensures HasBit(Corner(q), FarFlag(p)) <==> p == q
  {
    match q {
      case DownRight => CornerFlag(3, p);
      case DownLeft => CornerFlag(12, p);
      case UpRight => CornerFlag(48, p);
      case UpLeft => CornerFlag(192, p);
    }
  }

  lemma CornerFlag(octants: int, p: Quarter)
    requires octants in {3, 12, 48, 192}
    ensures HasBit(octants, NearFlag(p)) <==> octants == Corner(p)
    ensures HasBit(octants, FarFlag(p)) <==> HasBit(octants, NearFlag(p))
  {
    match p {
      case DownRight => assert NearFlag(p) == 1 && FarFlag(p) == 2;
      case DownLeft => assert NearFlag(p) == 4 && FarFlag(p) == 8;
      case UpRight => assert NearFlag(p) == 16 && FarFlag(p) == 32;
      case UpLeft => assert NearFlag(p) == 64 && FarFlag(p) == 128;
    }
  }

  /** The centre used for a corner of a rounded rectangle. */
  function CornerCentre(q: Quarter, x: int, y: int, width: int, height: int, radius: int, stroke: int): (int, int) {
    (if LeftOf(q) then x + radius else x + width - radius - stroke,
     if Above(q) then y + radius else y + height - radius - stroke)
  }

  /** The corners of a rectangle on the screen keep clear exactly as long as the stroke, by which the
      right and lower ones are moved, does not move them over the edge. */
  lemma CornersKeepClear(screenWidth: int, screenHeight: int, x: int, y: int, width: int, height: int,
                         radius: int, stroke: int)
    requires 0 <= x && x + width <= screenWidth && 0 <= y && y + height <= screenHeight
    requires 1 < radius && 2 * radius <= width && 2 * radius <= height && 0 <= stroke
    ensures (forall q: Quarter :: var (xc, yc) := CornerCentre(q, x, y, width, height, radius, stroke);
               KeepsClear(screenWidth, screenHeight, radius, xc, yc, Corner(q)))
      <==> stroke <= x + width - radius && stroke < y + height - radius
  {
    forall q: Quarter
      ensures var (xc, yc) := CornerCentre(q, x, y, width, height, radius, stroke);
        KeepsClear(screenWidth, screenHeight, radius, xc, yc, Corner(q)) <==>
          (LeftOf(q) || stroke <= x + width - radius) && (Above(q) || stroke < y + height - radius)
    {
      var (xc, yc) := CornerCentre(q, x, y, width, height, radius, stroke);
      forall p: Quarter
        ensures HasBit(Corner(q), NearFlag(p)) <==> p == q
      {
        CornerFlags(q, p);
      }
      hide Corner, HasBit, NearFlag, KeepsClear;
      CentreKeepsClear(screenWidth, screenHeight, radius, xc, yc, Corner(q));
    }
    assert !LeftOf(DownRight) && !Above(DownRight);
  }

  /** Which quarter the octants of a corner select: 3 the lower right one, 12 the lower left, 48 the upper right and
      192 the upper left; 255 selects all four. */
  lemma QuartersOfOctants(r: int, xc: int, yc: int, x: int, y: int)
    ensures InQuarters(r, xc, yc, 3, x, y) <==> Filled(r, x - xc, y - yc + 1)
    ensures InQuarters(r, xc, yc, 12, x, y) <==> Filled(r, xc - 1 - x, y - yc + 1)
    ensures InQuarters(r, xc, yc, 48, x, y) <==> Filled(r, x - xc, yc - y)
    ensures InQuarters(r, xc, yc, 192, x, y) <==> Filled(r, xc - 1 - x, yc - y)
    ensures InQuarters(r, xc, yc, 255, x, y) <==>
      || Filled(r, x - xc, y - yc + 1) || Filled(r, xc - 1 - x, y - yc + 1)
      || Filled(r, x - xc, yc - y) || Filled(r, xc - 1 - x, yc - y)
  {
    hide Filled;
    OneQuarter(r, xc, yc, DownRight, x, y);
    OneQuarter(r, xc, yc, DownLeft, x, y);
    OneQuarter(r, xc, yc, UpRight, x, y);
    OneQuarter(r, xc, yc, UpLeft, x, y);
    forall q: Quarter
      ensures HasBit(255, NearFlag(q))
    {
      AllFlags(q);
    }
    hide HasBit, NearFlag;
    var dr, dl := Offset(DownRight, xc, yc, x, y), Offset(DownLeft, xc, yc, x, y);
    var ur, ul := Offset(UpRight, xc, yc, x, y), Offset(UpLeft, xc, yc, x, y);
    assert Filled(r, dr.0, dr.1) || Filled(r, dl.0, dl.1) || Filled(r, ur.0, ur.1) || Filled(r, ul.0, ul.1) ==>
      InQuarters(r, xc, yc, 255, x, y);
  }

  lemma AllFlags(q: Quarter)
    ensures HasBit(255, NearFlag(q)) && HasBit(255, FarFlag(q))
  {
    match q {
      case DownRight => assert NearFlag(q) == 1 && FarFlag(q) == 2;
      case DownLeft => assert NearFlag(q) == 4 && FarFlag(q) == 8;
      case UpRight => assert NearFlag(q) == 16 && FarFlag(q) == 32;
      case UpLeft => assert NearFlag(q) == 64 && FarFlag(q) == 128;
    }
  }

  lemma OneQuarter(r: int, xc: int, yc: int, q: Quarter, x: int, y: int)
    ensures InQuarters(r, xc, yc, Corner(q), x, y) <==>
      Filled(r, Offset(q, xc, yc, x, y).0, Offset(q, xc, yc, x, y).1)
  {
    forall p: Quarter
      ensures HasBit(Corner(q), NearFlag(p)) <==> p == q
    {
      CornerFlags(q, p);
    }
    hide Filled, HasBit, NearFlag, Corner;
  }

  /** An octant of a ring: the row at its distance from the centre gets `thickness` pixels in the colour of the
      brush, ending at the run's last column on the right and starting beyond it on the left; before them, unless
      x had to move and did not, the rest of the run in the inner colour. */
  lemma RingIsRuns(q: Quarter, far: bool, xc: int, yc: int, s: Step, b: Brush, x: int, y: int)
    requires b.ring && HasBit(b.octants, if far then FarFlag(q) else NearFlag(q))
    ensures
      var length, distance := if far then s.y else s.x, if far then s.x else s.y;
      var boxes := FlagBoxes(q, far, xc, yc, s, b);
      var inRow := y == if Above(q) then yc - distance else yc + distance;
      && |boxes| == (if far && !s.xChanged then 1 else 2)
      && boxes[|boxes| - 1].color == b.color
      && (InBox(boxes[|boxes| - 1], x, y) <==>
            inRow && if LeftOf(q) then xc - length - b.thickness < x <= xc - length
                     else xc + length - b.thickness < x <= xc + length)
      && (|boxes| == 2 ==>
            && boxes[0].color == b.innerColor
            && (InBox(boxes[0], x, y) <==>
                  inRow && if LeftOf(q) then xc - length <= x <= xc - b.thickness
                           else xc <= x <= xc + length - b.thickness))
  {
    hide HasBit;
  }

  lemma {:induction false} StepIsDrawn(xc: int, yc: int, steps: seq<Step>, k: nat, b: Brush, box: Box)
    requires k < |steps| && box in StepBoxes(xc, yc, steps[k], b)
    ensures box in CircleBoxes(xc, yc, steps, b)
    decreases |steps|
  {
    hide StepBoxes;
    if k < |steps| - 1 {
      StepIsDrawn(xc, yc, steps[..|steps| - 1], k, b, box);
    }
  }

  /** The first row that the upper right corner draws. */
  lemma CornerStart(r: int, xc: int, yc: int, b: Brush) returns (box: Box)
    requires r >= 1 && !b.ring && b.octants == Corner(UpRight)
    ensures box in CircleBoxes(xc, yc, Steps(r), b) && box.x == xc && box.y == yc
    ensures box.color == b.color && box.width >= 0 && box.height == 1
  {
    var s := Steps(r)[0];
    box := Box(b.color, xc, yc, s.x, 1);
    CornerFlags(UpRight, UpRight);
    hide Steps, CircleBoxes, Corner, HasBit;
    assert FlagBoxes(UpRight, false, xc, yc, s, b) == [box];
    assert box in StepBoxes(xc, yc, s, b);
    StepIsDrawn(xc, yc, Steps(r), 0, b, box);
    FillBoxIsRow(r, xc, yc, b, box);
  }

  /** What goes wrong beyond: a stroke that moves the upper right corner over the left edge makes it
      paint the row of its centre from edge to edge. */
  lemma CornerFloodsRow(screenWidth: int, screenHeight: int, r: int, xc: int, yc: int, b: Brush, x: int)
    requires r >= 1 && !b.ring && b.octants == Corner(UpRight)
    requires xc < 0 && 0 <= yc < screenHeight && 0 <= x < screenWidth
    ensures Last(Traces(screenWidth, screenHeight, CircleBoxes(xc, yc, Steps(r), b)), x, yc) == Some(b.color)
    ensures x >= xc + r ==> !InQuarters(r, xc, yc, b.octants, x, yc)
  {
    var boxes := CircleBoxes(xc, yc, Steps(r), b);
    var box := CornerStart(r, xc, yc, b);
    hide Traces, CircleBoxes, Trace, Steps;
    forall other | other in boxes
      ensures other.color == b.color && other.width >= 0
    {
      FillBoxIsRow(r, xc, yc, b, other);
    }
    TracePicture(screenWidth, screenHeight, box, x, yc);
    TracesCover(screenWidth, screenHeight, boxes, b.color, box, x, yc);
    CornerEnds(r, xc, yc, b.octants, x);
    hide InQuarters, Corner;
  }

  lemma CornerEnds(r: int, xc: int, yc: int, octants: int, x: int)
    requires r >= 1 && octants == Corner(UpRight)
    ensures x >= xc + r ==> !InQuarters(r, xc, yc, octants, x, yc)
  {
    forall q: Quarter | x >= xc + r && HasBit(octants, NearFlag(q))
      ensures !Filled(r, Offset(q, xc, yc, x, yc).0, Offset(q, xc, yc, x, yc).1)
    {
      CornerFlags(UpRight, q);
      hide Filled, HasBit, NearFlag;
      if Filled(r, x - xc, 0) {
        FilledBounds(r, x - xc, 0);
      }
    }
  }
}
