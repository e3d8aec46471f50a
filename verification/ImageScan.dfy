/** The five ways an NBGL image is scanned onto the screen: where the k-th pixel of the stream goes
    and which bits give its colour, as closed forms in k. */
module ImageScan {
  import opened Arith
  import opened Bytes
  import opened Canvas
  import opened Screenshot
  import opened Wrappers

  datatype Area = Area(x0: int, y0: int, width: int, height: int, color: int, bpp: int)

  /** The shape of the area fields on the wire. */
  predicate InRange(a: Area) {
    && -0x8000 <= a.x0 < 0x8000 && -0x8000 <= a.y0 < 0x8000
    && 0 <= a.width < 0x10000 && 0 <= a.height < 0x10000
    && 0 <= a.color < 256 && 0 <= a.bpp < 256
  }

  datatype Image = Image(area: Area, bpp: int, transformation: int, buffer: seq<byte>, colorMap: byte)

  predicate KnownTransformation(t: int) {
    0 <= t <= 4
  }

  // ----- positions

  /** Sizes as the scan sees them: a column or row shorter than one pixel acts as one. */
  function Columns(a: Area): (n: int)
    ensures n >= 1
  {
    Max(a.width, 1)
  }

  function RowCount(a: Area): (n: int)
    ensures n >= 1
  {
    Max(a.height, 1)
  }

  /** The pixel `minor` steps into the column or row number `major` of the scan. */
  function Place(a: Area, t: int, major: int, minor: int): (int, int)
    requires KnownTransformation(t)
  {
    match t
    case 0 => (a.x0 + a.width - 1 - major, a.y0 + minor)
    case 1 => (a.x0 + a.width - 1 - major, a.y0 + a.height - 1 - minor)
    case 2 => (a.x0 + major, a.y0 + minor)
    case 3 => (a.x0 + major, a.y0 + a.height - 1 - minor)
    case 4 => (a.x0 + minor, a.y0 + major)
  }

  /** Position of the k-th pixel of the stream: columns of pixels, or rows for transformation 4. */
  function Position(a: Area, t: int, k: nat): (int, int)
    requires KnownTransformation(t)
  {
    var length := if t == 4 then Columns(a) else RowCount(a);
    Place(a, t, k / length, k % length)
  }

  /** Number of pixels after which the scan is complete. */
  function Capacity(a: Area): (n: int)
    ensures n >= 1
  {
    MulMono(1, Columns(a), RowCount(a));
    Columns(a) * RowCount(a)
  }

  /** The area shown by a non-empty rectangle. */
  predicate NonEmpty(a: Area) {
    a.width >= 1 && a.height >= 1
  }

  predicate Inside(a: Area, x: int, y: int) {
    InRect(a.x0, a.y0, a.width, a.height, x, y)
  }

  /** Index in the stream of a pixel of the area. */
  function IndexAt(a: Area, t: int, x: int, y: int): int
    requires KnownTransformation(t)
  {
    match t
    case 0 => (a.x0 + a.width - 1 - x) * a.height + (y - a.y0)
    case 1 => (a.x0 + a.width - 1 - x) * a.height + (a.y0 + a.height - 1 - y)
    case 2 => (x - a.x0) * a.height + (y - a.y0)
    case 3 => (x - a.x0) * a.height + (a.y0 + a.height - 1 - y)
    case 4 => (y - a.y0) * a.width + (x - a.x0)
  }

  /** Every pixel of the area is reached, at its own index. */
  lemma PositionAtIndex(a: Area, t: int, x: int, y: int)
    requires KnownTransformation(t) && Inside(a, x, y)
    ensures 0 <= IndexAt(a, t, x, y) < a.width * a.height
    ensures Position(a, t, IndexAt(a, t, x, y)) == (x, y)
  {
    if t == 4 {
      RowMajorBound(y - a.y0, x - a.x0, a.width, a.height);
      DivModUnique(y - a.y0, x - a.x0, a.width);
    } else {
      var major := if t <= 1 then a.x0 + a.width - 1 - x else x - a.x0;
      var minor := if t == 0 || t == 2 then y - a.y0 else a.y0 + a.height - 1 - y;
      RowMajorBound(major, minor, a.height, a.width);
      DivModUnique(major, minor, a.height);
    }
  }

  /** No position is visited twice, however long the stream. */
  lemma PositionsDiffer(a: Area, t: int, j: nat, k: nat)
    requires KnownTransformation(t) && j != k
    ensures Position(a, t, j) != Position(a, t, k)
  {
    var d := if t == 4 then Columns(a) else RowCount(a);
    assert j == d * (j / d) + j % d && k == d * (k / d) + k % d;
  }

  lemma QuotientBound(k: nat, minors: int, majors: int)
    requires minors >= 1
    ensures k / minors < majors <==> k < majors * minors
  {
    RowMajorBound(k / minors, k % minors, minors, majors);
  }

  /** The k-th pixel of a non-empty area lies inside it exactly when k is below width * height. */
  lemma PositionInside(a: Area, t: int, k: nat)
    requires KnownTransformation(t) && NonEmpty(a)
    ensures Inside(a, Position(a, t, k).0, Position(a, t, k).1) <==> k < a.width * a.height
  {
    var length := if t == 4 then Columns(a) else RowCount(a);
    var lines := if t == 4 then RowCount(a) else Columns(a);
    var major, minor := k / length, k % length;
    QuotientBound(k, length, lines);
    assert Position(a, t, k) == Place(a, t, major, minor);
    PlaceInside(a, t, major, minor);
    Commutes(length, lines);
    hide Place, Inside, Position;
  }

  lemma Commutes(a: int, b: int)
    ensures a * b == b * a
  {
  }

  lemma PlaceInside(a: Area, t: int, major: int, minor: int)
    requires KnownTransformation(t) && 0 <= major && 0 <= minor < if t == 4 then a.width else a.height
    ensures Inside(a, Place(a, t, major, minor).0, Place(a, t, major, minor).1)
      <==> major < if t == 4 then a.height else a.width
  {
  }

  /** One step of the scan: the next position, or the end when the last column or row is done. */
  lemma NextPosition(a: Area, t: int, k: nat)
    requires KnownTransformation(t) && (t == 3 || k < Capacity(a))
    ensures var (x, y) := Position(a, t, k); var next := Position(a, t, k + 1);
      match t
      case 0 =>
        if y < a.y0 + a.height - 1 then next == (x, y + 1) && k + 1 < Capacity(a)
        else next == (x - 1, a.y0) && (x - 1 < a.x0 <==> k + 1 == Capacity(a)) && k + 1 <= Capacity(a)
      case 1 =>
        if y > a.y0 then next == (x, y - 1) && k + 1 < Capacity(a)
        else next == (x - 1, a.y0 + a.height - 1) && (x - 1 < a.x0 <==> k + 1 == Capacity(a)) && k + 1 <= Capacity(a)
      case 2 =>
        if y < a.y0 + a.height - 1 then next == (x, y + 1) && k + 1 < Capacity(a)
        else next == (x + 1, a.y0) && (x + 1 >= a.x0 + a.width <==> k + 1 == Capacity(a)) && k + 1 <= Capacity(a)
      case 3 => if y > a.y0 then next == (x, y - 1) else next == (x + 1, a.y0 + a.height - 1)
      case 4 =>
        if x < a.x0 + a.width - 1 then next == (x + 1, y) && k + 1 < Capacity(a)
        else next == (a.x0, y + 1) && (y + 1 >= a.y0 + a.height <==> k + 1 == Capacity(a)) && k + 1 <= Capacity(a)
  {
    var minors, majors := if t == 4 then Columns(a) else RowCount(a), if t == 4 then RowCount(a) else Columns(a);
    assert Capacity(a) == majors * minors;
    RowMajorStep(k, minors);
    StepWithin(k, minors, majors);
  }

  lemma StepWithin(k: nat, minors: int, majors: int)
    requires minors >= 1 && majors >= 1
    ensures k < majors * minors ==> k / minors < majors
    ensures k < majors * minors && k % minors + 1 < minors ==> k + 1 < majors * minors
    ensures k < majors * minors && k % minors + 1 >= minors ==>
      k + 1 <= majors * minors && (k + 1 == majors * minors <==> k / minors + 1 >= majors)
  {
    RowMajorBound(k / minors, k % minors, minors, majors);
    if k < majors * minors {
      if k % minors + 1 < minors {
        RowMajorBound(k / minors, k % minors + 1, minors, majors);
      } else {
        assert k + 1 == (k / minors + 1) * minors;
        MulMono(k / minors + 1, majors, minors);
        if k / minors + 1 < majors {
          MulMono(k / minors + 2, majors, minors);
        }
      }
    }
  }

  // ----- colours

  /** Bits of the stream for one pixel. */
  function BitStep(bpp: int): (step: int)
    ensures step in {1, 2, 4}
  {
    if bpp == 1 then 1 else if bpp == 2 then 2 else 4
  }

  function PerByte(bpp: int): (per: int)
    ensures per * BitStep(bpp) == 8
  {
    if bpp == 1 then 8 else if bpp == 2 then 4 else 2
  }

  /** Bits taken by j pixels: j * BitStep(bpp). */
  function Bits(bpp: int, j: int): int {
    if bpp == 1 then j else if bpp == 2 then 2 * j else 4 * j
  }

  /** Pixels in b bytes: b * PerByte(bpp). */
  function Pixels(bpp: int, b: int): int {
    if bpp == 1 then 8 * b else if bpp == 2 then 4 * b else 2 * b
  }

  /** The k-th bit group of the stream, most significant first. */
  function Group(bpp: int, buffer: seq<byte>, k: nat): (nib: int)
    requires k / PerByte(bpp) < |buffer|
    ensures 0 <= nib < Pow2(BitStep(bpp))
  {
    buffer[k / PerByte(bpp)] / Pow2(8 - BitStep(bpp) - Bits(bpp, k % PerByte(bpp))) % Pow2(BitStep(bpp))
  }

  /** A level of the device's palette as a 24-bit grey. */
  function ToScreenColor(level: int, bpp: int): Option<int> {
    match bpp
    case 1 => Some(level * 0xFFFFFF)
    case 2 => Some(level * 0x555555)
    case 4 => Some(level * 0x111111)
    case _ => None
  }

  /** Sixteen palette levels. */
  predicate IsRamp(ramp: seq<int>) {
    |ramp| == 16 && forall i :: 0 <= i < 16 ==> 0 <= ramp[i] < 16
  }

  /** The hand-made shades between a front and a back colour, one function for each front. */
  function ColorRamp(front: int, back: int): (ramp: seq<int>)
    requires 0 <= front < 4 && 0 <= back < 4
    ensures IsRamp(ramp)
  {
    if front == 0 then BlackRamp(back)
    else if front == 1 then DarkGrayRamp(back)
    else if front == 2 then LightGrayRamp(back)
    else WhiteRamp(back)
  }

  function BlackRamp(back: int): (ramp: seq<int>)
    requires 0 <= back < 4
    ensures IsRamp(ramp)
  {
    if back == 0 then [0, 0, 0, 0, 0, 0, 0, 0, 0, 0, 0, 0, 0, 0, 0, 0]
    else if back == 1 then [0, 0, 1, 1, 1, 2, 2, 2, 3, 3, 4, 4, 4, 5, 5, 5]
    else if back == 2 then [0, 1, 2, 2, 3, 4, 4, 5, 6, 6, 7, 8, 8, 9, 10, 10]
    else [0, 1, 2, 3, 4, 5, 6, 7, 8, 9, 10, 11, 12, 13, 14, 15]
  }

  function DarkGrayRamp(back: int): (ramp: seq<int>)
    requires 0 <= back < 4
    ensures IsRamp(ramp)
  {
    if back == 0 then [5, 5, 4, 4, 4, 3, 3, 3, 2, 2, 1, 1, 1, 0, 0, 0]
    else if back == 1 then [5, 5, 5, 5, 5, 5, 5, 5, 5, 5, 5, 5, 5, 5, 5, 5]
    else if back == 2 then [5, 5, 6, 6, 6, 7, 7, 7, 8, 8, 9, 9, 9, 10, 10, 10]
    else [5, 5, 6, 6, 7, 7, 8, 8, 9, 9, 10, 11, 12, 13, 14, 15]
  }

  function LightGrayRamp(back: int): (ramp: seq<int>)
    requires 0 <= back < 4
    ensures IsRamp(ramp)
  {
    if back == 0 then [10, 9, 8, 7, 6, 5, 4, 4, 3, 3, 2, 2, 1, 1, 0, 0]
    else if back == 1 then [10, 10, 9, 9, 9, 8, 8, 8, 7, 7, 6, 6, 6, 5, 5, 5]
    else if back == 2 then [10, 10, 10, 10, 10, 10, 10, 10, 10, 10, 10, 10, 10, 10, 10, 10]
    else [10, 10, 11, 11, 12, 12, 13, 13, 13, 14, 14, 14, 15, 15, 15, 15]
  }

  function WhiteRamp(back: int): (ramp: seq<int>)
    requires 0 <= back < 4
    ensures IsRamp(ramp)
  {
    if back == 0 then [15, 14, 13, 12, 11, 10, 9, 8, 7, 6, 5, 4, 3, 2, 1, 0]
    else if back == 1 then [15, 14, 13, 13, 12, 11, 11, 10, 9, 9, 8, 7, 7, 6, 5, 5]
    else if back == 2 then [15, 15, 14, 14, 14, 13, 13, 13, 12, 12, 11, 11, 11, 10, 10, 10]
    else [15, 15, 15, 15, 15, 15, 15, 15, 15, 15, 15, 15, 15, 15, 15, 15]
  }

  /** Whether the first pixel raises a ValueError: an unknown depth, or four bits with a front or
      back colour that is not one of the four. */
  predicate BadColors(bpp: int, colorMap: int, areaColor: int) {
    bpp !in {1, 2, 4} || (bpp == 4 && !(0 <= colorMap < 4 && 0 <= areaColor < 4))
  }

  /** The colour map in force: one-bit images take the area colour as colour of the zero bit. */
  function EffectiveMap(bpp: int, colorMap: nat, areaColor: nat): nat {
    if bpp == 1 then BitOr(colorMap * 4, areaColor) else colorMap
  }

  /** The colour of a bit group; it always has 24 bits. */
  function PixelColor(bpp: int, colorMap: nat, areaColor: nat, nib: nat): (color: int)
    requires !BadColors(bpp, colorMap, areaColor) && nib < Pow2(BitStep(bpp))
    ensures Fits(color)
  {
    Pow2Values();
    var m := EffectiveMap(bpp, colorMap, areaColor);
    var depth := if bpp == 1 then 2 else bpp;
    if m != 0 && depth < 4 then ToScreenColor(m / Pow2(nib * 2) % 4, depth).value
    else if depth == 4 then ToScreenColor(ColorRamp(m, areaColor)[nib], 4).value
    else ToScreenColor(nib, depth).value
  }

  // ----- what the colours are, without the tables

  /** A byte of the stream is two groups of four bits, the first being the more significant. */
  lemma ByteIsTwoGroups(buffer: seq<byte>, b: nat)
    requires b < |buffer|
    ensures buffer[b] == 16 * Group(4, buffer, 2 * b) + Group(4, buffer, 2 * b + 1)
  {
    Pow2Values();
    hide Pow2;
  }

  /** The j-th group of a byte; `weight` is that of its last bit. */
  lemma GroupOfByte(bpp: int, buffer: seq<byte>, b: nat, j: nat, weight: nat)
    requires bpp in {1, 2, 4} && b < |buffer| && j < PerByte(bpp) && weight == Pow2(8 - bpp - bpp * j)
    ensures Group(bpp, buffer, PerByte(bpp) * b + j) == buffer[b] / weight % (if bpp == 1 then 2 else if bpp == 2 then 4 else 16)
  {
    Pow2Values();
    hide Pow2;
    DivModUnique(b, j, PerByte(bpp));
  }

  lemma Pair(m: nat)
    ensures m % 4 == 2 * (m / 2 % 2) + m % 2
  {
  }

  lemma Nibble(m: nat)
    ensures m % 16 == 4 * (m / 4 % 4) + m % 4
  {
  }

  lemma DivHalf(n: nat, w: nat)
    requires w > 0
    ensures n / (2 * w) == n / w / 2
  {
    var q := n / w;
    assert n == q * w + n % w;
    Distribute(q / 2, q % 2, w);
    Quotient(n, q / 2, (if q % 2 == 0 then 0 else w) + n % w, 2 * w);
  }

  lemma Distribute(h: nat, e: nat, w: nat)
    requires e < 2
    ensures (2 * h + e) * w == h * (2 * w) + if e == 0 then 0 else w
  {
  }

  lemma Quotient(n: nat, q: nat, r: nat, d: nat)
    requires r < d && n == q * d + r
    ensures n / d == q
  {
    DivModUnique(q, r, d);
  }

  /** A group of four bits is two groups of two bits. */
  lemma FourBitsAreTwo(buffer: seq<byte>, b: nat, j: nat)
    requires b < |buffer| && j < 2
    ensures Group(4, buffer, 2 * b + j) == 4 * Group(2, buffer, 4 * b + 2 * j) + Group(2, buffer, 4 * b + 2 * j + 1)
  {
    Pow2Values();
    hide Group, Pow2;
    var w := if j == 0 then 16 else 1;
    GroupOfByte(4, buffer, b, j, w);
    GroupOfByte(2, buffer, b, 2 * j, 4 * w);
    GroupOfByte(2, buffer, b, 2 * j + 1, w);
    assert 4 * w == 2 * (2 * w);
    DivHalf(buffer[b], w);
    DivHalf(buffer[b], 2 * w);
    Nibble(buffer[b] / w);
  }

  /** A group of two bits is two groups of one bit. */
  lemma TwoBitsAreOne(buffer: seq<byte>, b: nat, j: nat)
    requires b < |buffer| && j < 4
    ensures Group(2, buffer, 4 * b + j) == 2 * Group(1, buffer, 8 * b + 2 * j) + Group(1, buffer, 8 * b + 2 * j + 1)
  {
    Pow2Values();
    hide Group, Pow2;
    var w := if j == 0 then 64 else if j == 1 then 16 else if j == 2 then 4 else 1;
    GroupOfByte(2, buffer, b, j, w);
    GroupOfByte(1, buffer, b, 2 * j, 2 * w);
    GroupOfByte(1, buffer, b, 2 * j + 1, w);
    DivHalf(buffer[b], w);
    Pair(buffer[b] / w);
  }

  lemma GroupIsSmall(bpp: int, buffer: seq<byte>, k: nat)
    requires bpp in {1, 2, 4} && k / PerByte(bpp) < |buffer|
    ensures 0 <= Group(bpp, buffer, k) < (if bpp == 1 then 2 else if bpp == 2 then 4 else 16)
  {
    Pow2Values();
    hide Group, Pow2;
  }

  /** level * n for the four levels of the colours, without a product. */
  function Times(level: int, n: int): int {
    if level == 0 then 0 else if level == 5 then 5 * n else if level == 10 then 10 * n else 15 * n
  }

  lemma TimesIsProduct(level: int, n: int)
    requires level in {0, 5, 10, 15}
    ensures Times(level, n) == level * n
  {
  }

  /** The way from black to white, from white to black or from a grey to itself. */
  predicate Straight(front: int, back: int) {
    front == back || (front == 0 && back == 15) || (front == 15 && back == 0)
  }

  /** How much darker and lighter than the straight line a level may be, in fifteenths. */
  function Darkest(front: int, back: int): int {
    if Straight(front, back) then 0 else -30
  }

  function Lightest(front: int, back: int): int {
    if Straight(front, back) then 0 else 15
  }

  /** Level n of sixteen on the way from a front to a back level: at most two levels darker and one lighter than
      the straight line. */
  predicate NearLine(front: int, back: int, n: int, level: int) {
    Darkest(front, back) <= 15 * level - (Times(front, 15 - n) + Times(back, n)) <= Lightest(front, back)
  }

  /** A ramp from a front to a back level: exact at both ends, near the line, and each level no farther from
      the back than the one before. */
  predicate Runs(ramp: seq<int>, front: int, back: int) {
    && |ramp| == 16 && ramp[0] == front && ramp[15] == back
    && (forall n :: 0 <= n < 16 ==> NearLine(front, back, n, ramp[n]))
    && (forall n :: 0 < n < 16 ==> Between(ramp[n - 1], ramp[n], back))
  }

  lemma LevelsRun(a0: int, a1: int, a2: int, a3: int, a4: int, a5: int, a6: int, a7: int, a8: int, a9: int, a10: int,
                  a11: int, a12: int, a13: int, a14: int, a15: int, front: int, back: int)
    requires a0 == front && a15 == back
    requires NearLine(front, back, 0, a0) && NearLine(front, back, 1, a1) && NearLine(front, back, 2, a2)
    requires NearLine(front, back, 3, a3) && NearLine(front, back, 4, a4) && NearLine(front, back, 5, a5)
    requires NearLine(front, back, 6, a6) && NearLine(front, back, 7, a7) && NearLine(front, back, 8, a8)
    requires NearLine(front, back, 9, a9) && NearLine(front, back, 10, a10) && NearLine(front, back, 11, a11)
    requires NearLine(front, back, 12, a12) && NearLine(front, back, 13, a13) && NearLine(front, back, 14, a14)
    requires NearLine(front, back, 15, a15)
    requires Between(a0, a1, back) && Between(a1, a2, back) && Between(a2, a3, back) && Between(a3, a4, back)
    requires Between(a4, a5, back) && Between(a5, a6, back) && Between(a6, a7, back) && Between(a7, a8, back)
    requires Between(a8, a9, back) && Between(a9, a10, back) && Between(a10, a11, back) && Between(a11, a12, back)
    requires Between(a12, a13, back) && Between(a13, a14, back) && Between(a14, a15, back)
    ensures Runs([a0, a1, a2, a3, a4, a5, a6, a7, a8, a9, a10, a11, a12, a13, a14, a15], front, back)
  {
    hide NearLine, Between;
  }

  lemma BlackRuns(back: int)
    requires 0 <= back < 4
    ensures Runs(BlackRamp(back), 0, 5 * back)
  {
    hide Runs;
    if back == 0 {
      LevelsRun(0, 0, 0, 0, 0, 0, 0, 0, 0, 0, 0, 0, 0, 0, 0, 0, 0, 0);
    } else if back == 1 {
      LevelsRun(0, 0, 1, 1, 1, 2, 2, 2, 3, 3, 4, 4, 4, 5, 5, 5, 0, 5);
    } else if back == 2 {
      LevelsRun(0, 1, 2, 2, 3, 4, 4, 5, 6, 6, 7, 8, 8, 9, 10, 10, 0, 10);
    } else {
      LevelsRun(0, 1, 2, 3, 4, 5, 6, 7, 8, 9, 10, 11, 12, 13, 14, 15, 0, 15);
    }
  }

  lemma DarkGrayRuns(back: int)
    requires 0 <= back < 4
    ensures Runs(DarkGrayRamp(back), 5, 5 * back)
  {
    hide Runs;
    if back == 0 {
      LevelsRun(5, 5, 4, 4, 4, 3, 3, 3, 2, 2, 1, 1, 1, 0, 0, 0, 5, 0);
    } else if back == 1 {
      LevelsRun(5, 5, 5, 5, 5, 5, 5, 5, 5, 5, 5, 5, 5, 5, 5, 5, 5, 5);
    } else if back == 2 {
      LevelsRun(5, 5, 6, 6, 6, 7, 7, 7, 8, 8, 9, 9, 9, 10, 10, 10, 5, 10);
    } else {
      LevelsRun(5, 5, 6, 6, 7, 7, 8, 8, 9, 9, 10, 11, 12, 13, 14, 15, 5, 15);
    }
  }

  lemma LightGrayRuns(back: int)
    requires 0 <= back < 4
    ensures Runs(LightGrayRamp(back), 10, 5 * back)
  {
    hide Runs;
    if back == 0 {
      LevelsRun(10, 9, 8, 7, 6, 5, 4, 4, 3, 3, 2, 2, 1, 1, 0, 0, 10, 0);
    } else if back == 1 {
      LevelsRun(10, 10, 9, 9, 9, 8, 8, 8, 7, 7, 6, 6, 6, 5, 5, 5, 10, 5);
    } else if back == 2 {
      LevelsRun(10, 10, 10, 10, 10, 10, 10, 10, 10, 10, 10, 10, 10, 10, 10, 10, 10, 10);
    } else {
      LevelsRun(10, 10, 11, 11, 12, 12, 13, 13, 13, 14, 14, 14, 15, 15, 15, 15, 10, 15);
    }
  }

  lemma WhiteRuns(back: int)
    requires 0 <= back < 4
    ensures Runs(WhiteRamp(back), 15, 5 * back)
  {
    hide Runs;
    if back == 0 {
      LevelsRun(15, 14, 13, 12, 11, 10, 9, 8, 7, 6, 5, 4, 3, 2, 1, 0, 15, 0);
    } else if back == 1 {
      LevelsRun(15, 14, 13, 13, 12, 11, 11, 10, 9, 9, 8, 7, 7, 6, 5, 5, 15, 5);
    } else if back == 2 {
      LevelsRun(15, 15, 14, 14, 14, 13, 13, 13, 12, 12, 11, 11, 11, 10, 10, 10, 15, 10);
    } else {
      LevelsRun(15, 15, 15, 15, 15, 15, 15, 15, 15, 15, 15, 15, 15, 15, 15, 15, 15, 15);
    }
  }

  lemma RampRuns(front: int, back: int)
    requires 0 <= front < 4 && 0 <= back < 4
    ensures Runs(ColorRamp(front, back), 5 * front, 5 * back)
  {
    hide BlackRamp, DarkGrayRamp, LightGrayRamp, WhiteRamp, Runs;
    if front == 0 {
      BlackRuns(back);
    } else if front == 1 {
      DarkGrayRuns(back);
    } else if front == 2 {
      LightGrayRuns(back);
    } else {
      WhiteRuns(back);
    }
  }

  /** From any group to any later one the shade moves towards the back colour and never turns back. */
  lemma {:induction false} RunsOneWay(ramp: seq<int>, front: int, back: int, m: nat, n: nat)
    requires Runs(ramp, front, back) && m <= n < 16
    ensures Between(front, ramp[m], ramp[n]) && Between(ramp[m], ramp[n], back) && Between(front, ramp[n], back)
    decreases m + n
  {
    hide NearLine;
    if m < n {
      RunsOneWay(ramp, front, back, m, n - 1);
    } else if m > 0 {
      RunsOneWay(ramp, front, back, m - 1, n);
    }
  }

  // ----- the whole scan

  /** Pixels in the stream. */
  function PixelCount(i: Image): nat {
    Pixels(i.bpp, |i.buffer|)
  }

  /** Pixels drawn: transformation 3 has no stop test. */
  function DrawnCount(i: Image): (n: nat)
    ensures n <= PixelCount(i)
  {
    if i.transformation == 3 then PixelCount(i) else Min(PixelCount(i), Capacity(i.area))
  }

  predicate Drawable(i: Image) {
    && KnownTransformation(i.transformation) && i.area.color >= 0
    && !BadColors(i.bpp, i.colorMap, i.area.color)
  }

  function PixelAt(i: Image, k: nat): Command
    requires Drawable(i) && k < PixelCount(i)
  {
    IndexOfByte(i, k);
    var (x, y) := Position(i.area, i.transformation, k);
    Point(x, y, PixelColor(i.bpp, i.colorMap, i.area.color, Group(i.bpp, i.buffer, k)))
  }

  lemma IndexOfByte(i: Image, k: nat)
    ensures k < PixelCount(i) <==> k / PerByte(i.bpp) < |i.buffer|
  {
    RowMajorBound(k / PerByte(i.bpp), k % PerByte(i.bpp), PerByte(i.bpp), |i.buffer|);
  }

  /** The points drawn for an image. */
  function Trace(i: Image): (t: seq<Command>)
    requires Drawable(i)
    ensures |t| == DrawnCount(i) && forall k :: 0 <= k < |t| ==> t[k] == PixelAt(i, k)
  {
    seq(DrawnCount(i), k requires 0 <= k < DrawnCount(i) => PixelAt(i, k))
  }

  /** What the image shows at a pixel of its area: the bit group whose turn it is, or nothing when
      the stream is too short. */
  lemma PictureInside(i: Image, x: int, y: int)
    requires Drawable(i) && Inside(i.area, x, y)
    ensures var k := IndexAt(i.area, i.transformation, x, y);
      0 <= k && Last(Trace(i), x, y) == if k < PixelCount(i) then Some(PixelAt(i, k).color) else None
  {
    var t := Trace(i);
    var k := IndexAt(i.area, i.transformation, x, y);
    PositionAtIndex(i.area, i.transformation, x, y);
    hide Position, IndexAt, PixelColor, Group, Trace;
    if k < PixelCount(i) {
      assert k < DrawnCount(i);
      assert Covers(t[k], x, y);
      forall j | k < j < |t|
        ensures !Covers(t[j], x, y)
      {
        PositionsDiffer(i.area, i.transformation, k, j);
      }
      LastIs(t, k, x, y);
    } else {
      forall j | 0 <= j < |t|
        ensures !Covers(t[j], x, y)
      {
        PositionsDiffer(i.area, i.transformation, k, j);
      }
      LastNone(t, x, y);
    }
  }

  /** An image drawn with any transformation but 3 paints min(pixels, width * height) distinct pixels,
      all of them in the area. */
  lemma PictureOutside(i: Image, x: int, y: int)
    requires Drawable(i) && NonEmpty(i.area) && !Inside(i.area, x, y) && i.transformation != 3
    ensures Last(Trace(i), x, y) == None
  {
    var t := Trace(i);
    forall k | 0 <= k < |t|
      ensures !Covers(t[k], x, y)
    {
      PositionInside(i.area, i.transformation, k);
    }
    LastNone(t, x, y);
  }

  lemma DistinctPixels(i: Image, j: nat, k: nat)
    requires Drawable(i) && j < k < |Trace(i)|
    ensures (Trace(i)[j].x, Trace(i)[j].y) != (Trace(i)[k].x, Trace(i)[k].y)
  {
    PositionsDiffer(i.area, i.transformation, j, k);
  }

  /** How many pixels are drawn: all of the stream with transformation 3, otherwise no more than fit. */
  lemma DrawnLength(i: Image)
    requires Drawable(i) && NonEmpty(i.area)
    ensures var pixels := (if i.bpp == 1 then 8 else if i.bpp == 2 then 4 else 2) * |i.buffer|;
      |Trace(i)| == if i.transformation == 3 || pixels <= i.area.width * i.area.height then pixels
                    else i.area.width * i.area.height
  {
  }

  /** Four bits: a drawn point has a grey level near the line from the colour map, which group 0 shows, to the
      area colour, which group 15 shows. */
  lemma FourBitPoint(i: Image, k: nat)
    requires Drawable(i) && i.bpp == 4 && k < |Trace(i)|
    ensures k / 2 < |i.buffer| && 0 <= Group(4, i.buffer, k) < 16
    ensures var n, color := Group(4, i.buffer, k), Trace(i)[k].color;
      && (n == 0 ==> color == 0x555555 * i.colorMap) && (n == 15 ==> color == 0x555555 * i.area.color)
      && color % 0x111111 == 0 && NearLine(5 * i.colorMap, 5 * i.area.color, n, color / 0x111111)
  {
    IndexOfByte(i, k);
    GroupIsSmall(4, i.buffer, k);
    var n := Group(4, i.buffer, k);
    RampRuns(i.colorMap, i.area.color);
    hide ColorRamp, NearLine, Group, Position, Pow2;
  }

  /** And a later group is no nearer to the colour map. */
  lemma FourBitOrder(i: Image, j: nat, k: nat)
    requires Drawable(i) && i.bpp == 4 && j < |Trace(i)| && k < |Trace(i)|
    requires j / 2 < |i.buffer| && k / 2 < |i.buffer| && Group(4, i.buffer, j) <= Group(4, i.buffer, k)
    ensures Between(0x555555 * i.colorMap, Trace(i)[j].color, Trace(i)[k].color)
    ensures Between(Trace(i)[j].color, Trace(i)[k].color, 0x555555 * i.area.color)
  {
    GroupIsSmall(4, i.buffer, j);
    GroupIsSmall(4, i.buffer, k);
    RampRuns(i.colorMap, i.area.color);
    hide ColorRamp, NearLine, Group, Position, Pow2;
    RunsOneWay(ColorRamp(i.colorMap, i.area.color), 5 * i.colorMap, 5 * i.area.color,
               Group(4, i.buffer, j), Group(4, i.buffer, k));
    hide Runs;
  }

  /** Two bits: without a map the group is the level, with one it is looked up there. */
  lemma TwoBitPoint(i: Image, k: nat)
    requires Drawable(i) && i.bpp == 2 && k < |Trace(i)|
    ensures k / 4 < |i.buffer| && 0 <= Group(2, i.buffer, k) < 4
    ensures var n := Group(2, i.buffer, k);
      Trace(i)[k].color == 0x555555 *
        if i.colorMap == 0 then n
        else if n == 0 then i.colorMap % 4 else if n == 1 then i.colorMap / 4 % 4
        else if n == 2 then i.colorMap / 16 % 4 else i.colorMap / 64
  {
    IndexOfByte(i, k);
    GroupIsSmall(2, i.buffer, k);
    Pow2Values();
    hide Group, Position, Pow2;
  }

  /** One bit: zero shows the area colour and one the colour map; when both are zero, one shows dark grey.  The
      bits of an area colour above the lowest two are or-ed into the map. */
  lemma OneBitPoint(i: Image, k: nat)
    requires Drawable(i) && i.bpp == 1 && k < |Trace(i)|
    ensures k / 8 < |i.buffer| && 0 <= Group(1, i.buffer, k) < 2
    ensures Trace(i)[k].color == 0x555555 *
      if i.colorMap == 0 && i.area.color == 0 then Group(1, i.buffer, k)
      else if Group(1, i.buffer, k) == 0 then i.area.color % 4 else BitOr(i.colorMap, i.area.color / 4) % 4
    ensures i.area.color < 4 ==> BitOr(i.colorMap, i.area.color / 4) == i.colorMap
  {
    IndexOfByte(i, k);
    GroupIsSmall(1, i.buffer, k);
    OneBitColor(i.colorMap, i.area.color, Group(1, i.buffer, k));
    BitOrSplits(i.colorMap, 0);
    hide Group, Position, PixelColor;
  }

  lemma OneBitColor(colorMap: nat, areaColor: nat, n: nat)
    requires n < 2
    ensures n < Pow2(BitStep(1))
    ensures PixelColor(1, colorMap, areaColor, n) == 0x555555 *
      if colorMap == 0 && areaColor == 0 then n
      else if n == 0 then areaColor % 4 else BitOr(colorMap, areaColor / 4) % 4
  {
    Pow2Values();
    MapOfColors(colorMap, areaColor);
    hide Pow2, BitOr, ColorRamp;
    var m := EffectiveMap(1, colorMap, areaColor);
    if n == 0 {
      assert m / Pow2(n * 2) % 4 == areaColor % 4;
    } else {
      assert m / Pow2(n * 2) % 4 == BitOr(colorMap, areaColor / 4) % 4;
    }
  }

  /** Shifting the map by two bits makes room for two bits of the area colour. */
  lemma MapOfColors(colorMap: nat, areaColor: nat)
    ensures BitOr(colorMap * 4, areaColor) == 4 * BitOr(colorMap, areaColor / 4) + areaColor % 4
    ensures BitOr(colorMap * 4, areaColor) == 0 <==> colorMap == 0 && areaColor == 0
  {
    hide BitOr;
    ShiftedOr(2 * colorMap, areaColor);
    ShiftedOr(colorMap, areaColor / 2);
    BitOrZero(colorMap * 4, areaColor);
    Pair(areaColor);
    DivHalf(areaColor, 2);
  }

  lemma ShiftedOr(a: nat, c: nat)
    ensures BitOr(2 * a, c) == 2 * BitOr(a, c / 2) + c % 2
  {
    BitOrSplits(2 * a, c);
    hide BitOr;
    assert 2 * a / 2 == a && 2 * a % 2 == 0;
  }

  /** Transformation 3 keeps to the area exactly when the stream has no pixel too many. */
  lemma HalfTurnContained(i: Image)
    requires Drawable(i) && NonEmpty(i.area) && i.transformation == 3
    ensures (forall c :: c in Trace(i) ==> Inside(i.area, c.x, c.y)) <==> PixelCount(i) <= i.area.width * i.area.height
  {
    var t := Trace(i);
    forall k | 0 <= k < |t|
      ensures Inside(i.area, t[k].x, t[k].y) <==> k < i.area.width * i.area.height
    {
      PositionInside(i.area, 3, k);
    }
    if PixelCount(i) > i.area.width * i.area.height {
      MulMono(0, i.area.width, i.area.height);
      assert t[i.area.width * i.area.height] in t;
    }
  }

  // ----- symmetries

  function MirrorX(a: Area, x: int): int {
    2 * a.x0 + a.width - 1 - x
  }

  function MirrorY(a: Area, y: int): int {
    2 * a.y0 + a.height - 1 - y
  }

  function With(i: Image, t: int): Image {
    i.(transformation := t)
  }

  lemma MirrorIndices(a: Area, x: int, y: int)
    ensures IndexAt(a, 2, MirrorX(a, x), y) == IndexAt(a, 0, x, y)
    ensures IndexAt(a, 1, x, MirrorY(a, y)) == IndexAt(a, 0, x, y)
    ensures IndexAt(a, 3, MirrorX(a, x), MirrorY(a, y)) == IndexAt(a, 0, x, y)
  {
  }

  /** Two images with the same pixels, colours and depth show the same at the same index. */
  lemma SameIndex(i: Image, j: Image, x: int, y: int, x': int, y': int)
    requires Drawable(i) && Drawable(j) && Inside(i.area, x, y) && Inside(j.area, x', y')
    requires i.bpp == j.bpp && i.buffer == j.buffer && i.colorMap == j.colorMap && i.area.color == j.area.color
    requires IndexAt(i.area, i.transformation, x, y) == IndexAt(j.area, j.transformation, x', y')
    ensures Last(Trace(i), x, y) == Last(Trace(j), x', y')
  {
    PictureInside(i, x, y);
    PictureInside(j, x', y');
    hide IndexAt, Position, PixelColor, Group, Trace, PerByte;
  }

  /** On any stream, transformation 2 is the left-right mirror of transformation 0, 1 its top-bottom
      mirror, and 3 its half turn. */
  lemma Mirrors(i: Image, x: int, y: int)
    requires Drawable(i) && i.transformation == 0 && Inside(i.area, x, y)
    ensures Last(Trace(With(i, 2)), MirrorX(i.area, x), y) == Last(Trace(i), x, y)
    ensures Last(Trace(With(i, 1)), x, MirrorY(i.area, y)) == Last(Trace(i), x, y)
    ensures Last(Trace(With(i, 3)), MirrorX(i.area, x), MirrorY(i.area, y)) == Last(Trace(i), x, y)
  {
    hide IndexAt, Trace;
    MirrorIndices(i.area, x, y);
    SameIndex(i, With(i, 2), x, y, MirrorX(i.area, x), y);
    SameIndex(i, With(i, 1), x, y, x, MirrorY(i.area, y));
    SameIndex(i, With(i, 3), x, y, MirrorX(i.area, x), MirrorY(i.area, y));
  }

  /** Transformation 4 on an area with the sides exchanged is a quarter turn of transformation 0. */
  lemma QuarterTurn(i: Image, x0: int, y0: int, x: int, y: int)
    requires Drawable(i) && i.transformation == 0
    requires 0 <= x < i.area.width && 0 <= y < i.area.height
    ensures
      var turned := i.(transformation := 4,
                       area := i.area.(x0 := x0, y0 := y0, width := i.area.height, height := i.area.width));
      Last(Trace(turned), x0 + y, y0 + i.area.width - 1 - x) == Last(Trace(i), i.area.x0 + x, i.area.y0 + y)
  {
    var turned := i.(transformation := 4,
                     area := i.area.(x0 := x0, y0 := y0, width := i.area.height, height := i.area.width));
    hide Trace;
    SameIndex(i, turned, i.area.x0 + x, i.area.y0 + y, x0 + y, y0 + i.area.width - 1 - x);
  }
}
