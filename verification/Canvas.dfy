/** The reference picture: a plain screen on which draw commands are painted in order.  A pixel
    shows the colour of the last command that covers it, and nothing else. */
module Canvas {
  import opened Wrappers
  import Arith

  datatype Model = NanoX | NanoSP | Stax | Flex | ApexP

  function ScreenSize(model: Model): (size: (int, int))
    ensures size.0 > 0 && size.1 > 0
    ensures model in {NanoX, NanoSP} ==> size == (128, 64)
    ensures model == Stax ==> size == (400, 672)
    ensures model == Flex ==> size == (480, 600)
    ensures model == ApexP ==> size == (300, 400)
  {
    match model
    case NanoX => (128, 64)
    case NanoSP => (128, 64)
    case Stax => (400, 672)
    case Flex => (480, 600)
    case ApexP => (300, 400)
  }

  /** The colour a device really shows: every non-black colour is one shade, except on
      Stax and Flex. */
  function CheckColor(model: Model, color: int): (shown: int)
    ensures shown == 0 <==> color == 0
    ensures model in {Stax, Flex} ==> shown == color
    ensures model !in {Stax, Flex} && color != 0 ==> shown == if model == ApexP then 0xFFFFFF else 0xDDDDDD
  {
    if model.Stax? || model.Flex? || color == 0 then color
    else if model.ApexP? then 0xFFFFFF
    else 0xDDDDDD
  }

  datatype Command =
    | Point(x: int, y: int, color: int)
    | Line(x: int, y: int, width: int, color: int)
    | Rect(x: int, y: int, width: int, height: int, color: int)

  predicate InRect(x0: int, y0: int, width: int, height: int, x: int, y: int) {
    x0 <= x < x0 + width && y0 <= y < y0 + height
  }

  predicate Covers(c: Command, x: int, y: int) {
    match c
    case Point(px, py, _) => x == px && y == py
    case Line(x0, py, width, _) => InRect(x0, py, width, 1, x, y)
    case Rect(x0, y0, width, height, _) => InRect(x0, y0, width, height, x, y)
  }

  /** A command that touches no pixel outside a screen of the given size. */
  ghost predicate StaysInside(c: Command, width: int, height: int) {
    forall x, y :: Covers(c, x, y) ==> InRect(0, 0, width, height, x, y)
  }

  /** The colour asked for by the last command that covers (x, y). */
  function Last(commands: seq<Command>, x: int, y: int): Option<int> {
    if |commands| == 0 then None
    else if Covers(commands[|commands| - 1], x, y) then Some(commands[|commands| - 1].color)
    else Last(commands[..|commands| - 1], x, y)
  }

  /** What a plain, initially black screen shows at (x, y) after the commands. */
  function ColorAt(model: Model, commands: seq<Command>, x: int, y: int): int {
    match Last(commands, x, y)
    case Some(color) => CheckColor(model, color)
    case None => 0
  }

  /** Commands painted later win; pixels they miss keep the earlier colour. */
  lemma {:induction false} LastAppend(a: seq<Command>, b: seq<Command>, x: int, y: int)
    ensures Last(a + b, x, y) == if Last(b, x, y).Some? then Last(b, x, y) else Last(a, x, y)
    decreases |b|
  {
    if |b| == 0 {
      assert a + b == a;
    } else {
      var b' := b[..|b| - 1];
      assert (a + b)[..|a + b| - 1] == a + b';
      LastAppend(a, b', x, y);
    }
  }

  lemma {:induction false} LastNone(t: seq<Command>, x: int, y: int)
    ensures Last(t, x, y).None? <==> forall k :: 0 <= k < |t| ==> !Covers(t[k], x, y)
    decreases |t|
  {
    if |t| > 0 {
      var t' := t[..|t| - 1];
      LastNone(t', x, y);
      assert forall k :: 0 <= k < |t'| ==> t'[k] == t[k];
    }
  }

  /** The last covering command is found wherever it sits. */
  lemma {:induction false} LastIs(t: seq<Command>, k: nat, x: int, y: int)
    requires k < |t| && Covers(t[k], x, y)
    requires forall j :: k < j < |t| ==> !Covers(t[j], x, y)
    ensures Last(t, x, y) == Some(t[k].color)
    decreases |t|
  {
    if k < |t| - 1 {
      LastIs(t[..|t| - 1], k, x, y);
    }
  }

  /** What a plain screen shows, said directly: the shown colour of a command that covers the pixel and that
      no later command covers again, or black where nothing was drawn. */
  ghost predicate Shows(model: Model, commands: seq<Command>, x: int, y: int, color: int) {
    || (color == 0 && forall k :: 0 <= k < |commands| ==> !Covers(commands[k], x, y))
    || exists k ::
         && 0 <= k < |commands| && Covers(commands[k], x, y) && color == CheckColor(model, commands[k].color)
         && forall j :: k < j < |commands| ==> !Covers(commands[j], x, y)
  }

  /** Only one colour is shown. */
  lemma ShownIsUnique(model: Model, commands: seq<Command>, x: int, y: int, c: int, d: int)
    requires Shows(model, commands, x, y, c) && Shows(model, commands, x, y, d)
    ensures c == d
  {
  }

  /** Where the last covering command sits. */
  lemma {:induction false} LastSits(t: seq<Command>, x: int, y: int) returns (k: nat)
    requires Last(t, x, y).Some?
    ensures k < |t| && Covers(t[k], x, y) && Last(t, x, y) == Some(t[k].color)
    ensures forall j :: k < j < |t| ==> !Covers(t[j], x, y)
    decreases |t|
  {
    hide Covers;
    k := |t| - 1;
    if !Covers(t[k], x, y) {
      var init := t[..k];
      k := LastSits(init, x, y);
      assert forall j :: 0 <= j < |init| ==> t[j] == init[j];
    }
  }

  lemma ColorIsShown(model: Model, commands: seq<Command>, x: int, y: int)
    ensures Shows(model, commands, x, y, ColorAt(model, commands, x, y))
  {
    if Last(commands, x, y).Some? {
      var k := LastSits(commands, x, y);
      hide Covers, CheckColor, Last;
    } else {
      LastNone(commands, x, y);
      hide Covers, CheckColor, Last;
    }
  }

  /** Byte k (most significant first) of a 24-bit colour. */
  function ColorByte(color: int, k: int): (b: int)
    requires 0 <= k < 3
    ensures 0 <= b < 256
  {
    if k == 0 then color / 0x10000 % 0x100 else if k == 1 then color / 0x100 % 0x100 else color % 0x100
  }

  /** The screenshot of the reference screen: rows top to bottom, three bytes a pixel. */
  ghost function PlainImage(model: Model, width: int, height: int, commands: seq<Command>): (image: seq<int>)
    requires width > 0 && height >= 0
    ensures |image| == 3 * (width * height)
  {
    seq(3 * (width * height), i requires 0 <= i =>
      ColorByte(ColorAt(model, commands, i / 3 % width, i / 3 / width), i % 3))
  }

  lemma BytesMakeColor(color: int)
    requires 0 <= color < 0x1000000
    ensures ColorByte(color, 0) * 0x10000 + ColorByte(color, 1) * 0x100 + ColorByte(color, 2) == color
  {
  }

  /** Byte k of a pixel of the reference image. */
  lemma PlainByte(model: Model, width: int, height: int, commands: seq<Command>, x: int, y: int, k: int)
    requires InRect(0, 0, width, height, x, y) && 0 <= k < 3
    ensures var i := 3 * (y * width + x) + k;
      && 0 <= i < 3 * (width * height)
      && PlainImage(model, width, height, commands)[i] == ColorByte(ColorAt(model, commands, x, y), k)
  {
    Arith.RowMajorBound(y, x, width, height);
    Arith.DivModUnique(y, x, width);
    Thirds(y * width + x, k);
    hide ColorAt, ColorByte;
  }

  lemma Thirds(n: int, k: int)
    requires 0 <= k < 3
    ensures (3 * n + k) / 3 == n && (3 * n + k) % 3 == k
  {
  }

  /** The three bytes of a pixel, the first for red, are the colour that the screen shows there. */
  lemma PixelBytesAreShown(model: Model, width: int, height: int, commands: seq<Command>, x: int, y: int)
    requires InRect(0, 0, width, height, x, y) && 0 <= ColorAt(model, commands, x, y) < 0x1000000
    ensures
      var image := PlainImage(model, width, height, commands);
      var p := 3 * (y * width + x);
      && 0 <= p && p + 2 < |image| && (forall i :: p <= i < p + 3 ==> 0 <= image[i] < 0x100)
      && Shows(model, commands, x, y, image[p] * 0x10000 + image[p + 1] * 0x100 + image[p + 2])
  {
    PlainByte(model, width, height, commands, x, y, 0);
    PlainByte(model, width, height, commands, x, y, 1);
    PlainByte(model, width, height, commands, x, y, 2);
    BytesMakeColor(ColorAt(model, commands, x, y));
    ColorIsShown(model, commands, x, y);
    hide Shows, ColorAt, ColorByte, PlainImage;
  }
}
