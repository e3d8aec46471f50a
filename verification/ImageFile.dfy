/** The packets of `hal_draw_image` and `hal_draw_image_file`: how the second is rewritten into the
    first, and when the picture survives. */
module ImageFile {
  import opened Arith
  import opened Bytes
  import opened ImageScan
  import opened Wrappers

  /** The Python exception that a packet raises. */
  datatype Error = StreamError | AssertionError | IndexError | BadGzip

  datatype Result<+T> = Ok(value: T) | Err(error: Error)

  /** Layout of `nbgl_area_t`. */
  function BuildArea(a: Area): (bytes: seq<byte>)
    requires InRange(a)
    ensures |bytes| == 10
    ensures bytes[0] as int + 0x100 * bytes[1] as int == a.x0 % 0x10000 && bytes[2] as int + 0x100 * bytes[3] as int == a.y0 % 0x10000
    ensures bytes[4] as int + 0x100 * bytes[5] as int == a.width && bytes[6] as int + 0x100 * bytes[7] as int == a.height
    ensures bytes[8] == a.color && bytes[9] == a.bpp
  {
    SignedLe16(a.x0) + SignedLe16(a.y0) + Le16(a.width) + Le16(a.height) + [a.color, a.bpp]
  }

  function ParseArea(data: seq<byte>): (a: Result<Area>)
    ensures a.Ok? <==> |data| >= 10
    ensures a.Ok? ==> InRange(a.value)
  {
    if |data| < 10 then Err(StreamError)
    else Ok(Area(FromSignedLe16(data[0], data[1]), FromSignedLe16(data[2], data[3]),
                 FromLe16(data[4], data[5]), FromLe16(data[6], data[7]), data[8], data[9]))
  }

  /** Building and parsing an area are inverses, whatever follows it. */
  lemma ParseBuiltArea(a: Area, rest: seq<byte>)
    requires InRange(a)
    ensures ParseArea(BuildArea(a) + rest) == Ok(a)
  {
  }

  /** The check on the right and bottom edges; screens of 64 rows skip the vertical one. */
  predicate AreaAccepted(screenWidth: int, screenHeight: int, a: Area) {
    && a.x0 <= screenWidth && a.x0 + a.width <= screenWidth
    && (screenHeight == 64 || (a.y0 <= screenHeight && a.y0 + a.height <= screenHeight))
  }

  /** Bits per pixel for the depth code of an area; 0 for an unknown code. */
  function ReadBpp(code: int): (bpp: int)
    ensures bpp in {0, 1, 2, 4}
  {
    if code == 0 then 1 else if code == 1 then 2 else if code == 2 then 4 else 0
  }

  /** Byte count of a bitmap as `hal_draw_image` computes it. */
  function BufferSize(a: Area): nat
    requires InRange(a)
  {
    MulMono(0, a.width, a.height);
    MulMono(0, a.width * a.height, ReadBpp(a.bpp));
    var bits := a.width * a.height * ReadBpp(a.bpp);
    bits / 8 + if bits % 8 > 0 then 1 else 0
  }

  /** Byte count of a bitmap as `hal_draw_image_file` computes it. */
  function FileBufferSize(a: Area): int {
    (a.width * a.height * ReadBpp(a.bpp) + 7) / 8
  }

  lemma SizesAgree(a: Area)
    requires InRange(a)
    ensures FileBufferSize(a) == BufferSize(a)
  {
  }

  /** `hal_draw_image` up to the call of `draw_image`. */
  function ParseImage(screenWidth: int, screenHeight: int, data: seq<byte>): (r: Result<Image>)
    ensures r.Ok? ==> InRange(r.value.area) && r.value.bpp == ReadBpp(r.value.area.bpp)
    ensures r.Ok? ==> |r.value.buffer| == BufferSize(r.value.area)
  {
    match ParseArea(data)
    case Err(e) => Err(e)
    case Ok(area) =>
      if !AreaAccepted(screenWidth, screenHeight, area) then Err(AssertionError)
      else
        var size := BufferSize(area);
        if |data| <= 10 + size + 1 then Err(IndexError)
        else Ok(Image(area, ReadBpp(area.bpp), data[10 + size], Slice(data, 10, 10 + size), data[10 + size + 1]))
  }

  /** The packet of an image. */
  function ImagePacket(area: Area, bitmap: seq<byte>, transformation: byte, colorMap: byte): seq<byte>
    requires InRange(area)
  {
    BuildArea(area) + bitmap + [transformation, colorMap]
  }

  /** A packet whose bitmap has the size of its area is read back unchanged. */
  lemma ParsePacket(screenWidth: int, screenHeight: int, area: Area, bitmap: seq<byte>, t: byte, colorMap: byte)
    requires InRange(area) && AreaAccepted(screenWidth, screenHeight, area)
    ensures |bitmap| == BufferSize(area) ==>
      ParseImage(screenWidth, screenHeight, ImagePacket(area, bitmap, t, colorMap))
        == Ok(Image(area, ReadBpp(area.bpp), t, bitmap, colorMap))
    ensures |bitmap| < BufferSize(area) ==>
      ParseImage(screenWidth, screenHeight, ImagePacket(area, bitmap, t, colorMap)) == Err(IndexError)
  {
    var data := ImagePacket(area, bitmap, t, colorMap);
    ParseBuiltArea(area, bitmap + [t, colorMap]);
    assert data == BuildArea(area) + (bitmap + [t, colorMap]);
    if |bitmap| == BufferSize(area) {
      assert Slice(data, 10, 10 + |bitmap|) == bitmap;
    }
  }

  /** The number of whole bytes that hold width * height pixels of a depth code: 1, 2 or 4 bits for the codes
      0, 1 and 2, none for any other. */
  predicate IsSize(size: int, width: int, height: int, code: int) {
    var bits := width * height * (if code == 0 then 1 else if code == 1 then 2 else if code == 2 then 4 else 0);
    bits <= 8 * size < bits + 8
  }

  lemma IsBufferSize(size: int, a: Area)
    requires InRange(a)
    ensures IsSize(size, a.width, a.height, a.bpp) <==> size == BufferSize(a)
  {
    MulMono(0, a.width, a.height);
    MulMono(0, a.width * a.height, ReadBpp(a.bpp));
  }

  /** A well-formed packet is drawn as it says if the area ends on the screen, and is rejected otherwise;
      screens of 64 rows do not look at the lower end. */
  lemma PacketIsDrawn(screenWidth: int, screenHeight: int, a: Area, bitmap: seq<byte>, t: byte, colorMap: byte)
    requires InRange(a) && IsSize(|bitmap|, a.width, a.height, a.bpp)
    ensures ParseImage(screenWidth, screenHeight, BuildArea(a) + bitmap + [t, colorMap]) ==
      if a.x0 + a.width <= screenWidth && (screenHeight == 64 || a.y0 + a.height <= screenHeight)
      then Ok(Image(a, if a.bpp == 0 then 1 else if a.bpp == 1 then 2 else if a.bpp == 2 then 4 else 0,
                    t, bitmap, colorMap))
      else Err(AssertionError)
  {
    IsBufferSize(|bitmap|, a);
    if AreaAccepted(screenWidth, screenHeight, a) {
      ParsePacket(screenWidth, screenHeight, a, bitmap, t, colorMap);
    } else {
      ParseBuiltArea(a, bitmap + [t, colorMap]);
      assert BuildArea(a) + (bitmap + [t, colorMap]) == BuildArea(a) + bitmap + [t, colorMap];
    }
    hide ParseArea, BuildArea, BufferSize;
  }

  // ----- image files

  /** What the header of an image file says. */
  datatype FileHeader = FileHeader(area: Area, compression: int, bufferSize: nat)

  /** Read the header that follows the area; `body` is the packet without its area. */
  function ParseHeader(area: Area, body: seq<byte>): (r: Result<FileHeader>)
    requires InRange(area)
    ensures r.Ok? ==> InRange(r.value.area) && (r.value.area.x0, r.value.area.y0) == (area.x0, area.y0)
    ensures r.Ok? && r.value.compression == 0 ==> r.value.bufferSize == BufferSize(r.value.area)
    ensures r.Ok? ==> |body| >= 5
  {
    if |body| < 5 then Err(IndexError)
    else
      var a := area.(width := FromLe16(body[0], body[1]), height := FromLe16(body[2], body[3]), bpp := body[4] / 16);
      SizesAgree(a);
      if body[4] % 16 == 0 then Ok(FileHeader(a, 0, FileBufferSize(a)))
      else if |body| < 8 then Err(IndexError)
      else Ok(FileHeader(a, body[4] % 16, FromLe16(body[5], body[6]) + 0x10000 * body[7] as int))
  }

  /** The packet that an uncompressed file is turned into. */
  function Repack(h: FileHeader, body: seq<byte>): seq<byte>
    requires InRange(h.area) && |body| > 0
  {
    ImagePacket(h.area, Slice(body, 8, 8 + h.bufferSize), 0, body[|body| - 1])
  }

  // ----- compressed files

  /** Decompression of one chunk; None when it raises.  Nothing is assumed about it. */
  type Gunzip = seq<byte> -> Option<seq<byte>>

  /** Chunks, each preceded by its length in two little-endian bytes. */
  function Frame(chunks: seq<seq<byte>>): seq<byte>
    requires forall c :: c in chunks ==> |c| < 0x10000
  {
    if chunks == [] then [] else Le16(|chunks[0]|) + chunks[0] + Frame(chunks[1..])
  }

  /** The decompressed chunks, one after the other. */
  function Inflate(gunzip: Gunzip, chunks: seq<seq<byte>>): Result<seq<byte>> {
    if chunks == [] then Ok([])
    else
      match gunzip(chunks[0])
      case None => Err(BadGzip)
      case Some(first) =>
        match Inflate(gunzip, chunks[1..])
        case Err(e) => Err(e)
        case Ok(rest) => Ok(first + rest)
  }

  /** The loop of `hal_draw_image_file`, as a function of what is left of the buffer. */
  function Decompressed(gunzip: Gunzip, buffer: seq<byte>): Result<seq<byte>>
    decreases |buffer|
  {
    if |buffer| == 0 then Ok([])
    else if |buffer| == 1 then Err(IndexError)
    else
      var length := FromLe16(buffer[0], buffer[1]);
      match gunzip(Slice(buffer, 2, 2 + length))
      case None => Err(BadGzip)
      case Some(first) =>
        match Decompressed(gunzip, Slice(buffer, 2 + length, |buffer|))
        case Err(e) => Err(e)
        case Ok(rest) => Ok(first + rest)
  }

  /** Decompressing a framed list of chunks decompresses each chunk, in order. */
  lemma {:induction false} DecompressFramed(gunzip: Gunzip, chunks: seq<seq<byte>>)
    requires forall c :: c in chunks ==> |c| < 0x10000
    ensures Decompressed(gunzip, Frame(chunks)) == Inflate(gunzip, chunks)
    decreases |chunks|
  {
    if chunks != [] {
      var c := chunks[0];
      var buffer := Frame(chunks);
      var rest := Frame(chunks[1..]);
      assert buffer == Le16(|c|) + (c + rest);
      assert Slice(buffer, 2, 2 + |c|) == c;
      assert Slice(buffer, 2 + |c|, |buffer|) == rest;
      DecompressFramed(gunzip, chunks[1..]);
    }
  }

  /** The chunk loop; every iteration consumes at least the two bytes of a length. */
  method DecompressChunks(gunzip: Gunzip, buffer0: seq<byte>) returns (r: Result<seq<byte>>)
    ensures r == Decompressed(gunzip, buffer0)
  {
    var buffer := buffer0;
    var output := [];
    assert forall rest: seq<byte> :: [] + rest == rest;
    while |buffer| > 0
      invariant Decompressed(gunzip, buffer0) ==
        match Decompressed(gunzip, buffer) { case Ok(rest) => Ok(output + rest) case Err(e) => Err(e) }
      decreases |buffer|
    {
      if |buffer| < 2 {
        return Err(IndexError);
      }
      var compressedChunkLen := FromLe16(buffer[0], buffer[1]);
      ghost var was := buffer;
      buffer := buffer[2..];
      var chunk := gunzip(Slice(buffer, 0, compressedChunkLen));
      SliceOfSuffix(was, 2, 0, compressedChunkLen);
      SliceOfSuffix(was, 2, compressedChunkLen, |buffer|);
      hide Slice;
      if chunk.None? {
        return Err(BadGzip);
      }
      ghost var before := output;
      output := output + chunk.value;
      buffer := Slice(buffer, compressedChunkLen, |buffer|);
      forall rest: seq<byte>
        ensures before + (chunk.value + rest) == output + rest
      {
        assert before + (chunk.value + rest) == before + chunk.value + rest;
      }
    }
    assert output + [] == output;
    return Ok(output);
  }

  /** The packet that a file is turned into and that is handed on to `hal_draw_image`. */
  function FilePacket(screenWidth: int, screenHeight: int, gunzip: Gunzip, data: seq<byte>): Result<seq<byte>> {
    match ParseArea(data)
    case Err(e) => Err(e)
    case Ok(area) =>
      if !AreaAccepted(screenWidth, screenHeight, area) then Err(AssertionError)
      else
        match ParseHeader(area, data[10..])
        case Err(e) => Err(e)
        case Ok(h) =>
          if h.compression == 0 then Ok(Repack(h, data[10..]))
          else
            match Decompressed(gunzip, Slice(data[10..], 8, 8 + h.bufferSize))
            case Err(e) => Err(e)
            case Ok(bitmap) => Ok(ImagePacket(h.area, bitmap, 0, data[|data| - 1]))
  }

  /** The header of a compressed file: the size and depth of the image, the compression and the length of
      the buffer that follows. */
  function BuildHeader(a: Area, compression: int, size: nat): (bytes: seq<byte>)
    requires InRange(a) && a.bpp < 16 && 0 < compression < 16 && size < 0x100_0000
    ensures |bytes| == 8
    ensures bytes[0] as int + 0x100 * bytes[1] as int == a.width && bytes[2] as int + 0x100 * bytes[3] as int == a.height
    ensures bytes[4] / 16 == a.bpp && bytes[4] % 16 == compression
    ensures bytes[5] as int + 0x100 * bytes[6] as int + 0x10000 * bytes[7] as int == size
  {
    Le16(a.width) + Le16(a.height) + [16 * a.bpp + compression] + Le16(size % 0x10000) + [size / 0x10000]
  }

  /** It is read back, whatever follows it, into the position and colour of the area before it. */
  lemma ParseBuiltHeader(outer: Area, a: Area, compression: int, size: nat, rest: seq<byte>)
    requires InRange(outer) && InRange(a) && a.bpp < 16 && 0 < compression < 16 && size < 0x100_0000
    requires (a.x0, a.y0, a.color) == (outer.x0, outer.y0, outer.color)
    ensures ParseHeader(outer, BuildHeader(a, compression, size) + rest) == Ok(FileHeader(a, compression, size))
  {
    var body := BuildHeader(a, compression, size) + rest;
    DivModUnique(a.bpp, compression, 16);
    assert body[..2] == Le16(a.width) && body[2..4] == Le16(a.height) && body[5..7] == Le16(size % 0x10000);
    assert body[4] == 16 * a.bpp + compression && body[7] == size / 0x10000;
  }

  /** A compressed file: an area, the header, the framed chunks and a colour map. */
  function CompressedFile(outer: Area, a: Area, compression: int, chunks: seq<seq<byte>>, colorMap: byte): seq<byte>
    requires InRange(outer) && InRange(a) && a.bpp < 16 && 0 < compression < 16
    requires (forall c :: c in chunks ==> |c| < 0x10000) && |Frame(chunks)| < 0x100_0000
  {
    BuildArea(outer) + (BuildHeader(a, compression, |Frame(chunks)|) + (Frame(chunks) + [colorMap]))
  }

  /** A whole compressed file whose chunks inflate to a bitmap of the right size is turned into the packet
      of that bitmap, which is drawn with transformation 0 and the colour map that ends the file; and an
      error of a chunk is the error of the file. */
  lemma CompressedFileIsRecovered(screenWidth: int, screenHeight: int, gunzip: Gunzip, outer: Area, a: Area,
                                  compression: int, chunks: seq<seq<byte>>, colorMap: byte)
    requires InRange(outer) && InRange(a) && a.bpp < 16 && 0 < compression < 16
    requires (a.x0, a.y0, a.color) == (outer.x0, outer.y0, outer.color)
    requires AreaAccepted(screenWidth, screenHeight, outer) && AreaAccepted(screenWidth, screenHeight, a)
    requires (forall c :: c in chunks ==> |c| < 0x10000) && |Frame(chunks)| < 0x100_0000
    ensures
      var packet := FilePacket(screenWidth, screenHeight, gunzip, CompressedFile(outer, a, compression, chunks, colorMap));
      match Inflate(gunzip, chunks)
      case Err(e) => packet == Err(e)
      case Ok(bitmap) =>
        && packet.Ok?
        && (|bitmap| == BufferSize(a) ==>
              ParseImage(screenWidth, screenHeight, packet.value) == Ok(Image(a, ReadBpp(a.bpp), 0, bitmap, colorMap)))
        && (|bitmap| < BufferSize(a) ==> ParseImage(screenWidth, screenHeight, packet.value) == Err(IndexError))
  {
    var data := CompressedFile(outer, a, compression, chunks, colorMap);
    var buffer := Frame(chunks);
    FileParts(outer, a, compression, chunks, colorMap);
    DecompressFramed(gunzip, chunks);
    hide ParseArea, ParseHeader, BuildHeader, BuildArea, CompressedFile, ParseImage, Frame, AreaAccepted, ImagePacket;
    hide BufferSize, ReadBpp, Decompressed, Inflate;
    var inflated := Inflate(gunzip, chunks);
    if inflated.Ok? {
      ParsePacket(screenWidth, screenHeight, a, inflated.value, 0, colorMap);
    }
  }

  /** What the parsers find in a compressed file. */
  lemma FileParts(outer: Area, a: Area, compression: int, chunks: seq<seq<byte>>, colorMap: byte)
    requires InRange(outer) && InRange(a) && a.bpp < 16 && 0 < compression < 16
    requires (a.x0, a.y0, a.color) == (outer.x0, outer.y0, outer.color)
    requires (forall c :: c in chunks ==> |c| < 0x10000) && |Frame(chunks)| < 0x100_0000
    ensures var data := CompressedFile(outer, a, compression, chunks, colorMap); var buffer := Frame(chunks);
      && ParseArea(data) == Ok(outer) && |data| == 10 + 8 + |buffer| + 1 && data[|data| - 1] == colorMap
      && ParseHeader(outer, data[10..]) == Ok(FileHeader(a, compression, |buffer|))
      && Slice(data[10..], 8, 8 + |buffer|) == buffer
  {
    var buffer := Frame(chunks);
    var header := BuildHeader(a, compression, |buffer|);
    var data := CompressedFile(outer, a, compression, chunks, colorMap);
    ParseBuiltArea(outer, header + (buffer + [colorMap]));
    ParseBuiltHeader(outer, a, compression, |buffer|, buffer + [colorMap]);
    hide ParseArea, ParseHeader, BuildHeader, BuildArea, Frame;
    assert data[10..] == header + (buffer + [colorMap]);
    assert Slice(data[10..], 8, 8 + |buffer|) == buffer;
  }

  /** What follows the area of an uncompressed file: the low half of its fifth byte is zero. */
  predicate IsUncompressed(body: seq<byte>) {
    |body| >= 5 && body[4] % 16 == 0
  }

  /** The area in the header of a file: its own size and depth code, the position and colour of the area before. */
  function HeaderArea(outer: Area, body: seq<byte>): Area
    requires |body| >= 5
  {
    Area(outer.x0, outer.y0, body[0] as int + 0x100 * body[1] as int, body[2] as int + 0x100 * body[3] as int,
         outer.color, body[4] / 16)
  }

  /** Any uncompressed file is drawn with the size and depth of its header, the bitmap that follows the first eight
      bytes of its body and the colour map that ends it, exactly when the body holds the whole bitmap; otherwise
      drawing it raises an IndexError. */
  lemma RepackedFileIsRecovered(screenWidth: int, screenHeight: int, gunzip: Gunzip, outer: Area, body: seq<byte>,
                                size: nat)
    requires InRange(outer) && IsUncompressed(body)
    requires var a := HeaderArea(outer, body);
      && IsSize(size, a.width, a.height, a.bpp)
      && outer.x0 + outer.width <= screenWidth && a.x0 + a.width <= screenWidth
      && (screenHeight == 64 || (outer.y0 + outer.height <= screenHeight && a.y0 + a.height <= screenHeight))
    ensures
      var packet := FilePacket(screenWidth, screenHeight, gunzip, BuildArea(outer) + body);
      var a := HeaderArea(outer, body);
      && packet.Ok?
      && ParseImage(screenWidth, screenHeight, packet.value) ==
           if size > 0 && |body| < 8 + size then Err(IndexError)
           else Ok(Image(a, if a.bpp == 0 then 1 else if a.bpp == 1 then 2 else if a.bpp == 2 then 4 else 0,
                         0, Slice(body, 8, 8 + size), body[|body| - 1]))
  {
    var a := HeaderArea(outer, body);
    var bitmap := Slice(body, 8, 8 + size);
    ParseBuiltArea(outer, body);
    IsBufferSize(size, a);
    HeadOfFile(outer, body);
    assert (BuildArea(outer) + body)[10..] == body;
    assert |bitmap| == if |body| < 8 + size then Max(0, |body| - 8) else size;
    ParsePacket(screenWidth, screenHeight, a, bitmap, 0, body[|body| - 1]);
    hide ParseArea, ParseHeader, ParseImage, BuildArea, BufferSize, IsSize, Slice;
  }

  lemma HeadOfFile(outer: Area, body: seq<byte>)
    requires InRange(outer) && IsUncompressed(body)
    ensures var a := HeaderArea(outer, body);
      InRange(a) && ParseHeader(outer, body) == Ok(FileHeader(a, 0, BufferSize(a)))
  {
    var a := HeaderArea(outer, body);
    SizesAgree(a);
    hide BufferSize, FileBufferSize;
  }

  /** A whole uncompressed file: an area, width, height, depth code, three bytes that are not looked at, a bitmap
      of the right size and a colour map. */
  lemma UncompressedFileIsRecovered(screenWidth: int, screenHeight: int, gunzip: Gunzip, outer: Area, width: int,
                                    height: int, code: int, unused: seq<byte>, bitmap: seq<byte>, colorMap: byte)
    requires InRange(outer) && 0 <= width < 0x10000 && 0 <= height < 0x10000 && 0 <= code < 16
    requires |unused| == 3 && IsSize(|bitmap|, width, height, code)
    requires outer.x0 + outer.width <= screenWidth && outer.x0 + width <= screenWidth
    requires screenHeight == 64 || (outer.y0 + outer.height <= screenHeight && outer.y0 + height <= screenHeight)
    ensures
      var head := Le16(width) + Le16(height) + [16 * code] + unused;
      var packet := FilePacket(screenWidth, screenHeight, gunzip, BuildArea(outer) + (head + (bitmap + [colorMap])));
      && packet.Ok?
      && ParseImage(screenWidth, screenHeight, packet.value) ==
           Ok(Image(Area(outer.x0, outer.y0, width, height, outer.color, code),
                    if code == 0 then 1 else if code == 1 then 2 else if code == 2 then 4 else 0,
                    0, bitmap, colorMap))
  {
    var head := Le16(width) + Le16(height) + [16 * code] + unused;
    var body := head + (bitmap + [colorMap]);
    HeadBytes(outer, width, height, code, unused, bitmap + [colorMap]);
    BodyParts(head, bitmap, colorMap);
    hide IsSize, FilePacket, ParseImage, BuildArea, Slice, Le16, HeaderArea, IsUncompressed;
    RepackedFileIsRecovered(screenWidth, screenHeight, gunzip, outer, body, |bitmap|);
  }

  lemma HeadBytes(outer: Area, width: int, height: int, code: int, unused: seq<byte>, rest: seq<byte>)
    requires 0 <= width < 0x10000 && 0 <= height < 0x10000 && 0 <= code < 16 && |unused| == 3
    ensures var head := Le16(width) + Le16(height) + [16 * code] + unused;
      && |head| == 8 && IsUncompressed(head + rest)
      && HeaderArea(outer, head + rest) == Area(outer.x0, outer.y0, width, height, outer.color, code)
  {
    var w, h := Le16(width), Le16(height);
    hide Le16;
    var body := w + h + [16 * code] + unused + rest;
    assert body[0] == w[0] && body[1] == w[1] && body[2] == h[0] && body[3] == h[1] && body[4] == 16 * code;
  }

  lemma BodyParts(head: seq<byte>, bitmap: seq<byte>, colorMap: byte)
    requires |head| == 8
    ensures var body := head + (bitmap + [colorMap]);
      |body| == 9 + |bitmap| && body[|body| - 1] == colorMap && Slice(body, 8, 8 + |bitmap|) == bitmap
  {
  }

  lemma WholeBytes(pixels: nat, bpp: int)
    requires bpp in {1, 2, 4}
    ensures var bits := pixels * bpp;
      Pixels(bpp, bits / 8 + if bits % 8 > 0 then 1 else 0) <= pixels <==> bits % 8 == 0
  {
  }

  /** A bitmap of the size of its area, scanned with transformation 3, stays in the area exactly when
      its bits fill whole bytes: the padding bits of the last byte are drawn too. */
  lemma HalfTurnPayload(i: Image)
    requires InRange(i.area) && i.bpp == ReadBpp(i.area.bpp) && |i.buffer| == BufferSize(i.area)
    requires Drawable(i) && NonEmpty(i.area) && i.transformation == 3
    ensures (forall c :: c in Trace(i) ==> Inside(i.area, c.x, c.y)) <==> i.area.width * i.area.height * i.bpp % 8 == 0
  {
    HalfTurnContained(i);
    MulMono(0, i.area.width, i.area.height);
    WholeBytes(i.area.width * i.area.height, i.bpp);
    hide Trace, Inside, Drawable, NonEmpty, Pixels;
  }
}
