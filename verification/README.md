# Speculos: display, patcher and protocol model

A Dafny model of the parts of the Speculos emulator that contain loops, in-place updates or protocols, with
proofs of what they compute.

* **Display.** `FrameBuffers.FrameBuffer` is the frame buffer of the headless display, a delta map with a default
  colour and a deferred reset. Its ghost field `history` lists every draw command received; `Canvas` says what a
  plain screen painted with a list of commands shows (the colour of the last command that covers a pixel). The
  class invariant `Valid()` says that both show the same, so the screenshot is a function of the history alone.
* **Rasterisers.** `BaglLibrary.Bagl` and `NbglLibrary.Nbgl` draw into that frame buffer. Every method states the
  exact commands it appends to the history, through definitions that do not contain its loop: row-major walks
  (`RectFill`), integers nearest to a circle (`Circle`), bit groups of a stream (`Bitmap`), closed-form scan
  positions (`ImageScan`). Lemmas then say which picture those commands are. `Gradient` is the palette between two
  colours, `ImageFile` the image packets.
* **SVC patcher.** `Svc.Patcher` rewrites code bytes in an array and grows the address list of the signal handler.
* **Protocols and formats.** `ApduBridge` is the REST exchange as a machine whose steps interleave freely,
  `ApduFraming` the packets over TCP, `LauncherArgs` the argument printed by Python and scanned by C,
  `InstallParams` the tag-length-value parser, `Hex` the seed reader, `OcrAssembly` the text events.

Python exceptions and the exit of the program are results (`Option`, `Result`, `Outcome`). Integers are unbounded, as
in Python; where the C code has a width it is written out. All proofs use the `hide` statement where a definition is
not needed.

Where the code does not do what one would expect, the model follows the code and the exact condition is proved:
a write outside the screen corrupts the screenshot (`Screenshot.WriteIsPlainIffOnScreen`); transformation 3 leaves its
area when the bits of the bitmap do not fill whole bytes (`ImageFile.HalfTurnPayload`); a continuation packet of a BAGL
bitmap is drawn below its rectangle (`Bitmap.ContinuationMissesRectangle`); a truncated image file raises an IndexError
(`ImageFile.RepackedFileIsRecovered`); a reply without a status word cannot be read back
(`ApduFraming.ReplyIsRecovered`); after a time-out an exchange can return the response to an earlier command
(`ApduBridge.LateResponse`), and its own is certain exactly when no answer is missing at the moment it has cleared the
slot (`ApduBridge.OwnResponseExactly`); a rectangle at a negative position is drawn as far as the right or bottom edge
(`RectFill.TracePicture`), so that a filled corner moved over the left edge by a wide stroke paints across the whole screen
(`Circle.CornerFloodsRow`), and the exact condition on the stroke is `Circle.CornersKeepClear`.

## Model

| member | source | states |
|---|---|---|
| Canvas.CheckColor | speculos/mcu/display.py:99-106 | black stays black and is the only colour shown as black; Stax and Flex show every colour as it is |
| Canvas.LastAppend | speculos/mcu/display.py:108-129 | commands painted later win where they cover, and leave the rest as it was |
| Canvas.PixelBytesAreShown | speculos/mcu/display.py:131-139 | the three bytes of a pixel of the plain screen, red first, are the shown colour of the last command that covers it, or black |
| Screenshot.OnScreenWrite | speculos/mcu/display.py:136-138 | the slice assignment of an on-screen pixel changes its three bytes and nothing else |
| Screenshot.WriteIsPlainIffOnScreen | speculos/mcu/display.py:136-138 | the slice assignment paints the pixel for every picture and colour exactly when the pixel is on the screen |
| FrameBuffers.FrameBuffer.DrawPoint | speculos/mcu/display.py:108-109 | one pixel of the delta map changes; the frame buffer still shows its history |
| FrameBuffers.FrameBuffer.DrawHorizontalLine | speculos/mcu/display.py:111-113 | a run of pixels is drawn; the frame buffer still shows its history |
| FrameBuffers.FrameBuffer.DrawRect | speculos/mcu/display.py:115-129 | a rectangle is drawn, or the whole screen is reset with one clearing event; either way the history is shown |
| FrameBuffers.FrameBuffer.UpdateScreenshot | speculos/mcu/display.py:153-160 | the pending reset and pixels are committed: the committed pixels alone show the history |
| FrameBuffers.FrameBuffer.Update | speculos/mcu/headless.py:46-63 | a refresh commits and clears what is pending, reports whether there was anything, and changes nothing that is shown |
| FrameBuffers.FrameBuffer.StoredPixelsAreSound | speculos/mcu/display.py:108-129 | if every command was inside the screen with a 24-bit colour, so is everything stored |
| FrameBuffers.FrameBuffer.GetImage | speculos/mcu/display.py:131-139 | fails exactly when a stored colour does not fit 24 bits; otherwise, in any order of the map, the three bytes at each pixel are the colour of the last command that covers it, or black |
| FrameBuffers.Render | speculos/mcu/display.py:108-160 | any script of on-screen draws, refreshes and snapshots, then a refresh, leaves a screenshot whose bytes at each pixel are the colour of the last draw that covers it, or black |
| RectFill.WalkVisitsOnce | speculos/mcu/bagl.py:160-173 | the filler draws no pixel twice |
| RectFill.TracePicture | speculos/mcu/bagl.py:143-173 | the picture of a rectangle at any position: from a negative start it reaches the edge of the screen, whatever its size |
| RectFill.TraceIsIntersection | speculos/mcu/bagl.py:143-173 | for all integers, the filler paints exactly the part of the rectangle on the screen if and only if the position is not negative and not both sizes are, or it draws nothing |
| RectFill.TraceVisitsOnce | speculos/mcu/bagl.py:143-173 | for all integers, each pixel is drawn once |
| RectFill.TraceStaysInside | speculos/mcu/bagl.py:143-173 | under the same condition nothing is drawn outside the screen, and without it the first point is |
| RectFill.TracesPaintUnion | speculos/mcu/bagl.py:143-173 | rectangles of one colour paint the on-screen part of their union if and only if each of them is clean in that sense |
| BaglLibrary.Bagl.HalDrawRect | speculos/mcu/bagl.py:143-173 | for all integers, the counting loop draws the row-major walk of the clipped rectangle |
| Circle.NearestIsUnique | speculos/mcu/bagl.py:453-467 | a row has one integer nearest to the circle |
| Circle.StepBounds | speculos/mcu/bagl.py:453-467 | every plotted point is the integer nearest to the circle on its row, and lies in the octant |
| Circle.VisitedRowsAndColumns | speculos/mcu/bagl.py:459-467 | the visited rows and columns together are exactly 0 to r |
| Circle.FilledRows | speculos/mcu/bagl.py:345-467 | the rows of a filled quarter are 0 to r without a gap |
| Circle.FilledIsStaircase | speculos/mcu/bagl.py:345-467 | a filled quarter contains, with a pixel, all pixels nearer to the corner: spans never grow with the distance |
| Circle.FilledIsInSomeRun | speculos/mcu/bagl.py:459-467 | every pixel of the closed-form quarter is in a run of some iteration |
| Circle.RunIsFilled | speculos/mcu/bagl.py:459-467 | every run of every iteration lies in the closed-form quarter |
| Circle.FillDrawsQuarters | speculos/mcu/bagl.py:332-467 | for every radius, the boxes of a fill cover exactly the closed-form quarters selected by the flags |
| Circle.FillPaintsQuarters | speculos/mcu/bagl.py:332-467 | for every radius and centre, a filled circle paints the on-screen part of its quarters and nothing else if and only if no pixel of them lies left of the screen without lying below it, or above it without lying right of it |
| Circle.QuartersOfOctants | speculos/mcu/bagl.py:33-45 | the octant sets 3, 12, 48 and 192 are the lower right, lower left, upper right and upper left quarters, and 255 is all of them |
| Circle.RingIsRuns | speculos/mcu/bagl.py:313-441 | an octant of a ring is one row of the brush colour as long as the ring is thick, after the rest of the run in the inner colour unless x has to move first |
| Circle.CentreKeepsClear | speculos/mcu/bagl.py:332-467 | in terms of the centre: a radius of room for the left and upper quarters, none for the right and one row for the lower ones is enough, and for a centre not beyond the right or bottom edge it is needed |
| Circle.CornersKeepClear | speculos/mcu/bagl.py:556-566 | the four corners of a rectangle on the screen paint only their quarters if and only if the stroke does not move a centre over the left or top edge |
| Circle.CornerFloodsRow | speculos/mcu/bagl.py:556-566 | a corner moved over the left edge paints the row of its centre from edge to edge, outside its quarter |
| Circle.StepIsRuns | speculos/mcu/bagl.py:332-441 | in fill mode the boxes of a step cover exactly the runs of the selected quarters |
| BaglLibrary.Bagl.DrawCircleStep | speculos/mcu/bagl.py:332-441 | draws the boxes of the selected octants, in the order of their flags |
| BaglLibrary.Bagl.LoopStep | speculos/mcu/bagl.py:459-467 | one iteration keeps the decision variable equal to the distance of the next half-integer point and x nearest to the circle |
| BaglLibrary.Bagl.DrawCircleHelper | speculos/mcu/bagl.py:443-467 | for every radius the midpoint loop draws the boxes of the nearest integers of all rows up to the diagonal, and terminates |
| Bitmap.StopIsFirst | speculos/mcu/bagl.py:97-103 | unpacking stops at the first row end at or below the bottom of the rectangle |
| Bitmap.VisitedPicture | speculos/mcu/bagl.py:94-103 | a pixel is painted exactly when its row-major index lies between start and end, with the colour of its own bit group |
| Bitmap.WholePicture | speculos/mcu/bagl.py:105-141 | a fresh bitmap gives every on-screen pixel of its rectangle the colour of its least-significant-first bit group, missing bytes read as zero |
| Bitmap.GroupIsBits | speculos/mcu/bagl.py:94-96 | the bit groups of a byte come least significant first, and missing bytes are zero |
| Bitmap.EndOfWhole | speculos/mcu/bagl.py:134-141 | a fresh bitmap ends at the left edge, one row below its rectangle |
| Bitmap.ContinuationMissesRectangle | speculos/mcu/bagl.py:131-141 | a continuation paints only the rest of one row below the rectangle, and no more pixels than it has bits |
| BaglLibrary.Bagl.DrawBitmapByte | speculos/mcu/bagl.py:81-103 | draws the on-screen pixels of one byte and says whether the rectangle is complete |
| BaglLibrary.Bagl.UnpackBytes | speculos/mcu/bagl.py:133-141 | the byte loop draws exactly the pixels from start to end, and terminates |
| BaglLibrary.Bagl.HalDrawBitmapWithinRect | speculos/mcu/bagl.py:105-141 | clips, draws the picture, and leaves a draw state below the rectangle; only zero bits per pixel can raise |
| BaglLibrary.Bagl.FreshPicture | speculos/mcu/bagl.py:105-141 | a fresh bitmap fills the part of its rectangle on the screen row by row, rows being as long as that part is wide, and ends below it |
| BaglLibrary.Bagl.ContinueBitmap | speculos/mcu/bagl.py:760-771 | a continuation always starts below the rectangle of the bitmap it continues |
| Gradient.ToneIsMonotone | speculos/mcu/bagl.py:248-260 | each channel moves from background to foreground without turning back or overshooting |
| Gradient.ShadeFits | speculos/mcu/bagl.py:256-259 | the clamp at 0xFF never acts |
| Gradient.PackChannel | speculos/mcu/bagl.py:249-259 | a channel read from a packed colour is the channel packed: no field carries into another |
| Gradient.OrPacks | speculos/mcu/bagl.py:256-259 | or-ing one more channel into a colour adds it on top of the lower ones |
| Gradient.ComputeColors | speculos/mcu/bagl.py:243-261 | 2^bpp entries, exact end points, and every channel of an inner entry a whole number of steps from one end, a step being the whole part of the range divided by the number of steps |
| ImageScan.PositionAtIndex | speculos/mcu/nbgl.py:185-266 | every pixel of the area is reached, at its own index in the stream |
| ImageScan.PositionsDiffer | speculos/mcu/nbgl.py:229-266 | no position is visited twice, however long the stream |
| ImageScan.PositionInside | speculos/mcu/nbgl.py:229-266 | the k-th pixel is inside a non-empty area exactly when k is below width times height |
| ImageScan.NextPosition | speculos/mcu/nbgl.py:229-266 | the step from the k-th to the next position, and the iteration at which each stop test fires |
| ImageScan.DrawnLength | speculos/mcu/nbgl.py:217-266 | as many pixels are drawn as the stream has, or as fit into the area, except that transformation 3 draws all |
| ImageScan.ByteIsTwoGroups | speculos/mcu/nbgl.py:217-219 | a byte is two groups of four bits, the more significant first |
| ImageScan.FourBitsAreTwo | speculos/mcu/nbgl.py:217-219 | a group of four bits is two groups of two, the more significant first |
| ImageScan.TwoBitsAreOne | speculos/mcu/nbgl.py:217-219 | a group of two bits is two groups of one, the more significant first |
| ImageScan.FourBitPoint | speculos/mcu/nbgl.py:141-170 | with four bits, group 0 shows the front colour, group 15 the back colour, and the others a grey at most two levels off the straight line, on it from black to white and back |
| ImageScan.FourBitOrder | speculos/mcu/nbgl.py:141-170 | with four bits, a larger group is no nearer to the front and no farther from the back colour |
| ImageScan.TwoBitPoint | speculos/mcu/nbgl.py:135-139 | with two bits, a group shows its own grey, or the one that the colour map has for it |
| ImageScan.OneBitPoint | speculos/mcu/nbgl.py:205-225 | with one bit, zero shows the area colour and one the colour map, or dark grey when both are zero; higher bits of the area colour are or-ed into the map |
| ImageScan.PictureInside | speculos/mcu/nbgl.py:184-269 | a pixel of the area shows the most-significant-first bit group of its index, or nothing when the stream is too short |
| ImageScan.PictureOutside | speculos/mcu/nbgl.py:229-266 | transformations 0, 1, 2 and 4 paint nothing outside the area |
| ImageScan.DistinctPixels | speculos/mcu/nbgl.py:184-269 | no pixel of an image is drawn twice, with any transformation |
| ImageScan.HalfTurnContained | speculos/mcu/nbgl.py:253-258 | transformation 3 keeps to the area exactly when the stream has no more pixels than the area |
| ImageScan.Mirrors | speculos/mcu/nbgl.py:185-258 | on any stream, transformations 2, 1 and 3 are the left-right mirror, top-bottom mirror and half turn of 0 |
| ImageScan.QuarterTurn | speculos/mcu/nbgl.py:197-266 | on any stream, transformation 4 on the area with sides exchanged is the quarter turn of 0 |
| NbglLibrary.Nbgl.DrawImage | speculos/mcu/nbgl.py:184-269 | leaves the program for an unknown transformation, raises for an unknown depth or four-bit colour before drawing, and else draws exactly the closed-form scan of the stream |
| NbglLibrary.Nbgl.FirstPosition | speculos/mcu/nbgl.py:185-200 | the corner at which each transformation starts |
| NbglLibrary.Nbgl.Advance | speculos/mcu/nbgl.py:229-266 | moves to the next closed-form position and reports the end of the scan |
| NbglLibrary.Nbgl.HalDrawImage | speculos/mcu/nbgl.py:271-280 | rejects a bad packet without drawing, or draws the image it holds |
| NbglLibrary.Nbgl.HalDrawImageFile | speculos/mcu/nbgl.py:282-320 | draws the image of the packet that the file is rewritten into, or rejects it without drawing |
| NbglLibrary.Nbgl.ImageIsAcceptable | speculos/mcu/nbgl.py:184-269 | the points of an image on the screen are inside it and have colours that a screenshot can hold |
| NbglLibrary.Nbgl.DrawAndCapture | speculos/mcu/display.py:131-139 | after an image and a refresh the bytes of the screenshot show everything drawn before and then the image |
| ImageFile.ParseBuiltArea | speculos/mcu/nbgl.py:32-39 | building and parsing an area are inverses |
| ImageFile.SizesAgree | speculos/mcu/nbgl.py:275-298 | both byte-count formulas agree for every size and depth |
| ImageFile.ParsePacket | speculos/mcu/nbgl.py:271-280 | a packet with a bitmap of the right size is read back unchanged, one with a short bitmap raises an IndexError |
| ImageFile.PacketIsDrawn | speculos/mcu/nbgl.py:271-280 | a packet with a bitmap of the size of its area is drawn with 1, 2 or 4 bits for its depth code if the area ends on the screen, and rejected otherwise |
| ImageFile.RepackedFileIsRecovered | speculos/mcu/nbgl.py:282-311 | any uncompressed file, read from its bytes, is drawn with the width, height and depth of its header, its own bitmap, transformation 0 and the last byte as colour map, exactly when it holds the whole bitmap; otherwise it raises an IndexError |
| ImageFile.UncompressedFileIsRecovered | speculos/mcu/nbgl.py:282-311 | a file built from an area, a header, a bitmap of the right size and a colour map is drawn as just that |
| ImageFile.DecompressFramed | speculos/mcu/nbgl.py:312-317 | decompressing framed chunks decompresses each chunk, in order |
| ImageFile.DecompressChunks | speculos/mcu/nbgl.py:312-317 | the chunk loop terminates and gives that result |
| ImageFile.ParseBuiltHeader | speculos/mcu/nbgl.py:286-293 | the header of a compressed file is read back, with its 24-bit length |
| ImageFile.CompressedFileIsRecovered | speculos/mcu/nbgl.py:282-320 | a whole compressed file, from its area to its colour map, is drawn as the bitmap its chunks inflate to if that has the right size, raises an IndexError if it is too short, and fails as its first bad chunk does |
| ImageFile.HalfTurnPayload | speculos/mcu/nbgl.py:253-276 | a bitmap of the size of its area stays inside under transformation 3 exactly when its bits fill whole bytes |
| Svc.HitsAreListed | src/svc.c:268-301 | an address is recorded exactly when a system call to patch is there |
| Svc.HitsAscend | src/svc.c:268-301 | the addresses are recorded in ascending order, each once |
| Svc.NoNewHits | src/svc.c:268-301 | patching creates nothing to patch |
| Svc.SecondPass | src/svc.c:268-301 | a second pass over the same range records nothing and changes nothing |
| Svc.PatchingIsConsistent | src/svc.c:286-300 | recorded addresses stay distinct, even, and exactly the places where the code differs from what was loaded |
| Svc.PatchedBytes | src/svc.c:268-301 | byte by byte, exactly the even-addressed 01 DF of a range, from level 23 on those followed by 00 29 or 70 47, become FF DE and are listed |
| Svc.Patcher.FindSvc | src/svc.c:269-272 | finds the first SVC of a range |
| Svc.Patcher.PatchSvc | src/svc.c:260-309 | rewrites exactly the system calls of the original bytes, records exactly their addresses, fails exactly when none was ever recorded |
| Svc.Patcher.PatchSvcInstr | src/svc.c:317-350 | patches one aligned SVC or changes nothing |
| Svc.Patcher.IsSyscallInstruction | src/svc.c:55-66 | membership in the list, which means: it was an SVC when loaded and is an undefined instruction now |
| ApduBridge.StepKeepsInv | speculos/api/apdu.py:23-49 | every step of every thread keeps the lock and slot invariants |
| ApduBridge.ExchangesAreSafe | speculos/api/apdu.py:23-49 | in every interleaving at most one exchange is between clearing and yielding, a value was posted after its clearing, and the slot read is never empty |
| ApduBridge.OwnResponse | speculos/api/apdu.py:23-49 | with one response for each command and no time-out, every exchange returns the response to its own command |
| ApduBridge.InTurnResponse | speculos/api/apdu.py:29-40 | even after time-outs, an exchange that started when no answer was missing returns its own response |
| ApduBridge.OwnResponseExactly | speculos/api/apdu.py:23-49 | when an exchange has cleared the slot, every continuation in which the app answers each command at most once gives it its own response, if and only if no answer is missing at that moment |
| ApduBridge.StaleAnswer | speculos/api/apdu.py:32-49 | otherwise, once the command is sent and its own answer is not there, a continuation yields before that answer is posted: what the slot already holds, or else what arrives first |
| ApduBridge.LateResponse | speculos/api/apdu.py:36-40 | a run in which a time-out makes the next exchange return the response to the earlier command |
| ApduBridge.GivesUpLate | speculos/api/apdu.py:27-40 | in every run, an exchange that gives up was opened with a time-out, and more ticks than that have passed since it began |
| ApduBridge.WokenGoesOn | speculos/api/apdu.py:36-40 | an exchange that wakes up gives up exactly when it has a time-out and that is over |
| ApduBridge.WokenYields | speculos/api/apdu.py:35-41 | otherwise it yields a response that is there |
| ApduBridge.EveryExchangeCanEnd | speculos/api/apdu.py:29-49 | no deadlock: after every run in which the app answers at most once, a waiting exchange can be brought to its end by such a run, and to a value if it has no time-out |
| ApduFraming.ReadAllFramed | speculos/mcu/apdu.py:75-85 | the packets sent are the packets received, in order, and an unfinished one is dropped |
| ApduFraming.CutShort | speculos/mcu/apdu.py:75-85 | a packet cut anywhere is unfinished |
| ApduFraming.ReplyIsRecovered | tools/ledger-live-http-proxy.py:66-72 | a reply is read back exactly when its length is 2 to 2^32 + 1 |
| ApduFraming.Socket.Recv | speculos/mcu/apdu.py:64-67 | some of the bytes that are next, none only at the end of the connection |
| ApduFraming.ApduClient.RecvAll | speculos/mcu/apdu.py:61-73 | exactly the bytes asked for, however the stream is split, or None when it ends first |
| ApduFraming.ApduClient.RecvPacket | speculos/mcu/apdu.py:75-85 | the next whole packet, never a partial one |
| ApduFraming.ApduClient.Serve | speculos/mcu/apdu.py:87-96 | the packets forwarded until the connection ends are those of the stream, in order |
| ApduFraming.ApduClient.ForwardToClient | speculos/mcu/apdu.py:98-112 | sends the packet after its length without the status word; the bytes sent are read back as the packet exactly when its length is 2 to 2^32 + 1 |
| LauncherArgs.ScanPrintedField | src/launcher.c:710-717 | a conversion reads back a printed field, saturated at 32 bits, and fails on an empty text |
| LauncherArgs.ScanPrinted | src/launcher.c:710-717 | scanning a printed list gives every field back if no text is empty |
| LauncherArgs.ScanStopsAtEmptyText | src/launcher.c:718-723 | an empty text makes the scanner return too few fields |
| LauncherArgs.RecordRoundTrip | speculos/main.py:305-318 | a printed record is parsed back exactly when name and path are not empty and all numbers have 32 bits |
| LauncherArgs.FieldsInOrder | speculos/main.py:305-318 | the seventeen fields and their order |
| LauncherArgs.HexPathBytes | src/launcher.c:727-736 | a hex path text is decoded, whatever was in the buffer |
| LauncherArgs.ConvertPath | src/launcher.c:727-736 | each pair of characters is stored as the one or two hex digits it starts with, and what has none, or lies beyond the text, keeps the byte that was there |
| LauncherArgs.ParseAppInfos | src/launcher.c:694-739 | fails exactly when not all seventeen fields are scanned, and otherwise gives the record they describe, the path over what the buffer of the caller held |
| LauncherArgs.PassRecord | speculos/main.py:305-318 | the launcher receives the printed record, for derivation paths of up to 256 bytes |
| InstallParams.HeaderOfEntry | speculos/main.py:163-174 | an encoded entry is read with its tag, length and value |
| InstallParams.PathOfEncoding | speculos/main.py:160-175 | the encoding of any entries is parsed in range, to the value of the last derivation path entry |
| InstallParams.DerivationPath | speculos/main.py:160-175 | the loop terminates with the path found, or an IndexError |
| InstallParams.PathOfApp | speculos/main.py:160-175 | an app gets the derivation path that its install parameters encode, or none |
| Hex.DecodePrinted | speculos/main.py:352-357 | decoding inverts printing, in any letter case |
| Hex.DigitsInOrder | src/environment.c:78-92 | the sixteen digits in either letter case, and no other characters, have the values 0 to 15 |
| Hex.Unhex | src/environment.c:70-105 | succeeds exactly on hex text no longer than twice the buffer, and then writes its bytes and no others |
| Hex.InitSeed | src/environment.c:107-130 | the seed of the environment if it can be read, else the whole default seed |
| Hex.SeedRoundTrip | src/environment.c:107-130 | a seed of up to 64 bytes survives the environment |
| OcrAssembly.Ocr.HullGrows | speculos/mcu/ocr.py:175-185 | the box arithmetic gives the vertical hull of the event and the character |
| OcrAssembly.Ocr.StoreCharInLastEvent | speculos/mcu/ocr.py:167-185 | the last event gets the character, the hull and the right edge of the character; the others stay |
| OcrAssembly.Ocr.AddCharacter | speculos/mcu/ocr.py:187-204 | joins the last event exactly when close enough, else starts a new one |
| OcrAssembly.Ocr.FindBitmap | speculos/mcu/ocr.py:157-165 | joins the line of the last event without changing its box, or starts a new one |
| OcrAssembly.Ocr.AddText | speculos/mcu/ocr.py:206-210 | appends a line |
| OcrAssembly.Ocr.GetEvents | speculos/mcu/ocr.py:259-262 | hands over all events and forgets them |
| OcrAssembly.Assemble | speculos/mcu/ocr.py:157-262 | over any run of calls the drained and pending texts are everything added, in order; every event comes from consecutive calls, has their texts and spans the vertical hull of the call that started it and of its later characters |

## Left out

- Sockets, Flask routes, JSON, Qt, VNC, PNG encoding, process launch, memory mapping and signals: input and output without a property of their own.
- System call emulation and the try-context of the signal handler: handlers in other files.
- Fonts, string layout and glyph lookup: tables; a recognised character is a parameter of `FindBitmap`.
- Circle.RingIsRuns: gives the boxes of a ring octant by octant; no closed form of the picture of a whole ring is proved, because inner and outer boxes overlap in a way that has none.
- RectFill.TraceStaysInside: for two negative sizes, with which the filler walks down a single column, only the picture (WalkVisitsOnce, HalDrawRect) is given, not when that column leaves the screen.
- ImageFile.CompressedFileIsRecovered: decompression is an arbitrary function.
- LauncherArgs.ScanField, and ScanByte for the path text: leading blanks, signs and a second 0x prefix, which sscanf accepts and the printer never emits, are not modelled.
- LauncherArgs.ParseAppInfos: requires a path text that fits the buffer, as the C code does silently.
- Svc.Patcher.Valid: mapping other code at the same address is not modelled; the address list of the program survives it.
- ApduBridge.Next: one bridge object; each REST resource builds its own. What a thread does between acquiring and releasing a lock is split only where another thread can see the difference.
- OCR of unlabelled bitmaps, bitmap splitting for display, and the parsing of OCR packets: table search and fixed offsets.
- NBGL lines, dotted lines and run-length images: they reduce to points and rectangles, or to `draw_image` after decoding.
