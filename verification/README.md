# Verification model of ev3duder

ev3duder is a command-line tool that talks to a LEGO EV3 brick: it transfers files, installs
firmware, packs files into UF2 containers and bridges TCP to the brick's packet interface. Its
`util/cat` programs run on the brick and draw on its 178x128 monochrome display. This project
models the parts of it that compute, and proves what they are for. The original is written in
C; the methods here have the loops, branches, buffers and constants of the C functions they are
named after, and each is proved against a specification whose own properties are theorems.

* Display (`Pixels`, `LineGeometry`, `Strokes`, `Shapes`, `Screen`, `EllipseGeometry`,
  `Ellipse`, `LineCoverage`, `LineDistance`, `RasterTheorems`): a drawing operation is specified
  by how often it visits each pixel (`Touches`). Visits add up over operations in every pixel
  mode and determine the whole buffer, so "each pixel exactly once" is a statement about bytes.
  The independent references are the half-pixel criterion and the true line for lines, closed
  boxes for rectangles, and the position of pixel corners relative to the ellipse.
* Bit images (`Blit`) and the display codec (`FrameBits`, `FrameBuffer`): fast byte paths
  against the pixel-by-pixel meaning, and two mutually inverse conversions.
* CRC-32 (`Words`, `Crc32Table`, `Crc32`) and flashing (`Flash`): the table loop against the
  bit-serial polynomial register, the algebra of the register (linear, bijective), and what that
  means for the installer's decision. The polynomial is that of section 8.1.1.6.2 of ITU-T V.42.
* UF2 containers (`Bytes`, `Files`, `Uf2Format`, `Uf2Names`, `Uf2Pack`, `Uf2Layout`,
  `Uf2Unpack`): byte format, two-pass packing, extraction in any block order, and the round trip.
* The bridge (`Sequences`, `Frames`, `Unlock`, `BridgeMachine`, `Bridge`, `BridgeRuns`): the loop
  keeps an invariant and follows a state machine over every run, and what follows for every
  reachable state and for whole streams. Reads, writes and select results are events with
  stated ranges.
* Packets over a byte stream (`BtStream`) and chunked file transfer (`Transfer`): loops over
  short reads, short writes and scripted replies.

`Numbers` and `Errors` hold the shared helpers and the codes of `src/error.h`.

Where the code and its documentation differ, the model follows the code:

* `bt_write` is documented to return -1 on error; it returns the number of bytes sent
  (`src/bt-unix.c:80`, `src/bt-unix.c:99`).
* `up` reports success although a chunk before the last was denied (`src/up.c:121`); the exact
  condition is `Transfer.StoredExactly`.
* The bridge's unlock check searches a buffer that is never cleared, so text left from an
  earlier read can unlock (`src/bridge.c:258-269`); the exact condition is
  `Unlock.UnlockMeansReceived`, a run that shows it is `BridgeRuns.LeftoversUnlock`.
* The bridge compares the result of the device write with the length of the report
  (`src/bridge.c:463`), but `bt_write` and `tcp_write` do not count the report byte
  (`src/bt-unix.c:84-100`, `src/tcp.c:275-278`), so over these transports every completed frame
  ends the connection: `BridgeRuns.PassOverBluetooth`.
* A header read that returns one byte closes the connection, but its byte is still written to
  the device (`src/bridge.c:288-295`, `src/bridge.c:458-461`); the exact condition is
  `BridgeRuns.DeviceWrites`, a run that shows it is `BridgeRuns.CutHeaderReachesDevice`.
* An end of a line that is trimmed in both axes is computed from an already truncated
  coordinate, and rows are cut down to bytes (`util/cat/ev3_lcd.c:1353-1402`), so rows can be
  lost and pixels drawn astray. `Strokes.LineIsIdeal` and `LineCoverage.DrawnRows` say exactly
  when, `LineCoverage.NothingVisibleDropped` and `RasterTheorems.VisibleLine` which lines are
  safe.
* The second UF2 pass computes its offset in 32 bits (`src/uf2_pack.c:179`); the exact limit is
  `Uf2Pack.EveryCountReached`.

The filled ellipse has two branches that never draw: the rectangles of the eastward step and the
first pair after the loop. The model marks both and proves them unreachable
(`EllipseGeometry.NoEastAfterSouth`).

`dafny verify dfyconfig.toml` checks the whole project.

## Model

| member | source | states |
|---|---|---|
| `Pixels.TouchedCompose` | util/cat/ev3_lcd.c:1099-1226 | drawing after drawing: in SET, CLEAR and INVERT mode the visits of every pixel add up |
| `Pixels.TouchedUnique` | util/cat/ev3_lcd.c:1070-1226 | how often each pixel is visited determines every byte of the buffer, padding bits included |
| `Pixels.InvertTwiceRestores` | util/cat/ev3_lcd.c:1088-1095 | repeating the same visits in INVERT mode restores the whole buffer, whatever is drawn |
| `Pixels.MaskWrite` | util/cat/ev3_lcd.c:1118-1147 | one masked byte write changes exactly the pixels of the mask, in any mode |
| `Screen.Display.DisplaySetPixel` | util/cat/ev3_lcd.c:1070-1077 | sets the one pixel if it is on screen, changes nothing else; Dirty exactly then |
| `Screen.Display.DisplayClrPixel` | util/cat/ev3_lcd.c:1079-1086 | clears the one pixel if it is on screen, changes nothing else; Dirty exactly then |
| `Screen.Display.DisplayXorPixel` | util/cat/ev3_lcd.c:1088-1095 | flips the one pixel if it is on screen, changes nothing else; Dirty exactly then |
| `Shapes.ColumnMaskBits` | util/cat/ev3_lcd.c:1113-1120 | the two Masks look-ups keep exactly the pixels of the byte column that lie in the fill |
| `Screen.Display.DisplayFillScreen` | util/cat/ev3_lcd.c:1099-1151 | the column and row loops touch each pixel of the region once, cut off at the screen, with byte wrap-around of the last column and row |
| `Screen.Display.DisplayLineX` | util/cat/ev3_lcd.c:1153-1192 | touches each pixel of the row between the two columns once, in either order, cut off at the right border |
| `Screen.Display.DisplayLineY` | util/cat/ev3_lcd.c:1194-1226 | touches each pixel of the column between the two rows once, in either order, cut off at the bottom |
| `Screen.Display.DisplayDraw` | util/cat/ev3_lcd.c:1239-1282 | the pixel, line and fill commands touch what their routine touches, in the given mode |
| `Screen.Display.CmdSetPixel` | util/cat/ev3_lcd.c:1325-1333 | any integer coordinates: the flipped row is touched once if on screen, otherwise nothing changes |
| `LineGeometry.ClipDirectionIndependent` | util/cat/ev3_lcd.c:1337-1391 | swapping the ends of a line does not change the clipped ends, for all integers and C's truncating division |
| `LineGeometry.ClippedEndsNear` | util/cat/ev3_lcd.c:1343-1391 | for every line that is kept, the cross product of either clipped end with the original line is at most the sum of the two differences, which is at most two pixels; ends not trimmed twice are less than a pixel off |
| `LineGeometry.ClippedInBox` | util/cat/ev3_lcd.c:1343-1391 | if no end is trimmed in both axes, both clipped ends lie in the box of the original ends |
| `LineGeometry.ClipSingleAxis` | util/cat/ev3_lcd.c:1343-1391 | when one axis needs no clipping: dropped exactly if both ends lie beyond one border; otherwise no end is trimmed twice and the new ends are on screen, inside the original box and less than a pixel off the original line |
| `LineGeometry.ClippedColumns` | util/cat/ev3_lcd.c:1366-1391 | for every line the clipped columns are on screen, and a clipped horizontal line lies on a screen row |
| `Strokes.LineIsIdeal` | util/cat/ev3_lcd.c:1335-1453 | any line that is kept: exactly the visible ideal line between its clipped ends is touched, each pixel once, if and only if no row between them wraps around as a byte; a vertical line has its own exact condition on its two byte rows |
| `Strokes.UnwrappedRange` | util/cat/ev3_lcd.c:1393-1453 | no row wraps around exactly if all of them lie within 128 rows of the screen, or in the upper half of one other block of 256 rows |
| `LineCoverage.VisiblePointKept` | util/cat/ev3_lcd.c:1343-1391 | a line with a visible point and no end trimmed in both axes is kept, with both ends on screen and that point between them, for every rational point of the line |
| `LineCoverage.DrawnRows` | util/cat/ev3_lcd.c:1343-1453 | unless rows wrap around, the screen rows in which a line has a pixel are exactly those between its clipped ends |
| `LineCoverage.DrawnColumns` | util/cat/ev3_lcd.c:1343-1453 | with both clipped ends on screen the same holds for columns |
| `LineCoverage.NothingVisibleDropped` | util/cat/ev3_lcd.c:1343-1453 | no end trimmed in both axes: every row and every column in which the original line has a visible point gets a pixel |
| `RasterTheorems.LineNearOriginal` | util/cat/ev3_lcd.c:1335-1453 | every pixel of any line is at most two and a half pixels from the original line unless rows wrap around; with no end trimmed twice it is in the original box and at most one and a half pixels away |
| `RasterTheorems.VisibleLine` | util/cat/ev3_lcd.c:1335-1453 | a line with a visible point and no end trimmed twice touches exactly the ideal line between its clipped ends, once each, inside the original box and at most one and a half pixels from the original line |
| `RasterTheorems.TrimmedTwiceDropsRows` | util/cat/ev3_lcd.c:1353-1391 | an end trimmed in both axes can lose rows although both clipped ends are on screen: a concrete line runs visibly through 19 rows that get no pixel |
| `RasterTheorems.TrimmedTwiceDropsPixel` | util/cat/ev3_lcd.c:1353-1391 | a concrete line whose end stays off screen and which misses a visible pixel almost exactly on the true line |
| `RasterTheorems.TrimmedTwicePaintsAstray` | util/cat/ev3_lcd.c:1353-1402 | a concrete line whose row wraps around as a byte, so that a pixel more than five pixels from the line is drawn |
| `RasterTheorems.InvisibleLineDrawsColumn` | util/cat/ev3_lcd.c:1366-1402 | a concrete line with no end trimmed twice and no visible point, which draws a whole column: a visible point cannot be left out of the condition |
| `Strokes.HalfPixelIsRounded` | util/cat/ev3_lcd.c:1412-1452 | within half a pixel (-major <= 2(minor k - major j) < major) if and only if j is the rounded quotient |
| `Strokes.DecisionStep` | util/cat/ev3_lcd.c:1420-1452 | the sign test on d keeps the next spot within half a pixel and d its decision value, for either outcome |
| `Strokes.LastSpot` | util/cat/ev3_lcd.c:1423-1446 | after max(dx, dy) steps the loop stands exactly on the far end |
| `Strokes.SpotsDistinct` | util/cat/ev3_lcd.c:1412-1452 | the max(dx, dy) + 1 spots of a line are pairwise different |
| `Strokes.VisitedOnce` | util/cat/ev3_lcd.c:1412-1452 | if no row wraps around, a visible pixel is visited once if it is the spot of its own step, and never otherwise |
| `Strokes.RowHit` | util/cat/ev3_lcd.c:1412-1452 | every row between the two ends has a spot, whichever axis is dominant |
| `Strokes.WrappedSpotShows` | util/cat/ev3_lcd.c:1412-1452 | a row that wraps around puts a dot beside the ideal line or a second one on it |
| `Strokes.StrokeIsIdeal` | util/cat/ev3_lcd.c:1393-1453 | all four drawing routines of a line touch exactly the visible pixels within half a pixel of the true line, once each, if and only if no row wraps around; the byte rows of a vertical line have their own exact condition |
| `Strokes.AxisLineTouches` | util/cat/ev3_lcd.c:1335-1411 | horizontal and vertical lines of any length and place touch exactly their visible pixels, once each |
| `Screen.Display.Bresenham` | util/cat/ev3_lcd.c:1412-1453 | both loops (x dominant, y dominant) stop at the far end and draw exactly the spots, in any mode |
| `Screen.Display.CmdDrawLine` | util/cat/ev3_lcd.c:1335-1454 | any integer ends: clips, chooses the routine, and touches exactly the pixels of the specification |
| `RasterTheorems.LineDirectionIndependent` | util/cat/ev3_lcd.c:1335-1454 | a line and its reverse change the buffer identically, for all ends and modes |
| `LineDistance.IdealNearOriginal` | util/cat/ev3_lcd.c:1353-1452 | a pixel of the ideal line between two points is at most half a pixel further from the original line than these points |
| `RasterTheorems.SingleAxisLine` | util/cat/ev3_lcd.c:1335-1454 | a line that needs clipping in one axis at most touches exactly the ideal line between its clipped ends, inside the original box and at most one and a half pixels from the original line |
| `Shapes.ClippedFill` | util/cat/ev3_lcd.c:1473-1485 | the byte arguments of the clipped fill cover exactly the visible part of the rectangle |
| `Shapes.BoxPixels` | util/cat/ev3_lcd.c:1456-1514 | in the caller's terms: a rectangle touches the visible pixels between its corner and the corner width and height away, all of them or those on the border |
| `Shapes.EdgesMakeOutline` | util/cat/ev3_lcd.c:1486-1513 | the two or four edges drawn are disjoint and together the whole outline, slim rectangles included |
| `Screen.Display.CmdDrawRect` | util/cat/ev3_lcd.c:1456-1514 | any integer corner and size, either sign, filled or hollow: every visible pixel of the closed rectangle or its outline exactly once, nothing else |
| `EllipseGeometry.CriteriaDecideMove` | util/cat/ev3_lcd.c:1524-1600 | the three integer tests on the error term decide exactly whether the ellipse passes the three half-pixel points |
| `EllipseGeometry.PathStraddles` | util/cat/ev3_lcd.c:1547-1622 | the ellipse passes through the square of every pixel the loop visits, inside the box of the radii |
| `EllipseGeometry.PathReachesTip` | util/cat/ev3_lcd.c:1547-1622 | the staircase visits the tip (a, 0), and the loop condition is false after it |
| `EllipseGeometry.PathMeetsRows` | util/cat/ev3_lcd.c:1547-1622 | no row of the quadrant is left out |
| `EllipseGeometry.PathLengthBounds` | util/cat/ev3_lcd.c:1547-1622 | from any pixel of the staircase: between the larger remaining distance and the sum of both |
| `EllipseGeometry.NoEastAfterSouth` | util/cat/ev3_lcd.c:1568-1585 | by convexity a step down is never followed by a step to the right: the rectangles of that branch are never drawn |
| `EllipseGeometry.TermBounds` | util/cat/ev3_lcd.c:1529-1622 | the running error term stays between bounds in the radii |
| `Ellipse.NoOverflow` | util/cat/ev3_lcd.c:1524-1622 | every int expression an iteration computes fits 32 bits, for all positive radii below the stated bound |
| `Ellipse.ByteRadiiFit` | util/cat/ev3_lcd.c:1642-1707 | with the byte radii of CircleOutEx and EllipseOutEx neither the loop nor the expressions before it overflow |
| `Ellipse.EllipseLoop` | util/cat/ev3_lcd.c:1547-1634 | keeps t, dxt and dyt at their closed forms, draws the hollow outline or the filled disc, each visible pixel exactly once, in at most a + b + 1 iterations and at least one more than the larger radius |
| `Ellipse.CmdDrawEllipse` | util/cat/ev3_lcd.c:1516-1635 | any centre and radii, zero and negative included, for which 32 bits suffice: touches exactly the outline or the disc, once each; with a negative radius nothing or the pole that the last rectangles leave |
| `Ellipse.DegenerateEllipse` | util/cat/ev3_lcd.c:1536-1545 | a zero height leaves the visible part of the row between the tips, a zero width that of the column; a negative radius leaves nothing, or when filled the two tips or the column between them |
| `RasterTheorems.TouchedAtMostOnce` | util/cat/ev3_lcd.c:1456-1635 | no rectangle or ellipse, hollow or filled, touches a pixel twice or one off the screen |
| `RasterTheorems.InvertFlipsShape` | util/cat/ev3_lcd.c:1486-1622 | drawn once in INVERT mode, a shape flips exactly its own pixels |
| `RasterTheorems.InvertTwice` | util/cat/ev3_lcd.c:1456-1635 | drawn twice in INVERT mode, a shape leaves the whole buffer as it was |
| `RasterTheorems.OutlineFollowsEllipse` | util/cat/ev3_lcd.c:1547-1562 | the hollow outline is crossed by the ellipse in every pixel and contains the visible tips |
| `RasterTheorems.DiscIsFilledOutline` | util/cat/ev3_lcd.c:1563-1634 | the filled ellipse is, row by row, exactly what lies between the pixels of its outline |
| `RasterTheorems.DiscFollowsEllipse` | util/cat/ev3_lcd.c:1563-1634 | the filled ellipse paints every pixel whose centre is inside and none whose square is outside |
| `Blit.dLcdDrawPixel` | util/cat/ev3_lcd.c:413-426 | sets or clears the one visible pixel, leaves every other bit |
| `Blit.DrawPixelwise` | util/cat/ev3_lcd.c:619-651 | the pixel path shows every visible bit of the image in the given colour and leaves the rest of the screen, for any position |
| `Blit.DrawAligned` | util/cat/ev3_lcd.c:652-683 | the byte-aligned path with its 16-bit index shows the same, including parts off the left, right and bottom border |
| `Blit.dLcdDrawBitmap` | util/cat/ev3_lcd.c:601-685 | either branch: the visible part of the bitmap, read bit by bit from the bytes behind its two size bytes, stands at its place, everything else on screen is unchanged |
| `Blit.FastPathRefines` | util/cat/ev3_lcd.c:619-683 | what is shown determines every visible pixel, so the two branches leave the same picture |
| `Blit.dLcdDrawChar` | util/cat/ev3_lcd.c:441-526 | characters of the font appear, by either branch, as the part of the font sheet that belongs to them; other characters change nothing |
| `Blit.GlyphPart` | util/cat/ev3_lcd.c:456-459 | that part of the sheet has its corner n modulo the characters of a line to the right, in whole bytes, and n divided by them down, in font heights |
| `Blit.GlyphsDisjoint` | util/cat/ev3_lcd.c:456-459 | different characters have no pixel of the sheet in common |
| `FrameBuffer.lcdToFrameBuffer` | util/cat/ev3_lcd.c:270-311 | the shift loop writes, for every three pixels of a row, the device byte that lights exactly these |
| `FrameBuffer.frameBufferToLcd` | util/cat/ev3_lcd.c:235-268 | every pixel of the picture is the one the device byte shows; bits 180..183 of a row become 0 |
| `FrameBits.CodeOfSpread` | util/cat/ev3_lcd.c:47-76 | the second table undoes the first: the code of three pixels shows these pixels |
| `FrameBits.SpreadOfCode` | util/cat/ev3_lcd.c:47-76 | and the first undoes the second on the eight device codes |
| `FrameBits.OtherBytesDark` | util/cat/ev3_lcd.c:60-76 | a byte that is none of the eight device codes shows no pixel |
| `FrameBuffer.EncodedBits` | util/cat/ev3_lcd.c:270-311 | bit by bit, without the tables: which bits of which device byte equal which bit of which picture byte |
| `FrameBuffer.DecodeEncode` | util/cat/ev3_lcd.c:235-311 | decoding an encoded picture gives back every pixel except the padding bits 180..183, which are 0 |
| `FrameBuffer.EncodeDecode` | util/cat/ev3_lcd.c:235-311 | encoding a decoded frame buffer is the identity when all its bytes are device codes |
| `Crc32Table.TableEntry` | src/crc32.c:45-89 | each of the 256 table entries is eight steps of the reflected polynomial 0xEDB88320 |
| `Crc32.ComputeCrc32` | src/crc32.c:91-100 | the table-driven loop computes the bit-serial CRC, for every start value and message |
| `Crc32.Residue` | src/crc32.c:91-100 | a message followed by its own CRC, low byte first, has the CRC 0x2144DF1C, for every message and start value |
| `Crc32.Chaining` | src/crc32.c:91-100 | crc32(crc32(c, A), B) equals crc32(c, A + B) for every split |
| `Crc32.BitStepBijective` | src/crc32.c:97-98 | the register update can be undone: it is a bijection |
| `Crc32.CrcInjectiveInStart` | src/crc32.c:91-100 | for each message, different start values give different CRCs |
| `Crc32.BurstDetected` | src/crc32.c:91-100 | messages that differ only inside a window of 32 consecutive bits, at any bit position, have different CRCs, for every start value |
| `Crc32.ByteBurstDetected` | src/crc32.c:91-100 | in particular any change confined to four consecutive bytes is detected |
| `Flash.bootloader_send` | src/bl_install.c:169-239 | payloads are always a prefix of the padded image and all of it on success, and all but the last fill the 1024 bytes of a packet; the CRC is that of the image; exact error for each failed exchange; the percentage shown is that of the accepted bytes |
| `Flash.GoodTypes` | src/bl_install.c:219 | the replies that the transfer goes on after are those of type 1 and 3 |
| `Flash.Progress` | src/bl_install.c:231-235 | the step-wise update keeps the greatest multiple of five not above the percentage |
| `Flash.bootloader_install` | src/bl_install.c:60-103 | the brick is rebooted if and only if everything was accepted, the whole image was sent, and the checksums agree or the reply was looped back; otherwise the exact error of the step that failed |
| `Flash.DamagedFlashRejected` | src/bl_install.c:79-97 | flash content that differs from the image within 32 consecutive bits has another checksum than the one the installer accepts |
| `Uf2Format.DecodeEncodeAll` | src/uf2.h:17-28 | reading back the bytes of a block stream gives the blocks |
| `Uf2Layout.StreamOnDisk` | src/uf2_pack.c:72-186 | the bytes of the packed stream without the functions that encode it: magic numbers, flag, offset, length, number, total and size of every block, low bytes first, then the slice of the file, the name and zeros |
| `Uf2Layout.BlocksOfFile` | src/uf2_pack.c:80-104 | the blocks of a file follow those of the files before it |
| `Uf2Layout.EveryBlock` | src/uf2_pack.c:80-104 | and every block of the stream is one of these |
| `Uf2Format.PieceBounds` | src/uf2_pack.c:134-162 | piece k exists exactly if its offset is inside the file; pieces follow each other without gaps |
| `Uf2Format.PieceCovers` | src/uf2_pack.c:142-162 | every byte of the file lies in one of its pieces |
| `Uf2Names.uf2_basename` | src/uf2_helper.c:36-43 | returns what follows the last separator, the whole name if there is none |
| `Uf2Names.BasenameUnique` | src/uf2_helper.c:36-43 | that part is determined by having no separator and following one |
| `Uf2Names.uf2_map` | src/uf2_unpack.c:85-107 | builds destination, folder and base name, cut to 255 characters |
| `Uf2Names.MapPathIsPlace` | src/uf2_unpack.c:85-107 | the folder is what precedes the first slash of the name, but . for .. and without paths, and never contains a slash; the base name is what follows the last slash |
| `Uf2Names.MapPathInjective` | src/uf2_unpack.c:85-107 | names with different last components map to different paths, unless a path is cut |
| `Uf2Names.uf2_mkdir_impl` | src/uf2_helper.c:68-81 | creates exactly the directories above the path and leaves the path buffer as it was, or fails exactly if one is refused |
| `Uf2Names.uf2_mkdir_for` | src/uf2_helper.c:85-91 | the same for a path that must not change |
| `Uf2Names.DirectoryIsParent` | src/uf2_helper.c:68-81 | the directory a file is in is among those created |
| `Uf2Unpack.uf2_write_into` | src/uf2_helper.c:123-142 | resizes the file, overwrites the payload range, changes no other file |
| `Uf2Unpack.WrittenByte` | src/uf2_helper.c:123-142 | byte by byte: the payload at its offset, elsewhere the old content, zeros behind it |
| `Uf2Unpack.AcceptedExactly` | src/uf2_unpack.c:40-60 | which blocks pass the filter, in numbers: magic numbers, the two flag bits, payload, file size, offset and name length |
| `Uf2Unpack.ExtractBlock` | src/uf2_unpack.c:40-74 | skips what the filter rejects, otherwise writes the block to its path; fails exactly if the system refuses |
| `Uf2Unpack.uf2_unpack` | src/uf2_unpack.c:32-83 | re-reads blocks until the stream ends or one fails, and leaves exactly the files and directories of the specification |
| `Uf2Unpack.DirectoryMade` | src/uf2_unpack.c:60-66 | the directory of every extracted file is there afterwards |
| `Uf2Unpack.PieceAccepted` | src/uf2_unpack.c:40-60 | every packed piece passes the filter and reads back its name, offset and payload |
| `Uf2Unpack.UnpackInvariant` | src/uf2_unpack.c:38-75 | after any prefix of a stream every byte of a begun file is its own if its piece was extracted and otherwise what was there before at the new size; nothing else has changed |
| `Uf2Unpack.AnyOrderUnpacks` | src/uf2_unpack.c:38-75 | blocks in any order, repeated, mixed with rejected blocks: if no piece is missing, every file arrives exactly, whatever was there before |
| `Uf2Unpack.OrderIndependence` | src/uf2_unpack.c:38-75 | two streams with the same pieces, complete or not, in any order and with repetitions, give the same file system |
| `Uf2Pack.uf2_write_file` | src/uf2_pack.c:116-164 | appends exactly the pieces of the file, numbered from the start block; a short read is an I/O error behind whole pieces |
| `Uf2Pack.uf2_fixup_block_count` | src/uf2_pack.c:173-186 | seeks and overwrites one count per block, with the offset computed modulo 2^32 |
| `Uf2Pack.PatchedBytes` | src/uf2_pack.c:173-186 | afterwards the count fields of the first 2^23 blocks hold the total and no other byte has changed |
| `Uf2Pack.EveryCountReached` | src/uf2_pack.c:179 | every block gets its count if and only if there are at most 2^23 blocks |
| `Uf2Pack.MoreBlocksThanCounts` | src/uf2_pack.c:173-186 | two files of almost 2 GiB have more blocks than that, and a count of 0 remains |
| `Uf2Pack.uf2_write_all` | src/uf2_pack.c:72-105 | the stream is the pieces of all files in order, with the counts filled in; a file that cannot be opened gives an I/O error behind the uncounted pieces of the files before it |
| `Uf2Pack.SecondPass` | src/uf2_pack.c:95-104 | byte level: block numbers count up from 0, counts hold the total, all other bytes as the first pass wrote them |
| `Uf2Pack.RoundTrip` | src/uf2_pack.c:72-164 | for every list of files of 1 byte to 64 MiB with distinct last components and uncut names, unpacking the packed stream puts exactly the source bytes at every mapped path and touches nothing else |
| `Uf2Pack.EmptyFileHasNoBlock` | src/uf2_pack.c:142 | a file leaves no block behind exactly if it is empty |
| `Bridge.Link.cNetReadTcp` | src/bridge.c:247-351 | every state and every short read: the whole buffer afterwards, which state follows, when the connection ends, the result (the length of a completed frame and its bytes, 1 for a header cut off after one byte, else 0); a read before the unlock is recorded |
| `Bridge.Link.cNetWriteTcp` | src/bridge.c:238-245 | writes nothing without data or connection |
| `Bridge.Link.Accept` | src/bridge.c:417-428 | when the link becomes connected or closed; a new connection starts before the unlock, in a buffer that keeps its contents, with the pending rest of a packet |
| `Bridge.Link.FetchPacket` | src/bridge.c:432-443 | takes the next device packet exactly when the previous one is drained, cut to its own length |
| `Bridge.Link.Forward` | src/bridge.c:459-468 | writes the frame or the stray byte to the device and records it; the connection is kept exactly if the result of the write is at least the length plus one |
| `Bridge.Link.Drain` | src/bridge.c:470-478 | sends exactly the bytes the socket takes and keeps the rest |
| `Bridge.Link.Exchange` | src/bridge.c:430-481 | one pass of the loop is a read step and a write step of the state machine, with the exact condition under which the connection survives |
| `Bridge.Link.Step` | src/bridge.c:413-482 | one pass in any state is a step of the state machine |
| `Bridge.Link.Run` | src/bridge.c:413-485 | every run of the main loop keeps the invariant and ends in the state that the machine reaches with the same events; neither size assert can fail |
| `BridgeMachine.UnbrokenReceives` | src/bridge.c:282-344 | a run whose reads bring whole headers and bytes, and whose device writes are complete, keeps the connection and receives everything its reads bring |
| `BridgeRuns.RunDelivers` | src/bridge.c:413-485 | such a run on an unlocked connection, however it cuts the bodies of some frames, forwards exactly these frames and keeps the rest of its bytes |
| `BridgeRuns.UnlockAndDeliver` | src/bridge.c:413-485 | a run from before the connection: if its first events unlock the bridge, it forwards exactly the frames that the others bring |
| `BridgeRuns.RunSends` | src/bridge.c:432-478 | in the other direction of such a run, packets that the socket takes go out in order and in full |
| `BridgeRuns.ForwardedIsParse` | src/bridge.c:282-344 | in every reachable state the frames of the current or last connection given to the device are exactly the length-prefixed frames of its received stream, in order and once each |
| `BridgeRuns.DeviceWrites` | src/bridge.c:282-344 | in every reachable state, over all connections: the device got the frames of each received stream in order, and the byte of each cut-off header; all writes are frames if and only if no header read returned exactly one byte |
| `BridgeRuns.CutHeaderReachesDevice` | src/bridge.c:288-295 | a run from the start in which the device gets one byte that is no frame |
| `BridgeRuns.PassOverBluetooth` | src/bridge.c:461-467 | with bt_write as the device write a connection never survives a completed frame, although the frame goes out in full unless the line fails |
| `Bridge.OneMoreStart` | src/bridge.c:255-280 | the record of unlock reads stays a chain through one buffer in which only the last read can satisfy the check, and does so exactly if the link is unlocked |
| `BridgeRuns.NothingBeforeUnlock` | src/bridge.c:255-280 | in every reachable state: a frame was forwarded only after a read of the same connection satisfied the check, and that read brought the text itself unless bytes left in the buffer could complete it |
| `BridgeRuns.ClearBufferMeansText` | src/bridge.c:255-280 | on a connection that found the buffer clear, an unlock by a read no shorter than those before it means that this read brought the text |
| `BridgeRuns.LeftoversUnlock` | src/bridge.c:258-277 | a run from the start: the second of two clients never sends the text, is unlocked by one byte, and its frame is forwarded |
| `BridgeRuns.Leave` | src/bridge.c:107-132 | a client that leaves in any state closes its connection; the buffer and the pending bytes stay for the next one |
| `BridgeRuns.SentIsPrefix` | src/bridge.c:432-478 | the bytes sent on all connections are a prefix of the device's packets, each cut to the length it carries; the rest waits in the write buffer |
| `BridgeRuns.ConnectionGetsPackets` | src/bridge.c:413-478 | one connection gets the pending rest of the packet before it, then the packets fetched since, in order |
| `BridgeRuns.StartsAtPacketBorder` | src/bridge.c:413-478 | nothing or a whole packet is pending for the next connection exactly if the bytes taken so far are a whole number of packets |
| `BridgeRuns.Deliver` | src/bridge.c:282-351 | for a device write that counts the report byte: the run made from any fragmentation of the bodies of a stream of frames, interleaved with any traffic in the other direction, forwards exactly the frames that are complete, keeps the connection, and every readable pass brings at least one byte |
| `BridgeRuns.EmptyBodyEndsConnection` | src/bridge.c:309-325 | a frame with an empty body is never forwarded: the next read ends the connection |
| `Frames.ParseConcat` | src/bridge.c:297-333 | a stream determines its frames: parsing their concatenation gives them back |
| `Frames.HeaderLowByteFirst` | src/bridge.c:297-298 | the header of a frame is the length of its body, low byte first |
| `Unlock.UnlockText` | src/bridge.c:269 | the text that unlocks the bridge, character by character |
| `Unlock.StrStr` | src/bridge.c:269 | finds the pattern if and only if it occurs |
| `Unlock.UnlockMeansReceived` | src/bridge.c:258-277 | the check is about the received bytes alone if and only if the bytes left in the buffer behind them cannot supply or complete the text |
| `Unlock.LeftoverCounts` | src/bridge.c:258-277 | a concrete buffer for which one unrelated new byte satisfies the check |
| `Unlock.CleanBuffer` | src/bridge.c:258-277 | with a zero directly behind the received bytes the condition holds |
| `BtStream.bt_write` | src/bt-unix.c:84-100 | sends buf[1..] through any short writes; the result is the number of bytes sent, smaller exactly if a write failed |
| `BtStream.bt_read` | src/bt-unix.c:111-159 | returns exactly one packet and leaves the stream at the next boundary, through any short reads; -1 on failures, oversized packets and before two bytes; a truncated packet at end of stream |
| `BtStream.PacketOf` | src/bt-unix.c:141 | the length field counts the bytes behind it, low byte first |
| `BtStream.SameHeader` | src/bt-unix.c:141 | a length field says the same as the header of a bridge frame |
| `BtStream.Channel` | src/bt-unix.c:84-159 | packets sent by bt_write come out of bt_read one by one, in order, however sends and reads alternate, unless a call fails |
| `Transfer.up` | src/up.c:33-140 | chunks of 1000 bytes and a shorter last one, whose concatenation is the file; exact error code for every script of replies; at any end the brick holds the chunks it got and did not deny |
| `Transfer.UpErrorIs` | src/up.c:33-140 | the error in terms of the number of chunks needed: too long, an exchange that failed, or a denial of the request or of the last chunk |
| `Transfer.StoredExactly` | src/up.c:77-104 | when up succeeds the brick has the file if and only if it denied no chunk |
| `Transfer.LostChunkUnreported` | src/up.c:121-135 | a concrete transfer whose first of two chunks is denied, reported as successful |
| `Transfer.dl` | src/dl.c:22-105 | against a brick that serves any number of bytes per reply: the output is exactly what was served, a prefix of the file, and all of it on success, within file length + 1 requests, and every reply fits the buffer |
| `Transfer.UpThenDown` | src/up.c:77-104 | a file sent with every chunk accepted comes back unchanged, however the brick cuts it |

## Left out

- Screen.Display.DisplayLineX: row 128 is excluded, because `Y > LCD_HEIGHT` lets it through to a write behind the buffer; CmdDrawLine never passes it.
- Screen.Display.DisplayDraw: the erase, erase-line, frame and char commands and the uninitialised display are not modelled.
- Screen.Display.CmdDrawLine: overflow of `int` in the coordinates of a caller is undefined in C and not modelled.
- Screen.Display.FillColumns: the three copies of each row loop, one per pixel mode, are one loop with the mode passed to `Combine`.
- Ellipse.CmdDrawEllipse: radii for which an `int` expression before the loop overflows, or two positive radii beyond the bound of the loop (about 644 for a circle), are undefined in C and excluded.
- Blit.dLcdDrawBitmap: in the aligned branch a negative Y0 and positions that overflow the 16-bit index are excluded, since the original writes outside the buffer there.
- Blit.dLcdDrawChar: in the aligned branch the glyph must fit horizontally and Y0 must not be negative, since only the first byte of a row is checked.
- FrameBuffer.lcdToFrameBuffer: the unrolled statements of a group are a loop over its device bytes.
- FrameBuffer.frameBufferToLcd: the unrolled statements of a group are a loop over its picture bytes.
- Text, icons, pictures, scrolling, the Dirty flag as a cache rule and the device file of the display are not part of this model.
- Flash.bootloader_install: erase, start, checksum and exit are one request each and enter as their results.
- Uf2Pack.uf2_write_all: failures of ftell, fseek and fwrite are left out, files are smaller than 2 GiB (as the source warns) and the number of blocks fits an int.
- Uf2Unpack.uf2_write_into: a short write is not possible; mkdir and open fail exactly on a given set of paths.
- Uf2Names.uf2_basename: the original reads one character before the string when there is no slash; here the bound is tested first. The Windows variants are left out.
- Uf2Unpack.uf2_unpack: the destination directory is a C string; directories and files are separate name spaces.
- Bridge.Link.cNetReadTcp: a failed read before the unlock (its -1 becomes an unsigned length for the hex dump) and inside a frame body (its -1 moves the buffer position back) are excluded (a failed or one-byte header read is modelled).
- BridgeRuns.Deliver: the two header bytes of a frame come together; apart they end the connection, as `BridgeRuns.CutHeaderReachesDevice` shows.
- Bridge.Link.FetchPacket: a device packet carries at least its own length; a failed or shorter read would stop the original at an assert.
- Bridge.Link.Drain: the 16-byte reply to the unlock text is written directly to the socket and is not part of `sent`.
- Bridge.Link.Accept: sockets, select, timers and the UDP beacon are reduced to the events they produce.
- BtStream.bt_read: packets longer than the buffer but not longer than twice its size are excluded (the source marks the factor 2 as to be removed); the timeout on the first byte is left out.
- Transfer.up: the file handle, the names and the message counters of the packets are left out; replies are a script of successes, denials and failures.
- Transfer.dl: a reply with status other than the error status carries the bytes it announces, at least one after the first reply; file sizes fit 32 bits as in the packet.
- Argument parsing, printing, the single-request commands, mkrbf, vmexec, tunnel, timers, buttons, motors and sound are bookkeeping or device plumbing and are not modelled.
