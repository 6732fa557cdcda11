# GIF player on an ESP32: a Dafny model of the player's own logic

The player streams an animated GIF from an SD card onto an ST7789 TFT
display. It uses the AnimatedGIF library to decode and TFT_eSPI to drive the
display. The logic the player contributes itself lives in `src/main.cpp`,
and this project models three parts of it:

- **The display sink** (`GIFDraw`), modules `Sink` and `SinkProperties`. The
  decoder calls it once per decoded row. It narrows the row's column, absolute
  row and width to `int16_t`. It drops the row when the row or its first column
  is off screen, so a row that starts left of the screen is dropped whole and
  never clipped on the left. It cuts the width at the right edge. Then it
  streams one RGB565 colour per pixel into a one-pixel-high address window. A
  pixel whose index is the transparent index, while transparency is on, is
  painted `TFT_BLACK` (0). Every other pixel is its palette entry.
- **The byte source** (`GIFOpenFile`, `GIFCloseFile`, `GIFReadFile`,
  `GIFSeekFile`), modules `FileSource` and `FileSourceProperties`. These work
  on one global handle that is either closed or open. On a closed handle, read
  and seek return 0 and do nothing, and close does nothing. Seek on an open
  handle reports the requested position back to the decoder, whether or not the
  SD library's seek succeeded.
- **The playback driver** (`setup`, `loop`), modules `Player` and
  `PlayerProperties`. It is a state machine with the states `Playing` and
  `Halted`. A positive `playFrame` result continues playback. Zero rewinds the
  decoder. A negative result closes the animation and opens it again, and a
  failed reopen halts the board for good.

The 16-bit narrowing is modelled as written, modulo 2^16, as GCC performs it.
Inside the 16-bit range it changes nothing (`SinkProperties.DrawOnRawCoordinates`).
Outside that range it can move a row onto the screen. For example, a row at
absolute position 65536 is drawn on screen row 0
(`SinkProperties.RowShiftedBy65536DrawsTheSame`, with
`SinkProperties.RowBeyondInt16WrapsOntoScreen` as an instance).

Behaviour of the code worth noting:
- The driver has no idle state before playback: `setup` either reaches
  `Playing` or halts.
- Seek reports the requested position and not the position actually reached.
- A transparent pixel is painted black. It is never skipped.

## Model

| member | source | states |
|---|---|---|
| FixedWidth.ToInt16 | src/main.cpp:67-69 | storing into an `int16_t` keeps the value congruent modulo 2^16, and values already in range are unchanged |
| FixedWidth.ToInt32 | src/main.cpp:37 | storing the file size into an `int32_t` keeps it congruent modulo 2^32, unchanged when it fits |
| Sink.Resolve | src/main.cpp:82-93 | one colour per pixel index, in order; an index is black when transparency is on and it equals the transparent index, otherwise its palette entry |
| Sink.Draw | src/main.cpp:64-97 | a row is drawn iff its row is in `[0, screenH)` and its first column in `[0, screenW)`; the window is `(x, y, min(w, screenW - x), 1)`; exactly `max(0, width)` colours are written, colour `i` resolved from pixel index `i` alone |
| Sink.DrawRow | src/main.cpp:72-96 | the source's early returns, width cut and per-pixel loop produce exactly the transaction `Draw` specifies |
| SinkProperties.DrawOnRawCoordinates | src/main.cpp:67-76 | for descriptor values within 16 bits, drawn iff `0 <= iY + y < screenH` and `0 <= iX < screenW`, into window `(iX, iY + y, min(iWidth, screenW - iX), 1)` |
| SinkProperties.LeftOverhangIsDropped | src/main.cpp:73 | a row starting left of the screen produces no write at all, even if part of it would be visible |
| SinkProperties.DrawnWindowIsOnScreen | src/main.cpp:72-80 | a drawn window is one row high, starts on screen, ends at or before the right edge, and addresses only on-screen pixels |
| SinkProperties.FrameStaysOnScreen | src/main.cpp:64-97 | across any sequence of rows, no transaction addresses a pixel outside `[0, screenW) x [0, screenH)` |
| SinkProperties.FrameDrawsVisibleRows | src/main.cpp:72-73 | a sequence of rows produces exactly one transaction per row passing the bounds check, in order |
| SinkProperties.UnreadPixelsAreIgnored | src/main.cpp:82-83 | pixel indices past the clipped width do not affect what is drawn |
| SinkProperties.OpaqueRowIsPaletteLookup | src/main.cpp:86-91 | with transparency off every colour is the palette entry, even for the index named transparent |
| SinkProperties.TransparentPixelIsBlack | src/main.cpp:86-91 | with transparency on, the transparent index is written black and every other index as its palette entry |
| SinkProperties.WideRowIsClippedToScreenWidth | src/main.cpp:76 | a row at column 0 at least as wide as the screen is written exactly `screenW` pixels wide |
| SinkProperties.RowShiftedBy65536DrawsTheSame | src/main.cpp:68-72 | for every row, moving it down by 2^16 rows leaves the sink's decision, window and colours unchanged, because `iY + y` is narrowed to `int16_t` |
| SinkProperties.RowBeyondInt16WrapsOntoScreen | src/main.cpp:68-72 | a row whose absolute position `iY + y` is 65536 is narrowed to row 0 and drawn there |
| FileSource.OpenFile | src/main.cpp:31-40 | success iff the file could be opened; then the handle is open at position 0 and the reported size is congruent to the file's length modulo 2^32, equal to it when it fits; on failure the handle is closed |
| FileSource.Close | src/main.cpp:43-47 | the handle is closed afterwards; a closed handle is left as it is |
| FileSource.Read | src/main.cpp:50-54 | closed: returns 0 and changes nothing; open: returns the next bytes at the cursor, at most the requested count and fewer only at end of file, and advances the cursor by the count |
| FileSource.Seek | src/main.cpp:57-61 | closed: returns 0 and changes nothing; open: returns the requested position, moving the cursor only when it lies inside the file |
| FileSourceProperties.ClosedHandleIsInert | src/main.cpp:43-60 | on a closed handle, read and seek return 0 and close, read and seek leave it closed |
| FileSourceProperties.CloseIsIdempotent | src/main.cpp:43-47 | closing twice equals closing once |
| FileSourceProperties.SeekReportsRequestedPosition | src/main.cpp:57-61 | an open handle's seek reports the requested position, which matches the real cursor iff the target was inside the file or already the cursor |
| FileSourceProperties.ConsecutiveReadsConcatenate | src/main.cpp:50-54 | two reads in a row yield the bytes and handle of one read of the combined length |
| FileSourceProperties.SeekBackUndoesRead | src/main.cpp:50-61 | seeking back to the position a read started from restores the handle |
| Player.Setup | src/main.cpp:201-225 | playing iff the SD card came up and the animation opened; a card failure halts with that reason before the animation is tried |
| Player.Response | src/main.cpp:230-247 | positive result continues, zero rewinds, negative reopens |
| Player.Step | src/main.cpp:228-251 | a halted board does nothing; a playing one answers the result and halts iff an error's reopen failed |
| Player.Loop | src/main.cpp:228-251 | repeated `loop` calls, stopping once halted, give the final state and action log of `Run` |
| Player.HaltedStays | src/main.cpp:212-245 | once halted, any further ticks change nothing and cause no action |
| PlayerProperties.HaltsIffSomeReopenFails | src/main.cpp:237-247 | a run from `Playing` ends halted iff some tick was an error whose reopen failed, and such a halt names the animation |
| PlayerProperties.PlaysThroughWithoutFatalTicks | src/main.cpp:230-247 | without a failed reopen the board keeps playing and answers each tick with its response |
| PlayerProperties.StopsAtFirstFatalTick | src/main.cpp:243-246 | the first failed reopen halts the board; ticks up to it are answered and later ones are not |
| PlayerProperties.EndOfAnimationRewindsForever | src/main.cpp:232-236 | end-of-animation results only ever rewind, one rewind per tick, and playback never stops |

## Left out

- The AnimatedGIF library is not part of this model: header parsing, LZW decoding, interlacing, frame timing, `playFrame`, `reset` and `close`. Their outcomes enter as inputs: the `playFrame` result and whether a reopen succeeded.
- TFT_eSPI calls (`startWrite`, `setAddrWindow`, `writeColor`, `endWrite`, `fillScreen`, `drawString`) are represented only by the window-plus-colours `Write` a row produces. The status screens drawn on failure are not modelled.
- `initTFT`, `initSD`, `listSDFiles`, Serial logging and `delay` are device bring-up and I/O plumbing. The screen size is a parameter, and so is whether the SD card came up.
- `include/User_Setup.h` is compile-time hardware configuration and is not part of this model.
- FileSource.Read: the SD library's `File::read` and `File::seek` are foreign code. They are modelled as a plain sequential file. Read errors from the library are not modelled.
- FileSource.Seek: an out-of-range seek is modelled as leaving the cursor where it was. The SD library's behaviour there is an assumption; a FAT seek past the end may instead clamp to end of file. What `GIFSeekFile` reports does not depend on this.
- FileSource.Read: requires a non-negative length, because the decoder never asks for a negative one. How the SD library would treat one is not modelled.
- Sink.Draw: requires a 256-entry palette and a pixel buffer that holds at least the pixels the sink reads, which is what the decoder hands over. Reading past the buffer would be undefined behaviour in the source.
- Player.Step: `playFrame`'s frame-delay handling (`bSync = true`) and the `delay` calls are timing and are not modelled.
