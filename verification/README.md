# Verification of the dummy drivers and their test programs

This project models the three parts of the repository that carry a protocol or an algorithm, and proves what they
promise. `dafny verify dfyconfig.toml` checks it.

**The V4L2 buffer protocol** (`v4l2/video.c`). `VideoMachine` is a state machine whose steps are the atomic sections
of the driver: `buf_queue`, `start_streaming`, the three parts of `stop_streaming`, and the timer callback split into
its critical section, the copy, the completion and the re-arming. A run is any interleaving of enabled steps.
`VideoProperties` draws the conclusions that hold after every run,
`VideoRuns` says what can happen next in every reachable state. `VideoDriver` has the driver itself, a class whose
methods update the list, the counter, the timer and the planes; each method is proved to be exactly one step of the
machine, or the sequence of steps that a whole call makes. A ghost field holds the steps so far: the state of the
driver is always that of a run of the machine, so that what is proved of every run holds of the driver.

**The I2C message engine** (`i2c/i2c.c`). `I2c` has the driver as a class with a log of register writes and a count of
completions. A call is proved to do what the function `TransferAll` says for any list of messages, also when messages
share a buffer; the shape of the log and the contents of the buffers follow from that function by lemmas.

**The framebuffer pixel pipeline.** `FbStr` has the text layout and its safety, `Pictures` the framebuffer as a picture,
`Lcd` the stores of the text writer (`fbdev/tests/fb_str.c`). `FbRectangle` is the rectangle writer. `DummyFb` has the
palette and the dirty rectangle of the driver. `FbCat`, `FbCatProperties` and `FbCatMain` are the screenshot program, `FbView` the
viewer, `Decoders` and `Strides` compare the two. `Rgb565` collects what is true of 16-bit pixels across the programs.
`Pipeline` runs from the text and the rectangles that two programs draw to the image that the others decode, and to the
flush that reports it. The font is any table of 4096 bytes. `Bytes` has bytes, words and the arithmetic that the other
modules share.

Every loop of a program is a method with a loop, proved against a function on values; what the function means is
proved apart, pixel by pixel or message by message, and by lemmas that put it into plain numbers (`...Exactly`).

## Where the code falls short of its intent

Each of these is proved with its exact condition.

- The frame counter is an `int`, converted to a 64-bit unsigned number before the remainder by 25 is taken. Buffer
  number k of a session holds frame k mod 25 for all k below 2^31; buffer 2^31 is the first that does not, and
  `VideoProperties.FirstWrongFrame` constructs a run that completes it.
  `VideoProperties.DoneFrameExactly` says for every buffer of every run whether it does.
- A string that is drawn from a start off the four text rows, or where the first cell does not fit, can leave the
  screen: the row counter is reset only when it is exactly 64. `FbStr.SafeExactly` has the starts from which no string
  does, and `FbStr.UnsafeLeaves` constructs a string that does for every other start.
- The two decoders agree on every memory exactly on the formats that they share and on contiguous lines
  (`Strides.AgreeExactly`): the conversion of fbview knows neither stride nor offset.
- The 32-bit path of fbview shifts a channel up without filling its low bits, so that a channel of fewer than eight
  bits is never fully bright (`Decoders.FullChannel`). For a field inside the pixel it agrees with fbcat exactly for
  eight bits (`Decoders.ShiftAgreesExactly`) and otherwise stays below by less than 2^(8 - length)
  (`Decoders.ShiftBelowMap`).
- fbcat reads outside the mapped lines exactly when the visible part of a line is longer than the line
  (`FbCat.ReadsInsideExactly`), in a mono dump if its offset is not refused first (`FbCat.MonoReadsInsideExactly`).
- The dirty rectangle has one row too many at the bottom exactly when the greatest page ends with a row of the screen
  other than the last (`DummyFb.RowsExactly`; on the driver's screen `DummyFb.ExtraRow`), and it is only one pixel wide
  when the last page ends above row 2, which no list of pages of the driver's own screen brings about
  (`DummyFb.FullWidthExactly`).
- The clamps in `ansi_render` are needed exactly when the grid has more columns, or more half-rows, than the image has
  pixels (`FbView.ClampExactly`). With `--fill` that can be any small image; without it, it is an image of a single row
  (`FbView.PreviewClampExactly`).
- The rectangle writer does not check the window that the environment gives it. Its stores stay inside the mapping
  exactly if its rectangles are empty or the window's lower right corner, less one column and one row, does
  (`FbRectangle.MappingExactly`). Its rectangles lie on the screen exactly if they are empty or the window is larger
  than the screen by one column and one row at most (`FbRectangle.WindowExactly`).
- At 16 bits the rectangle writer stores a third byte per pixel: the last column spills into the next pixel, so that
  the column behind has to be on the screen too, and what is seen is not the colour that was chosen
  (`FbRectangle.RectangleExactly`, `Pipeline.NarrowRectanglesDecode`).

## Model

| member | source | states |
|---|---|---|
| VideoMachine.StepKeepsInv | v4l2/video.c:92-206 | every atomic step of either thread keeps the invariant: conservation of buffers in order, distinct owners, timer and callback under control, counter equal to the completions since start, log well-formed |
| VideoMachine.RunInv | v4l2/video.c:92-206 | the invariant holds after every interleaving, of any length |
| VideoProperties.ConservedInOrder | v4l2/video.c:100-122 | in every run the buffers handed in are the buffers handed back, in the same order, then the one the callback holds, then the list; so each is owned once and completed at most once per queueing |
| VideoProperties.StopQuiesces | v4l2/video.c:188-206 | when stop_streaming returns, the list is empty, the timer unarmed, no callback in flight, and every buffer ever received has been given back |
| VideoProperties.QuietUntilStart | v4l2/video.c:188-206 | until the next start nothing fires and nothing is completed, and the list holds exactly the buffers queued since |
| VideoProperties.DoneCarriesItsNumber | v4l2/video.c:113-122 | the k-th DONE buffer of its session carries k modulo 2^32, and below 2^31 a buffer with an address holds frame k mod 25 |
| VideoProperties.CounterCounts | v4l2/video.c:120 | the counter is the number of DONE completions since start, wrapped to an int |
| VideoProperties.FrameLaw | v4l2/video.c:115 | for every count k, across overflow, exactly when the index that the code computes is k mod 25 |
| VideoProperties.DoneFrameExactly | v4l2/video.c:113-122 | in every run, with k = q * 2^32 + j the number of a DONE buffer in its session: it holds frame k mod 25 exactly if 25 divides q, for j below 2^31, or q is 20 mod 25, for other j, the frames being different |
| VideoProperties.CountReached | v4l2/video.c:92-126 | for every n, some run completes n buffers in a session that is still at rest |
| VideoProperties.FirstWrongFrame | v4l2/video.c:113-122 | a run whose DONE buffer number 2^31 of a session holds frame 18 in place of frame 23 |
| VideoProperties.OneHeartbeat | v4l2/video.c:125 | during a session exactly one of "timer armed" and "callback running" holds until the timer is deleted; otherwise neither |
| VideoProperties.CaptureGoesOn | v4l2/video.c:92-126 | in every run, from a state in which no callback runs: after r returns of the callback, the first r buffers that waited have been completed, in order, or all of them, whatever else happened |
| VideoProperties.TowardsAdvances | v4l2/video.c:196-205 | while a stop is in progress, a step towards its end is enabled and leaves less to do |
| VideoProperties.StopFinishes | v4l2/video.c:196-205 | from every reachable state with a stop in progress it is possible to return, by steps that need neither the timer nor the application |
| VideoProperties.StopIsBounded | v4l2/video.c:196-205 | in every run, the steps taken while a stop is in progress are at most those that remained, and five more for each time that the timer fires |
| VideoProperties.DrainIsBounded | v4l2/video.c:198-205 | in every run, behind the deletion of the timer each step takes one buffer off the list, and with an empty list the return is the only step |
| VideoRuns.QueueAll | v4l2/video.c:159-172 | in every reachable state without a stop in progress, any distinct buffers that the driver does not own can be queued, whatever the list holds, and are appended in order |
| VideoRuns.CanStart | v4l2/video.c:174-186 | outside a session one can start, with the count at zero and the timer armed |
| VideoRuns.CanStop | v4l2/video.c:188-196 | in a session a stop can begin at any time, wherever the callback is |
| VideoRuns.CanTick | v4l2/video.c:92-126 | an armed timer can fire and its callback can go on at any time, also during a stop |
| VideoRuns.CanRestart | v4l2/video.c:174-206 | after any returned stop a session can start again, and buffers can be queued before and after |
| VideoDriver.BufPrepare | v4l2/video.c:144-157 | a buffer is let through exactly if its plane has 420000 bytes, which is room for every frame that the driver may hold and what queueing and copying rely on; otherwise -EINVAL |
| VideoDriver.DummyVideo.QueueBuf | v4l2/video.c:159-172 | any buffer that the driver does not own is appended to the list; is the step of the machine |
| VideoDriver.DummyVideo.StartStreaming | v4l2/video.c:174-186 | is the step that resets the counter and arms the timer |
| VideoDriver.DummyVideo.TimerExpires | v4l2/video.c:92-98 | is the step in which the armed timer fires, and is no longer pending while its callback runs |
| VideoDriver.DummyVideo.TimerPop | v4l2/video.c:100-109 | is the step that unlinks the first buffer, or goes to the end |
| VideoDriver.DummyVideo.TimerFill | v4l2/video.c:113-118 | is the step that copies the frame: the plane starts with it, the rest of the plane is unchanged, the payload is its length |
| VideoDriver.DummyVideo.TimerComplete | v4l2/video.c:120-122 | is the step that numbers and timestamps the buffer, counts it and hands it back; the log entry has the plane's contents |
| VideoDriver.DummyVideo.TimerFunc | v4l2/video.c:92-126 | a whole callback in which no other step falls: with an empty list nothing but the re-arming; otherwise the first buffer leaves with number and frame of the counter |
| VideoDriver.DummyVideo.StopCalled | v4l2/video.c:188-194 | is the step with which a stop begins |
| VideoDriver.DummyVideo.Drain | v4l2/video.c:198-205 | the drain loop: the list is given back as ERROR in its order, nothing else changes |
| VideoDriver.DummyVideo.StopStreaming | v4l2/video.c:188-206 | a whole stop, called while no callback runs: the driver is at rest and the list has been given back in order |
| I2c.DummyI2c.HwInit | i2c/i2c.c:125-142 | the log of the reset, and the control register with BUS_EN |
| I2c.DummyI2c.DataPhase | i2c/i2c.c:165-174 | the loop: a write sends the message's bytes in order, a read assigns exactly indices 0 to len-1; the position ends at len and the counter has wrapped below zero |
| I2c.DummyI2c.Isr | i2c/i2c.c:158-180 | data, then STOP, then the INT_FLAG-clear; one completion |
| I2c.DummyI2c.SendStart | i2c/i2c.c:182-208 | resets the wrapped counter, sends START, and runs the transfer of the whole message; its writes place by place |
| I2c.DummyI2c.DoMsg | i2c/i2c.c:217-227 | one message: the completion count is one at the wait and zero behind it, so that the reset on timeout does not run |
| I2c.DummyI2c.DoMsgs | i2c/i2c.c:210-230 | the loop: the buffers and the log of all the messages, one after the other |
| I2c.DummyI2c.Xfer | i2c/i2c.c:232-245 | any list of messages, buffers shared or not: the store and the log are what TransferAll says, every message is on the wire at its place, and num is returned |
| I2c.NextTransfer | i2c/i2c.c:217-227 | a list is transferred message by message |
| I2c.BusStaysUp | i2c/i2c.c:138-155 | the control register keeps BUS_EN and has START, STOP and INT_FLAG clear, whatever is written besides |
| I2c.WritesExactly | i2c/i2c.c:144-177 | the writes of a message place by place, in numbers: START, its bytes if it is a write, STOP, the cleared flag |
| I2c.ContentExactly | i2c/i2c.c:165-174 | the buffer of a message byte by byte |
| I2c.AddressExactly | i2c/i2c.c:195-201 | the address byte in numbers; what is above the low byte is lost |
| I2c.FlagsExactly | i2c/i2c.c:190-199 | the flag bits that make a read and a ten-bit address |
| I2c.InitExactly | i2c/i2c.c:125-142 | the writes of the reset, in numbers |
| I2c.AllOnWire | i2c/i2c.c:217-227 | for any messages, the k-th is on the wire behind those before it, place by place, with what its buffer holds when its turn comes |
| I2c.OthersKeep | i2c/i2c.c:165-174 | a buffer that no read message owns keeps its contents |
| I2c.LogOfOwnBuffers | i2c/i2c.c:217-227 | if messages do not share buffers, the log is the concatenation, in order, of every message's own writes |
| I2c.ContentOfOwnBuffers | i2c/i2c.c:165-174 | if messages do not share buffers, every read buffer holds the received bytes at 0 to len-1 and every write buffer is unchanged |
| I2c.UsedBytes | i2c/i2c.c:165-174 | the bytes taken from the bus are those of the read messages, each once |
| I2c.StartsAndStopsAlternate | i2c/i2c.c:144-156 | for every list, the control writes are one START, one STOP and one INT_FLAG-clear per message, in this order |
| FbStr.SafeAdvance | fbdev/tests/fb_str.c:4713-4736 | on a safe path the unsigned subtraction at the right edge does not wrap, and the next glyph fits |
| FbStr.SafeExactly | fbdev/tests/fb_str.c:4701-4739 | the starts from which every string stays on the screen, both directions |
| FbStr.UnsafeLeaves | fbdev/tests/fb_str.c:4724-4735 | from any other start, a string that leaves the screen |
| FbStr.PrefixStays | fbdev/tests/fb_str.c:4713-4736 | a string that stays on the screen does so up to every byte, and its next glyph fits |
| FbStr.TextIsCString | fbdev/tests/fb_str.c:4709-4715 | the bytes that are visited are those up to the first NUL, and that NUL |
| FbStr.TerminatorDrawn | fbdev/tests/fb_str.c:4713-4722 | the terminator is the last character that is drawn |
| FbStr.RoundExactly | fbdev/tests/fb_str.c:4715-4735 | a round of the loop, in numbers |
| FbStr.LowBytesDrawn | fbdev/tests/fb_str.c:4718 | every byte below 0x80 is drawn |
| FbStr.HighBytesSkipped | fbdev/tests/fb_str.c:4718 | no other byte is drawn |
| FbStr.LayoutFromExactly | fbdev/tests/fb_str.c:4713-4736 | from any start on a text row before the right margin, the place of the k-th drawn byte, in numbers: the first line from the start, the others from the left edge |
| FbStr.EdgeExactly | fbdev/tests/fb_str.c:4713-4736 | from a start in the right margin, the first byte there and the rest from the next row |
| FbStr.EncodeExactly | fbdev/tests/fb_str.c:4648-4667 | the bytes of a stored pixel from the parts of the colour, at every depth |
| FbStr.StoredExactly | fbdev/tests/fb_str.c:4648-4674 | the depths at which a pixel is stored, and its size |
| FbStr.LitExactly | fbdev/tests/fb_str.c:4679-4696 | the leftmost pixel of a glyph row is the high bit of its byte |
| FbStr.GridLayout | fbdev/tests/fb_str.c:4713-4736 | from the origin, the k-th drawn byte, the terminator included, goes to column k mod C and row (k div C) mod 4, with C = ceil((xres - 16) / 8) |
| FbStr.GridShows | fbdev/tests/fb_str.c:4713-4736 | every cell shows the last character that the grid puts there; a pixel of no cell is unchanged |
| FbStr.LastDrawShows | fbdev/tests/fb_str.c:4683-4697 | the last glyph that covers a pixel decides it |
| Pictures.StoreIsDot | fbdev/tests/fb_str.c:4639-4668 | storing the bytes of one pixel changes that pixel of the picture and no other |
| Lcd.Screen.constructor | fbdev/tests/fb_str.c:4766-4780 | the line and pixel widths fit the mapping |
| Lcd.Screen.LcdPutPixel | fbdev/tests/fb_str.c:4637-4675 | one pixel of the picture changes, to the encoded colour; nothing at other depths |
| Lcd.Screen.LcdPutAscii | fbdev/tests/fb_str.c:4677-4698 | the picture with the 128 dots of the glyph drawn |
| Lcd.Screen.LcdPutString | fbdev/tests/fb_str.c:4701-4739 | from any start, for every string that stays on the screen, the picture with the glyphs of the layout drawn in order; nothing is stored at a depth that is not supported |
| Lcd.DotsAt | fbdev/tests/fb_str.c:4683-4697 | inside its cell a glyph shows its own dots, outside the old picture |
| Lcd.DrawingShows | fbdev/tests/fb_str.c:4713-4736 | every pixel after any glyphs: the ink of the last that covers it, or its old value |
| FbCat.InitChannel | drm/drm_simple_display_pipe/tests/fbcat.c:248-253 | fills the entries of a channel |
| FbCat.ReadsInsideExactly | drm/drm_simple_display_pipe/tests/fbcat.c:147 | the reads stay inside the mapped lines iff the visible part of a line fits into the line |
| FbCat.MonoReadsInsideExactly | drm/drm_simple_display_pipe/tests/fbcat.c:108-114 | the same for a mono dump that is not refused, with the bytes of a visible row |
| FbCat.LoadPixel | drm/drm_simple_display_pipe/tests/fbcat.c:152-171 | all three ways to read a pixel give its little-endian value and move behind it |
| FbCat.DumpVideoMemory | drm/drm_simple_display_pipe/tests/fbcat.c:128-181 | the loops with their moving pointer output the rows of decoded pixels |
| FbCat.ReverseBitsReverses | drm/drm_simple_display_pipe/tests/fbcat.c:71-91 | bit k of the multiply, mask and remainder expression is bit 7-k of the byte |
| FbCat.ReverseBitsInvolution | drm/drm_simple_display_pipe/tests/fbcat.c:71-91 | reversing twice is the identity |
| FbCat.DumpVideoMemoryMono | drm/drm_simple_display_pipe/tests/fbcat.c:93-126 | an offset off a byte is refused, whatever the memory; otherwise the rows of reversed, maybe negated bytes |
| FbCatProperties.ImagePixel | drm/drm_simple_display_pipe/tests/fbcat.c:144-178 | pixel (x, y) of the image is the decoded visible pixel (x, y) |
| FbCatProperties.MonoPixel | drm/drm_simple_display_pipe/tests/fbcat.c:111-120 | pixel x of output row y, high bit first, is the visible bit, low bit first, negated iff black is zero |
| FbCatProperties.EntriesIncrease | drm/drm_simple_display_pipe/tests/fbcat.c:248-253 | the colormap is strictly increasing and maps the extremes to 0 and 0xFFFF |
| FbCatMain.ReadFrame | drm/drm_simple_display_pipe/tests/fbcat.c:277-301 | succeeds iff the visible lines exist or are empty, with the mapped frame or with the window and a row offset of zero |
| FbCatMain.Check | drm/drm_simple_display_pipe/tests/fbcat.c:233-276 | the visuals and depths that are accepted |
| FbCatMain.FallbackAgrees | drm/drm_simple_display_pipe/tests/fbcat.c:282-305 | the mapping dumps the image that the window with row offset zero dumps, for every content, offset and geometry, in colour and mono |
| FbCatMain.UnsetEntriesUnread | drm/drm_simple_display_pipe/tests/fbcat.c:217-254 | the screenshot does not depend on the colormap entries that a truecolor visual leaves unset |
| FbCatMain.Capture | drm/drm_simple_display_pipe/tests/fbcat.c:230-305 | the whole program, said of the device alone: which devices are refused and which cannot be read, and otherwise the size of the image and every pixel of it, channel by channel or bit by bit; whether the kernel maps and what the unset colormap entries hold does not matter |
| FbCatMain.OutcomeExactly | drm/drm_simple_display_pipe/tests/fbcat.c:233-301 | the conditions of the two errors, in the fields of the device |
| FbCatMain.Xrgb8888 | drm/drm_simple_display_pipe/tests/fbcat.c:144-174 | a 32-bit screen with eight bits per channel gives an image, with the bytes of the device in the opposite order |
| FbView.Converter.constructor | drm/drm_simple_display_pipe/tools/fbview.py:94-115 | the table exists iff the format is the standard 16-bit one, and has the colour of all 65536 values |
| FbView.Converter.Convert | drm/drm_simple_display_pipe/tools/fbview.py:117-143 | the three paths and every error: short frame, unknown format, negative shift |
| FbView.OutcomeExactly | drm/drm_simple_display_pipe/tools/fbview.py:117-131 | which frames are converted and which raise what, in the depth, the channels and the length |
| FbView.EntryExactly | drm/drm_simple_display_pipe/tools/fbview.py:107-115 | the colour of a 16-bit pixel, in numbers |
| FbView.PixelOf565 | drm/drm_simple_display_pipe/tools/fbview.py:119-121 | the k-th pixel of a 16-bit frame |
| FbView.PixelOf888 | drm/drm_simple_display_pipe/tools/fbview.py:122-128 | the k-th pixel of a 24-bit frame: its bytes in the opposite order |
| FbView.PixelOf32 | drm/drm_simple_display_pipe/tools/fbview.py:133-143 | the k-th pixel of a 32-bit frame |
| FbView.ShiftedBits | drm/drm_simple_display_pipe/tools/fbview.py:139-141 | the bits of a shifted channel: its own from the top, zeros below |
| FbView.Converter.ConvertSlices | drm/drm_simple_display_pipe/tools/fbview.py:122-128 | three strided copies are the pixels one after the other, bytes swapped |
| FbView.Converter.Convert32 | drm/drm_simple_display_pipe/tools/fbview.py:133-143 | every pixel becomes its three shifted channels |
| FbView.SamplesInside | drm/drm_simple_display_pipe/tools/fbview.py:154-158 | every sample indexes inside the image, for every terminal size |
| FbView.AnsiRender | drm/drm_simple_display_pipe/tools/fbview.py:146-165 | every cell shows in its upper half the pixel that the even half-row samples, in its lower half that of the odd one |
| FbView.SamplesExactly | drm/drm_simple_display_pipe/tools/fbview.py:148-156 | the sampled column and row in numbers: the middle of a block, or the last of the image |
| FbView.CellSizeIsLeast | drm/drm_simple_display_pipe/tools/fbview.py:181-187 | the cell size is the least integer for which the image fits, and the grid respects both bounds |
| FbView.GridIsGreatest | drm/drm_simple_display_pipe/tools/fbview.py:186-187 | the grid has as many whole cells as the image, or one |
| FbView.ClampExactly | drm/drm_simple_display_pipe/tools/fbview.py:148-158 | for every grid, with or without --fill: the column clamp is idle iff there are no more columns than pixels, the row clamp iff there are no more half-rows |
| FbView.SamplesIncrease | drm/drm_simple_display_pipe/tools/fbview.py:148-158 | where no clamp is needed, every sample lies in the block of its own cell, and the samples are strictly increasing |
| FbView.PreviewClampExactly | drm/drm_simple_display_pipe/tools/fbview.py:181-187 | without --fill, columns are never clamped, and rows iff the image has a single row |
| Decoders.ShiftBelowMap | drm/drm_simple_display_pipe/tools/fbview.py:139-141 | for every length, fbview's shift stays below fbcat's value by less than 2^(8-L) |
| Decoders.FullChannel | drm/drm_simple_display_pipe/tools/fbview.py:139-141 | the greatest value of a channel is 255 for fbcat and 256 - 2^(8-L) for fbview |
| Decoders.ShiftAgreesExactly | drm/drm_simple_display_pipe/tools/fbview.py:139-141 | they agree on every 32-bit pixel iff the channel, for a field inside the pixel, has eight bits; for a field that crosses the top, iff m + 8 <= 2L for its m bits inside |
| Decoders.Colors565 | drm/drm_simple_display_pipe/tools/fbview.py:105-115 | for all 65536 values the replicated bits are fbcat's colormap entries, cut to eight bits |
| Decoders.DecodersAgree | drm/drm_simple_display_pipe/tools/fbview.py:117-143 | every frame of every size with contiguous lines, at 16, 24 and 32 bits: the two images are the same |
| Strides.AgreeExactly | drm/drm_simple_display_pipe/tests/fbcat.c:144-174 | they agree on every memory iff the format is 565, 888, or 32 bits with channels that match, and there is no offset and no gap between lines |
| Strides.MovedPixel | drm/drm_simple_display_pipe/tests/fbcat.c:147 | a memory that tells them apart if a pixel is not where contiguous lines have it |
| DummyFb.FieldOfChan | fbdev/dummy-fb.c:92-98 | the field receives the top bits of the channel, and nothing is lost |
| DummyFb.ChanRecoversEntry | fbdev/dummy-fb.c:92-98 | chan_to_field of fbcat's colormap entry gives the value back at the field's place, for every length |
| DummyFb.Palette.SetColReg | fbdev/dummy-fb.c:100-128 | sets exactly one entry and returns 0, or changes nothing and returns 1 |
| DummyFb.DeferredIo | fbdev/dummy-fb.c:148-173 | for any list: least first row, greatest end row, and the width by the last page; undetermined for an empty list as in the source |
| DummyFb.EndRowExactly | fbdev/dummy-fb.c:158-161 | the computed end of a page is its last row, or the next iff the page ends with a row that is not the last of the screen |
| DummyFb.RowsExactly | fbdev/dummy-fb.c:154-166 | the reported rows are on the screen and contain every touched row; the first is the first touched; the last is touched iff the greatest page does not end with a row of the screen other than the last, and else is the row behind |
| DummyFb.ExtraRow | fbdev/dummy-fb.c:154-166 | a page of the driver's own screen for which an untouched row is reported |
| DummyFb.FullWidthExactly | fbdev/dummy-fb.c:168-169 | the full width is reported for every list of pages iff a page holds two lines, or the screen is one pixel wide |
| DummyFb.TouchedInside | fbdev/dummy-fb.c:154-169 | every pixel with a byte in a listed page is in the rectangle |
| Rgb565.PackingsAgree | fbdev/tests/fb_str.c:4657-4661 | for every colour, the text writer's pixel is the driver's palette packing of the channels times 257 |
| Rgb565.Pack565IsOr | fbdev/tests/fb_str.c:4660 | the parts joined by bitwise or are their sum |
| Rgb565.WidenedIsOr | drm/drm_simple_display_pipe/tools/fbview.py:111-114 | the replicated bits joined by bitwise or are a sum |
| Rgb565.DecodeEncode | drm/drm_simple_display_pipe/tools/fbview.py:108-115 | decoding any pixel and encoding again is the identity |
| Rgb565.EncodeDecode | drm/drm_simple_display_pipe/tools/fbview.py:108-115 | encoding any colour and decoding moves red and blue by at most 7, green by at most 3 |
| Rgb565.KeptExactly | drm/drm_simple_display_pipe/tools/fbview.py:108-115 | a colour is kept iff some pixel decodes to it |
| FbRectangle.StorePixel | fbdev/tests/fb_rectangle.c:76-78 | the three stores for a pixel, red first, at its place and inside the mapping |
| FbRectangle.StoreRectangle | fbdev/tests/fb_rectangle.c:72-81 | the nested loops with their advancing pointer make all the stores of one rectangle and no other |
| FbRectangle.Run | fbdev/tests/fb_rectangle.c:46-86 | for every window from which no store can leave the mapping and any random numbers, the memory after the stores of all the rectangles in order |
| FbRectangle.RectangleExactly | fbdev/tests/fb_rectangle.c:74-81 | at 24 and 32 bits exactly the low three bytes of the pixels of the rectangle change, to b, g, r; at 16 bits both bytes and the low byte of the pixel behind each row |
| FbRectangle.SceneAt | fbdev/tests/fb_rectangle.c:66-81 | every pixel after any rectangles, from its old value |
| FbRectangle.LastCovers | fbdev/tests/fb_rectangle.c:66-81 | at 24 and 32 bits the last rectangle over a pixel shows, and the fourth byte is never written |
| FbRectangle.LastHits | fbdev/tests/fb_rectangle.c:66-81 | at 16 bits, the last rectangle over a pixel decides both bytes, and one just left of it the low byte |
| FbRectangle.WholeScreen | fbdev/tests/fb_rectangle.c:49-56 | without anything in the environment every rectangle fits |
| FbRectangle.WindowExactly | fbdev/tests/fb_rectangle.c:60-72 | every rectangle that can be chosen is empty or lies on the screen, at 16 bits with the column behind it, iff the window is larger than the screen by one column and one row at most, at 16 bits by one row |
| FbRectangle.MappingExactly | fbdev/tests/fb_rectangle.c:58-81 | every store for every rectangle that can be chosen is inside the mapping iff the rectangles are empty or the last store of the last of them is |
| FbRectangle.PaintedIsScene | fbdev/tests/fb_rectangle.c:66-81 | the stores for rectangles that fit paint the scene: the screen seen as a picture with the rectangles drawn in order |
| FbRectangle.RunShows | fbdev/tests/fb_rectangle.c:46-86 | for a window whose rectangles fit, the mapping suffices and the program leaves the scene of the chosen rectangles |
| FbRectangle.ChosenExactly | fbdev/tests/fb_rectangle.c:67-72 | where the chosen rectangle starts in the window, and its colour, in numbers |
| FbRectangle.RunExactly | fbdev/tests/fb_rectangle.c:46-86 | the bytes of every pixel after the program at 24 and 32 bits, from the random numbers |
| FbRectangle.NarrowRunExactly | fbdev/tests/fb_rectangle.c:46-86 | the bytes of every pixel after the program at 16 bits |
| Pipeline.SeenIsNear | fbdev/tests/fb_str.c:4655-4662 | what is seen of a colour is near it; white and black are exact |
| Pipeline.TextDecodes | fbdev/tests/fb_str.c:4701-4739 | after any drawing, every triple of the image is the decoded ink of the last glyph over it, or that of the image before |
| Pipeline.GridDecodes | fbdev/tests/fb_str.c:4713-4736 | a text from the origin: in each cell the last character in its colour on black, elsewhere the image before |
| Pipeline.DrawAndDump | drm/drm_simple_display_pipe/tests/fbcat.c:144-174 | the writer and the screenshot program, run one after the other, for every string, its terminator included, font and geometry |
| Pipeline.RectanglesDecode | fbdev/tests/fb_rectangle.c:66-81 | after any rectangles at 24 or 32 bits, every triple of fbcat's image is the r, g, b of the last rectangle over it, or that of the image before |
| Pipeline.NarrowRectanglesDecode | fbdev/tests/fb_rectangle.c:66-81 | the same at 16 bits: a rectangle shows as the 565 colour of its blue and green bytes, the pixels behind it as that of its red byte and their old high byte |
| Pipeline.BothDecode | drm/drm_simple_display_pipe/tools/fbview.py:117-121 | the viewer makes the same image of the same frame |
| Pipeline.FlushCovers | fbdev/dummy-fb.c:148-173 | whatever was stored, every pixel that changed is in the rectangle reported for the changed pages |
| Pipeline.TextIsFlushed | fbdev/dummy-fb.c:148-173 | on the driver's screen, a pixel outside the reported rectangle keeps its value whatever text was drawn |

## Left out

- Lcd.Screen.LcdPutString: a string that leaves the screen is excluded, because its stores leave the mapping. The message that the program prints at a depth that is not supported is not modelled.
- VideoDriver.DummyVideo.TimerFunc: the callback runs here without a step of the other thread in between; the interleavings are in VideoMachine, whose steps the smaller methods are proved to be, and which any caller may interleave.
- FbRectangle.RunShows: says nothing of rectangles that cross the right edge of the screen and go on in the next row; for those only the memory is stated, by Run.
- FbRectangle.Run: windows of no or of negative width or height, for which the remainder divides by zero or by a wrapped number, windows at negative places, and windows from which a store can leave the mapping are excluded; MappingExactly says which the last are. The time limit becomes the length of the list of random numbers.
- FbCatMain.Capture: fbcat leaves the colormap entries above 2^length unset; they are arbitrary here and never read. A zero-length colour field of a truecolor visual, which divides by zero, is excluded, and so is a visible line longer than its line, whose reads leave the mapping. An allocation of no bytes succeeds. A device shorter than the mapping makes mmap fail, as the framebuffer core does.
- FbView.Converter.constructor: the masks are not stored; each shift takes its field from the channel.
- DummyFb.DeferredIo: offsets and rows are unbounded numbers; the kernel's offsets stay below the size of the video memory, which fits 32 bits.
- Pipeline.DrawAndDump: the screen is drawn and read through one memory; the mmap of the writer and the read of the decoder are not modelled.
- Byte offsets are unbounded numbers: a geometry whose frame has 2^32 bytes or more, or 2^32 bits or more for the rectangle writer, wraps in C and not here. Pixels of more than four bytes, which no framebuffer has, are not wrapped either.
- Ten-bit I2C addresses: the code drops their high bits, so that nothing can be recovered from the log; the address is only computed.
- The headers of the images, terminal escapes, windows, files, ioctl calls and argument parsing: geometry, bytes and random numbers are inputs.
- Registration, class, device and character-device calls of all drivers, and the stub drivers (gpio, spi, firmware, regulator, net, bus): straight-line calls into the kernel.
- The DRM driver, sys_fillrect and its siblings, fb_sys_read and fb_sys_write: code outside this repository.
- The V4L2 format and capability queries: constant answers.
- The font and the JPEG frames: any table of 4096 bytes and any 25 frames no longer than a plane of 600 x 350 x 2 bytes (`v4l2/video.c:44-48`). The longest frame of `v4l2/frames.h` has 103854 bytes.
