# emulate-hid: a verified model of the serial-to-HID mouse pipeline

The firmware in `main/usb_hid_device_main.c` receives pointer-motion commands
over a serial link. It replays them as USB HID mouse reports. This project
models the four stages of that pipeline in Dafny and proves what each stage
promises:

- **Frame decoder** (`parser_uart_mouse_move`, module `FrameDecoder`). A frame
  is a 4-byte header followed by the points:
  - the point count, a little-endian `uint16`;
  - a click byte;
  - a reset byte;
  - then `count` pairs of signed bytes `(dx, dy)`.

  `Decode` is a pure function. `Encode`, its inverse, is proved to round-trip
  with it in both directions.
- **Motion quantizer** (`move_mouse_large_distance`, module `MotionQuantizer`).
  The `while` loop is a method whose trace is proved equal to a closed-form
  run `Decomposition(x, y, vertical, horizontal)`. Lemmas about that run prove
  that:
  - every component lies in [-127, 127];
  - each axis adds up exactly to its target;
  - the run is as long as the slowest axis needs, `max ceil(|a| / 127)`;
  - a zero target sends nothing.

  The `Int32` remainders are checked never to leave the 32-bit range.
- **Frame executor** (`move_mouse`, module `FrameExecutor`). The method sends,
  in this order:
  - the reset run towards (-4000, -5000), which is 40 reports;
  - one move per point;
  - a left press and a release.

  It is proved equal to `FrameReports`. The order and the net displacement of
  those reports are proved separately.
- **Stream reassembler** (the static state of `uart_data_event_handler`,
  module `StreamReassembler`). The class `Reassembler` holds these fields:
  - `startFlag`;
  - `totSize`;
  - the `pointData` array;
  - `pointDataIndex`.

  Its `Feed` method is proved to do three things:
  - execute exactly the frames that `SplitFrames` cuts from the pending bytes
    followed by the chunk, in order;
  - keep the incomplete tail;
  - never write outside its buffer.

  Lemmas about `SplitFrames` prove that:
  - the cut loses and invents no byte;
  - the cut is unique;
  - how the stream is divided into chunks changes neither the frames nor the
    trace (`FeedAll`).

The reassembler as the source writes it differs from this corrected one on
several inputs. Module `AsWritten` models the handler as written and exhibits
each difference; see "## Findings".

The report sink (`tinyusb_hid_mouse_move_report` and
`tinyusb_hid_mouse_button_report`) is the class `HidReport.HidSink`. It
appends every report to a ghost `trace`, and all properties of the executor
and the reassembler are stated over that trace. Integer widths are explicit:
- `Byte`, `Int8`, `Int16` and `Int32` are subset types;
- `ToInt8` is the two's-complement reading of a byte;
- `ToInt16` is the conversion to `int16_t`.

## Model

| member | source | states |
|---|---|---|
| HidReport.ToInt8 | main/usb_hid_device_main.c:109 | a byte read through `int8_t *` is the two's-complement value: congruent to the byte mod 256, negative exactly when the top bit is set |
| HidReport.ToInt16 | main/usb_hid_device_main.c:120 | storing into `int16_t` keeps the value mod 2^16 and leaves values in [-32768, 32767] unchanged |
| HidReport.HidSink.MoveReport | main/usb_hid_device_main.c:151-152 | a move report is appended to the trace, nothing else changes |
| HidReport.HidSink.ButtonReport | main/usb_hid_device_main.c:175-176 | a button report is appended to the trace, nothing else changes |
| HidReport.ButtonsDoNotMove | main/usb_hid_device_main.c:175-176 | button reports add nothing to the displacement |
| FrameDecoder.HeaderCount | main/usb_hid_device_main.c:106 | the little-endian count of the two header bytes (also read at line 220) always fits 16 bits; HeaderCountBytes states how it determines the bytes |
| FrameDecoder.HeaderCountBytes | main/usb_hid_device_main.c:106 | the point count equals n exactly when its low byte is n mod 256 and its high byte n / 256 |
| FrameDecoder.DecodePoints | main/usb_hid_device_main.c:109 | point i is the signed reading of bytes 2i and 2i+1, for exactly n points |
| FrameDecoder.Decode | main/usb_hid_device_main.c:103-123 | count = buf[0] + 256·buf[1]; click iff buf[2] = 1; reset iff buf[3] = 1; point i is (buf[4+2i], buf[5+2i]) as signed bytes |
| FrameDecoder.Encode | main/usb_hid_device_main.c:103-123 | the bytes a sender writes for a frame form exactly one complete frame of the declared length |
| FrameDecoder.DecodeEncode | main/usb_hid_device_main.c:103-123 | decoding an encoded frame gives back every field |
| FrameDecoder.EncodeDecodePoints | main/usb_hid_device_main.c:109 | re-encoding decoded points gives back the 2n bytes they were read from |
| FrameDecoder.EncodeDecode | main/usb_hid_device_main.c:103-123 | re-encoding a decoded buffer gives back its first FrameLength bytes when the flag bytes are 0 or 1 |
| FrameDecoder.DecodeExample | main/usb_hid_device_main.c:103-123 | `02 00 01 00 05 05 FA FA` decodes to two points (5, 5), (-6, -6) with click and no reset |
| MotionQuantizer.Clamp | main/usb_hid_device_main.c:135-148 | the per-report component lies in [-127, 127]: 127 above, -127 below, the remainder itself when it already fits |
| MotionQuantizer.Decomposition | main/usb_hid_device_main.c:132-152 | every report of the run is a move with all four components in [-127, 127] |
| MotionQuantizer.RemainderZero | main/usb_hid_device_main.c:132-133 | an axis's remainder is zero exactly once it has had ceil(abs(a) / 127) reports |
| MotionQuantizer.RemainderStep | main/usb_hid_device_main.c:155-158 | subtracting the clamped remainder gives the next remainder |
| MotionQuantizer.Ceil127Positive | main/usb_hid_device_main.c:132-133 | an axis needs at least one report iff its target is non-zero |
| MotionQuantizer.DecompositionEmpty | main/usb_hid_device_main.c:132-133 | the run is empty iff all four targets are zero |
| MotionQuantizer.ReportAtAdvances | main/usb_hid_device_main.c:151-158 | adding report i to what was sent before leaves each axis at its remainder after i + 1 reports |
| MotionQuantizer.DecompositionPrefixSums | main/usb_hid_device_main.c:132-159 | about the closed-form run (the loop's own invariants tie it to the remainders): the first m reports sum, per axis, to the target minus the remainder after m reports |
| MotionQuantizer.DecompositionSums | main/usb_hid_device_main.c:132-159 | the whole run sums exactly to (x, y, vertical, horizontal) |
| MotionQuantizer.DecompositionLength | main/usb_hid_device_main.c:132-159 | the run stops where the loop condition of lines 132-133 does: some remainder is non-zero before every report and all four are zero after the last; hence it has max over the axes of ceil(abs(a) / 127) reports, which is how many iterations MoveLargeDistance makes |
| MotionQuantizer.Decomposition300 | main/usb_hid_device_main.c:125-160 | x = 300 is sent as 127, 127, 46 |
| MotionQuantizer.MoveLargeDistance | main/usb_hid_device_main.c:125-160 | the loop appends exactly the run Decomposition(x, y, vertical, horizontal) to the trace |
| FrameExecutor.PointReports | main/usb_hid_device_main.c:166-171 | one move (dx, dy, 0, 0) per point, in index order |
| FrameExecutor.ResetRun | main/usb_hid_device_main.c:163-165 | the reset run is 40 moves summing to (-4000, -5000, 0, 0), or nothing without the flag |
| FrameExecutor.FrameReportsOrder | main/usb_hid_device_main.c:162-178 | the reset run, then exactly pointCount moves in order, then press and release as the last two reports when clicked; no other button reports |
| FrameExecutor.ClickDisplacement | main/usb_hid_device_main.c:173-177 | the press and release move nothing |
| FrameExecutor.FrameDisplacement | main/usb_hid_device_main.c:162-178 | a frame moves the pointer by the reset offset plus the sum of its points |
| FrameExecutor.MoveMouse | main/usb_hid_device_main.c:162-178 | the trace gains exactly FrameReports(f) |
| FrameExecutor.ExampleFrameReports | main/usb_hid_device_main.c:162-178 | the frame `02 00 01 00 05 05 FA FA` sends two moves, a press and a release |
| StreamReassembler.SplitFramesSound | main/usb_hid_device_main.c:235-244 | the frames and the tail put back together are the stream; each frame is exactly one frame; the tail is incomplete |
| StreamReassembler.SoundAfterFrame | main/usb_hid_device_main.c:235-244 | a sound cut of what follows a complete first frame extends to a sound cut of the whole |
| StreamReassembler.ConcatAppend | main/usb_hid_device_main.c:224-232 | the bytes of two frame lists laid end to end are the two byte strings joined |
| StreamReassembler.AllFramesCons | main/usb_hid_device_main.c:235-244 | a frame list with one more in front is all frames iff the new one and the rest are |
| StreamReassembler.SplitAfterFrame | main/usb_hid_device_main.c:235-244 | a stream that starts with a frame is cut right after it |
| StreamReassembler.IncompleteKept | main/usb_hid_device_main.c:235 | while fewer bytes than the frame length have arrived, nothing is cut and all bytes are kept |
| StreamReassembler.CompleteFrameAlone | main/usb_hid_device_main.c:235-244 | exactly one frame's bytes give that frame and leave nothing |
| StreamReassembler.EmptyChunk | main/usb_hid_device_main.c:231-235 | an empty chunk cuts nothing and keeps the pending bytes |
| StreamReassembler.SplitUnique | main/usb_hid_device_main.c:235-244 | any cut into complete frames followed by an incomplete tail is the one SplitFrames gives |
| StreamReassembler.SplitAppend | main/usb_hid_device_main.c:224-235 | cutting s + t gives the frames of s, then the frames of what s left followed by t |
| StreamReassembler.ChunkingIrrelevant | main/usb_hid_device_main.c:224-235 | feeding chunks one by one gives the same frames and tail as feeding their concatenation |
| StreamReassembler.ChunkedFrame | main/usb_hid_device_main.c:219-235 | a 10-byte frame in chunks of 3, 3 and 4 comes out as that one frame |
| StreamReassembler.ChunkedFrameReports | main/usb_hid_device_main.c:162-178 | that frame (3 points, no reset, no click) sends its three points as moves and nothing else |
| StreamReassembler.HeaderSplitAcrossChunks | main/usb_hid_device_main.c:220 | a lone header byte waits for the next chunk, and the frame still comes out whole |
| StreamReassembler.LargeCountHeaderWaits | main/usb_hid_device_main.c:222 | a 16382-point header gives length 32768 and waits for its points |
| StreamReassembler.StreamReportsAppend | main/usb_hid_device_main.c:242 | executing one more frame appends its reports |
| StreamReassembler.StreamReportsConcat | main/usb_hid_device_main.c:235-244 | executing two lists of frames one after the other sends the reports of the first, then those of the second |
| StreamReassembler.CutOneMoreChunk | main/usb_hid_device_main.c:224-235 | cutting the stream one chunk further adds the frames of what was pending followed by that chunk |
| StreamReassembler.ResumeAfterFrame | main/usb_hid_device_main.c:235-244 | cutting off one more frame does not change the final cut |
| StreamReassembler.Reassembler.PendingIncomplete | main/usb_hid_device_main.c:219-235 | between chunks the pending bytes never hold a complete frame, and a collecting buffer is sized by its own header |
| StreamReassembler.Reassembler.FullIsFrame | main/usb_hid_device_main.c:235-238 | a full buffer is exactly one frame |
| StreamReassembler.Reassembler.constructor | main/usb_hid_device_main.c:209-212 | the handler starts idle with nothing pending, in a newly allocated buffer that no caller shares, so a new handler can be fed at once |
| StreamReassembler.Reassembler.Take | main/usb_hid_device_main.c:219-232 | the pending bytes grow by exactly the bytes taken from the chunk, at least one, never past the frame's end |
| StreamReassembler.Reassembler.Execute | main/usb_hid_device_main.c:235-244 | the full buffer is a frame; its reports are appended; the state returns to idle with nothing pending |
| StreamReassembler.Reassembler.Step | main/usb_hid_device_main.c:218-245 | one round keeps the cut of the whole stream and the trace in step with the frames executed so far |
| StreamReassembler.Reassembler.Feed | main/usb_hid_device_main.c:207-248 | after a chunk, every frame SplitFrames cuts from pending + chunk has been executed in order, and exactly its tail is pending |
| StreamReassembler.Reassembler.FeedAll | main/usb_hid_device_main.c:207-248 | handing the chunks to the handler in order executes the frames of the whole stream cut at once, leaves its tail pending, and sends the same trace, whatever the chunking |
| StreamReassembler.ChunkedFrameTrace | main/usb_hid_device_main.c:207-248 | a new handler fed the chunks of 3, 3 and 4 bytes sends exactly the moves (1,1), (2,2), (3,3) |
| StreamReassembler.CopyInto | main/usb_hid_device_main.c:231 | `memcpy`: the source bytes replace those at the offset, the rest of the array is unchanged |
| AsWritten.SourceHandle | main/usb_hid_device_main.c:218-245 | the handler reads past the chunk iff it is idle and the chunk has fewer than 2 bytes |
| AsWritten.SourceTotSize | main/usb_hid_device_main.c:222 | `tot_size` is the frame length modulo 2^16 as an `int16_t`, exact for counts below 16382 |
| AsWritten.Capacity | main/usb_hid_device_main.c:223 | the bytes `malloc(tot_size)` makes usable: `tot_size` when it is not negative, none when it is zero or negative (a negative `int16_t` becomes a huge `size_t` request, taken to fail) |
| AsWritten.SourceReplayCount | main/usb_hid_device_main.c:166 | the points the loop replays once the count went through `int16_t` (line 120): the count itself below 32768, otherwise none |
| AsWritten.SourceTotSizeTruncates | main/usb_hid_device_main.c:222 | `tot_size` equals the frame length iff the count is below 16382 |
| AsWritten.SourceTruncatedFrameCompletesEarly | main/usb_hid_device_main.c:219-238 | a 16382-point header completes at once, with 4 bytes past the failed allocation, and goes to the parser |
| AsWritten.SourceOverreadsShortHeader | main/usb_hid_device_main.c:220 | a 1-byte chunk while idle makes the header read go past it |
| AsWritten.SourceOverflowsLongChunk | main/usb_hid_device_main.c:222-224 | an 8-byte chunk for a 6-byte frame writes 2 bytes past the block |
| AsWritten.SourceLongChunk | main/usb_hid_device_main.c:219-244 | any idle chunk longer than its frame of fewer than 16382 points overflows by the excess and is parsed as one frame |
| AsWritten.SourceDropsCoalescedFrame | main/usb_hid_device_main.c:235-244 | a chunk holding two frames is parsed as one, while the stream holds two |
| AsWritten.DecodeLeading | main/usb_hid_device_main.c:103-123 | the parser reads a buffer that starts with a whole frame as that frame, and ignores every byte after it |
| AsWritten.SourceLosesTrailingFrame | main/usb_hid_device_main.c:235-244 | for any two frames arriving in one completing chunk, the host gets only the first frame's reports, where executing both frames sends both in turn |
| AsWritten.SourceSendsMoveOnly | main/usb_hid_device_main.c:235-244 | for the chunk `01 00 00 00 05 05 00 00 01 00` the host gets the move (5,5) alone, so the click is lost |
| AsWritten.FeedKeepsCoalescedClick | main/usb_hid_device_main.c:207-248 | the same chunk fed to a new handler that keeps the excess bytes sends the move (5,5), a left press and a release |
| AsWritten.SourceCollectsAcrossChunks | main/usb_hid_device_main.c:219-244 | a 3-point frame sent as `03 00 00` then `00 01 01 02 02 03 03`: the first chunk sizes a 10-byte block and waits in the collecting state, and the second completes it without overflow, handing the whole 10-byte frame to the parser |
| AsWritten.SourceOverflowsLaterChunk | main/usb_hid_device_main.c:219-244 | after `01 00 00` sized a 6-byte block, the chunk `00 05 05 09 09` completes the frame but copies 2 bytes past the block; they are handed to the parser with the frame but never decoded as a frame of their own |
| AsWritten.SourceAgreesOnSingleFrame | main/usb_hid_device_main.c:219-244 | where the handler is right, an idle chunk that is exactly one frame of fewer than 16382 points fills the block without overflow and is parsed as the one frame SplitFrames cuts |
| AsWritten.SourceSkipsPoints | main/usb_hid_device_main.c:166 | the replay loop runs count times iff count < 32768, and zero times above |

## Left out

- I/O and concurrency are not modelled. This covers UART and USB setup, `rx_task` polling, the FreeRTOS tasks, and the `esp_event_post` hand-off. `Feed` receives the chunks in the order they were read.
- The USB lifecycle callbacks and every `ESP_LOGI` call are not modelled. They only log.
- The transmission of HID reports inside TinyUSB is a foreign library. It is modelled only as the appended trace.
- `MOUSE_BUTTON_LEFT` is 1, bit 0 of the TinyUSB button map. TinyUSB's header is not part of this model.
- `malloc` and `free` are modelled as allocating a fresh Dafny array. An allocation failure is not modelled in the corrected reassembler, and the garbage collector stands in for `free`.
- The host-side script `main/mouse_pos_print.py` is not modelled. It is only a polling loop.
- FrameDecoder.HeaderCount: reads both header bytes as unsigned, as line 106 does. Line 220 reads them through `char`, which would sign-extend a byte ≥ 0x80 where `char` is signed; the model takes the unsigned reading.
- FrameDecoder.Decode: requires a complete buffer. The source passes `data_size` but never checks it, and in the corrected reassembler its caller always supplies a complete frame.
- FrameDecoder.Decode: the points are full `int8_t` values, as the code reads them at line 109, and are sent as they are. A point of -128 therefore reaches the report, although the report's relative axes are meant to carry -127 to 127, the range the quantizer keeps to.
- StreamReassembler.Reassembler.Feed: keeps the bytes that follow a completed frame and waits for a second header byte, instead of reproducing the source's handling. The source's handling is in `AsWritten`.
- StreamReassembler.Reassembler.Feed: accepts the empty chunk, which `rx_task` never posts.
- AsWritten.SourceHandle: states how many bytes land outside the block, not the memory they corrupt.

## Findings

| source | as written | input that shows it | evidently intended | confidence | as-written member | corrected member |
|---|---|---|---|---|---|---|
| main/usb_hid_device_main.c:222-224 | the first chunk is copied whole into `malloc(tot_size)` | idle chunk `01 00 00 00 05 05 09 09` (a 6-byte frame plus 2 bytes) | copy at most the bytes the frame still lacks | high, not executed | AsWritten.SourceOverflowsLongChunk | StreamReassembler.Reassembler.Take |
| main/usb_hid_device_main.c:235-244 | bytes past `tot_size` in the completing chunk are freed with the frame | chunk `01 00 00 00 05 05 00 00 01 00` (a move, then a click frame) | keep the excess bytes as the start of the next frame | high, not executed | AsWritten.SourceDropsCoalescedFrame | StreamReassembler.Reassembler.Feed |
| main/usb_hid_device_main.c:220 | the header reads `data[1]` from a chunk of any length | a 1-byte idle chunk `02` | wait for the second header byte | medium, not executed | AsWritten.SourceOverreadsShortHeader | StreamReassembler.HeaderSplitAcrossChunks |
| main/usb_hid_device_main.c:222 | `tot_size` is `int16_t`, so 4 + 2·count wraps for counts ≥ 16382 | header `FE 3F 00 00` (16382 points, length 32768) | the full frame length | high, not executed | AsWritten.SourceTruncatedFrameCompletesEarly | StreamReassembler.LargeCountHeaderWaits |
| main/usb_hid_device_main.c:166 | `point_cnt` is `int16_t`, so counts ≥ 32768 read negative and the loop sends no point | count 32768 (`00 80` in the header) | one move per declared point | high, not executed | AsWritten.SourceSkipsPoints | FrameExecutor.FrameReportsOrder |
