/** The chunk handler and the point count as the firmware writes them, with
    the inputs on which they go wrong. The rest of the model uses the
    corrected versions (StreamReassembler, FrameDecoder, FrameExecutor);
    this module only exhibits the differences. */
module AsWritten {
  import opened HidReport
  import opened FrameDecoder
  import opened FrameExecutor
  import opened StreamReassembler

  datatype Option<T> = None | Some(value: T)

  /** The handler's static variables: `start_flag`, `tot_size` (an
      `int16_t`), the bytes the `malloc`ed block can hold, and what has been
      written from the block's start (`point_data_index` is its length). */
  datatype SourceState = SourceState(startFlag: bool, totSize: Int16, capacity: nat, written: seq<Byte>)

  const Initial: SourceState := SourceState(true, 0, 0, [])

  /** What one call of the handler does: read past the end of the chunk
      for the header, or buffer the chunk (`overflow` of its bytes landing
      past the allocated block) and, once `tot_size` is reached, hand the
      whole buffer to the parser and go back to idle. */
  datatype Outcome =
    | HeaderOverread
    | Handled(next: SourceState, overflow: nat, parsed: Option<seq<Byte>>)

  /** `tot_size = 2 + 2 + (point_cnt * 2)` stored into an `int16_t`: the
      frame length modulo 2^16, exact while it fits. */
  function SourceTotSize(count: nat): (t: Int16)
    ensures (FrameLength(count) - t) % 0x1_0000 == 0
    ensures count < 16382 ==> t == FrameLength(count)
  {
    ToInt16(FrameLength(count))
  }

  /** What `malloc(tot_size)` provides: a negative `int16_t` becomes a huge
      `size_t` request that fails, leaving no usable block. */
  function Capacity(totSize: Int16): (c: nat)
    ensures totSize >= 0 ==> c == totSize
    ensures c == 0 <==> totSize <= 0
  {
    if totSize < 0 then 0 else totSize
  }

  /** The handler of lines 218-245 on one chunk; the UART task only posts
      chunks of at least one byte. */
  function SourceHandle(st: SourceState, chunk: seq<Byte>): (o: Outcome)
    requires |chunk| > 0
    ensures o.HeaderOverread? <==> st.startFlag && |chunk| < 2
  {
    if st.startFlag && |chunk| < 2 then HeaderOverread
    else
      var totSize := if st.startFlag then SourceTotSize(HeaderCount(chunk[0], chunk[1])) else st.totSize;
      var capacity := if st.startFlag then Capacity(totSize) else st.capacity;
      var before := if st.startFlag then [] else st.written;
      var written := before + chunk;
      var inBounds := if |before| > capacity then |before| else capacity;
      var overflow := if |written| > inBounds then |written| - inBounds else 0;
      if |written| >= totSize then Handled(SourceState(true, totSize, 0, []), overflow, Some(written))
      else Handled(SourceState(false, totSize, capacity, written), overflow, None)
  }

  /** The points `move_mouse` replays: `point_cnt` is an `int16_t`, so the
      loop `i < point_cnt * 2` runs zero times once the count reads negative. */
  function SourceReplayCount(count: nat): (n: nat)
    requires count < 0x1_0000
    ensures n == count || n == 0
    ensures count < 0x8000 ==> n == count
    ensures count >= 0x8000 ==> n == 0
  {
    var c := ToInt16(count);
    if c < 0 then 0 else c
  }

  /** `tot_size` is right exactly for counts below 16382; above, it wraps. */
  lemma SourceTotSizeTruncates(count: nat)
    requires count < 0x1_0000
    ensures SourceTotSize(count) == FrameLength(count) <==> count < 16382
    ensures SourceTotSize(16382) == -0x8000
    ensures SourceTotSize(32766) == 0
    ensures SourceTotSize(0xFFFF) == 2
  {
    if count >= 16382 {
      assert FrameLength(count) >= 0x8000;
    }
  }

  /** A frame of 16382 points: the header alone "completes" it, its 4
      bytes land past an allocation that failed, they go to the parser, and
      `move_mouse` then reads 16382 points past them. */
  lemma SourceTruncatedFrameCompletesEarly()
    ensures SourceHandle(Initial, [0xFE, 0x3F, 0, 0])
         == Handled(SourceState(true, -0x8000, 0, []), 4, Some([0xFE, 0x3F, 0, 0]))
  {
    var chunk: seq<Byte> := [0xFE, 0x3F, 0, 0];
    assert HeaderCount(chunk[0], chunk[1]) == 16382;
    SourceTotSizeTruncates(16382);
    assert [] + chunk == chunk;
  }

  /** A lone byte while idle: the header read takes `data[1]` from past the
      end of the chunk. The corrected reassembler keeps the byte and waits. */
  lemma SourceOverreadsShortHeader()
    ensures SourceHandle(Initial, [2]) == HeaderOverread
  {
  }

  /** A chunk longer than its frame: two bytes are copied past the 6-byte
      block, and those bytes are dropped rather than start the next frame. */
  lemma SourceOverflowsLongChunk()
    ensures SourceHandle(Initial, [1, 0, 0, 0, 5, 5, 9, 9])
         == Handled(SourceState(true, 6, 0, []), 2, Some([1, 0, 0, 0, 5, 5, 9, 9]))
  {
    var chunk: seq<Byte> := [1, 0, 0, 0, 5, 5, 9, 9];
    assert HeaderCount(chunk[0], chunk[1]) == 1;
    SourceTotSizeTruncates(1);
    assert [] + chunk == chunk;
  }

  /** Whenever an idle chunk carries more than its frame (and the size fits
      `tot_size`), every extra byte is copied past the block and the whole
      chunk goes to the parser as one frame: the extra bytes never start
      the next frame. */
  lemma SourceLongChunk(chunk: seq<Byte>)
    requires |chunk| >= 2
    requires HeaderCount(chunk[0], chunk[1]) < 16382
    requires |chunk| > FrameLength(HeaderCount(chunk[0], chunk[1]))
    ensures var n := FrameLength(HeaderCount(chunk[0], chunk[1]));
      SourceHandle(Initial, chunk) == Handled(SourceState(true, n, 0, []), |chunk| - n, Some(chunk))
  {
    SourceTotSizeTruncates(HeaderCount(chunk[0], chunk[1]));
    assert [] + chunk == chunk;
  }

  /** Two frames in one chunk: the handler parses the first and discards
      the second (a click), where the stream holds both. */
  lemma SourceDropsCoalescedFrame()
    ensures SourceHandle(Initial, [1, 0, 0, 0, 5, 5, 0, 0, 1, 0])
         == Handled(SourceState(true, 6, 0, []), 4, Some([1, 0, 0, 0, 5, 5, 0, 0, 1, 0]))
    ensures SplitFrames([1, 0, 0, 0, 5, 5, 0, 0, 1, 0])
         == Split([[1, 0, 0, 0, 5, 5], [0, 0, 1, 0]], [])
  {
    var chunk: seq<Byte> := [1, 0, 0, 0, 5, 5, 0, 0, 1, 0];
    assert HeaderCount(chunk[0], chunk[1]) == 1;
    SourceTotSizeTruncates(1);
    assert [] + chunk == chunk;
    var first: seq<Byte> := [1, 0, 0, 0, 5, 5];
    var second: seq<Byte> := [0, 0, 1, 0];
    assert IsFrame(first) && IsFrame(second);
    SplitAfterFrame(second, []);
    SplitAfterFrame(first, second);
    assert first + second == [1, 0, 0, 0, 5, 5, 0, 0, 1, 0];
    assert second + [] == second;
  }

  /** The reports of a buffer with no reset, no click and one point. */
  lemma OneMoveReports(buf: seq<Byte>, x: Int8, y: Int8)
    requires IsComplete(buf) && HeaderCount(buf[0], buf[1]) == 1 && buf[2] == 0 && buf[3] == 0
    requires ToInt8(buf[4]) == x && ToInt8(buf[5]) == y
    ensures FrameReports(Decode(buf)) == [Move(x, y, 0, 0)]
  {
    var f := Decode(buf);
    ResetRun(false);
    assert f.points == [Point(x, y)];
  }

  /** The reports of a frame with no points, the click flag and no reset. */
  lemma ClickOnlyReports(buf: seq<Byte>)
    requires IsComplete(buf) && HeaderCount(buf[0], buf[1]) == 0 && buf[2] == 1 && buf[3] == 0
    ensures FrameReports(Decode(buf)) == [Buttons(MOUSE_BUTTON_LEFT), Buttons(0)]
  {
    var f := Decode(buf);
    assert f.points == [] && f.click && !f.needInit;
    ResetRun(false);
  }

  /** Decoding a buffer that starts with a whole frame reads that frame and
      ignores the bytes after it. */
  lemma DecodeLeading(first: seq<Byte>, rest: seq<Byte>)
    requires IsFrame(first)
    ensures IsComplete(first + rest)
    ensures Decode(first + rest) == Decode(first)
  {
    var buf := first + rest;
    var n := HeaderCount(first[0], first[1]);
    assert buf[0] == first[0] && buf[1] == first[1] && buf[2] == first[2] && buf[3] == first[3];
    var f, g := Decode(buf), Decode(first);
    forall i | 0 <= i < n
      ensures f.points[i] == g.points[i]
    {
      assert buf[4 + 2 * i] == first[4 + 2 * i] && buf[5 + 2 * i] == first[5 + 2 * i];
    }
  }

  /** Two frames coalesced into one completing chunk: the handler parses the
      buffer as the first frame alone, so the host gets only the first
      frame's reports, where executing both frames sends both in turn. */
  lemma SourceLosesTrailingFrame(first: seq<Byte>, second: seq<Byte>)
    requires IsFrame(first) && IsFrame(second)
    ensures IsComplete(first + second)
    ensures FrameReports(Decode(first + second)) == FrameReports(Decode(first))
    ensures StreamReports([first, second])
         == FrameReports(Decode(first)) + FrameReports(Decode(second))
  {
    DecodeLeading(first, second);
    var frames: seq<seq<Byte>> := [first, second];
    var one: seq<seq<Byte>> := [first];
    assert frames[..1] == one;
    assert one[..0] == [];
    assert StreamReports(one) == FrameReports(Decode(first));
  }

  /** For the coalesced chunk the host sees the move alone: the click is lost. */
  lemma SourceSendsMoveOnly()
    ensures FrameReports(Decode([1, 0, 0, 0, 5, 5, 0, 0, 1, 0])) == [Move(5, 5, 0, 0)]
  {
    OneMoveReports([1, 0, 0, 0, 5, 5, 0, 0, 1, 0], 5, 5);
  }

  lemma MoveThenClick(a: seq<Report>, b: seq<Report>)
    requires a == [Move(5, 5, 0, 0)] && b == [Buttons(MOUSE_BUTTON_LEFT), Buttons(0)]
    ensures a + b == [Move(5, 5, 0, 0), Buttons(MOUSE_BUTTON_LEFT), Buttons(0)]
  {
  }

  /** The same chunk fed to a new handler of the corrected design: both
      frames run, so the click reaches the host. */
  method FeedKeepsCoalescedClick(sink: HidSink)
    modifies sink
    ensures sink.trace == old(sink.trace) + [Move(5, 5, 0, 0), Buttons(MOUSE_BUTTON_LEFT), Buttons(0)]
  {
    var r := new Reassembler();
    r.Feed([1, 0, 0, 0, 5, 5, 0, 0, 1, 0], sink);
    SourceDropsCoalescedFrame();
    var move: seq<Byte> := [1, 0, 0, 0, 5, 5];
    var click: seq<Byte> := [0, 0, 1, 0];
    SourceLosesTrailingFrame(move, click);
    OneMoveReports(move, 5, 5);
    ClickOnlyReports(click);
    MoveThenClick(FrameReports(Decode(move)), FrameReports(Decode(click)));
  }

  /** A frame in two chunks: the first sizes a 10-byte block and waits
      (the collecting branch of lines 230-233 takes the rest), and the
      second completes it without overflow, so the whole frame is parsed. */
  lemma SourceCollectsAcrossChunks()
    ensures SourceHandle(Initial, [3, 0, 0])
         == Handled(SourceState(false, 10, 10, [3, 0, 0]), 0, None)
    ensures SourceHandle(SourceState(false, 10, 10, [3, 0, 0]), [0, 1, 1, 2, 2, 3, 3])
         == Handled(SourceState(true, 10, 0, []), 0, Some([3, 0, 0, 0, 1, 1, 2, 2, 3, 3]))
  {
    var first: seq<Byte> := [3, 0, 0];
    assert HeaderCount(first[0], first[1]) == 3;
    SourceTotSizeTruncates(3);
    assert [] + first == first;
    assert first + [0, 1, 1, 2, 2, 3, 3] == [3, 0, 0, 0, 1, 1, 2, 2, 3, 3];
  }

  /** The overflow and the dropped bytes also happen in a later chunk: after
      `01 00 00` the chunk `00 05 05 09 09` completes the 6-byte frame and
      copies its last two bytes past the block. */
  lemma SourceOverflowsLaterChunk()
    ensures SourceHandle(Initial, [1, 0, 0])
         == Handled(SourceState(false, 6, 6, [1, 0, 0]), 0, None)
    ensures SourceHandle(SourceState(false, 6, 6, [1, 0, 0]), [0, 5, 5, 9, 9])
         == Handled(SourceState(true, 6, 0, []), 2, Some([1, 0, 0, 0, 5, 5, 9, 9]))
  {
    var first: seq<Byte> := [1, 0, 0];
    assert HeaderCount(first[0], first[1]) == 1;
    SourceTotSizeTruncates(1);
    assert [] + first == first;
    assert first + [0, 5, 5, 9, 9] == [1, 0, 0, 0, 5, 5, 9, 9];
  }

  /** Where the source is right: an idle chunk that is exactly one frame
      of fewer than 16382 points fills the block, overflows nothing, and is
      parsed as the one frame the corrected cut finds. */
  lemma SourceAgreesOnSingleFrame(chunk: seq<Byte>)
    requires IsFrame(chunk) && HeaderCount(chunk[0], chunk[1]) < 16382
    ensures |chunk| < 0x8000
    ensures SourceHandle(Initial, chunk) == Handled(SourceState(true, |chunk|, 0, []), 0, Some(chunk))
    ensures SplitFrames(chunk) == Split([chunk], [])
  {
    SourceTotSizeTruncates(HeaderCount(chunk[0], chunk[1]));
    assert [] + chunk == chunk;
    CompleteFrameAlone(chunk);
  }

  /** The replay count is the point count exactly below 32768; a count of
      32768 or more replays nothing. */
  lemma SourceSkipsPoints(count: nat)
    requires count < 0x1_0000
    ensures SourceReplayCount(count) == count <==> count < 0x8000
    ensures count >= 0x8000 ==> SourceReplayCount(count) == 0
  {
  }
}
