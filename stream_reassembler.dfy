/** Reassembly of frames from the chunks the serial link delivers
    (the static state of `uart_data_event_handler`). A frame may arrive in
    any number of chunks and one chunk may carry the end of one frame and
    the start of the next; the reassembler hands every complete frame, in
    order, to the frame executor and keeps what is left for later. */
module StreamReassembler {
  import opened HidReport
  import opened FrameDecoder
  import opened FrameExecutor

  /** A byte stream cut into complete frames and an incomplete tail. */
  datatype Split = Split(frames: seq<seq<Byte>>, rest: seq<Byte>)

  /** The frames laid end to end. */
  function Concat(fs: seq<seq<Byte>>): (s: seq<Byte>)
    ensures fs == [] ==> s == []
  {
    if fs == [] then [] else fs[0] + Concat(fs[1..])
  }

  lemma {:induction false} ConcatAppend(fs: seq<seq<Byte>>, gs: seq<seq<Byte>>)
    ensures Concat(fs + gs) == Concat(fs) + Concat(gs)
    decreases |fs|
  {
    if fs == [] {
      assert fs + gs == gs;
    } else {
      assert (fs + gs)[1..] == fs[1..] + gs;
      ConcatAppend(fs[1..], gs);
    }
  }

  predicate AllFrames(fs: seq<seq<Byte>>) {
    forall i :: 0 <= i < |fs| ==> IsFrame(fs[i])
  }

  /** Cut `s` into frames from the front: while the buffered bytes hold a
      header and every point it declares, the first FrameLength bytes are a
      frame and the rest starts the next one. */
  function SplitFrames(s: seq<Byte>): Split
    decreases |s|
  {
    if IsComplete(s) then
      var n := FrameLength(HeaderCount(s[0], s[1]));
      var tail := SplitFrames(s[n..]);
      Split([s[..n]] + tail.frames, tail.rest)
    else
      Split([], s)
  }

  /** The cut loses and invents nothing: the frames and the tail put back
      together are the stream, every frame is exactly one frame, and the
      tail does not yet hold a complete one. */
  lemma {:induction false} SplitFramesSound(s: seq<Byte>)
    ensures SoundSplit(s, SplitFrames(s))
    decreases |s|
  {
    if IsComplete(s) {
      var n := FrameLength(HeaderCount(s[0], s[1]));
      SplitFramesSound(s[n..]);
      SoundAfterFrame(s, n, SplitFrames(s[n..]));
    }
  }

  /** `r` is a cut of `s`: its frames and tail put back together are `s`,
      every frame is exactly one frame, and the tail is not complete. */
  predicate SoundSplit(s: seq<Byte>, r: Split) {
    Concat(r.frames) + r.rest == s && AllFrames(r.frames) && !IsComplete(r.rest)
  }

  /** A sound cut of what follows the first frame gives a sound cut of
      the whole. */
  lemma SoundAfterFrame(s: seq<Byte>, n: nat, tail: Split)
    requires IsComplete(s) && n == FrameLength(HeaderCount(s[0], s[1]))
    requires SoundSplit(s[n..], tail)
    ensures SoundSplit(s, Split([s[..n]] + tail.frames, tail.rest))
  {
    var head, rest := s[..n], s[n..];
    assert Concat([head] + tail.frames) + tail.rest == s by {
      ConcatCons(head, tail.frames);
      AppendAssoc(head, Concat(tail.frames), tail.rest);
      assert head + rest == s;
    }
    assert IsFrame(head) by {
      assert head[0] == s[0] && head[1] == s[1];
    }
    AllFramesCons(head, tail.frames);
  }

  lemma ConcatCons(q: seq<Byte>, fs: seq<seq<Byte>>)
    ensures Concat([q] + fs) == q + Concat(fs)
  {
    assert ([q] + fs)[1..] == fs;
  }

  /** A list of frames with one more in front is still all frames, and
      conversely. */
  lemma AllFramesCons(q: seq<Byte>, fs: seq<seq<Byte>>)
    ensures AllFrames([q] + fs) <==> IsFrame(q) && AllFrames(fs)
  {
    var qs := [q] + fs;
    assert qs[0] == q;
    assert forall i :: 0 <= i < |fs| ==> qs[i + 1] == fs[i];
  }

  /** A frame followed by anything is cut right after that frame. */
  lemma SplitAfterFrame(q: seq<Byte>, t: seq<Byte>)
    requires IsFrame(q)
    ensures SplitFrames(q + t) == Split([q] + SplitFrames(t).frames, SplitFrames(t).rest)
  {
    var s := q + t;
    assert s[0] == q[0] && s[1] == q[1];
    assert s[..|q|] == q;
    assert s[|q|..] == t;
  }

  /** Bytes that do not complete the frame they start are all kept. */
  lemma IncompleteKept(s: seq<Byte>)
    requires !IsComplete(s)
    ensures SplitFrames(s) == Split([], s)
  {
  }

  /** Bytes that make up exactly one frame are that frame, nothing left. */
  lemma CompleteFrameAlone(s: seq<Byte>)
    requires IsFrame(s)
    ensures SplitFrames(s) == Split([s], [])
  {
    SplitAfterFrame(s, []);
    assert s + [] == s;
    assert SplitFrames([]) == Split([], []);
    assert [s] + [] == [s];
  }

  /** An empty chunk changes nothing. */
  lemma EmptyChunk(pending: seq<Byte>)
    requires !IsComplete(pending)
    ensures SplitFrames(pending + []) == Split([], pending)
  {
    assert pending + [] == pending;
  }

  /** SplitFrames is the only way to cut a stream into complete frames
      followed by an incomplete tail. */
  lemma {:induction false} SplitUnique(s: seq<Byte>, fs: seq<seq<Byte>>, r: seq<Byte>)
    requires AllFrames(fs) && !IsComplete(r) && Concat(fs) + r == s
    ensures SplitFrames(s) == Split(fs, r)
    decreases |fs|
  {
    if fs != [] {
      var t := Concat(fs[1..]) + r;
      assert fs == [fs[0]] + fs[1..];
      assert s == fs[0] + t by {
        ConcatCons(fs[0], fs[1..]);
        AppendAssoc(fs[0], Concat(fs[1..]), r);
      }
      AllFramesCons(fs[0], fs[1..]);
      SplitAfterFrame(fs[0], t);
      SplitUnique(t, fs[1..], r);
    }
  }

  /** What is cut from `s + t`: the frames of `s`, then the frames of what
      `s` left over followed by `t`. */
  lemma {:induction false} SplitAppend(s: seq<Byte>, t: seq<Byte>)
    ensures var a := SplitFrames(s); var b := SplitFrames(a.rest + t);
      SplitFrames(s + t) == Split(a.frames + b.frames, b.rest)
    decreases |s|
  {
    if IsComplete(s) {
      var n := FrameLength(HeaderCount(s[0], s[1]));
      var head := s[..n];
      var a, a' := SplitFrames(s), SplitFrames(s[n..]);
      var c := SplitFrames(s[n..] + t);
      var b := SplitFrames(a'.rest + t);
      assert a == Split([head] + a'.frames, a'.rest);
      assert SplitFrames(s + t) == Split([head] + c.frames, c.rest) by {
        assert s + t == head + (s[n..] + t) by {
          AppendAssoc(head, s[n..], t);
          assert s == head + s[n..];
        }
        assert IsFrame(head) by {
          assert head[0] == s[0] && head[1] == s[1];
        }
        SplitAfterFrame(head, s[n..] + t);
      }
      assert c == Split(a'.frames + b.frames, b.rest) by {
        SplitAppend(s[n..], t);
      }
      AppendAssoc([head], a'.frames, b.frames);
    }
  }

  /** The reports for a sequence of complete frames, each executed in turn. */
  function StreamReports(frames: seq<seq<Byte>>): seq<Report>
    requires AllFrames(frames)
  {
    if frames == [] then []
    else StreamReports(frames[..|frames| - 1]) + FrameReports(Decode(frames[|frames| - 1]))
  }

  /** Feeding a list of chunks one after another, starting from `pending`. */
  function Deliver(pending: seq<Byte>, chunks: seq<seq<Byte>>): Split
    decreases |chunks|
  {
    if chunks == [] then Split([], pending)
    else
      var a := SplitFrames(pending + chunks[0]);
      var b := Deliver(a.rest, chunks[1..]);
      Split(a.frames + b.frames, b.rest)
  }

  /** How the stream is cut into chunks does not matter: feeding the chunks
      one by one yields the same frames and leaves the same bytes pending as
      feeding them all at once. */
  lemma {:induction false} ChunkingIrrelevant(pending: seq<Byte>, chunks: seq<seq<Byte>>)
    requires !IsComplete(pending)
    ensures Deliver(pending, chunks) == SplitFrames(pending + Concat(chunks))
    decreases |chunks|
  {
    if chunks != [] {
      var whole := pending + chunks[0];
      var more := Concat(chunks[1..]);
      var a := SplitFrames(whole);
      var d := Deliver(a.rest, chunks[1..]);
      assert Deliver(pending, chunks) == Split(a.frames + d.frames, d.rest);
      assert d == SplitFrames(a.rest + more) by {
        SplitFramesSound(whole);
        ChunkingIrrelevant(a.rest, chunks[1..]);
      }
      assert SplitFrames(whole + more) == Split(a.frames + d.frames, d.rest) by {
        SplitAppend(whole, more);
      }
      assert pending + Concat(chunks) == whole + more by {
        AppendAssoc(pending, chunks[0], more);
      }
    }
  }

  /** The ten-byte frame `03 00 00 00 01 01 02 02 03 03` arriving as chunks
      of 3, 3 and 4 bytes is one frame, nothing left over. */
  lemma ChunkedFrame()
    ensures Deliver([], [[3, 0, 0], [0, 1, 1], [2, 2, 3, 3]])
         == Split([[3, 0, 0, 0, 1, 1, 2, 2, 3, 3]], [])
  {
    var frame: seq<Byte> := [3, 0, 0, 0, 1, 1, 2, 2, 3, 3];
    var chunks: seq<seq<Byte>> := [[3, 0, 0], [0, 1, 1], [2, 2, 3, 3]];
    assert Concat(chunks) == frame by {
      assert Concat(chunks[2..]) == [2, 2, 3, 3] + Concat([]);
      assert Concat(chunks[1..]) == [0, 1, 1] + Concat(chunks[2..]);
      assert Concat(chunks) == [3, 0, 0] + Concat(chunks[1..]);
    }
    ChunkingIrrelevant([], chunks);
    assert [] + frame == frame;
    CompleteFrameAlone(frame);
  }

  /** The reports of the 3, 3, 4 scenario's frame: its three points as moves. */
  lemma ChunkedFrameReports()
    ensures StreamReports([[3, 0, 0, 0, 1, 1, 2, 2, 3, 3]])
         == [Move(1, 1, 0, 0), Move(2, 2, 0, 0), Move(3, 3, 0, 0)]
  {
    var frame: seq<Byte> := [3, 0, 0, 0, 1, 1, 2, 2, 3, 3];
    var frames: seq<seq<Byte>> := [frame];
    var f := Decode(frame);
    assert f.points == [Point(1, 1), Point(2, 2), Point(3, 3)];
    ResetRun(false);
    assert frames[..0] == [];
  }

  /** A header split across two chunks: the first byte waits for the
      second, and the frame `02 00 00 00 01 01 02 02` still comes out whole. */
  lemma HeaderSplitAcrossChunks()
    ensures SplitFrames([2]) == Split([], [2])
    ensures Deliver([], [[2], [0, 0, 0, 1, 1, 2, 2]]) == Split([[2, 0, 0, 0, 1, 1, 2, 2]], [])
  {
    var frame: seq<Byte> := [2, 0, 0, 0, 1, 1, 2, 2];
    var chunks: seq<seq<Byte>> := [[2], [0, 0, 0, 1, 1, 2, 2]];
    assert Concat(chunks) == frame by {
      assert Concat(chunks[1..]) == [0, 0, 0, 1, 1, 2, 2] + Concat([]);
      assert Concat(chunks) == [2] + Concat(chunks[1..]);
    }
    ChunkingIrrelevant([], chunks);
    assert [] + frame == frame;
    CompleteFrameAlone(frame);
  }

  /** The header of a 16382-point frame: its length, 32768, is kept
      exactly, so the four header bytes wait for the points they announce. */
  lemma LargeCountHeaderWaits()
    ensures FrameLength(HeaderCount(0xFE, 0x3F)) == 0x8000
    ensures SplitFrames([0xFE, 0x3F, 0, 0]) == Split([], [0xFE, 0x3F, 0, 0])
  {
    var s: seq<Byte> := [0xFE, 0x3F, 0, 0];
    assert HeaderCount(s[0], s[1]) == 16382;
  }

  /** Executing one more frame appends its reports. */
  lemma StreamReportsAppend(frames: seq<seq<Byte>>, q: seq<Byte>)
    requires AllFrames(frames) && IsFrame(q)
    ensures AllFrames(frames + [q])
    ensures StreamReports(frames + [q]) == StreamReports(frames) + FrameReports(Decode(q))
  {
    assert (frames + [q])[..|frames|] == frames;
  }

  /** The reports of two lists of frames executed one after the other. */
  lemma {:induction false} StreamReportsConcat(a: seq<seq<Byte>>, b: seq<seq<Byte>>)
    requires AllFrames(a) && AllFrames(b)
    ensures AllFrames(a + b)
    ensures StreamReports(a + b) == StreamReports(a) + StreamReports(b)
    decreases |b|
  {
    if b == [] {
      assert a + b == a;
    } else {
      var init, q := b[..|b| - 1], b[|b| - 1];
      assert b == init + [q];
      assert AllFrames(init) && IsFrame(q);
      StreamReportsConcat(a, init);
      AppendAssoc(a, init, [q]);
      StreamReportsAppend(a + init, q);
      StreamReportsAppend(init, q);
      AppendAssoc(StreamReports(a), StreamReports(init), FrameReports(Decode(q)));
    }
  }

  /** Cutting the stream one chunk further: the frames so far, then the
      frames of what was left followed by the next chunk. */
  lemma CutOneMoreChunk(start: seq<Byte>, chunks: seq<seq<Byte>>, k: nat)
    requires k < |chunks|
    ensures var a := SplitFrames(start + Concat(chunks[..k]));
      var b := SplitFrames(a.rest + chunks[k]);
      SplitFrames(start + Concat(chunks[..k + 1])) == Split(a.frames + b.frames, b.rest)
  {
    var s := start + Concat(chunks[..k]);
    assert start + Concat(chunks[..k + 1]) == s + chunks[k] by {
      assert chunks[..k + 1] == chunks[..k] + [chunks[k]];
      ConcatAppend(chunks[..k], [chunks[k]]);
      var none: seq<seq<Byte>> := [];
      assert [chunks[k]][1..] == none;
      assert Concat([chunks[k]]) == chunks[k] + Concat(none);
      AppendAssoc(start, Concat(chunks[..k]), chunks[k]);
    }
    SplitAppend(s, chunks[k]);
  }

  /** Where a stream stands after `done` frames were cut off and `rest`
      is still to be cut. */
  function Resume(done: seq<seq<Byte>>, rest: seq<Byte>): Split {
    var r := SplitFrames(rest);
    Split(done + r.frames, r.rest)
  }

  /** Cutting off one more frame does not change where the stream ends up. */
  lemma ResumeAfterFrame(done: seq<seq<Byte>>, frame: seq<Byte>, t: seq<Byte>)
    requires IsFrame(frame)
    ensures Resume(done, frame + t) == Resume(done + [frame], t)
  {
    SplitAfterFrame(frame, t);
    AppendAssoc(done, [frame], SplitFrames(t).frames);
  }

  /** The state `uart_data_event_handler` keeps between chunks.

      While `startFlag` is set no frame is under way: `pointData` is a
      two-byte staging area for a header that arrived split, and
      `pointDataIndex` (0 or 1) says how much of it is there. Once both
      header bytes are in, `totSize` is the frame's length, `pointData` a
      buffer of exactly that size and `pointDataIndex` the bytes received. */
  class Reassembler {
    var startFlag: bool
    var totSize: nat
    var pointData: array<Byte>
    var pointDataIndex: nat

    /** Between chunks: idle, or part of a frame buffered. */
    ghost predicate Valid()
      reads this, pointData
    {
      if startFlag then
        pointDataIndex < 2 <= pointData.Length
      else
        && 2 <= pointDataIndex < totSize == pointData.Length
        && totSize == FrameLength(HeaderCount(pointData[0], pointData[1]))
    }

    /** The buffer holds a whole frame, about to be executed. */
    ghost predicate Full()
      reads this, pointData
    {
      && !startFlag && 2 <= pointDataIndex == totSize == pointData.Length
      && totSize == FrameLength(HeaderCount(pointData[0], pointData[1]))
    }

    /** The bytes received and not yet part of an executed frame. */
    ghost function Pending(): seq<Byte>
      reads this, pointData
      requires pointDataIndex <= pointData.Length
    {
      pointData[..pointDataIndex]
    }

    /** What is pending between chunks never holds a complete frame; a
        collecting buffer is sized by the header it holds. */
    lemma PendingIncomplete()
      requires Valid()
      ensures !IsComplete(Pending())
      ensures !startFlag ==>
        |Pending()| >= 2 && totSize == FrameLength(HeaderCount(Pending()[0], Pending()[1]))
    {
    }

    /** A full buffer is exactly one frame. */
    lemma FullIsFrame()
      requires Full()
      ensures IsFrame(Pending())
    {
      assert Pending() == pointData[..];
    }

    constructor ()
      ensures Valid() && startFlag && Pending() == []
      ensures fresh(pointData)
    {
      startFlag := true;
      totSize := 0;
      pointData := new Byte[2];
      pointDataIndex := 0;
    }

    /** Buffer bytes from `chunk[pos..]`: while idle, one header byte (the
        second one sizes the frame buffer); while collecting, as many as the
        frame still lacks or the chunk still has. */
    method Take(chunk: seq<Byte>, pos: nat) returns (next: nat)
      requires Valid() && pos < |chunk|
      modifies this, pointData
      ensures pos < next <= |chunk|
      ensures fresh(pointData) || pointData == old(pointData)
      ensures Valid() || Full()
      ensures Full() <==> !startFlag && pointDataIndex == totSize
      ensures Pending() == old(Pending()) + chunk[pos..next]
    {
      if startFlag {
        pointData[pointDataIndex] := chunk[pos];
        pointDataIndex := pointDataIndex + 1;
        next := pos + 1;
        if pointDataIndex == 2 {
          totSize := FrameLength(HeaderCount(pointData[0], pointData[1]));
          var buffer := new Byte[totSize];
          buffer[0], buffer[1] := pointData[0], pointData[1];
          pointData := buffer;
          startFlag := false;
        }
      } else {
        var n := if totSize - pointDataIndex < |chunk| - pos
                 then totSize - pointDataIndex else |chunk| - pos;
        CopyInto(pointData, pointDataIndex, chunk[pos..pos + n]);
        pointDataIndex := pointDataIndex + n;
        next := pos + n;
      }
    }

    /** Execute the buffered frame and go back to idle. */
    method Execute(sink: HidSink)
      requires Full()
      modifies this, sink
      ensures Valid() && startFlag && Pending() == [] && fresh(pointData)
      ensures IsFrame(old(Pending()))
      ensures sink.trace == old(sink.trace) + FrameReports(Decode(old(Pending())))
    {
      FullIsFrame();
      assert pointData[..] == Pending();
      var f := Decode(pointData[..]);
      MoveMouse(f, sink);
      startFlag := true;
      pointDataIndex := 0;
      pointData := new Byte[2];
    }

    /** One round of the handler: buffer the next bytes of `chunk` and, if
        they complete the frame, execute it and go back to idle. The stream
        is still cut the same way, the executed frame now among `done`. */
    method Step(chunk: seq<Byte>, pos: nat, sink: HidSink,
                ghost whole: seq<Byte>, ghost done: seq<seq<Byte>>, ghost base: seq<Report>)
      returns (next: nat, ghost done': seq<seq<Byte>>)
      requires Valid() && pos < |chunk| && AllFrames(done)
      requires SplitFrames(whole) == Resume(done, Pending() + chunk[pos..])
      requires sink.trace == base + StreamReports(done)
      modifies this, pointData, sink
      ensures Valid() && pos < next <= |chunk| && AllFrames(done')
      ensures fresh(pointData) || pointData == old(pointData)
      ensures SplitFrames(whole) == Resume(done', Pending() + chunk[next..])
      ensures sink.trace == base + StreamReports(done')
    {
      ghost var pending := Pending();
      next := Take(chunk, pos);
      assert Pending() + chunk[next..] == pending + chunk[pos..] by {
        AppendAssoc(pending, chunk[pos..next], chunk[next..]);
        SliceJoin(chunk, pos, next);
      }
      done' := done;
      if !startFlag && pointDataIndex == totSize {
        ghost var frame := Pending();
        Execute(sink);
        ResumeAfterFrame(done, frame, chunk[next..]);
        assert sink.trace == base + StreamReports(done + [frame]) by {
          StreamReportsAppend(done, frame);
          AppendAssoc(base, StreamReports(done), FrameReports(Decode(frame)));
        }
        done' := done + [frame];
        assert Pending() + chunk[next..] == chunk[next..];
      }
    }

    /** Handle one chunk from the serial link: buffer it, and each time the
        buffered bytes make up a whole frame, execute that frame and start
        over with the bytes that follow it. */
    method Feed(chunk: seq<Byte>, sink: HidSink)
      requires Valid()
      modifies this, pointData, sink
      ensures Valid()
      ensures fresh(pointData) || pointData == old(pointData)
      ensures var r := SplitFrames(old(Pending()) + chunk);
        && Pending() == r.rest
        && AllFrames(r.frames)
        && sink.trace == old(sink.trace) + StreamReports(r.frames)
    {
      ghost var whole := Pending() + chunk;
      ghost var done: seq<seq<Byte>> := [];
      var pos := 0;
      assert SplitFrames(whole) == Resume(done, Pending() + chunk[pos..]) by {
        assert Pending() + chunk[pos..] == whole;
        assert [] + SplitFrames(whole).frames == SplitFrames(whole).frames;
      }
      while pos < |chunk|
        invariant Valid()
        invariant 0 <= pos <= |chunk|
        invariant fresh(pointData) || pointData == old(pointData)
        invariant AllFrames(done)
        invariant SplitFrames(whole) == Resume(done, Pending() + chunk[pos..])
        invariant sink.trace == old(sink.trace) + StreamReports(done)
        decreases |chunk| - pos
      {
        pos, done := Step(chunk, pos, sink, whole, done, old(sink.trace));
      }
      assert SplitFrames(whole) == Split(done, Pending()) by {
        PendingIncomplete();
        assert Pending() + chunk[pos..] == Pending();
        assert done + [] == done;
      }
      SplitFramesSound(whole);
    }

    /** The event loop handing the chunks read from the serial link to the
        handler, in order. The frames executed and the bytes left pending
        are those of the whole stream at once, whatever the chunking, and so
        is the trace. */
    method FeedAll(chunks: seq<seq<Byte>>, sink: HidSink)
      requires Valid()
      modifies this, pointData, sink
      ensures Valid()
      ensures var r := SplitFrames(old(Pending()) + Concat(chunks));
        && Deliver(old(Pending()), chunks) == r
        && Pending() == r.rest
        && AllFrames(r.frames)
        && sink.trace == old(sink.trace) + StreamReports(r.frames)
    {
      ghost var start := Pending();
      PendingIncomplete();
      assert SplitFrames(start + Concat(chunks[..0])) == Split([], start) by {
        assert start + Concat(chunks[..0]) == start;
      }
      var k := 0;
      while k < |chunks|
        invariant 0 <= k <= |chunks|
        invariant Valid()
        invariant fresh(pointData) || pointData == old(pointData)
        invariant var r := SplitFrames(start + Concat(chunks[..k]));
          && Pending() == r.rest
          && AllFrames(r.frames)
          && sink.trace == old(sink.trace) + StreamReports(r.frames)
      {
        ghost var a := SplitFrames(start + Concat(chunks[..k]));
        Feed(chunks[k], sink);
        ghost var b := SplitFrames(a.rest + chunks[k]);
        CutOneMoreChunk(start, chunks, k);
        StreamReportsConcat(a.frames, b.frames);
        AppendAssoc(old(sink.trace), StreamReports(a.frames), StreamReports(b.frames));
        k := k + 1;
      }
      assert chunks[..k] == chunks;
      ChunkingIrrelevant(start, chunks);
    }
  }

  /** A new handler fed the 3, 3, 4 chunking of a 3-point frame sends the
      frame's three moves and nothing else. */
  method ChunkedFrameTrace(sink: HidSink)
    modifies sink
    ensures sink.trace == old(sink.trace) + [Move(1, 1, 0, 0), Move(2, 2, 0, 0), Move(3, 3, 0, 0)]
  {
    var r := new Reassembler();
    r.FeedAll([[3, 0, 0], [0, 1, 1], [2, 2, 3, 3]], sink);
    ChunkedFrame();
    ChunkedFrameReports();
  }

  /** `memcpy(dst + at, src, |src|)` */
  method CopyInto(dst: array<Byte>, at: nat, src: seq<Byte>)
    requires at + |src| <= dst.Length
    modifies dst
    ensures dst[..] == old(dst[..at]) + src + old(dst[at + |src|..])
  {
    var i := 0;
    while i < |src|
      invariant 0 <= i <= |src|
      invariant forall k :: 0 <= k < dst.Length ==>
        dst[k] == if at <= k < at + i then src[k - at] else old(dst[k])
    {
      dst[at + i] := src[i];
      i := i + 1;
    }
    assert dst[..] == old(dst[..at]) + src + old(dst[at + |src|..]);
  }
}
