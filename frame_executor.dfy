/** `move_mouse`: what one decoded frame sends to the report sink, in order:
    the reset run towards (-4000, -5000) when asked for, every point as
    one move, then a left press and a release when asked for. */
module FrameExecutor {
  import opened HidReport
  import opened FrameDecoder
  import opened MotionQuantizer

  /** The displacement of the reset move, in report units. */
  const RESET_X: Int32 := -4000
  const RESET_Y: Int32 := -5000

  /** Reports of the reset run: the decomposition of (-4000, -5000, 0, 0). */
  const RESET_STEPS: nat := 40

  /** Where the reset run goes: (-4000, -5000, 0, 0), or nowhere. */
  function ResetTarget(needInit: bool): Vec4 {
    if needInit then Vec4(RESET_X, RESET_Y, 0, 0) else Zero
  }

  /** The reset run; empty unless the frame asks for it. */
  function ResetReports(needInit: bool): seq<Report> {
    var t := ResetTarget(needInit);
    Decomposition(t.x, t.y, t.vertical, t.horizontal)
  }

  /** Each point sent verbatim as one move, wheel and pan at zero. */
  function PointReports(ps: seq<Point>): (rs: seq<Report>)
    ensures |rs| == |ps|
    ensures forall i :: 0 <= i < |ps| ==> rs[i] == Move(ps[i].dx, ps[i].dy, 0, 0)
  {
    if ps == [] then [] else [Move(ps[0].dx, ps[0].dy, 0, 0)] + PointReports(ps[1..])
  }

  function ClickReports(click: bool): seq<Report> {
    if click then [Buttons(MOUSE_BUTTON_LEFT), Buttons(0)] else []
  }

  /** Everything `move_mouse` sends for one frame. */
  function FrameReports(f: Frame): seq<Report>
    requires f.Valid()
  {
    ResetReports(f.needInit) + PointReports(f.points) + ClickReports(f.click)
  }

  /** The reset run is 40 moves that add up to (-4000, -5000, 0, 0), each
      within [-127, 127] on every axis. */
  lemma ResetRun(needInit: bool)
    ensures |ResetReports(needInit)| == if needInit then RESET_STEPS else 0
    ensures Displacement(ResetReports(needInit)) == ResetTarget(needInit)
    ensures forall i :: 0 <= i < |ResetReports(needInit)| ==> ResetReports(needInit)[i].Move?
  {
    var t := ResetTarget(needInit);
    DecompositionLength(t.x, t.y, t.vertical, t.horizontal);
    DecompositionSums(t.x, t.y, t.vertical, t.horizontal);
    if needInit {
      assert Ceil127(t.x) == 32 && Ceil127(t.y) == 40;
    }
  }

  /** The order of a frame's reports: the reset run (if any), exactly
      `pointCount` point moves in index order, and a press immediately
      followed by a release as the last two reports when the click flag is
      set. No button report is sent anywhere else. */
  lemma FrameReportsOrder(f: Frame)
    requires f.Valid()
    ensures var rs := FrameReports(f);
      var k := if f.needInit then RESET_STEPS else 0;
      && |rs| == k + f.pointCount + (if f.click then 2 else 0)
      && (forall i :: 0 <= i < k ==> rs[i] == ResetReports(f.needInit)[i])
      && (forall i :: 0 <= i < f.pointCount ==>
            rs[k + i] == Move(f.points[i].dx, f.points[i].dy, 0, 0))
      && (f.click ==> rs[|rs| - 2] == Buttons(MOUSE_BUTTON_LEFT) && rs[|rs| - 1] == Buttons(0))
      && (forall i :: 0 <= i < |rs| ==> (rs[i].Buttons? <==> f.click && i >= |rs| - 2))
  {
    ResetRun(f.needInit);
    var rs := FrameReports(f);
    var k := if f.needInit then RESET_STEPS else 0;
    var reset, points, clicks := ResetReports(f.needInit), PointReports(f.points), ClickReports(f.click);
    assert |reset| == k;
    forall i | 0 <= i < |rs|
      ensures rs[i].Buttons? <==> f.click && i >= |rs| - 2
    {
      if i < k {
        assert rs[i] == reset[i];
      } else if i < k + f.pointCount {
        assert rs[i] == points[i - k];
      } else {
        assert rs[i] == clicks[i - k - f.pointCount];
      }
    }
  }

  /** The net displacement of a frame: the reset offset (if any) plus the
      sum of its points; the click reports move nothing. */
  lemma FrameDisplacement(f: Frame)
    requires f.Valid()
    ensures Displacement(FrameReports(f))
         == ResetTarget(f.needInit).Plus(Displacement(PointReports(f.points)))
  {
    var reset, points, clicks := ResetReports(f.needInit), PointReports(f.points), ClickReports(f.click);
    assert Displacement(reset + points + clicks) == Displacement(reset + points) by {
      DisplacementAppend(reset + points, clicks);
      ClickDisplacement(f.click);
    }
    assert Displacement(reset + points) == ResetTarget(f.needInit).Plus(Displacement(points)) by {
      DisplacementAppend(reset, points);
      var t := ResetTarget(f.needInit);
      DecompositionSums(t.x, t.y, t.vertical, t.horizontal);
    }
  }

  /** A press and a release move nothing. */
  lemma ClickDisplacement(click: bool)
    ensures Displacement(ClickReports(click)) == Zero
  {
    ButtonsDoNotMove(ClickReports(click));
  }

  /** `move_mouse`: the reset run, a loop over the points, the click. */
  method MoveMouse(f: Frame, sink: HidSink)
    requires f.Valid()
    modifies sink
    ensures sink.trace == old(sink.trace) + FrameReports(f)
  {
    ghost var before, reset := sink.trace, ResetReports(f.needInit);
    if f.needInit {
      var t := ResetTarget(f.needInit);
      MoveLargeDistance(t.x, t.y, t.vertical, t.horizontal, sink);
    } else {
      assert reset == [];
    }
    ghost var afterReset := sink.trace;
    var i := 0;
    while i < f.pointCount
      invariant 0 <= i <= f.pointCount
      invariant sink.trace == afterReset + PointReports(f.points[..i])
    {
      assert f.points[..i + 1] == f.points[..i] + [f.points[i]];
      assert PointReports(f.points[..i + 1]) == PointReports(f.points[..i]) + [Move(f.points[i].dx, f.points[i].dy, 0, 0)];
      sink.MoveReport(f.points[i].dx, f.points[i].dy, 0, 0);
      i := i + 1;
    }
    assert f.points[..i] == f.points;
    AppendAssoc(before, reset, PointReports(f.points));
    ghost var moved := sink.trace;
    if f.click {
      sink.ButtonReport(MOUSE_BUTTON_LEFT);
      sink.ButtonReport(0);
    }
    assert sink.trace == moved + ClickReports(f.click);
    AppendAssoc(before, reset + PointReports(f.points), ClickReports(f.click));
  }

  /** The executor for the frame `02 00 01 00 05 05 FA FA`: two moves,
      then a press and a release. */
  lemma ExampleFrameReports()
    ensures FrameReports(Decode([0x02, 0x00, 0x01, 0x00, 0x05, 0x05, 0xFA, 0xFA]))
         == [Move(5, 5, 0, 0), Move(-6, -6, 0, 0), Buttons(MOUSE_BUTTON_LEFT), Buttons(0)]
  {
    DecodeExample();
    var ps := [Point(5, 5), Point(-6, -6)];
    assert PointReports(ps) == [Move(5, 5, 0, 0), Move(-6, -6, 0, 0)];
  }
}
