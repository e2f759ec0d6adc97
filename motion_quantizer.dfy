/** `move_mouse_large_distance`: a displacement of any 32-bit size is sent
    as a run of relative moves, each axis clamped to [-127, 127] per report,
    until all four remainders are zero. */
module MotionQuantizer {
  import opened HidReport

  function Abs(a: int): nat {
    if a < 0 then -a else a
  }

  function Max(a: nat, b: nat): nat {
    if a < b then b else a
  }

  /** The part of a remainder one report carries. */
  function Clamp(r: int): (m: Int8)
    ensures -127 <= m <= 127
    ensures -127 <= r <= 127 ==> m == r
    ensures r > 127 ==> m == 127
    ensures r < -127 ==> m == -127
  {
    if r > 127 then 127 else if r < -127 then -127 else r
  }

  /** ceil(|a| / 127): the reports one axis needs on its own. */
  function Ceil127(a: int): nat {
    (Abs(a) + 126) / 127
  }

  /** What is left of `a` after `i` reports: each report takes 127 off
      the magnitude until the rest fits in one. */
  function Remainder(a: int, i: nat): int {
    if a > 127 * i then a - 127 * i
    else if a < -127 * i then a + 127 * i
    else 0
  }

  /** The run of reports for the target (x, y, vertical, horizontal):
      report i carries the clamped remainders after i reports, and there
      are as many reports as the slowest axis needs. */
  function Decomposition(x: int, y: int, vertical: int, horizontal: int): (rs: seq<Report>)
    ensures forall i :: 0 <= i < |rs| ==>
      rs[i].Move? && -127 <= rs[i].x <= 127 && -127 <= rs[i].y <= 127
        && -127 <= rs[i].vertical <= 127 && -127 <= rs[i].horizontal <= 127
  {
    var n := Max(Max(Ceil127(x), Ceil127(y)), Max(Ceil127(vertical), Ceil127(horizontal)));
    seq(n, i requires 0 <= i < n => ReportAt(x, y, vertical, horizontal, i))
  }

  /** Report i of the run: the clamped remainders after i reports. */
  function ReportAt(x: int, y: int, vertical: int, horizontal: int, i: nat): Report {
    Move(Clamp(Remainder(x, i)), Clamp(Remainder(y, i)),
         Clamp(Remainder(vertical, i)), Clamp(Remainder(horizontal, i)))
  }

  /** An axis is done exactly when it has had its ceil(|a| / 127) reports. */
  lemma RemainderZero(a: int, i: nat)
    ensures Remainder(a, i) == 0 <==> i >= Ceil127(a)
  {
    var q := Ceil127(a);
    assert 127 * q >= Abs(a) && 127 * q < Abs(a) + 127;
    if i >= q {
      assert 127 * i >= 127 * q;
    } else {
      assert 127 * i <= 127 * (q - 1);
    }
  }

  /** One more report clamps and subtracts, as the loop body does. */
  lemma RemainderStep(a: int, i: nat)
    ensures Remainder(a, i) - Clamp(Remainder(a, i)) == Remainder(a, i + 1)
  {
  }

  /** An axis with something to move needs at least one report. */
  lemma Ceil127Positive(a: int)
    ensures a != 0 <==> Ceil127(a) >= 1
  {
  }

  /** Nothing to move sends nothing; anything else sends at least one report. */
  lemma DecompositionEmpty(x: int, y: int, vertical: int, horizontal: int)
    ensures Decomposition(x, y, vertical, horizontal) == []
        <==> x == 0 && y == 0 && vertical == 0 && horizontal == 0
  {
    Ceil127Positive(x);
    Ceil127Positive(y);
    Ceil127Positive(vertical);
    Ceil127Positive(horizontal);
  }

  /** The first m reports of a run move each axis by what it had minus its
      remainder after m reports. */
  lemma {:induction false} DecompositionPrefixSums(x: int, y: int, vertical: int, horizontal: int, m: nat)
    requires m <= |Decomposition(x, y, vertical, horizontal)|
    ensures Displacement(Decomposition(x, y, vertical, horizontal)[..m])
         == Vec4(x - Remainder(x, m), y - Remainder(y, m),
                 vertical - Remainder(vertical, m), horizontal - Remainder(horizontal, m))
  {
    var d := Decomposition(x, y, vertical, horizontal);
    if m == 0 {
      assert d[..0] == [];
    } else {
      DecompositionPrefixSums(x, y, vertical, horizontal, m - 1);
      var r := d[m - 1];
      assert Displacement(d[..m]) == Displacement(d[..m - 1]).Plus(Delta(r)) by {
        PrefixExtend(d, m - 1);
        DisplacementAppend(d[..m - 1], [r]);
        assert [r][1..] == [];
      }
      assert r == ReportAt(x, y, vertical, horizontal, m - 1);
      ReportAtAdvances(x, y, vertical, horizontal, m - 1);
    }
  }

  /** Adding report i to what the first i reports moved leaves each axis
      with its remainder after i + 1 reports. */
  lemma ReportAtAdvances(x: int, y: int, vertical: int, horizontal: int, i: nat)
    ensures Vec4(x - Remainder(x, i), y - Remainder(y, i),
                 vertical - Remainder(vertical, i), horizontal - Remainder(horizontal, i))
              .Plus(Delta(ReportAt(x, y, vertical, horizontal, i)))
         == Vec4(x - Remainder(x, i + 1), y - Remainder(y, i + 1),
                 vertical - Remainder(vertical, i + 1), horizontal - Remainder(horizontal, i + 1))
  {
    RemainderStep(x, i);
    RemainderStep(y, i);
    RemainderStep(vertical, i);
    RemainderStep(horizontal, i);
  }

  /** The moves add up to the requested displacement on every axis: nothing
      is lost or added by the clamping. */
  lemma DecompositionSums(x: int, y: int, vertical: int, horizontal: int)
    ensures Displacement(Decomposition(x, y, vertical, horizontal)) == Vec4(x, y, vertical, horizontal)
  {
    var d := Decomposition(x, y, vertical, horizontal);
    var n := |d|;
    DecompositionPrefixSums(x, y, vertical, horizontal, n);
    assert d[..n] == d;
    assert Remainder(x, n) == 0 && Remainder(y, n) == 0 by {
      RemainderZero(x, n);
      RemainderZero(y, n);
    }
    assert Remainder(vertical, n) == 0 && Remainder(horizontal, n) == 0 by {
      RemainderZero(vertical, n);
      RemainderZero(horizontal, n);
    }
  }

  /** The run stops exactly where the loop of `move_mouse_large_distance`
      does: before every report some remainder is non-zero, and after the
      last one all four are zero. Its length is therefore the largest
      ceil(|component| / 127). */
  lemma DecompositionLength(x: int, y: int, vertical: int, horizontal: int)
    ensures var n := |Decomposition(x, y, vertical, horizontal)|;
      && n == Max(Max(Ceil127(x), Ceil127(y)), Max(Ceil127(vertical), Ceil127(horizontal)))
      && (forall i :: 0 <= i < n ==>
            Remainder(x, i) != 0 || Remainder(y, i) != 0
              || Remainder(vertical, i) != 0 || Remainder(horizontal, i) != 0)
      && Remainder(x, n) == 0 && Remainder(y, n) == 0
      && Remainder(vertical, n) == 0 && Remainder(horizontal, n) == 0
  {
    var n := |Decomposition(x, y, vertical, horizontal)|;
    forall i | 0 <= i < n
      ensures Remainder(x, i) != 0 || Remainder(y, i) != 0
           || Remainder(vertical, i) != 0 || Remainder(horizontal, i) != 0
    {
      RemainderZero(x, i);
      RemainderZero(y, i);
      RemainderZero(vertical, i);
      RemainderZero(horizontal, i);
    }
    RemainderZero(x, n);
    RemainderZero(y, n);
    RemainderZero(vertical, n);
    RemainderZero(horizontal, n);
  }

  /** x = 300 alone is sent as 127, 127, 46. */
  lemma Decomposition300()
    ensures Decomposition(300, 0, 0, 0)
         == [Move(127, 0, 0, 0), Move(127, 0, 0, 0), Move(46, 0, 0, 0)]
  {
    var d := Decomposition(300, 0, 0, 0);
    assert Ceil127(300) == 3;
    assert d[0] == Move(127, 0, 0, 0);
    assert d[1] == Move(127, 0, 0, 0);
    assert d[2] == Move(46, 0, 0, 0);
  }

  /** The loop of `move_mouse_large_distance`: clamp the four remainders,
      send one report, subtract what was sent, until all are zero. */
  method MoveLargeDistance(x: Int32, y: Int32, vertical: Int32, horizontal: Int32, sink: HidSink)
    modifies sink
    ensures sink.trace == old(sink.trace) + Decomposition(x, y, vertical, horizontal)
  {
    ghost var run := Decomposition(x, y, vertical, horizontal);
    ghost var sent: nat := 0;
    var xRemaining: Int32, yRemaining: Int32 := x, y;
    var verticalRemaining: Int32, horizontalRemaining: Int32 := vertical, horizontal;
    while xRemaining != 0 || yRemaining != 0 || verticalRemaining != 0 || horizontalRemaining != 0
      invariant sent <= |run|
      invariant xRemaining == Remainder(x, sent) && yRemaining == Remainder(y, sent)
      invariant verticalRemaining == Remainder(vertical, sent)
      invariant horizontalRemaining == Remainder(horizontal, sent)
      invariant sink.trace == old(sink.trace) + run[..sent]
      decreases |run| - sent
    {
      assert sent < |run| by {
        RemainderZero(x, sent);
        RemainderZero(y, sent);
        RemainderZero(vertical, sent);
        RemainderZero(horizontal, sent);
      }
      var xMove, yMove := Clamp(xRemaining), Clamp(yRemaining);
      var verticalMove, horizontalMove := Clamp(verticalRemaining), Clamp(horizontalRemaining);
      assert run[sent] == Move(xMove, yMove, verticalMove, horizontalMove);
      PrefixExtend(run, sent);
      sink.MoveReport(xMove, yMove, verticalMove, horizontalMove);
      assert xRemaining - xMove == Remainder(x, sent + 1) by {
        RemainderStep(x, sent);
      }
      assert yRemaining - yMove == Remainder(y, sent + 1) by {
        RemainderStep(y, sent);
      }
      assert verticalRemaining - verticalMove == Remainder(vertical, sent + 1) by {
        RemainderStep(vertical, sent);
      }
      assert horizontalRemaining - horizontalMove == Remainder(horizontal, sent + 1) by {
        RemainderStep(horizontal, sent);
      }
      xRemaining := xRemaining - xMove;
      yRemaining := yRemaining - yMove;
      verticalRemaining := verticalRemaining - verticalMove;
      horizontalRemaining := horizontalRemaining - horizontalMove;
      sent := sent + 1;
    }
    assert sent == |run| by {
      RemainderZero(x, sent);
      RemainderZero(y, sent);
      RemainderZero(vertical, sent);
      RemainderZero(horizontal, sent);
    }
    assert run[..sent] == run;
  }
}
