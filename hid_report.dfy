/** Machine integers of the firmware and the HID mouse reports it sends.
    The report sink (TinyUSB's `tinyusb_hid_mouse_move_report` and
    `tinyusb_hid_mouse_button_report`) is modelled as a trace of reports. */
module HidReport {

  /** One octet as it arrives on the serial link. */
  type Byte = b: int | 0 <= b < 0x100

  /** C's `int8_t`, `int16_t` and `int32_t`. */
  type Int8 = i: int | -0x80 <= i < 0x80
  type Int16 = i: int | -0x8000 <= i < 0x8000
  type Int32 = i: int | -0x8000_0000 <= i < 0x8000_0000

  /** Bit 0 of the button map: the left button. */
  const MOUSE_BUTTON_LEFT: Byte := 1

  /** Reading an octet through an `int8_t *` (two's complement). */
  function ToInt8(b: Byte): (i: Int8)
    ensures i % 0x100 == b
    ensures (i < 0) <==> (b >= 0x80)
  {
    if b < 0x80 then b else b - 0x100
  }

  /** Storing an `int8_t` into an octet; the inverse of ToInt8. */
  function FromInt8(i: Int8): (b: Byte)
    ensures ToInt8(b) == i
  {
    if i >= 0 then i else i + 0x100
  }

  /** Conversion of an integer to `int16_t` as the target compiler performs
      it: the value is taken modulo 2^16 into [-32768, 32767]. */
  function ToInt16(n: int): (i: Int16)
    ensures (n - i) % 0x1_0000 == 0
    ensures -0x8000 <= n < 0x8000 ==> i == n
  {
    var m := n % 0x1_0000;
    if m < 0x8000 then m else m - 0x1_0000
  }

  /** One HID mouse input report: a relative move on the four 8-bit signed
      axes (x, y, wheel, pan), or a new button map. */
  datatype Report =
    | Move(x: Int8, y: Int8, vertical: Int8, horizontal: Int8)
    | Buttons(pressed: Byte)

  /** Net displacement on the four axes. */
  datatype Vec4 = Vec4(x: int, y: int, vertical: int, horizontal: int)
  {
    function Plus(other: Vec4): Vec4 {
      Vec4(x + other.x, y + other.y, vertical + other.vertical, horizontal + other.horizontal)
    }
  }

  const Zero: Vec4 := Vec4(0, 0, 0, 0)

  /** What one report moves the pointer by. */
  function Delta(r: Report): Vec4 {
    match r
    case Move(x, y, v, h) => Vec4(x, y, v, h)
    case Buttons(_) => Zero
  }

  /** The displacement a sequence of reports adds up to. */
  function Displacement(rs: seq<Report>): Vec4
  {
    if rs == [] then Zero else Delta(rs[0]).Plus(Displacement(rs[1..]))
  }

  lemma {:induction false} DisplacementAppend(a: seq<Report>, b: seq<Report>)
    ensures Displacement(a + b) == Displacement(a).Plus(Displacement(b))
    decreases |a|
  {
    if a == [] {
      assert a + b == b;
    } else {
      assert (a + b)[0] == a[0];
      assert (a + b)[1..] == a[1..] + b;
      DisplacementAppend(a[1..], b);
    }
  }

  /** Button reports do not move the pointer. */
  lemma {:induction false} ButtonsDoNotMove(rs: seq<Report>)
    requires forall i :: 0 <= i < |rs| ==> rs[i].Buttons?
    ensures Displacement(rs) == Zero
    decreases |rs|
  {
    if rs != [] {
      var tail := rs[1..];
      ButtonsDoNotMove(tail);
      var d, t := Delta(rs[0]), Displacement(tail);
      assert Displacement(rs) == d.Plus(t);
      ZeroPlusZero(d, t);
    }
  }

  lemma ZeroPlusZero(a: Vec4, b: Vec4)
    requires a == Zero && b == Zero
    ensures a.Plus(b) == Zero
  {
  }

  /** Sequence facts the solver does not find on its own in larger contexts. */
  lemma AppendAssoc<T>(a: seq<T>, b: seq<T>, c: seq<T>)
    ensures a + (b + c) == (a + b) + c
  {
  }

  lemma SliceJoin<T>(s: seq<T>, i: nat, j: nat)
    requires i <= j <= |s|
    ensures s[i..j] + s[j..] == s[i..]
  {
  }

  lemma PrefixExtend<T>(s: seq<T>, n: nat)
    requires n < |s|
    ensures s[..n + 1] == s[..n] + [s[n]]
  {
  }

  /** The report sink: every report the firmware hands to the USB stack is
      appended to `trace`, in call order. */
  class HidSink {
    ghost var trace: seq<Report>

    constructor ()
      ensures trace == []
    {
      trace := [];
    }

    /** `tinyusb_hid_mouse_move_report(x, y, vertical, horizontal)` */
    method MoveReport(x: Int8, y: Int8, vertical: Int8, horizontal: Int8)
      modifies this
      ensures trace == old(trace) + [Move(x, y, vertical, horizontal)]
    {
      trace := trace + [Move(x, y, vertical, horizontal)];
    }

    /** `tinyusb_hid_mouse_button_report(buttons)` */
    method ButtonReport(buttons: Byte)
      modifies this
      ensures trace == old(trace) + [Buttons(buttons)]
    {
      trace := trace + [Buttons(buttons)];
    }
  }
}
