/** The wire format of one command frame and its decoder
    (`parser_uart_mouse_move`).

      offset 0, 2 bytes  point count, little-endian unsigned
      offset 2, 1 byte   click: 1 means press and release the left button
      offset 3, 1 byte   reset: 1 means move towards the origin first
      offset 4, 2*count  (dx, dy) pairs of signed bytes */
module FrameDecoder {
  import opened HidReport

  const HEADER_SIZE: nat := 4

  datatype Point = Point(dx: Int8, dy: Int8)

  /** A decoded frame; `needInit` is the reset flag. */
  datatype Frame = Frame(pointCount: nat, click: bool, needInit: bool, points: seq<Point>)
  {
    /** The count fits the 16-bit header field and matches the point list. */
    predicate Valid() {
      pointCount < 0x1_0000 && |points| == pointCount
    }
  }

  /** The little-endian point count in the first two bytes. */
  function HeaderCount(lo: Byte, hi: Byte): (n: nat)
    ensures n < 0x1_0000
  {
    lo as int + 0x100 * hi as int
  }

  /** The count field and its two bytes determine each other. */
  lemma HeaderCountBytes(lo: Byte, hi: Byte, n: nat)
    requires n < 0x1_0000
    ensures HeaderCount(lo, hi) == n <==> lo == n % 0x100 && hi == n / 0x100
  {
  }

  /** Bytes in a frame that carries `count` points. */
  function FrameLength(count: nat): (n: nat)
    ensures n >= HEADER_SIZE
  {
    HEADER_SIZE + 2 * count
  }

  /** The buffer starts with a header and holds every point it declares. */
  predicate IsComplete(buf: seq<Byte>) {
    |buf| >= 2 && |buf| >= FrameLength(HeaderCount(buf[0], buf[1]))
  }

  /** The buffer is exactly one frame, nothing more. */
  predicate IsFrame(buf: seq<Byte>) {
    IsComplete(buf) && |buf| == FrameLength(HeaderCount(buf[0], buf[1]))
  }

  /** `n` signed-byte pairs read in order from the start of `bytes`. */
  function DecodePoints(bytes: seq<Byte>, n: nat): (ps: seq<Point>)
    requires |bytes| >= 2 * n
    ensures |ps| == n
    ensures forall i :: 0 <= i < n ==>
      ps[i] == Point(ToInt8(bytes[2 * i]), ToInt8(bytes[2 * i + 1]))
  {
    if n == 0 then []
    else [Point(ToInt8(bytes[0]), ToInt8(bytes[1]))] + DecodePoints(bytes[2..], n - 1)
  }

  /** `parser_uart_mouse_move`: the header fields, and the points starting
      at offset 4. Flag bytes other than 1 read as false. */
  function Decode(buf: seq<Byte>): (f: Frame)
    requires IsComplete(buf)
    ensures f.Valid()
    ensures f.pointCount == buf[0] as int + 0x100 * buf[1] as int
    ensures f.click <==> buf[2] == 1
    ensures f.needInit <==> buf[3] == 1
    ensures forall i :: 0 <= i < f.pointCount ==>
      f.points[i] == Point(ToInt8(buf[4 + 2 * i]), ToInt8(buf[5 + 2 * i]))
  {
    var n := HeaderCount(buf[0], buf[1]);
    Frame(n, buf[2] == 1, buf[3] == 1, DecodePoints(buf[HEADER_SIZE..], n))
  }

  /** The points as signed-byte pairs, in order. */
  function EncodePoints(ps: seq<Point>): (bytes: seq<Byte>)
    ensures |bytes| == 2 * |ps|
    ensures forall i :: 0 <= i < |ps| ==>
      bytes[2 * i] == FromInt8(ps[i].dx) && bytes[2 * i + 1] == FromInt8(ps[i].dy)
  {
    if ps == [] then []
    else [FromInt8(ps[0].dx), FromInt8(ps[0].dy)] + EncodePoints(ps[1..])
  }

  /** What a sender writes for a frame: the inverse of Decode. */
  function Encode(f: Frame): (buf: seq<Byte>)
    requires f.Valid()
    ensures IsFrame(buf)
    ensures |buf| == FrameLength(f.pointCount)
  {
    [f.pointCount % 0x100, f.pointCount / 0x100,
     if f.click then 1 else 0, if f.needInit then 1 else 0]
    + EncodePoints(f.points)
  }

  /** Decoding what was encoded gives back every field. */
  lemma DecodeEncode(f: Frame)
    requires f.Valid()
    ensures Decode(Encode(f)) == f
  {
    var buf := Encode(f);
    var g := Decode(buf);
    assert g.pointCount == f.pointCount;
    forall i | 0 <= i < f.pointCount
      ensures g.points[i] == f.points[i]
    {
      assert buf[4 + 2 * i] == FromInt8(f.points[i].dx);
      assert buf[5 + 2 * i] == FromInt8(f.points[i].dy);
    }
  }

  /** Encoding decoded points gives back the bytes they were read from. */
  lemma {:induction false} EncodeDecodePoints(bytes: seq<Byte>, n: nat)
    requires |bytes| >= 2 * n
    ensures EncodePoints(DecodePoints(bytes, n)) == bytes[..2 * n]
    decreases n
  {
    if n > 0 {
      var ps := DecodePoints(bytes, n);
      var rest := bytes[2..];
      EncodeDecodePoints(rest, n - 1);
      assert ps[1..] == DecodePoints(rest, n - 1);
      assert FromInt8(ps[0].dx) == bytes[0] && FromInt8(ps[0].dy) == bytes[1];
      assert bytes[..2 * n] == [bytes[0], bytes[1]] + rest[..2 * (n - 1)];
    }
  }

  /** Encoding a decoded frame gives back its bytes, provided the flag bytes
      were 0 or 1 (any other value decodes like 0). */
  lemma EncodeDecode(buf: seq<Byte>)
    requires IsComplete(buf) && buf[2] <= 1 && buf[3] <= 1
    ensures Encode(Decode(buf)) == buf[..FrameLength(HeaderCount(buf[0], buf[1]))]
  {
    var f := Decode(buf);
    var n := f.pointCount;
    var body := buf[HEADER_SIZE..];
    assert f.points == DecodePoints(body, n);
    EncodeDecodePoints(body, n);
    HeaderCountBytes(buf[0], buf[1], n);
    assert buf[..FrameLength(n)] == buf[..HEADER_SIZE] + body[..2 * n];
  }

  /** The frame `02 00 01 00 05 05 FA FA`: two points, click, no reset. */
  lemma DecodeExample()
    ensures Decode([0x02, 0x00, 0x01, 0x00, 0x05, 0x05, 0xFA, 0xFA])
         == Frame(2, true, false, [Point(5, 5), Point(-6, -6)])
  {
    var f := Decode([0x02, 0x00, 0x01, 0x00, 0x05, 0x05, 0xFA, 0xFA]);
    assert f.points[0] == Point(5, 5);
    assert f.points[1] == Point(-6, -6);
  }
}
