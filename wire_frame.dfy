/** The 11-byte wire frame assembled once per cycle from the two axis values:
    two start markers, axis A then axis B as big-endian u32, one end marker.
    The axis values enter as the already-converted u32 values. */
module WireFrame {

  /** Rust's u8 and u32, as bounded integers. */
  type Byte = x: int | 0 <= x < 0x100
  type U32 = x: int | 0 <= x < 0x1_0000_0000

  const FrameLength: nat := 11
  /** Where the payload starts: the copy loop writes into `ramka[2..]`. */
  const PayloadOffset: nat := 2
  const StartMarkerHi: Byte := 0xFF
  const StartMarkerLo: Byte := 0xFE
  const EndMarker: Byte := 0xFD

  /** The literal the frame array starts from: markers around eight zero bytes. */
  const Template: seq<Byte> := [StartMarkerHi, StartMarkerLo, 0, 0, 0, 0, 0, 0, 0, 0, EndMarker]

  /** `u32::to_be_bytes`: the four bytes of `v`, most significant first. */
  function ToBeBytes(v: U32): (r: seq<Byte>)
    ensures |r| == 4
  {
    [v / 0x100_0000, v / 0x1_0000 % 0x100, v / 0x100 % 0x100, v % 0x100]
  }

  /** The receiver's reading of four bytes as a big-endian u32. */
  function FromBeBytes(b: seq<Byte>): (v: U32)
    requires |b| == 4
  {
    var b0: int, b1: int, b2: int, b3: int := b[0], b[1], b[2], b[3];
    b0 * 0x100_0000 + b1 * 0x1_0000 + b2 * 0x100 + b3
  }

  /** Decoding what `ToBeBytes` produced gives the value back. */
  lemma {:induction false} BeBytesRoundTrip(v: U32)
    ensures FromBeBytes(ToBeBytes(v)) == v
  {
    var q: int := v / 0x100;
    var r: int := q / 0x100;
    assert v == q * 0x100 + v % 0x100;
    assert q == r * 0x100 + q % 0x100;
    assert r == v / 0x1_0000;
    assert r / 0x100 == v / 0x100_0000;
    assert r == (v / 0x100_0000) * 0x100 + r % 0x100;
  }

  /** Every group of four bytes is the encoding of exactly one u32:
      no byte pattern is reserved in the payload. */
  lemma {:induction false} FromBeBytesOnto(b: seq<Byte>)
    requires |b| == 4
    ensures ToBeBytes(FromBeBytes(b)) == b
  {
    var b0: int, b1: int, b2: int, b3: int := b[0], b[1], b[2], b[3];
    var v: int := FromBeBytes(b);
    assert v == ((b0 * 0x100 + b1) * 0x100 + b2) * 0x100 + b3;
    assert v / 0x100 == (b0 * 0x100 + b1) * 0x100 + b2;
    assert v % 0x100 == b3;
    assert v / 0x1_0000 == b0 * 0x100 + b1;
    assert v / 0x1_0000 % 0x100 == b1;
    assert v / 0x100 % 0x100 == b2;
    assert v / 0x100_0000 == b0;
  }

  /** The frame sent for axis values `a` and `b`, as the format describes it. */
  function Frame(a: U32, b: U32): (f: seq<Byte>)
    ensures |f| == FrameLength
    ensures f[0] == StartMarkerHi && f[1] == StartMarkerLo && f[FrameLength - 1] == EndMarker
    ensures FromBeBytes(f[2..6]) == a && FromBeBytes(f[6..10]) == b
  {
    var f := [StartMarkerHi, StartMarkerLo] + ToBeBytes(a) + ToBeBytes(b) + [EndMarker];
    assert f[2..6] == ToBeBytes(a);
    assert f[6..10] == ToBeBytes(b);
    BeBytesRoundTrip(a);
    BeBytesRoundTrip(b);
    f
  }

  /** Byte order on the wire: each axis is sent most significant byte first. */
  lemma FrameByteOrder(a: U32, b: U32)
    ensures Frame(a, b)[2] == a / 0x100_0000 && Frame(a, b)[5] == a % 0x100
    ensures Frame(a, b)[6] == b / 0x100_0000 && Frame(a, b)[9] == b % 0x100
  {
  }

  /** Different axis values never produce the same frame. */
  lemma FrameInjective(a: U32, b: U32, a': U32, b': U32)
    requires Frame(a, b) == Frame(a', b')
    ensures a == a' && b == b'
  {
  }

  /** Every 8-byte payload, marker bytes included, occurs in some frame: the
      format has no escaping, so a receiver can only stay in step by counting
      to FrameLength, not by looking for markers. */
  lemma {:induction false} EveryPayloadOccurs(p: seq<Byte>)
    requires |p| == 8
    ensures exists a: U32, b: U32 :: Frame(a, b)[2..10] == p
  {
    var a := FromBeBytes(p[..4]);
    var b := FromBeBytes(p[4..]);
    FromBeBytesOnto(p[..4]);
    FromBeBytesOnto(p[4..]);
    var f := Frame(a, b);
    assert f == [StartMarkerHi, StartMarkerLo] + p[..4] + p[4..] + [EndMarker];
    assert f[2..10] == p;
  }

  /** The frame for full left and full right deflection of the two axes. */
  lemma ExtremeFrame()
    ensures Frame(0, 0xFFFF_FFFF) == [0xFF, 0xFE, 0, 0, 0, 0, 0xFF, 0xFF, 0xFF, 0xFF, 0xFD]
  {
  }

  /** The copy loop: `dst[offset..]` is zipped with `src` and each pair copied,
      so copying stops at whichever of the two runs out first.
      `written` is the number of bytes copied. */
  method ZipCopy(dst: array<Byte>, offset: nat, src: seq<Byte>) returns (written: nat)
    requires offset <= dst.Length
    modifies dst
    ensures written == if dst.Length - offset < |src| then dst.Length - offset else |src|
    ensures forall k :: 0 <= k < dst.Length ==>
      dst[k] == if offset <= k < offset + written then src[k - offset] else old(dst[k])
  {
    var i := 0;
    while offset + i < dst.Length && i < |src|
      invariant offset + i <= dst.Length && i <= |src|
      invariant forall k :: 0 <= k < dst.Length ==>
        dst[k] == if offset <= k < offset + i then src[k - offset] else old(dst[k])
    {
      dst[offset + i] := src[i];
      i := i + 1;
    }
    written := i;
  }

  /** Frame assembly for one cycle: split both axes into big-endian bytes,
      start from the template and copy axis A's bytes then axis B's over the
      payload positions. */
  method BuildFrame(a: U32, b: U32) returns (frame: array<Byte>)
    ensures fresh(frame)
    ensures frame[..] == Frame(a, b)
  {
    var axisA := ToBeBytes(a);
    var axisB := ToBeBytes(b);
    frame := new Byte[FrameLength](i requires 0 <= i < FrameLength => Template[i]);
    assert frame[..] == Template;
    var written := ZipCopy(frame, PayloadOffset, axisA + axisB);
    assert written == 8;
    assert frame[..] == Frame(a, b);
  }
}
