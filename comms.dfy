/** The communications record `commsGP` and the "Rosetta" encoder that fills
    one record from a connected controller's readings. */
module Comms {

  /** C `short`: a signed 16-bit integer. */
  newtype Int16 = x: int | -0x8000 <= x < 0x8000

  /** C `ushort`: an unsigned 16-bit integer. */
  newtype UInt16 = x: int | 0 <= x < 0x1_0000

  /** C `byte`: an unsigned 8-bit integer. */
  newtype Byte = x: int | 0 <= x < 0x100

  /** The six reserved `data` bytes of a record. */
  type Data6 = s: seq<Byte> | |s| == 6 witness [0, 0, 0, 0, 0, 0]

  /** Seat index 0..3 of a record. */
  type SlotIndex = i: nat | i < 4

  /** The value the encoder puts in bits 3-0 of the header (the controller
      "enum", fixed to 3 whatever the controller's model). */
  const ControllerType: Byte := 3

  /** One `commsGP` record, field for field. */
  datatype Record = Record(
    id: Byte,
    buttons1: Byte,
    buttons2: Byte,
    lxAxis: Int16,
    lyAxis: Int16,
    rxAxis: Int16,
    ryAxis: Int16,
    secondaryButtons: Byte,
    leftTrigger: UInt16,
    rightTrigger: UInt16,
    data: Data6)

  /** A record as static initialisation leaves it: every byte zero. */
  const ZeroRecord: Record := Record(0, 0, 0, 0, 0, 0, 0, 0, 0, 0, [0, 0, 0, 0, 0, 0])

  /** What the controller stack reports for one controller after an update:
      the connection status and the raw readings of the accessors the encoder
      calls (buttons, axisX, axisY, axisRX, axisRY, brake, throttle,
      miscButtons), each as the integer the accessor returns. */
  datatype PadState = PadState(
    connected: bool,
    buttons: int,
    axisX: int,
    axisY: int,
    axisRX: int,
    axisRY: int,
    brake: int,
    throttle: int,
    miscButtons: int)

  /** Bits 7-5 of a header: the seat index. */
  function HeaderSlot(h: Byte): nat { ((h as bv8) >> 5) as nat }

  /** Bit 4 of a header: the record is valid (its controller is connected). */
  predicate HeaderValid(h: Byte) { (h as bv8) & 0x10 != 0 }

  /** Bits 3-0 of a header: the controller type. */
  function HeaderType(h: Byte): Byte { ((h as bv8) & 0x0F) as int as Byte }

  /** The header byte the encoder writes for seat `i`:
      `(byte)(i << 5)`, then `| (1 << 4)`, then `| 3`. */
  function Header(i: SlotIndex): (h: Byte)
    ensures h as int == 32 * i + 16 + 3
    ensures HeaderSlot(h) == i
    ensures HeaderValid(h)
    ensures HeaderType(h) == ControllerType
  {
    ((((i as bv8) << 5) | (1 << 4) | (ControllerType as bv8)) as int) as Byte
  }

  /** Distinct seats never share a header byte. */
  lemma HeaderInjective(i: SlotIndex, j: SlotIndex)
    requires Header(i) == Header(j)
    ensures i == j
  {
    assert HeaderSlot(Header(i)) == HeaderSlot(Header(j));
  }

  /** The C cast `(byte)x`: keep the low 8 bits of a two's complement value. */
  function ToByte(x: int): Byte {
    (x % 0x100) as Byte
  }

  /** The C cast `(short)x`: keep the low 16 bits, read as two's complement. */
  function ToInt16(x: int): Int16 {
    var m := x % 0x1_0000;
    if m < 0x8000 then m as Int16 else (m - 0x1_0000) as Int16
  }

  /** The C conversion of an integer to `ushort`: keep the low 16 bits. */
  function ToUInt16(x: int): UInt16 {
    (x % 0x1_0000) as UInt16
  }

  /** Each narrowing cast agrees with its argument modulo the width of its
      type, and keeps a value that fits the type unchanged. */
  lemma NarrowingCasts(x: int)
    ensures (ToByte(x) as int - x) % 0x100 == 0
    ensures 0 <= x < 0x100 ==> ToByte(x) as int == x
    ensures (ToInt16(x) as int - x) % 0x1_0000 == 0
    ensures -0x8000 <= x < 0x8000 ==> ToInt16(x) as int == x
    ensures (ToUInt16(x) as int - x) % 0x1_0000 == 0
    ensures 0 <= x < 0x1_0000 ==> ToUInt16(x) as int == x
  {
  }

  /** `(byte)(b >> 8)` and `(byte)(b & 0xFF)` together recover `b` modulo
      2^16: the high byte first, then the low byte. */
  lemma {:induction false} ButtonSplit(b: int)
    ensures ToByte(b / 0x100) as int * 0x100 + ToByte(b % 0x100) as int == b % 0x1_0000
  {
    var q := b / 0x100;
    var lo := b % 0x100;
    assert b == 0x100 * q + lo;
    var hi := q % 0x100;
    assert q == 0x100 * (q / 0x100) + hi;
    assert b == 0x1_0000 * (q / 0x100) + (hi * 0x100 + lo);
    assert 0 <= hi * 0x100 + lo < 0x1_0000;
    NarrowingCasts(lo);
    assert ToByte(q) as int == hi;
    assert ToByte(lo) as int == lo;
  }

  /** Two integers equal modulo 2^16 have the same low 16 bits. */
  lemma {:induction false} SameLow16(x: int, y: int)
    requires (x - y) % 0x1_0000 == 0
    ensures x % 0x1_0000 == y % 0x1_0000
  {
    var k := (x - y) / 0x1_0000;
    assert x - y == 0x1_0000 * k;
    assert x == y + 0x1_0000 * k;
  }

  /** A trigger field: `(short)` of the reading, stored into a `ushort`. */
  function TriggerField(x: int): (r: UInt16)
    ensures r as int == x % 0x1_0000
    ensures 0 <= x < 0x1_0000 ==> r as int == x
  {
    var s := ToInt16(x);
    NarrowingCasts(x);
    SameLow16(s as int, x);
    ToUInt16(s as int)
  }

  /** The "Rosetta" block of `loop()` for a connected controller in seat `i`:
      it overwrites every field of the seat's record except `data`, which it
      never writes. */
  function Encode(prev: Record, i: SlotIndex, p: PadState): (r: Record)
    ensures r.data == prev.data
  {
    prev.(
      id := Header(i),
      buttons1 := ToByte(p.buttons / 0x100),
      buttons2 := ToByte(p.buttons % 0x100),
      lxAxis := ToInt16(p.axisX),
      lyAxis := ToInt16(p.axisY),
      rxAxis := ToInt16(p.axisRX),
      ryAxis := ToInt16(p.axisRY),
      leftTrigger := TriggerField(p.brake),
      rightTrigger := TriggerField(p.throttle),
      secondaryButtons := ToByte(p.miscButtons))
  }

  /** What each field of an encoded record holds: a valid header naming the
      seat, the button mask split high byte first, every other reading cut to
      the width of its field. */
  lemma EncodeFields(prev: Record, i: SlotIndex, p: PadState)
    ensures var r := Encode(prev, i, p);
      HeaderSlot(r.id) == i && HeaderValid(r.id) && HeaderType(r.id) == ControllerType &&
      r.buttons1 as int * 0x100 + r.buttons2 as int == p.buttons % 0x1_0000 &&
      (0 <= p.buttons < 0x1_0000 ==>
         r.buttons1 as int == p.buttons / 0x100 && r.buttons2 as int == p.buttons % 0x100) &&
      (-0x8000 <= p.axisX < 0x8000 ==> r.lxAxis as int == p.axisX) &&
      (-0x8000 <= p.axisY < 0x8000 ==> r.lyAxis as int == p.axisY) &&
      (-0x8000 <= p.axisRX < 0x8000 ==> r.rxAxis as int == p.axisRX) &&
      (-0x8000 <= p.axisRY < 0x8000 ==> r.ryAxis as int == p.axisRY) &&
      r.leftTrigger as int == p.brake % 0x1_0000 &&
      r.rightTrigger as int == p.throttle % 0x1_0000 &&
      r.secondaryButtons as int == p.miscButtons % 0x100
  {
    ButtonSplit(p.buttons);
    NarrowingCasts(p.axisX);
    NarrowingCasts(p.axisY);
    NarrowingCasts(p.axisRX);
    NarrowingCasts(p.axisRY);
    NarrowingCasts(p.miscButtons);
  }

  /** Readings inside the ranges the controller stack documents (axes in
      -511..512, brake and throttle in 0..1023, buttons a 16-bit mask, misc
      buttons a byte) reach the record without change. */
  lemma EncodeDocumentedRanges(prev: Record, i: SlotIndex, p: PadState)
    requires -511 <= p.axisX <= 512 && -511 <= p.axisY <= 512
    requires -511 <= p.axisRX <= 512 && -511 <= p.axisRY <= 512
    requires 0 <= p.brake <= 1023 && 0 <= p.throttle <= 1023
    requires 0 <= p.buttons < 0x1_0000 && 0 <= p.miscButtons < 0x100
    ensures var r := Encode(prev, i, p);
      r.id == Header(i) &&
      r.buttons1 as int * 0x100 + r.buttons2 as int == p.buttons &&
      r.lxAxis as int == p.axisX && r.lyAxis as int == p.axisY &&
      r.rxAxis as int == p.axisRX && r.ryAxis as int == p.axisRY &&
      r.leftTrigger as int == p.brake && r.rightTrigger as int == p.throttle &&
      r.secondaryButtons as int == p.miscButtons
  {
    EncodeFields(prev, i, p);
  }
}
