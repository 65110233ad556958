/** The bytes the follower puts on the I2C bus: `wireWriteShort` as written,
    the 22-byte layout of one record, and the 88-byte answer to a request.
    Beside them, the MSB-then-LSB encoding the helper's comment promises,
    with its decoder and round trip. */
module Wire {

  import opened Maybe
  import opened Comms

  /** Bytes per record on the bus: 3 single bytes, 4 axes, 1 byte,
      2 triggers, 6 data bytes. */
  const RecordSize: nat := 22

  /** `(byte)(value >> 8)`: the arithmetic shift, then the low 8 bits. */
  function HighByte(v: Int16): Byte {
    ToByte(v as int / 0x100)
  }

  /** `value & 0xFF`, narrowed to a byte: the low 8 bits of `v`. */
  function LowByte(v: Int16): Byte {
    ToByte(v as int)
  }

  /** The high byte is bits 15-8 and the low byte bits 7-0 of the 16-bit
      two's complement pattern of `v`. */
  lemma ByteHalves(v: Int16)
    ensures HighByte(v) as int == (v as int % 0x1_0000) / 0x100
    ensures LowByte(v) as int == v as int % 0x100
  {
  }

  /** `wireWriteShort` as written: the high byte, then `(byte)(value && 0xFF)`,
      which is the truth value of `value != 0`, not the low byte. */
  function ShortBytes(v: Int16): (r: seq<Byte>)
    ensures |r| == 2
    ensures r[0] == HighByte(v)
    ensures r[1] <= 1
    ensures r[1] == 1 <==> v != 0
  {
    [HighByte(v), if v != 0 then 1 else 0]
  }

  /** The bytes `i2cRequest` writes for one record, field by field: id,
      buttons1, buttons2, the four axes, secondary buttons, the two triggers
      (`ushort` values passed to the `short` parameter of `wireWriteShort`),
      and data[0..5]. */
  function RecordBytes(r: Record): (b: seq<Byte>)
    ensures |b| == RecordSize
  {
    var lx, ly := ShortBytes(r.lxAxis), ShortBytes(r.lyAxis);
    var rx, ry := ShortBytes(r.rxAxis), ShortBytes(r.ryAxis);
    var lt := ShortBytes(ToInt16(r.leftTrigger as int));
    var rt := ShortBytes(ToInt16(r.rightTrigger as int));
    [r.id, r.buttons1, r.buttons2,
     lx[0], lx[1], ly[0], ly[1], rx[0], rx[1], ry[0], ry[1],
     r.secondaryButtons,
     lt[0], lt[1], rt[0], rt[1],
     r.data[0], r.data[1], r.data[2], r.data[3], r.data[4], r.data[5]]
  }

  /** Where each field of a record sits in its 22 bytes. */
  lemma RecordLayout(r: Record)
    ensures var b := RecordBytes(r);
      b[0] == r.id && b[1] == r.buttons1 && b[2] == r.buttons2 &&
      b[3..5] == ShortBytes(r.lxAxis) && b[5..7] == ShortBytes(r.lyAxis) &&
      b[7..9] == ShortBytes(r.rxAxis) && b[9..11] == ShortBytes(r.ryAxis) &&
      b[11] == r.secondaryButtons &&
      b[12..14] == ShortBytes(ToInt16(r.leftTrigger as int)) &&
      b[14..16] == ShortBytes(ToInt16(r.rightTrigger as int)) &&
      b[16..] == r.data
  {
    var b := RecordBytes(r);
    assert b[16..] == r.data;
  }

  /** The answer to one request: the records in seat order, back to back. */
  function Serialize(s: seq<Record>): (b: seq<Byte>)
    ensures |b| == 22 * |s|
  {
    if s == [] then [] else Serialize(s[..|s| - 1]) + RecordBytes(s[|s| - 1])
  }

  /** Record `i` of the store occupies bytes 22*i .. 22*i+21 of the answer. */
  lemma {:induction false} SerializeLayout(s: seq<Record>, i: nat)
    requires i < |s|
    ensures Serialize(s)[22 * i .. 22 * (i + 1)] == RecordBytes(s[i])
  {
    var n := |s| - 1;
    var front := Serialize(s[..n]);
    assert Serialize(s) == front + RecordBytes(s[n]);
    if i == n {
    } else {
      SerializeLayout(s[..n], i);
      assert s[..n][i] == s[i];
      assert Serialize(s)[22 * i .. 22 * (i + 1)]
          == front[22 * i .. 22 * (i + 1)];
    }
  }

  /** A non-empty sequence is its front followed by its last element. */
  lemma SplitLast<T>(s: seq<T>)
    requires s != []
    ensures s[..|s| - 1] + [s[|s| - 1]] == s
  {
  }

  /** Serializing one more record appends its 22 bytes. */
  lemma SerializeSnoc(s: seq<Record>, r: Record)
    ensures Serialize(s + [r]) == Serialize(s) + RecordBytes(r)
  {
    assert (s + [r])[..|s|] == s;
  }

  /** Writing a record's fields one after the other appends its bytes. */
  lemma AppendRecordBytes(before: seq<Byte>, r: Record)
    ensures before + [r.id] + [r.buttons1] + [r.buttons2]
      + ShortBytes(r.lxAxis) + ShortBytes(r.lyAxis)
      + ShortBytes(r.rxAxis) + ShortBytes(r.ryAxis)
      + [r.secondaryButtons]
      + ShortBytes(ToInt16(r.leftTrigger as int))
      + ShortBytes(ToInt16(r.rightTrigger as int))
      + r.data
      == before + RecordBytes(r)
  {
    var b := RecordBytes(r);
    var acc := before + [r.id];
    assert acc == before + b[..1] by { RecordLayout(r); }
    assert acc + [r.buttons1] == before + b[..2] by { RecordLayout(r); PrefixStep(before, b, 1, 2); }
    acc := acc + [r.buttons1];
    assert acc + [r.buttons2] == before + b[..3] by { RecordLayout(r); PrefixStep(before, b, 2, 3); }
    acc := acc + [r.buttons2];
    assert acc + ShortBytes(r.lxAxis) == before + b[..5] by { RecordLayout(r); PrefixStep(before, b, 3, 5); }
    acc := acc + ShortBytes(r.lxAxis);
    assert acc + ShortBytes(r.lyAxis) == before + b[..7] by { RecordLayout(r); PrefixStep(before, b, 5, 7); }
    acc := acc + ShortBytes(r.lyAxis);
    assert acc + ShortBytes(r.rxAxis) == before + b[..9] by { RecordLayout(r); PrefixStep(before, b, 7, 9); }
    acc := acc + ShortBytes(r.rxAxis);
    assert acc + ShortBytes(r.ryAxis) == before + b[..11] by { RecordLayout(r); PrefixStep(before, b, 9, 11); }
    acc := acc + ShortBytes(r.ryAxis);
    assert acc + [r.secondaryButtons] == before + b[..12] by { RecordLayout(r); PrefixStep(before, b, 11, 12); }
    acc := acc + [r.secondaryButtons];
    assert acc + ShortBytes(ToInt16(r.leftTrigger as int)) == before + b[..14] by { RecordLayout(r); PrefixStep(before, b, 12, 14); }
    acc := acc + ShortBytes(ToInt16(r.leftTrigger as int));
    assert acc + ShortBytes(ToInt16(r.rightTrigger as int)) == before + b[..16] by { RecordLayout(r); PrefixStep(before, b, 14, 16); }
    acc := acc + ShortBytes(ToInt16(r.rightTrigger as int));
    assert acc + r.data == before + b[..22] by { RecordLayout(r); PrefixStep(before, b, 16, 22); }
    acc := acc + r.data;
    assert b[..22] == b;
  }

  /** Appending the next slice of `b` extends the prefix already written. */
  lemma PrefixStep<T>(p: seq<T>, b: seq<T>, k: nat, m: nat)
    requires k <= m <= |b|
    ensures p + b[..k] + b[k..m] == p + b[..m]
  {
    assert b[..k] + b[k..m] == b[..m];
  }

  // ---------------------------------------------------------------------
  // The defect in wireWriteShort.

  /** The second byte agrees with the low byte only when `v` is zero or its
      low byte is 1. */
  lemma ShortBytesAgreeIff(v: Int16)
    ensures ShortBytes(v)[1] == LowByte(v) <==> v == 0 || v as int % 0x100 == 1
  {
  }

  /** Two different values that `wireWriteShort` puts on the bus as the same
      two bytes: the low byte is lost. */
  lemma ShortBytesLossy()
    ensures ShortBytes(0x1234) == ShortBytes(0x1201) == [0x12, 1]
    ensures LowByte(0x1234) == 0x34
  {
  }

  // ---------------------------------------------------------------------
  // The encoding the helper's comment promises ("MSB then LSB").

  /** MSB, then LSB: the two bytes of the 16-bit two's complement value. */
  function ShortBytesMsbLsb(v: Int16): (r: seq<Byte>)
    ensures |r| == 2 && r[0] == ShortBytes(v)[0]
  {
    [HighByte(v), LowByte(v)]
  }

  /** The corrected pair recombines, MSB first, to `v` modulo 2^16. */
  lemma MsbLsbRecombines(v: Int16)
    ensures var r := ShortBytesMsbLsb(v); r[0] as int * 0x100 + r[1] as int == v as int % 0x1_0000
  {
    ButtonSplit(v as int);
    NarrowingCasts(v as int);
    assert ToByte(v as int) == ToByte(v as int % 0x100);
  }

  /** A bus master's reading of two bytes, MSB first, as a `short`. */
  function DecodeShort(hi: Byte, lo: Byte): Int16 {
    ToInt16(hi as int * 0x100 + lo as int)
  }

  /** The corrected pair, parsed MSB first, gives back the short. */
  lemma {:induction false} ShortRoundTrip(v: Int16)
    ensures var b := ShortBytesMsbLsb(v); DecodeShort(b[0], b[1]) == v
  {
    var b := ShortBytesMsbLsb(v);
    var m := b[0] as int * 0x100 + b[1] as int;
    MsbLsbRecombines(v);
    if v >= 0 {
      assert m == v as int;
    } else {
      assert m == v as int + 0x1_0000;
    }
  }

  /** A trigger read back from the bus as a `short`, stored as a `ushort`. */
  function DecodeTrigger(hi: Byte, lo: Byte): UInt16 {
    ToUInt16(DecodeShort(hi, lo) as int)
  }

  lemma {:induction false} TriggerRoundTrip(t: UInt16)
    ensures var b := ShortBytesMsbLsb(ToInt16(t as int)); DecodeTrigger(b[0], b[1]) == t
  {
    var s := ToInt16(t as int);
    var b := ShortBytesMsbLsb(s);
    ShortRoundTrip(s);
    assert DecodeShort(b[0], b[1]) == s;
    NarrowingCasts(t as int);
    SameLow16(s as int, t as int);
    assert ToUInt16(s as int) as int == t as int % 0x1_0000 == t as int;
  }

  /** One record with both halves of every 16-bit field. */
  function RecordBytesIntended(r: Record): (b: seq<Byte>)
    ensures |b| == RecordSize
  {
    var lx, ly := ShortBytesMsbLsb(r.lxAxis), ShortBytesMsbLsb(r.lyAxis);
    var rx, ry := ShortBytesMsbLsb(r.rxAxis), ShortBytesMsbLsb(r.ryAxis);
    var lt := ShortBytesMsbLsb(ToInt16(r.leftTrigger as int));
    var rt := ShortBytesMsbLsb(ToInt16(r.rightTrigger as int));
    [r.id, r.buttons1, r.buttons2,
     lx[0], lx[1], ly[0], ly[1], rx[0], rx[1], ry[0], ry[1],
     r.secondaryButtons,
     lt[0], lt[1], rt[0], rt[1],
     r.data[0], r.data[1], r.data[2], r.data[3], r.data[4], r.data[5]]
  }

  /** A bus master's parse of one 22-byte record, in the same field order. */
  function DecodeRecord(b: seq<Byte>): Option<Record> {
    if |b| != RecordSize then None
    else Some(Record(
      b[0], b[1], b[2],
      DecodeShort(b[3], b[4]), DecodeShort(b[5], b[6]),
      DecodeShort(b[7], b[8]), DecodeShort(b[9], b[10]),
      b[11],
      DecodeTrigger(b[12], b[13]), DecodeTrigger(b[14], b[15]),
      b[16..]))
  }

  /** Parsing the corrected bytes of a record gives the record back. */
  lemma {:induction false} RecordRoundTrip(r: Record)
    ensures DecodeRecord(RecordBytesIntended(r)) == Some(r)
  {
    var b := RecordBytesIntended(r);
    ShortRoundTrip(r.lxAxis);
    ShortRoundTrip(r.lyAxis);
    ShortRoundTrip(r.rxAxis);
    ShortRoundTrip(r.ryAxis);
    TriggerRoundTrip(r.leftTrigger);
    TriggerRoundTrip(r.rightTrigger);
    assert b[16..] == r.data;
  }

  /** The as-written bytes do not round-trip: a left stick at 100 is parsed
      back as 1, and a different record gives the very same bytes. */
  lemma RecordBytesLossy()
    ensures var r1 := ZeroRecord.(lxAxis := 100);
            var r2 := ZeroRecord.(lxAxis := 1);
            r1 != r2 && RecordBytes(r1) == RecordBytes(r2) &&
            RecordBytes(r1)[3..5] == [0, 1] && DecodeShort(0, 1) == 1
  {
    assert HighByte(100) == 0 && HighByte(1) == 0;
    assert ShortBytes(100) == ShortBytes(1) == [0, 1];
  }

  /** The corrected answer to a request. */
  function SerializeIntended(s: seq<Record>): (b: seq<Byte>)
    ensures |b| == 22 * |s|
  {
    if s == [] then [] else SerializeIntended(s[..|s| - 1]) + RecordBytesIntended(s[|s| - 1])
  }

  /** A bus master's parse of a whole answer: 22-byte records back to back. */
  function DecodeSnapshot(b: seq<Byte>): (r: Option<seq<Record>>)
    ensures r.Some? ==> 22 * |r.value| == |b|
    decreases |b|
  {
    if b == [] then Some([])
    else if |b| < RecordSize then None
    else
      match DecodeSnapshot(b[..|b| - RecordSize])
      case None => None
      case Some(front) =>
        match DecodeRecord(b[|b| - RecordSize..])
        case None => None
        case Some(last) => Some(front + [last])
  }

  /** Parsing a well-formed answer followed by one more record's bytes
      gives the parsed records followed by that record. */
  lemma DecodeSnapshotAppend(front: seq<Byte>, last: seq<Byte>, rs: seq<Record>, r: Record)
    requires DecodeSnapshot(front) == Some(rs)
    requires DecodeRecord(last) == Some(r)
    ensures DecodeSnapshot(front + last) == Some(rs + [r])
  {
    var b := front + last;
    assert b[..|b| - RecordSize] == front;
    assert b[|b| - RecordSize..] == last;
  }

  /** Parsing the corrected answer gives back every record of the store. */
  lemma {:induction false} SnapshotRoundTrip(s: seq<Record>)
    ensures DecodeSnapshot(SerializeIntended(s)) == Some(s)
  {
    if s != [] {
      var n := |s| - 1;
      SplitLast(s);
      var front, last := SerializeIntended(s[..n]), RecordBytesIntended(s[n]);
      assert SerializeIntended(s) == front + last;
      SnapshotRoundTrip(s[..n]);
      RecordRoundTrip(s[n]);
      DecodeSnapshotAppend(front, last, s[..n], s[n]);
    }
  }
}
