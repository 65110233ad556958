/** Runs of the bridge from power-up, stated on the `Bridge` object, and the
    record reset on disconnect that the valid bit of the header calls for. */
module Scenarios {

  import opened Maybe
  import opened Registry
  import opened Comms
  import opened Wire
  import opened ArduinoMain

  /** Readings of a controller with every button pressed and both sticks at
      the negative end of their documented range. */
  predicate AllPressedFullLeft(p: PadState) {
    p == PadState(true, 0xFFFF, -511, -511, -511, -511, 0, 0, 0)
  }

  /** The 22 bytes of seat 0 for those readings, as the source writes them:
      header 0x13, buttons 0xFF 0xFF, each axis as 0xFE then 1 (the second
      byte of `wireWriteShort`), zero misc buttons, triggers and data. */
  const FirstRecordBytes: seq<Byte> :=
    [0x13, 0xFF, 0xFF, 0xFE, 1, 0xFE, 1, 0xFE, 1, 0xFE, 1, 0, 0, 0, 0, 0, 0, 0, 0, 0, 0, 0]

  /** The answer for a four-seat store, record by record. */
  lemma SerializeFour(s: seq<Record>)
    requires |s| == 4
    ensures Serialize(s) == RecordBytes(s[0]) + RecordBytes(s[1]) + RecordBytes(s[2]) + RecordBytes(s[3])
  {
    var s1 := [s[0]];
    var s2 := s1 + [s[1]];
    var s3 := s2 + [s[2]];
    assert s == s3 + [s[3]];
    SerializeSnoc([], s[0]);
    SerializeSnoc(s1, s[1]);
    SerializeSnoc(s2, s[2]);
    SerializeSnoc(s3, s[3]);
  }

  /** A record in which every field is zero is 22 zero bytes on the bus,
      and three of them are 66. */
  lemma ZeroRecordBytes()
    ensures RecordBytes(ZeroRecord) == seq(RecordSize, _ => 0)
    ensures RecordBytes(ZeroRecord) + RecordBytes(ZeroRecord) + RecordBytes(ZeroRecord)
         == seq(66, _ => 0)
  {
    var z := RecordBytes(ZeroRecord);
    assert z == seq(RecordSize, _ => 0);
  }

  lemma FirstRecordEncoding(p: PadState)
    requires AllPressedFullLeft(p)
    ensures RecordBytes(Encode(ZeroRecord, 0, p)) == FirstRecordBytes
  {
    var r := Encode(ZeroRecord, 0, p);
    EncodeFields(ZeroRecord, 0, p);
    assert r.lxAxis as int == -511 && r.leftTrigger == 0 && r.secondaryButtons == 0;
    assert ShortBytes(-511) == [0xFE, 1];
  }

  /** The answer for a store whose seat 0 holds those readings and whose
      other seats are still zero. */
  lemma AnswerAfterFirstSample(p: PadState)
    requires AllPressedFullLeft(p)
    ensures Serialize([Encode(ZeroRecord, 0, p), ZeroRecord, ZeroRecord, ZeroRecord])
         == FirstRecordBytes + seq(66, _ => 0)
  {
    var s := [Encode(ZeroRecord, 0, p), ZeroRecord, ZeroRecord, ZeroRecord];
    SerializeFour(s);
    FirstRecordEncoding(p);
    ZeroRecordBytes();
  }

  /** Power-up, controller `a` connects, one sampling pass, one bus request:
      `a` takes seat 0, and the answer is seat 0's record followed by three
      zero records. */
  method ConnectSampleRequest(a: Handle, pad: Handle -> PadState) returns (sent: seq<Byte>)
    requires AllPressedFullLeft(pad(a))
    ensures sent == FirstRecordBytes + seq(66, _ => 0)
  {
    var bridge := new Bridge();
    var found := bridge.OnConnectedGamepad(a);
    assert bridge.gamepads[..] == [Some(a), None, None, None];
    bridge.Loop(pad);
    ghost var store := bridge.records[..];
    assert store == [Encode(ZeroRecord, 0, pad(a)), ZeroRecord, ZeroRecord, ZeroRecord];
    sent := bridge.I2cRequest();
    AnswerAfterFirstSample(pad(a));
  }

  /** As written: controller `a` connects, is sampled, and disconnects; the
      next sampling pass and bus request still report seat 0 as valid, with
      the last readings of a controller that is gone. */
  method StaleAfterDisconnect(a: Handle, pad: Handle -> PadState) returns (sent: seq<Byte>)
    requires AllPressedFullLeft(pad(a))
    ensures sent == FirstRecordBytes + seq(66, _ => 0)
    ensures HeaderValid(sent[0])
  {
    var bridge := new Bridge();
    var connected := bridge.OnConnectedGamepad(a);
    assert bridge.gamepads[..] == [Some(a), None, None, None];
    bridge.Loop(pad);
    ghost var sampled := bridge.records[..];
    assert sampled == [Encode(ZeroRecord, 0, pad(a)), ZeroRecord, ZeroRecord, ZeroRecord];
    var found := bridge.OnDisconnectedGamepad(a);
    assert bridge.gamepads[..] == EmptySlots;
    bridge.Loop(pad);
    assert bridge.records[..] == sampled;
    sent := bridge.I2cRequest();
    AnswerAfterFirstSample(pad(a));
    assert HeaderValid(0x13);
  }

  /** A sampling pass that also resets the record of every seat it does not
      encode, so that a record's valid bit reports whether its seat holds a
      connected controller. */
  function SampleResetting(slots: Slots, store: seq<Record>, pad: Handle -> PadState): (r: seq<Record>)
    requires |slots| == |store| == MaxGamepads
    ensures |r| == MaxGamepads
  {
    seq(MaxGamepads, i requires 0 <= i < MaxGamepads =>
      if Live(slots[i], pad) then Encode(store[i], i, pad(slots[i].value)) else ZeroRecord)
  }

  /** After a resetting pass the valid bit of every record is set exactly
      when its seat is live, a non-live seat serializes to 22 zero bytes, and
      live seats are encoded as by the source's pass. */
  lemma {:induction false} SampleResettingValidIff(slots: Slots, store: seq<Record>, pad: Handle -> PadState, i: nat)
    requires |slots| == |store| == MaxGamepads && i < MaxGamepads
    ensures HeaderValid(SampleResetting(slots, store, pad)[i].id) <==> Live(slots[i], pad)
    ensures !Live(slots[i], pad) ==>
              RecordBytes(SampleResetting(slots, store, pad)[i]) == seq(RecordSize, _ => 0)
    ensures Live(slots[i], pad) ==> SampleResetting(slots, store, pad)[i] == Sample(slots, store, pad)[i]
  {
    var r := SampleResetting(slots, store, pad)[i];
    if Live(slots[i], pad) {
      EncodeFields(store[i], i, pad(slots[i].value));
    } else {
      assert r == ZeroRecord;
      assert !HeaderValid(0);
      assert RecordBytes(ZeroRecord) == seq(RecordSize, _ => 0);
    }
  }
}
