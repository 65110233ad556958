/** The bridge's global state and the code that changes it in place: the
    connect / disconnect callbacks on `myGamepads`, the sampling pass of
    `loop()` on `array_gamepads`, and the I2C request handler that writes
    `array_gamepads` to the bus. */
module ArduinoMain {

  import opened Maybe
  import opened Registry
  import opened Comms
  import opened Wire

  /** Seat contents that the sampling pass encodes: a handle whose controller
      reports itself connected (`myGamepad && myGamepad->isConnected()`). */
  predicate Live(slot: Option<Handle>, pad: Handle -> PadState) {
    slot.Some? && pad(slot.value).connected
  }

  /** What one pass of `loop()` leaves in seat `i`: the seat's record
      re-encoded when the seat is live, untouched otherwise. */
  function SampleSeat(slot: Option<Handle>, rec: Record, i: SlotIndex, pad: Handle -> PadState): Record {
    if Live(slot, pad) then Encode(rec, i, pad(slot.value)) else rec
  }

  /** One pass of `loop()` over the seats, for the readings `pad` that the
      controller stack holds after `BP32.update()`. */
  function Sample(slots: Slots, store: seq<Record>, pad: Handle -> PadState): (r: seq<Record>)
    requires |slots| == |store| == MaxGamepads
    ensures |r| == MaxGamepads
  {
    seq(MaxGamepads, i requires 0 <= i < MaxGamepads => SampleSeat(slots[i], store[i], i, pad))
  }

  /** Every record's reserved bytes are zero. */
  predicate ReservedZero(store: seq<Record>) {
    forall i :: 0 <= i < |store| ==> store[i].data == [0, 0, 0, 0, 0, 0]
  }

  /** A sampling pass rewrites exactly the records of live seats: each of
      them gets a valid header naming its seat and the controller's buttons;
      every other record, including that of a seat whose controller has just
      gone, is left as it was. */
  lemma SampleFrame(slots: Slots, store: seq<Record>, pad: Handle -> PadState, i: nat)
    requires |slots| == |store| == MaxGamepads && i < MaxGamepads
    ensures !Live(slots[i], pad) ==> Sample(slots, store, pad)[i] == store[i]
    ensures Live(slots[i], pad) ==>
              var r := Sample(slots, store, pad)[i];
              HeaderValid(r.id) && HeaderSlot(r.id) == i &&
              r.buttons1 as int * 0x100 + r.buttons2 as int == pad(slots[i].value).buttons % 0x1_0000
    ensures Sample(slots, store, pad)[i].data == store[i].data
  {
    if Live(slots[i], pad) {
      EncodeFields(store[i], i, pad(slots[i].value));
    }
  }

  /** No sampling pass ever writes the reserved bytes, so from the zeroed
      start they stay zero. */
  lemma SampleKeepsReservedZero(slots: Slots, store: seq<Record>, pad: Handle -> PadState)
    requires |slots| == |store| == MaxGamepads
    requires ReservedZero(store)
    ensures ReservedZero(Sample(slots, store, pad))
  {
    forall i | 0 <= i < MaxGamepads
      ensures Sample(slots, store, pad)[i].data == [0, 0, 0, 0, 0, 0]
    {
      SampleFrame(slots, store, pad, i);
    }
  }

  /** The state at power-up: no seat taken, every record zero. */
  const EmptySlots: Slots := [None, None, None, None]
  const ZeroStore: seq<Record> := [ZeroRecord, ZeroRecord, ZeroRecord, ZeroRecord]

  class Bridge {
    /** `myGamepads`: the seat table. */
    const gamepads: array<Option<Handle>>
    /** `array_gamepads`: the records served to the bus master. */
    const records: array<Record>

    ghost predicate Valid() {
      gamepads.Length == MaxGamepads && records.Length == MaxGamepads
    }

    /** Static initialisation: every pointer null, every record zero. */
    constructor ()
      ensures Valid() && fresh(gamepads) && fresh(records)
      ensures gamepads[..] == EmptySlots && records[..] == ZeroStore
    {
      gamepads := new Option<Handle>[MaxGamepads](_ => None);
      records := new Record[MaxGamepads](_ => ZeroRecord);
    }

    /** `onConnectedGamepad`: first-fit into the table; the result is the
        local flag whose false value makes the source log a full table. */
    method OnConnectedGamepad(gp: Handle) returns (foundEmptySlot: bool)
      requires Valid()
      modifies gamepads
      ensures gamepads[..] == Connect(old(gamepads[..]), gp)
      ensures foundEmptySlot == !Full(old(gamepads[..]))
    {
      foundEmptySlot := false;
      for i := 0 to MaxGamepads
        invariant gamepads[..] == old(gamepads[..])
        invariant forall j :: 0 <= j < i ==> gamepads[j].Some?
      {
        if gamepads[i] == None {
          gamepads[i] := Some(gp);
          foundEmptySlot := true;
          break;
        }
      }
    }

    /** `onDisconnectedGamepad`: null the first seat holding `gp`; the result
        is the local flag whose false value makes the source log an untracked
        disconnect. */
    method OnDisconnectedGamepad(gp: Handle) returns (foundGamepad: bool)
      requires Valid()
      modifies gamepads
      ensures gamepads[..] == Disconnect(old(gamepads[..]), gp)
      ensures foundGamepad == exists j :: Holds(old(gamepads[..]), j, gp)
    {
      foundGamepad := false;
      for i := 0 to MaxGamepads
        invariant gamepads[..] == old(gamepads[..])
        invariant forall j :: 0 <= j < i ==> gamepads[j] != Some(gp)
      {
        if gamepads[i] == Some(gp) {
          assert Holds(old(gamepads[..]), i, gp);
          gamepads[i] := None;
          foundGamepad := true;
          break;
        }
      }
    }

    /** The seat loop of `loop()`: for every live seat, overwrite its record
        field by field ("Rosetta code"); the LED, rumble and console code
        that follows in the source is not part of this model. */
    method Loop(pad: Handle -> PadState)
      requires Valid()
      modifies records
      ensures records[..] == Sample(gamepads[..], old(records[..]), pad)
    {
      for i := 0 to MaxGamepads
        invariant forall j :: 0 <= j < i ==> records[j] == SampleSeat(gamepads[j], old(records[j]), j, pad)
        invariant forall j :: i <= j < MaxGamepads ==> records[j] == old(records[j])
      {
        var myGamepad := gamepads[i];
        if myGamepad.Some? && pad(myGamepad.value).connected {
          WriteRecord(i, pad(myGamepad.value));
        }
      }
    }

    /** The "Rosetta code" block for live seat `i`: every field of
        `array_gamepads[i]` except `data`, in the source's order. */
    method WriteRecord(i: SlotIndex, p: PadState)
      requires Valid()
      modifies records
      ensures records[i] == Encode(old(records[i]), i, p)
      ensures forall j :: 0 <= j < MaxGamepads && j != i ==> records[j] == old(records[j])
    {
      var id: bv8 := (i as bv8) << 5;
      id := id | (1 << 4);
      id := id | (ControllerType as bv8);
      records[i] := records[i].(id := id as int as Byte);
      records[i] := records[i].(buttons1 := ToByte(p.buttons / 0x100));
      records[i] := records[i].(buttons2 := ToByte(p.buttons % 0x100));
      records[i] := records[i].(lxAxis := ToInt16(p.axisX));
      records[i] := records[i].(lyAxis := ToInt16(p.axisY));
      records[i] := records[i].(rxAxis := ToInt16(p.axisRX));
      records[i] := records[i].(ryAxis := ToInt16(p.axisRY));
      records[i] := records[i].(leftTrigger := TriggerField(p.brake));
      records[i] := records[i].(rightTrigger := TriggerField(p.throttle));
      records[i] := records[i].(secondaryButtons := ToByte(p.miscButtons));
    }

    /** `i2cRequest`: the bytes it passes to `Wire.write`, in order. */
    method I2cRequest() returns (sent: seq<Byte>)
      requires Valid()
      ensures sent == Serialize(records[..])
    {
      sent := [];
      for i := 0 to MaxGamepads
        invariant sent == Serialize(records[..i])
      {
        ghost var before := sent;
        var r := records[i];
        sent := sent + [r.id];
        sent := sent + [r.buttons1];
        sent := sent + [r.buttons2];
        sent := sent + ShortBytes(r.lxAxis);
        sent := sent + ShortBytes(r.lyAxis);
        sent := sent + ShortBytes(r.rxAxis);
        sent := sent + ShortBytes(r.ryAxis);
        sent := sent + [r.secondaryButtons];
        sent := sent + ShortBytes(ToInt16(r.leftTrigger as int));
        sent := sent + ShortBytes(ToInt16(r.rightTrigger as int));
        ghost var fields := sent;
        for j := 0 to 6
          invariant sent == fields + r.data[..j]
        {
          sent := sent + [r.data[j]];
        }
        assert r.data[..6] == r.data;
        AppendRecordBytes(before, r);
        assert records[..i + 1] == records[..i] + [r];
        SerializeSnoc(records[..i], r);
      }
      assert records[..MaxGamepads] == records[..];
    }
  }
}
