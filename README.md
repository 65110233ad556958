# Gamepad-to-I2C bridge: a verified model

The firmware in `main/arduino_main.cpp` runs on a Bluepad32 board. Up to four
Bluetooth gamepads connect to it. In every pass of `loop()` it copies each
connected gamepad's buttons, sticks and triggers into a fixed `commsGP`
record. When the I2C master asks (the board is follower 0x20), it writes all
four records to the bus.

This project models the three deterministic parts of that file:

- **Seat table** (`myGamepads`): `onConnectedGamepad` puts a new controller
  in the lowest empty seat, or rejects it when all four seats are taken.
  `onDisconnectedGamepad` clears the first seat that holds the controller.
  If no seat holds it, nothing changes.
- **Record encoder** (the "Rosetta code" block of `loop()`): for every seat
  whose controller is present and connected, it overwrites that seat's
  record. The header byte is `(i << 5) | (1 << 4) | 3`. The 16-bit button
  mask is split high byte first. Axes are cast to `short`. Brake and
  throttle are cast to `short` and stored as `ushort`. Misc buttons are cast
  to `byte`. The six `data` bytes are never written.
- **Bus answer** (`i2cRequest` and `wireWriteShort`): each record goes out as
  22 bytes in field order, so one answer is 88 bytes.

Modules:

- `Maybe` (option.dfy): `Option`.
- `Registry` (registry.dfy): the seat table as a sequence of nullable
  handles, the connect and disconnect specifications, and their lemmas.
- `Comms` (comms.dfy): the record, the C narrowing casts, the header byte
  and the encoder.
- `Wire` (wire.dfy): `wireWriteShort` exactly as written, the record layout
  and the full answer. It also holds the MSB-then-LSB encoding that the
  helper's comment promises, a bus master's decoder for it, and the round
  trips.
- `ArduinoMain` (bridge.dfy): the class `Bridge`, which owns the two global
  arrays. Its methods are the two callbacks, the sampling pass and the
  request handler. Each method is proved against the functions above.
- `Scenarios` (scenarios.dfy): runs of a `Bridge` from power-up, and the
  record reset that the header's valid bit calls for.

Where the design description of this system and the code disagree, the
model follows the code:

- A record is 22 bytes and an answer is 88, not 19 and 76.
- The header's type nibble is the constant 3, not the controller's category.
- The second byte of every 16-bit field is `value && 0xFF`.
- A disconnected seat's record is left stale, not reset.
- There is no buffering between the sampling loop and the request handler.

C conversions are modelled as the board's compiler performs them:

- Narrowing to `byte`, `short` or `ushort` keeps the low bits (two's complement).
- `>>` on a negative value is an arithmetic shift. Dafny's `/` by a positive
  constant matches it.

## Model

| member | source | states |
|---|---|---|
| Registry.FirstFreeFrom | main/arduino_main.cpp:49-50 | the scan finds the lowest null seat at or after k, or reports that every seat from k on is taken |
| Registry.FirstHolderFrom | main/arduino_main.cpp:70-71 | the scan finds the lowest seat at or after k holding gp, or reports that none does |
| Registry.Connect | main/arduino_main.cpp:47-64 | connect stores gp in the lowest empty seat and changes nothing else; a full table is left unchanged |
| Registry.Disconnect | main/arduino_main.cpp:67-81 | disconnect nulls exactly the lowest seat holding gp; if no seat holds gp the table is unchanged |
| Registry.ConnectTracks | main/arduino_main.cpp:47-64 | connect leaves the table unchanged exactly when it is full; otherwise gp is tracked afterwards |
| Registry.ConnectThenDisconnect | main/arduino_main.cpp:49-76 | for an untracked gp and a table with a free seat, gp lands in the first free seat, and disconnecting it restores the original table |
| Registry.ConnectKeepsDistinct | main/arduino_main.cpp:49-59 | connecting an untracked controller keeps every controller in at most one seat |
| Registry.DisconnectRemoves | main/arduino_main.cpp:70-76 | on a duplicate-free table, disconnect keeps it duplicate-free and leaves gp in no seat |
| Registry.RunKeepsDistinct | main/arduino_main.cpp:47-81 | over any sequence of connect and disconnect notifications that never connects a tracked controller, no two seats hold the same controller |
| Comms.Header | main/arduino_main.cpp:180-182 | the header of seat i is i*32+19; bits 7-5 decode to i, bit 4 (valid) is set, bits 3-0 are the type 3 |
| Comms.HeaderInjective | main/arduino_main.cpp:86 | distinct seats never share a header byte |
| Comms.NarrowingCasts | main/arduino_main.cpp:184-194 | each of the casts `(byte)`, `(short)` and the store into a `ushort` agrees with its argument modulo 2^8 or 2^16, and keeps a value that fits the type unchanged |
| Comms.TriggerField | main/arduino_main.cpp:193-194 | a `(short)` trigger reading stored into a `ushort` field is the reading modulo 2^16, unchanged for 0..65535 |
| Comms.ButtonSplit | main/arduino_main.cpp:184-186 | buttons1*256 + buttons2 recovers the button mask modulo 2^16 |
| Comms.Encode | main/arduino_main.cpp:178-196 | the block never writes a record's data bytes |
| Comms.EncodeFields | main/arduino_main.cpp:178-196 | an encoded record has a valid header naming its seat, buttons1/buttons2 are the high and low bytes of the mask, axes in the short range and triggers in 0..65535 are kept, misc buttons are taken modulo 256, and data is untouched |
| Comms.EncodeDocumentedRanges | main/arduino_main.cpp:254-259 | readings in the documented ranges (axes -511..512, brake and throttle 0..1023) reach the record without change |
| Wire.ByteHalves | main/arduino_main.cpp:115-117 | the first byte `(byte)(value >> 8)` is the top 8 bits of the 16-bit two's complement value; the LSB that the comment promises is the value modulo 256 |
| Wire.ShortBytes | main/arduino_main.cpp:116-119 | wireWriteShort emits two bytes: the high byte, then 1 if the value is non-zero and 0 otherwise, so the second byte is never above 1 |
| Wire.RecordBytes | main/arduino_main.cpp:125-137 | a record is 22 bytes on the bus |
| Wire.RecordLayout | main/arduino_main.cpp:125-137 | the 22 bytes are id, buttons1, buttons2, the four axes (2 bytes each, as wireWriteShort writes them), secondary buttons, the two triggers (likewise), then data[0..5] |
| Wire.AppendRecordBytes | main/arduino_main.cpp:125-137 | the writes for one record, appended one call at a time after any earlier bytes, append exactly that record's 22 bytes |
| Wire.Serialize | main/arduino_main.cpp:123-139 | the answer holds 22 bytes per record |
| Wire.SerializeLayout | main/arduino_main.cpp:124-138 | record i of the store occupies bytes 22*i to 22*i+21 of the answer |
| Wire.SerializeSnoc | main/arduino_main.cpp:124-138 | serializing one more seat appends that seat's 22 bytes |
| Wire.ShortBytesAgreeIff | main/arduino_main.cpp:118 | the second byte equals the low byte if and only if the value is 0 or its low byte is 1 |
| Wire.ShortBytesLossy | main/arduino_main.cpp:116-119 | 0x1234 and 0x1201 go out as the same bytes 0x12 0x01, although the low byte of 0x1234 is 0x34 |
| Wire.RecordBytesLossy | main/arduino_main.cpp:118 | as written, a record with left stick 100 and one with left stick 1 give identical bytes; bytes 3 and 4 are 0x00 0x01, which a bus master parses as 1 |
| Wire.ShortBytesMsbLsb | main/arduino_main.cpp:115 | the corrected pair is two bytes and starts with the same MSB as wireWriteShort |
| Wire.MsbLsbRecombines | main/arduino_main.cpp:115 | the corrected pair's MSB*256 + LSB is the value modulo 2^16 |
| Wire.ShortRoundTrip | main/arduino_main.cpp:115-119 | the corrected pair parsed MSB first gives back the short |
| Wire.TriggerRoundTrip | main/arduino_main.cpp:133-134 | a ushort trigger passed as a short, sent as the corrected pair and parsed back, gives back the trigger |
| Wire.RecordRoundTrip | main/arduino_main.cpp:125-137 | the corrected record bytes parse back to the same record |
| Wire.SerializeIntended | main/arduino_main.cpp:123-139 | the corrected answer holds 22 bytes per record |
| Wire.SnapshotRoundTrip | main/arduino_main.cpp:123-139 | the corrected answer parses back to the whole store |
| ArduinoMain.Sample | main/arduino_main.cpp:170-196 | one sampling pass yields four records; SampleFrame says which change and how |
| ArduinoMain.SampleFrame | main/arduino_main.cpp:170-196 | a sampling pass rewrites only live seats (non-null and connected), giving each a valid header naming its seat and its button mask; every other record, including a just-disconnected seat's, is unchanged; data is never touched |
| ArduinoMain.SampleKeepsReservedZero | main/arduino_main.cpp:109 | if every record's data bytes are zero, they are still zero after a sampling pass |
| ArduinoMain.Bridge.constructor | main/arduino_main.cpp:113 | at power-up every seat is null and every record is zero |
| ArduinoMain.Bridge.OnConnectedGamepad | main/arduino_main.cpp:47-65 | the table becomes Connect of the old table; the flag is false exactly when the table was full |
| ArduinoMain.Bridge.OnDisconnectedGamepad | main/arduino_main.cpp:67-82 | the table becomes Disconnect of the old table; the flag is false exactly when no seat held gp |
| ArduinoMain.Bridge.Loop | main/arduino_main.cpp:170-196 | the records become Sample of the seat table and the old records |
| ArduinoMain.Bridge.WriteRecord | main/arduino_main.cpp:178-196 | seat i's record becomes Encode of its old value and the readings; the other records are unchanged |
| ArduinoMain.Bridge.I2cRequest | main/arduino_main.cpp:123-139 | the bytes written to the bus are exactly Serialize of the four records, in seat order |
| Scenarios.SerializeFour | main/arduino_main.cpp:124-138 | the answer for four seats is the four records' bytes back to back |
| Scenarios.ZeroRecordBytes | main/arduino_main.cpp:113 | an all-zero record is 22 zero bytes on the bus |
| Scenarios.FirstRecordEncoding | main/arduino_main.cpp:180-196 | seat 0 with mask 0xFFFF and sticks at -511 goes out as 0x13 0xFF 0xFF, then 0xFE 0x01 for each axis, then zeros |
| Scenarios.AnswerAfterFirstSample | main/arduino_main.cpp:123-139 | that store's 88-byte answer is seat 0's record followed by 66 zero bytes |
| Scenarios.ConnectSampleRequest | main/arduino_main.cpp:170-196 | power-up, connect, one pass and one request put the controller in seat 0 and yield its record followed by three zero records |
| Scenarios.StaleAfterDisconnect | main/arduino_main.cpp:70-76 | after connect, a pass, disconnect and another pass, the answer still starts with a valid header 0x13 and the gone controller's readings |
| Scenarios.SampleResettingValidIff | main/arduino_main.cpp:86 | with the reset, a record's valid bit is set exactly when its seat is live, a non-live seat sends 22 zero bytes, and live seats are encoded as in the source |

## Left out

- The Bluepad32 stack is not modelled: `BP32.setup`, `BP32.update`, `BP32.forgetBluetoothKeys`, `firmwareVersion`, `getProperties` and `getModelName`. A controller is an opaque `Handle`. What `isConnected` and the accessors return after an update is the parameter `pad` of the sampling pass.
- I2C setup (`Wire.begin(0x20)`, `Wire.onRequest`) is I/O and is left out. `Wire.write` is modelled as appending to the byte sequence that `I2cRequest` returns.
- `i2cRequest` runs in interrupt context, concurrently with `loop()`. The model serializes a snapshot of the four records and does not model torn reads.
- LED colour, player LEDs and rumble are left out, with their static counters `colorIdx` and `led`. They are feedback to the controller, not part of the bridge.
- Console output is left out. The callbacks' "found" flags, which decide the log lines, are returned instead. Also left out: `dpad()`, which is only logged, the print throttle `count`, and `delay(2)`.
- ArduinoMain.Bridge.Loop: the source calls `buttons()` twice. The model reads it once, so both calls are assumed to return the same value within one pass.
- Registry.Connect: like the source, it does not check whether `gp` is already tracked. Keeping the table duplicate-free therefore depends on the stack never connecting a tracked controller (the hypothesis of Registry.RunKeepsDistinct).

## Findings

| source | as written | input that shows it | evidently intended | confidence | as-written member | corrected member |
|---|---|---|---|---|---|---|
| main/arduino_main.cpp:118 | the second byte is `(byte)(value && 0xFF)`: 1 for any non-zero value | left stick 100 goes out as 0x00 0x01 and is parsed back as 1; 0x1234 and 0x1201 go out as the same bytes | `value & 0xFF`, the low byte, as the comment at line 115 ("MSB then LSB") says | high; not executed | Wire.RecordBytesLossy | Wire.SnapshotRoundTrip |
| main/arduino_main.cpp:73 | a disconnect only nulls the pointer, so the seat's record keeps bit 4 ("valid", line 86) set | connect a controller, sample, disconnect it, sample again: the answer still starts 0x13 with the old readings | a seat with no connected controller sends a record whose valid bit is clear | medium; not executed | Scenarios.StaleAfterDisconnect | Scenarios.SampleResettingValidIff |

The `Bridge` class follows the source as written. It keeps both behaviours
above, because it models the firmware that runs. The corrected members
stand beside it: `Wire.ShortBytesMsbLsb`, `Wire.RecordBytesIntended` and
`Wire.SerializeIntended` for the bus encoding, and
`Scenarios.SampleResetting` for the reset.
