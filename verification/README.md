# Daikin ARC468A3 remote state, in Dafny

This project models the state object of the Daikin ARC468A3 infrared remote
(`IRDaikin468`). The remote keeps a 39-byte message buffer. Named bit-fields
inside it hold power, mode, temperature, fan speed and the two swing
settings. Two bytes hold 8-bit wrapping checksums, one per section. The
remote can dump the buffer as hex and transmits it as a leader followed by
two sections of 20 and 19 bytes.

The buffer is the subset type `Raw`, a sequence of 39 bytes, each byte an
integer from 0 to 255. Every field is a `BitField(index, shift, width)`,
least-significant bit first. It is read as `(byte / 2^shift) % 2^width` and
written by replacing that middle digit of the byte. This is the arithmetic
form of the shift-and-mask code a compiler emits for a C bit-field. The C
bit-field union is not used. Every setter is a pure function from the old
buffer to the new one. `getRaw` and `toChars` return snapshots. `send`
returns the list of calls it would make on the IR driver.

Files and modules:

- `constants.dfy` (`Daikin468Constants`): modes, swing positions,
  temperature limits, fan speeds, lengths and the timing table. `uint16` is
  the C `uint16_t`.
- `bytes.dfy` (`Bytes`): the `Byte` type, powers of two, and the division and
  remainder facts the bit-fields rest on.
- `bitfield.dfy` (`BitFields`): get and set of a bit-field in a byte buffer.
- `protocol.dfy` (`Daikin468Protocol`): the `Raw` type, the field constants,
  and the union's field view as a list of member widths. A lemma shows that
  LSB-first packing of that list puts every member where the field constants
  say.
- `checksum.dfy` (`Daikin468Checksum`): the wrapping byte sum, its exact
  integer reference `Sum`, and `Checksum`.
- `state.dfy` (`Daikin468`): reset, getters, setters, `getRaw`/`setRaw`, and
  the invariant every reachable state keeps.
- `hex.dfy` (`Daikin468Hex`): the hex dump. `DecodeHex` is its inverse. It
  is not in the remote's code. It is the inverse the round-trip lemmas are
  proved against.
- `send.dfy` (`Daikin468Send`): the transmit loop as written, with its
  16-bit counter, and the corrected loop.
- `scenarios.dfy` (`Daikin468Scenarios`): concrete setter runs from reset.
- `wrappers.dfy` (`Wrappers`): `Option`.

Details of the code the model keeps:

- `stateReset` in ir_Daikin468.cpp sets byte 25 to 0x38. That sets bit 3, an
  unnamed padding bit next to the power bit, so the padding in byte 25 is not
  all zero. `Consistent` requires that bit to keep its reset value.
- `setRaw` in ir_Daikin468.cpp copies 39 bytes from the caller's buffer.
  `SetRaw` therefore requires at least 39 bytes and takes the first 39.
- `send(repeat)` in ir_Daikin468.cpp counts with a 16-bit counter, so it
  transmits `repeat + 1` times and returns only for `repeat < 65535` (see
  Findings).

## Model

| member | source | states |
|---|---|---|
| Daikin468Constants.MinTempFor | ir_Daikin468.cpp:146-148 | The temperature floor is 18 exactly in Cool mode and 10 in every other mode. It always lies between 10 and 18. |
| Daikin468Constants.GeometryConsistent | ir_Daikin468.h:27-43 | Sections of 20 and 19 bytes make up the 39-byte state. The gap 10024 + 25180 = 35204 fits in 16 bits. The leader table has exactly `LeaderLength` = 10 entries. |
| Daikin468Constants.ClampIntervalNonEmpty | ir_Daikin468.h:23-53 | In every mode the clamping interval [floor, 32] is non-empty. |
| BitFields.GetBits | ir_Daikin468.h:72-87 | A bit-field read yields a value that fits the field's width. |
| BitFields.SetBits | ir_Daikin468.h:72-87 | A bit-field write stores the value truncated to the field's width. Every other bit of the byte is kept. |
| BitFields.Get | ir_Daikin468.h:58-93 | Reading a field of the buffer yields a value within the field's width. |
| BitFields.Set | ir_Daikin468.h:58-93 | Writing a field stores the truncated value. Bits outside the field in its byte, and all other bytes, are unchanged. The length is unchanged. |
| BitFields.SetGetIdentity | ir_Daikin468.h:58-93 | Writing back the value a field already holds leaves the buffer unchanged. |
| BitFields.SetSetLast | ir_Daikin468.h:58-93 | A second write to a field replaces the first completely: nothing of the first value survives. |
| Daikin468Protocol.LayoutMatchesFields | ir_Daikin468.h:58-93 | The field view spans exactly 39 bytes. Under LSB-first packing, Sum1, Power, Mode, Temp_half, Temp, SwingV, Fan, SwingH and Sum2 land at the byte and bits the accessors use. |
| Daikin468Protocol.ConstantsFitFields | ir_Daikin468.h:15-86 | Every mode fits 3 bits, every fan speed fits 4 bits and both swing values fit 4 bits. The maximum temperature 32 fits the 6-bit Temp field. |
| Daikin468Checksum.WrapSum | ir_Daikin468.cpp:44-50 | The `uint8_t` accumulator stays below 256. |
| Daikin468Checksum.WrapSumIsSumMod256 | ir_Daikin468.cpp:44-50 | Adding bytes into an 8-bit accumulator that wraps ends at the exact byte sum modulo 256. |
| Daikin468Checksum.ChecksumPositions | ir_Daikin468.h:65-91 | Each checksum byte is the last byte of its section, just past the range it sums. So neither checksum is summed over itself. |
| Daikin468Checksum.Checksum | ir_Daikin468.cpp:44-50 | Afterwards byte 19 is the sum of bytes 0..18 modulo 256, and byte 38 is the sum of bytes 20..37 modulo 256. The other 37 bytes are unchanged. |
| Daikin468Checksum.ChecksumBytes | ir_Daikin468.cpp:44-50 | Byte 19 becomes the sum modulo 256 of bytes 0..18 of the state given. Byte 38 becomes the sum modulo 256 of its bytes 20..37. |
| Daikin468Checksum.ChecksumIsWrapSum | ir_Daikin468.cpp:44-50 | The two checksum bytes are exactly where the `uint8_t` accumulator ends when it adds each section's bytes front to back. |
| Daikin468Checksum.ChecksumFixesExactlyValid | ir_Daikin468.cpp:44-50 | Recomputing the checksums leaves a state unchanged exactly when both checksum equations already hold. |
| Daikin468Checksum.ChecksumIdempotent | ir_Daikin468.cpp:44-50 | Recomputing the checksums twice gives the same state as once. |
| Daikin468.GetPower | ir_Daikin468.cpp:120 | Power reads on exactly when bit 0 of byte 25 is set. |
| Daikin468.GetMode | ir_Daikin468.cpp:124 | The mode read back is a 3-bit value. |
| Daikin468.GetTemp | ir_Daikin468.cpp:154 | The temperature read back is a 6-bit value. |
| Daikin468.TempIgnoresHalfBit | ir_Daikin468.cpp:154 | The half-degree bit is not read: writing any value to Temp_half leaves the temperature read back unchanged. |
| Daikin468.GetFan | ir_Daikin468.cpp:176 | The fan speed read back is a 4-bit value. |
| Daikin468.GetSwingVertical | ir_Daikin468.cpp:189 | The vertical swing read back is a 4-bit value. |
| Daikin468.GetSwingHorizontal | ir_Daikin468.cpp:202 | The horizontal swing read back is a 4-bit value. |
| Daikin468.ResetBytes | ir_Daikin468.cpp:75-90 | Defined by its body: the 39 bytes `stateReset` writes before computing the checksums. |
| Daikin468.Reset | ir_Daikin468.cpp:74-92 | After reset: power off, mode Cool, 28 degrees, fan Fan5, both swings off. Both checksum equations hold, with byte 19 = 0x13 and byte 38 = 0xA9. |
| Daikin468.ResetChecksumBytes | ir_Daikin468.cpp:74-92 | The checksums of the reset bytes are 0x13 and 0xA9. These come from the section sums 0x113 and 0x3A9. |
| Daikin468.SetPower | ir_Daikin468.cpp:116 | The power read back is the one requested. Only bit 0 of byte 25 changes. |
| Daikin468.On | ir_Daikin468.cpp:109 | Power reads on. Only bit 0 of byte 25 changes. |
| Daikin468.Off | ir_Daikin468.cpp:112 | Power reads off. Only bit 0 of byte 25 changes. |
| Daikin468.SetTemp | ir_Daikin468.cpp:144-150 | The stored temperature lies in [18, 32] in Cool and [10, 32] otherwise. It equals the request when the request is in range. A request below the floor gives the floor; one above 32 gives 32. Only bits 1-6 of byte 26 change; Temp_half, bit 7 and every other byte are kept. |
| Daikin468.SetMode | ir_Daikin468.cpp:128-140 | The stored mode is one of the five modes. It is the request when that is a mode, and Auto otherwise. Entering Cool re-clamps the old temperature into [18, 32]. Any other mode leaves byte 26 exactly as it was, so there is no re-clamp to [10, 32]. Only the Mode bits of byte 25 and the Temp bits of byte 26 can change. |
| Daikin468.SetFan | ir_Daikin468.cpp:159-172 | The stored fan speed is one of the seven listed speeds. It is the request when that is listed, and FanAuto otherwise. Only the high nibble of byte 28 changes. |
| Daikin468.SetSwingVertical | ir_Daikin468.cpp:180-185 | On or off is stored, changing only the low nibble of byte 28. Any other position leaves the whole state byte-for-byte unchanged. |
| Daikin468.SetSwingHorizontal | ir_Daikin468.cpp:193-198 | On or off is stored, changing only the low nibble of byte 29. Any other position leaves the whole state byte-for-byte unchanged. |
| Daikin468.GetRaw | ir_Daikin468.cpp:97-100 | The buffer handed out carries valid checksums. It agrees with the state on every byte except 19 and 38. |
| Daikin468.SetRaw | ir_Daikin468.cpp:104-106 | The new state is the first 39 bytes of the caller's buffer, unvalidated. |
| Daikin468.SetRawThenGetRaw | ir_Daikin468.cpp:97-106 | `getRaw` after `setRaw(b)` equals `b` everywhere except bytes 19 and 38. Those hold the recomputed sums. If `b` already satisfied both checksum equations, the result is exactly `b`. |
| Daikin468.ResetConsistent | ir_Daikin468.cpp:74-92 | The reset state satisfies the invariant `Consistent`. |
| Daikin468.ApplyKeepsConsistent | ir_Daikin468.cpp:108-198 | Every setter preserves `Consistent`. Constant bytes and padding bits keep their reset values. Every field holds a listed value, and the temperature lies in the current mode's range. |
| Daikin468.ApplyAllKeepsConsistent | ir_Daikin468.cpp:108-198 | Any sequence of setter calls preserves `Consistent`. |
| Daikin468.ReachableStatesWellFormed | ir_Daikin468.cpp:74-198 | After reset and any setter calls, the buffer `getRaw` hands out is consistent and satisfies both checksum equations. |
| Daikin468Hex.HexDigit | ir_Daikin468.cpp:60-65 | The digit arithmetic `'0' + n` / `'A' + n - 10` produces the n-th character of "0123456789ABCDEF". |
| Daikin468Hex.DigitValueAccepts | ir_Daikin468.cpp:60-65 | The decoder accepts exactly the sixteen characters the encoder writes, and reads each as the nibble it is written for. |
| Daikin468Hex.DigitValueInverts | ir_Daikin468.cpp:60-65 | Reading back the digit written for a nibble gives that nibble. |
| Daikin468Hex.EncodeHex | ir_Daikin468.cpp:57-66 | The dump has two characters per byte. Characters 2i and 2i+1 are the digits of the high and low nibble of byte i. |
| Daikin468Hex.DecodeEncode | ir_Daikin468.cpp:57-66 | Decoding a dump gives back exactly the bytes it was made from. |
| Daikin468Hex.EncodeDecode | ir_Daikin468.cpp:57-66 | Any string that decodes is the dump of its decoding. So each byte sequence has exactly one accepted spelling. |
| Daikin468Hex.DumpIsHex | ir_Daikin468.cpp:57-66 | Every character of a dump is one of 0-9, A-F. |
| Daikin468Hex.ToChars | ir_Daikin468.cpp:54-68 | The checksums are refreshed first, and the state is otherwise unchanged. The dump has 78 characters, all upper-case hex. Characters 2i and 2i+1 are the nibbles of byte i, and decoding the dump gives back the 39 checksummed bytes. |
| Daikin468Hex.DumpRestores | ir_Daikin468.cpp:54-106 | Decoding a dump, restoring it with `setRaw` and reading it with `getRaw` gives exactly the state that was dumped. Dumping that state again gives the same string. |
| Daikin468Send.LeaderEvent | ir_Daikin468.cpp:28-29 | Defined by its body: the leader is the ten-entry timing table sent raw at the remote's carrier frequency. |
| Daikin468Send.Section | ir_Daikin468.cpp:30-39 | Defined by its body: a data section is sent with the remote's header, bit and gap timings, LSB first, no repeat and 50% duty. |
| Daikin468Send.Frame | ir_Daikin468.cpp:28-39 | One transmission is three driver calls: the leader, then section 1 and section 2. `FrameCarriesState` states what the sections carry. |
| Daikin468Send.Frames | ir_Daikin468.cpp:27-40 | `n` transmissions are `3n` driver calls. Each consecutive group of three is one leader-section-section frame. |
| Daikin468Send.FramesSnoc | ir_Daikin468.cpp:27-40 | One more transmission appends one more frame at the end. |
| Daikin468Send.FrameCarriesState | ir_Daikin468.cpp:28-39 | A frame is the 10-entry leader, then two sections. Each section announces as many bytes as it carries, and together they carry the whole 39-byte state in order. |
| Daikin468Send.SectionsSelfChecking | ir_Daikin468.cpp:25-50 | After the checksum refresh, each transmitted section ends in the sum modulo 256 of its other bytes. |
| Daikin468Send.ValidSectionsSelfChecking | ir_Daikin468.cpp:30-50 | In any state whose checksum equations hold, each transmitted section ends in the sum modulo 256 of its other bytes. |
| Daikin468Send.Inc16 | ir_Daikin468.cpp:27 | The `uint16_t` counter increments by one below 65535 and wraps from 65535 to 0. |
| Daikin468Send.SendLoop | ir_Daikin468.cpp:27-40 | Whenever the loop as written finishes, `repeat` is below 65535 and the trace is exactly one frame of the state per round left from the counter. |
| Daikin468Send.SendAsWritten | ir_Daikin468.cpp:25-41 | Whenever `send` as written finishes, `repeat` is below 65535 and the trace is the checksummed state's frame exactly `repeat + 1` times. |
| Daikin468Send.SendLoopFinishes | ir_Daikin468.cpp:27-40 | From counter `r`, with `repeat < 65535`, the loop as written sends `repeat + 1 - r` frames and stops. |
| Daikin468Send.SendAsWrittenFinishes | ir_Daikin468.cpp:25-41 | For `repeat < 65535`, `send` as written refreshes the checksums and then sends the state `repeat + 1` times, stopping after that many rounds. |
| Daikin468Send.SendLoopDiverges | ir_Daikin468.cpp:27-40 | With `repeat == 65535`, no budget of rounds is enough for the loop to finish, from any counter value. |
| Daikin468Send.SendAsWrittenDiverges | ir_Daikin468.cpp:25-41 | `send(65535)` as written never finishes: `r <= 65535` holds for every 16-bit `r`. |
| Daikin468Send.SendFrames | ir_Daikin468.cpp:27-40 | With a counter that cannot wrap, the transmit loop sends exactly `repeat + 1` frames of the state. |
| Daikin468Send.Send | ir_Daikin468.cpp:25-41 | The corrected `send` returns the checksummed state's frame `repeat + 1` times, for every 16-bit `repeat`. `repeat` defaults to 0, as declared at ir_Daikin468.h:106. |
| Daikin468Scenarios.TemperatureClamps | ir_Daikin468.cpp:144-150 | Asking for 5 degrees from reset gives 18 in Cool and 10 in Heat. Asking for 99 gives 32 in both. |
| Daikin468Scenarios.ModeSwitchReclamps | ir_Daikin468.cpp:128-150 | 15 degrees in Heat becomes 18 on switching to Cool. Switching back to Heat keeps 18. |
| Daikin468Scenarios.InvalidCodesCoerce | ir_Daikin468.cpp:128-172 | Mode 7 becomes Auto and fan speed 0xF becomes FanAuto. |
| Daikin468Scenarios.InvalidSwingIgnored | ir_Daikin468.cpp:180-185 | With vertical swing on, asking for position 3 leaves the state unchanged. |

## Left out

- The constructor (ir_Daikin468.cpp:16-18) sets up the `IRsend` driver and then calls `stateReset()`. So every state starts at `Reset()`, which is where `ReachableStatesWellFormed` starts. `begin` (ir_Daikin468.cpp:21) only starts the driver. The driver belongs to another library and is not part of this model.
- The pulse waveform of `sendRaw`/`sendGeneric` is not modelled. Each call becomes a trace event carrying its arguments: timings, data, byte count, frequency, LSB-first, repeat 0 and duty 50.
- Real-time timing and carrier modulation are not modelled. The microsecond constants are literal data.
- `getRaw` returns a pointer into the live state, and `toChars` returns a shared `static` buffer with a NUL terminator. Both are modelled as returned values, so aliasing and the terminator are not modelled.
- The C bit-field union is replaced by arithmetic on LSB-first bit positions. The field view is checked against the field constants by `LayoutMatchesFields`.
- Temp_half has no accessor in the source. The model only shows that every setter preserves it.
- `kDaikin468Tolerance` is declared but only a receiver would use it. No code here reads it.
- BitFields.Set: the statement that writing one field leaves every other field's value unchanged is not made in general. Each setter instead states the exact bits of its byte that it keeps.
- Daikin468Send.SendLoop: the loop as written is bounded by a `fuel` count of rounds. `None` means "not finished within that many rounds". Non-termination is therefore stated as "None for every fuel".
- `send` stores the refreshed checksums in the live state (ir_Daikin468.cpp:26). `SendAsWritten` and `Send` return only the trace, not the new state. No reader can tell the difference, because `getRaw`, `toChars` and `send` all recompute the checksums before using them.

## Findings

| source | as written | input that shows it | evidently intended | confidence | as-written member | corrected member |
|---|---|---|---|---|---|---|
| ir_Daikin468.cpp:27 | The repeat loop counts with a `uint16_t r` while `r <= repeat`, incrementing `r` after each transmission. | `send(65535)`: `r` wraps from 65535 to 0, so `r <= 65535` never fails and the loop never ends. | Send the state `repeat + 1` times and return, for every `repeat`. | medium, not executed | Daikin468Send.SendAsWrittenDiverges | Daikin468Send.Send |
