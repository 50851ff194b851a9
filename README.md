# Keyboard scanner and SSI transmitter

This project models the firmware of a TM4C microcontroller that reads 25 keyboard buttons and reports them to a host over SSI0, a 16-bit synchronous serial channel on which the device is the slave. The firmware's main loop does two things on every pass:

- **Scan** (`getKeyPress`). It walks the fixed table `inputPins` of 25 (port, pin mask) entries in order. For each entry it reads the port masked by the pin and uses `pinToIndex` to find the pin's bit position. It moves that bit into bit *i* of a 32-bit accumulator, *i* being the entry's position in the table. It then clears bits 25..31.
- **Send** (`SPISend`). It splits the word into a low and a high 16-bit half. If the channel is not busy, it puts the low half and then the high half into the transmit path. If the channel is busy, the word is dropped.

The model is split into modules:

- `Bits` (bits.dfy): single bits of 8-bit and 32-bit words, single-bit masks and the lowest set bit, and `Pack`, an independent reference packing of a list of levels into a word.
- `Keyboard` (keyboard.dfy): the input table, `PinToIndex`, the GPIO read, and the scan `GetKeyPress`. The scan is proved equal to `StatusWord`, the reference word of a snapshot of pad levels.
- `Ssi` (ssi.dfy): the word split, the host's reassembly of frame pairs, the SSI channel as a class with a busy flag and a frame log, and `SpiSend`.
- `Firmware` (firmware.dfy): one pass of the main loop, and a finite run of passes.
- `Scenarios` (scenarios.dfy): end-to-end passes on particular button states.

Hardware is modelled this way:

- **Ports.** A snapshot of pad levels (`PortLevels`) is a function from port to its 8-bit pad value. `GPIOPinRead(port, pins)` returns that value masked by `pins`.
- **SSI channel.** It is an object with a `busy` flag, which `SSIBusy` reads, and a `frames` log, to which `SSIDataPutNonBlocking` appends.
- **Words.** They are `bv32`, frames are `bv16`, and port values and pin masks are `bv8`, matching the source's `uint32_t`, `uint16_t` and `uint8_t`. Bit positions are bit-vectors too.
- **`%` and `/`.** The contracts use these operators on `bv32`. That is unsigned 32-bit arithmetic on values that cannot wrap, so it is the same as arithmetic on naturals.

## Model

| member | source | states |
|---|---|---|
| Bits.LowestSetBit | main.c:193-200 | for a non-zero 8-bit mask, the result is below 8, that bit of the mask is set, and every lower bit is clear |
| Bits.LowestSetBitUnique | main.c:193-200 | any position that is set and has only clear bits below it is the lowest set bit, so the answer pinToIndex gives is determined |
| Bits.SingleBitIsShiftedOne | main.c:193-200 | a mask has exactly one bit set if and only if it is non-zero and equals `1 << n`, where n is its lowest set bit |
| Bits.ShiftedOneLowestBit | main.c:193-200 | for n < 8, `1 << n` is a single-bit mask and pinToIndex's answer for it is exactly n |
| Keyboard.GpioPin | main.c:36-64 | GPIO_PIN_n, as used in every table entry, is a single-bit mask whose bit position is n |
| Keyboard.InputPinsAreSingleBits | main.c:35-66 | the table has 25 entries and every entry's pin is a single-bit mask, so pinToIndex terminates on every pin getKeyPress passes it |
| Keyboard.InputPinsPorts | main.c:35-66 | the `inputPins` table holds 25 entries in scan order: eight on port B, then six on port E, four on port F, four on port D and three on port C |
| Keyboard.InputPinsNumbers | main.c:35-66 | the pin numbers of the 25 entries, in scan order, are B0-7, E0-5, F1-4, D0-3 and C4-6; each entry's mask is single-bit and pinToIndex maps it to that number |
| Keyboard.InputPinsDistinct | main.c:35-66 | no (port, pin) line appears twice in the table |
| Keyboard.PinToIndex | main.c:193-200 | for a non-zero mask, the shift-and-count loop returns the position of the lowest set bit |
| Keyboard.GpioPinRead | main.c:182 | a masked port read is below 256, holds the pad level of each requested pin in that pin's bit position, and is zero elsewhere |
| Keyboard.StatusWord | main.c:178-191 | the reference status word of a snapshot: bit i is the level of table entry i for i < 25, and bits 25..31 are clear |
| Keyboard.StatusWordBits | main.c:181-188 | a status word's bit i, for i < 25, is the level of table entry i: the bit position is the table index, not the pin number. Bits 25..31 are zero |
| Keyboard.StatusWordUnique | main.c:178-191 | a snapshot of pad levels has only one status word, so scanning an unchanged snapshot twice gives the same word |
| Keyboard.StatusWordBound | main.c:187-188 | every status word is below 2^25 |
| Keyboard.SampledBit | main.c:182-184 | for a single-bit pin, bit pinToIndex(pin) of the masked read is 1 exactly when the entry's pin is high |
| Keyboard.GetKeyPress | main.c:178-191 | the scan loop returns the status word of the snapshot. Its invariant: after i passes, bits below i hold the levels of entries below i and bits from i up are clear |
| Bits.PackBit | main.c:181-185 | bit j of Pack(bs) is level j for j inside the list, and clear beyond it |
| Bits.AccumulateStep | main.c:184 | or-ing level i shifted to bit i into a word that packs levels 0..i-1 gives a word that packs levels 0..i |
| Bits.ClearHighKeeps | main.c:187-188 | clearing bits 25..31 of a word that packs all 25 levels leaves a word that still packs them |
| Bits.PacksPrefixUnique | main.c:178-191 | two words that pack the same levels are equal |
| Bits.BitsEqual | main.c:184-188 | two 32-bit words that agree in every bit are equal |
| Ssi.SplitWord | main.c:165-166 | the low frame is the word mod 2^16 and the high frame is the word div 2^16 |
| Ssi.SplitRecombines | main.c:165-166 | high frame * 65536 + low frame is the original word, in 32-bit arithmetic; nothing wraps because both frames are below 2^16 |
| Ssi.JoinSplit | main.c:165-170 | joining the two frames of a word, high half above low half, gives the word back |
| Ssi.SplitJoin | main.c:165-166 | splitting a word joined from two frames gives those frames back, so splitting is one-to-one |
| Ssi.HighFrameBound | main.c:166 | a word below 2^25, as every status word is, has a high frame below 2^9 |
| Ssi.DecodeEncode | main.c:168-170 | reading a frame log two frames at a time gives back the words sent, in order |
| Ssi.DecodeAppend | main.c:169-170 | a low/high frame pair appended to a log decodes to one more word at the end |
| Ssi.EncodeAppend | main.c:168-170 | the frames of two consecutive runs of words are the frames of the first followed by those of the second |
| Ssi.SsiChannel.IsBusy | main.c:168 | SSIBusy reports the channel's busy state and changes nothing |
| Ssi.SsiChannel.DataPutNonBlocking | main.c:169-170 | one frame is appended to the channel's log |
| Ssi.SpiSend | main.c:163-172 | on a busy channel the log is unchanged. On an idle one, exactly two frames are appended, the low half and then the high half, for every word. The busy flag is never changed |
| Firmware.MainLoopIteration | main.c:89-94 | one pass scans and then sends: an idle channel receives the two frames of the snapshot's status word, and a busy one receives nothing |
| Firmware.Delivered | main.c:89-94 | a run delivers at most one word per pass |
| Firmware.Run | main.c:89-94 | over a finite run, the channel's log grows by exactly the frames of the status words of the passes on which it was idle, in pass order |
| Firmware.DeliveredStep | main.c:89-94 | one more pass adds its word's two frames to the run's output, or nothing when the channel was busy |
| Firmware.DeliveredBounded | main.c:187-188 | every word a run delivers is below 2^25 |
| Firmware.WireHighFramesBounded | main.c:166-170 | on the wire, every high frame of a run is below 2^9, so bits 25..31 of every word sent are zero |
| Firmware.EncodedAt | main.c:169-170 | word k of a run goes out as frames 2k (low half) and 2k+1 (high half) |
| Firmware.RunDecodes | main.c:89-94 | the host, decoding the frames of a run pairwise, reads exactly the delivered words |
| Scenarios.AllLowSendsZero | main.c:89-94 | all buttons released: the word is 0x00000000 and goes out as 0x0000, 0x0000 |
| Scenarios.FirstHighSendsOne | main.c:89-94 | only input 0 (PB0) pressed: the word is 0x00000001, sent as 0x0001, 0x0000 |
| Scenarios.LastHighSendsBit24 | main.c:89-94 | only input 24 (PC6) pressed: the word is 0x01000000, sent as 0x0000, 0x0100 |
| Scenarios.FirstAndLastHigh | main.c:89-94 | inputs 0 and 24 pressed: the word is 0x01000001, sent as 0x0001, 0x0100 |
| Scenarios.BusyThenIdle | main.c:89-94 | a pass on a busy channel sends nothing. The next pass, on an idle channel, scans afresh and sends just its own word |

## Left out

- `SPI0Init` and `keyboardInit` (main.c:101-159) are left out. They enable peripheral clocks, wait for peripherals to be ready, mux pins and configure SSI0: a 16-bit frame width, 1 MHz, slave mode. All of that is driver-library hardware setup with no logic to state. The model assumes it has run.
- `__error__` (main.c:17-23) is left out. It is a debug halt loop.
- The `while (1)` loop of `main` never ends. It is modelled as one pass (`MainLoopIteration`) and as a finite run of passes (`Run`).
- The SSI hardware is abstract. FIFO depth, timing on the wire and the host's clock are not modelled. Putting a frame never makes the channel busy in the model, and every put is accepted. In `Run`, the environment sets the busy flag before each pass.
- `GPIOPinRead` is abstract: a read of a snapshot of pad levels. Reads cannot fail, and every read in one scan sees the same snapshot. Changes to the levels during a scan are not modelled.
- Ports are an enumeration. The `GPIO_PORTx_BASE` addresses are not modelled, because they are only handles for the driver library.
- The `name` strings of the table entries (main.c:32, main.c:36-64) are left out. They are only diagnostic text.
- `GPIOPinRead` returns an `int32_t` in the source. The model holds it as an unsigned 32-bit word. The value is always below 256, so the source's arithmetic right shift gives the same result.
- `GetKeyPress` holds its loop counter as a 32-bit word, not the source's `int`. It only counts from 0 to 25, so the two agree.
- The source keeps no bit index in a table entry. The output bit position is the entry's index in `inputPins`, and the model does the same.
