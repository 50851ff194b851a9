/**
 * The keyboard scanner: the fixed table of 25 button inputs, the recovery of
 * a pin's bit position from its single-bit mask, and the scan that packs the
 * 25 sampled levels into one 32-bit status word.
 *
 * The GPIO hardware is reached only through GPIOPinRead; here it becomes a
 * snapshot of the pad levels of every port, passed in as a parameter.
 */
module Keyboard {
  import opened Bits

  /** The GPIO ports the buttons are wired to (GPIO_PORTx_BASE in the firmware). */
  datatype Port = PortB | PortC | PortD | PortE | PortF

  /** One button input: its port and its single-bit pin mask. */
  datatype DigitalInput = DigitalInput(portBase: Port, pin: bv8)

  /** The pad levels of each port at one instant: bit n of a port's value is pin n. */
  type PortLevels = Port -> bv8

  /** GPIO_PIN_n: the mask with only bit n set. */
  function GpioPin(n: bv8): (m: bv8)
    requires n < 8
    ensures IsSingleBit(m) && LowestSetBit(m) == n
  {
    ShiftedOneLowestBit(n);
    1 << n
  }

  /** The number of button inputs, and so of meaningful bits in a status word. */
  const InputCount := 25

  /** The input table, in scan order: entry i is reported in bit i of the status word. */
  const InputPins: seq<DigitalInput> := [
    DigitalInput(PortB, GpioPin(0)), DigitalInput(PortB, GpioPin(1)),
    DigitalInput(PortB, GpioPin(2)), DigitalInput(PortB, GpioPin(3)),
    DigitalInput(PortB, GpioPin(4)), DigitalInput(PortB, GpioPin(5)),
    DigitalInput(PortB, GpioPin(6)), DigitalInput(PortB, GpioPin(7)),

    DigitalInput(PortE, GpioPin(0)), DigitalInput(PortE, GpioPin(1)),
    DigitalInput(PortE, GpioPin(2)), DigitalInput(PortE, GpioPin(3)),
    DigitalInput(PortE, GpioPin(4)), DigitalInput(PortE, GpioPin(5)),

    DigitalInput(PortF, GpioPin(1)), DigitalInput(PortF, GpioPin(2)),
    DigitalInput(PortF, GpioPin(3)), DigitalInput(PortF, GpioPin(4)),

    DigitalInput(PortD, GpioPin(0)), DigitalInput(PortD, GpioPin(1)),
    DigitalInput(PortD, GpioPin(2)), DigitalInput(PortD, GpioPin(3)),

    DigitalInput(PortC, GpioPin(4)), DigitalInput(PortC, GpioPin(5)),
    DigitalInput(PortC, GpioPin(6))
  ]

  /** Every table entry names one pin by a single-bit mask. */
  lemma InputPinsAreSingleBits()
    ensures |InputPins| == InputCount
    ensures forall i :: 0 <= i < |InputPins| ==> IsSingleBit(InputPins[i].pin)
  {
  }

  /** The pin number of each table entry, in scan order. */
  const InputPinNumbers: seq<bv8> := [
    0, 1, 2, 3, 4, 5, 6, 7,
    0, 1, 2, 3, 4, 5,
    1, 2, 3, 4,
    0, 1, 2, 3,
    4, 5, 6
  ]

  /** The table's ports, in scan order: PB, then PE, PF, PD and PC. */
  lemma InputPinsPorts()
    ensures |InputPins| == InputCount
    ensures forall i :: 0 <= i < 8 ==> InputPins[i].portBase == PortB
    ensures forall i :: 8 <= i < 14 ==> InputPins[i].portBase == PortE
    ensures forall i :: 14 <= i < 18 ==> InputPins[i].portBase == PortF
    ensures forall i :: 18 <= i < 22 ==> InputPins[i].portBase == PortD
    ensures forall i :: 22 <= i < 25 ==> InputPins[i].portBase == PortC
  {
  }

  /**
   * The table's pins: entry i's pin is the single-bit mask whose position, as
   * pinToIndex finds it, is InputPinNumbers[i].
   */
  lemma InputPinsNumbers()
    ensures |InputPins| == |InputPinNumbers| == InputCount
    ensures forall i :: 0 <= i < InputCount ==>
      IsSingleBit(InputPins[i].pin) && LowestSetBit(InputPins[i].pin) == InputPinNumbers[i]
  {
  }

  /** No physical line appears twice in the table. */
  lemma InputPinsDistinct()
    ensures forall i, j :: 0 <= i < j < |InputPins| ==> InputPins[i] != InputPins[j]
  {
    forall i, j | 0 <= i < j < |InputPins| ensures InputPins[i] != InputPins[j] {
      if j < 8 {
        assert InputPins[i].pin != InputPins[j].pin;
      } else {
        assert i < 8 ==> InputPins[i].portBase != InputPins[j].portBase;
      }
    }
  }

  /**
   * pinToIndex: the bit position of a pin mask, found by shifting the mask
   * right until its lowest bit is set. The loop never ends for a zero mask,
   * so callers must pass a non-zero one.
   */
  method PinToIndex(pinMask: bv8) returns (i: bv8)
    requires pinMask != 0
    ensures IsLowestSetBit(pinMask, i)
    ensures i == LowestSetBit(pinMask)
  {
    var mask := pinMask;
    i := 0;
    while mask & 1 == 0
      invariant i < 8 && mask != 0 && mask == pinMask >> i
      invariant forall j: bv8 :: j < i ==> !Bit8(pinMask, j)
      decreases 8 - i as int
    {
      ShiftStep(pinMask, i);
      mask := mask >> 1;
      i := i + 1;
    }
    LowestSetBitUnique(pinMask, i);
  }

  /** One step of PinToIndex: a clear low bit of a non-zero `m >> i` moves the search up. */
  lemma ShiftStep(m: bv8, i: bv8)
    requires i < 8 && m >> i != 0 && (m >> i) & 1 == 0
    ensures i + 1 < 8 && (m >> i) >> 1 == m >> (i + 1) && m >> (i + 1) != 0
    ensures !Bit8(m, i)
  {
  }

  /**
   * GPIOPinRead: the masked read of a port, holding the level of each pin of
   * `pins` in that pin's bit position and zero elsewhere.
   */
  function GpioPinRead(levels: PortLevels, port: Port, pins: bv8): (v: bv32)
    ensures v < 0x100
    ensures (v as bv8) & !pins == 0
    ensures (v as bv8) & pins == levels(port) & pins
  {
    (levels(port) & pins) as bv32
  }

  /** The level an input reads: high when its pin's bit is set in its port. */
  predicate ChannelLevel(levels: PortLevels, input: DigitalInput)
  {
    levels(input.portBase) & input.pin != 0
  }

  /** The 25 sampled levels, in table order. */
  function Levels(levels: PortLevels): (bs: seq<bool>)
    ensures |bs| == InputCount
    ensures forall i :: 0 <= i < InputCount ==> bs[i] == ChannelLevel(levels, InputPins[i])
  {
    seq(InputCount, i requires 0 <= i < InputCount => ChannelLevel(levels, InputPins[i]))
  }

  /**
   * A 32-bit status word reports `levels`: bit i is the level of table entry
   * i for i < 25, and bits 25..31 are clear.
   */
  ghost predicate IsStatusWord(levels: PortLevels, w: bv32)
  {
    PacksPrefix(Levels(levels), w, 25)
  }

  /** What a status word says, input by input: bit i is the level of table entry i. */
  lemma StatusWordBits(levels: PortLevels, w: bv32)
    requires IsStatusWord(levels, w)
    ensures forall i: bv32 :: i < 25 ==> Bit32(w, i) == ChannelLevel(levels, InputPins[i as int])
    ensures forall j: bv32 :: 25 <= j < 32 ==> !Bit32(w, j)
  {
  }

  /** The status word of a snapshot of the pad levels. */
  function StatusWord(levels: PortLevels): (w: bv32)
    ensures IsStatusWord(levels, w)
  {
    var bs := Levels(levels);
    PackPacksPrefix(bs);
    Pack(bs)
  }

  /** A snapshot has exactly one status word: scanning twice gives the same word. */
  lemma StatusWordUnique(levels: PortLevels, w: bv32)
    requires IsStatusWord(levels, w)
    ensures w == StatusWord(levels)
  {
    PacksPrefixUnique(Levels(levels), w, StatusWord(levels), 25);
  }

  /** A status word never exceeds 25 bits, so its high half is below 2^9. */
  lemma StatusWordBound(levels: PortLevels, w: bv32)
    requires IsStatusWord(levels, w)
    ensures w < 0x200_0000
  {
    PacksPrefixBound(Levels(levels), w, 25);
  }

  /**
   * getKeyPress: scan the table in order, put the level of entry i into bit i
   * of the accumulator, then clear bits 25..31. The word it returns is the
   * status word of the snapshot.
   */
  method GetKeyPress(levels: PortLevels) returns (keyPress: bv32)
    ensures IsStatusWord(levels, keyPress)
    ensures keyPress == StatusWord(levels)
    ensures keyPress < 0x200_0000
  {
    InputPinsAreSingleBits();
    ghost var bs := Levels(levels);
    keyPress := 0;
    var i: bv32 := 0;
    while i < 25
      invariant i <= 25
      invariant PacksPrefix(bs, keyPress, i)
    {
      var input := InputPins[i as int];
      var pinValue := GpioPinRead(levels, input.portBase, input.pin);
      var pinNum := PinToIndex(input.pin);
      var bit := (pinValue >> pinNum) & 1;
      SampledBit(levels, input);
      AccumulateStep(bs, keyPress, i, bit);
      keyPress := keyPress | (bit << i);
      i := i + 1;
    }
    ClearHighKeeps(bs, keyPress);
    keyPress := keyPress & !0xFE00_0000;
    StatusWordUnique(levels, keyPress);
    StatusWordBound(levels, keyPress);
  }

  /** The bit getKeyPress extracts from an entry's masked read is the entry's level. */
  lemma SampledBit(levels: PortLevels, input: DigitalInput)
    requires IsSingleBit(input.pin)
    ensures var v := GpioPinRead(levels, input.portBase, input.pin);
      (v >> LowestSetBit(input.pin)) & 1 == if ChannelLevel(levels, input) then 1 else 0
  {
    SingleBitIsShiftedOne(input.pin);
    ReadShiftedOne(levels(input.portBase), LowestSetBit(input.pin));
  }

  /** Bit n of a port value, masked by `1 << n` and moved down to bit 0. */
  lemma ReadShiftedOne(v: bv8, n: bv8)
    requires n < 8
    ensures ((v & (1 << n)) as bv32 >> n) & 1 == if v & (1 << n) != 0 then 1 else 0
  {
  }
}
