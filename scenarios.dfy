/**
 * End-to-end passes of the main loop on particular pad levels: the word the
 * scan produces and the two frames an idle channel receives.
 */
module Scenarios {
  import opened Bits
  import opened Keyboard
  import opened Ssi
  import Firmware

  /** Pad levels with every button released. */
  function AllLow(): PortLevels
  {
    (p: Port) => 0
  }

  /** Only input 0 (PB0) pressed. */
  function OnlyFirst(): PortLevels
  {
    (p: Port) => if p == PortB then 0x01 else 0
  }

  /** Only input 24 (PC6) pressed. */
  function OnlyLast(): PortLevels
  {
    (p: Port) => if p == PortC then 0x40 else 0
  }

  /** Inputs 0 (PB0) and 24 (PC6) pressed. */
  function FirstAndLast(): PortLevels
  {
    (p: Port) => if p == PortB then 0x01 else if p == PortC then 0x40 else 0
  }

  /** All inputs low: the word is 0 and goes out as frames 0x0000, 0x0000. */
  lemma AllLowSendsZero()
    ensures StatusWord(AllLow()) == 0
    ensures SplitWord(StatusWord(AllLow())) == FramePair(0x0000, 0x0000)
  {
    var bs := Levels(AllLow());
    forall j: bv32 | j < 32 ensures Bit32(0, j) == (j < 25 && bs[j as int]) {
    }
    StatusWordUnique(AllLow(), 0);
  }

  /** Only input 0 high: the word is 0x00000001, sent as 0x0001, 0x0000. */
  lemma FirstHighSendsOne()
    ensures StatusWord(OnlyFirst()) == 0x0000_0001
    ensures SplitWord(StatusWord(OnlyFirst())) == FramePair(0x0001, 0x0000)
  {
    var bs := Levels(OnlyFirst());
    forall j: bv32 | j < 32 ensures Bit32(1, j) == (j < 25 && bs[j as int]) {
    }
    StatusWordUnique(OnlyFirst(), 1);
  }

  /** Only input 24 high: the word is 0x01000000, sent as 0x0000, 0x0100. */
  lemma LastHighSendsBit24()
    ensures StatusWord(OnlyLast()) == 0x0100_0000
    ensures SplitWord(StatusWord(OnlyLast())) == FramePair(0x0000, 0x0100)
  {
    var bs := Levels(OnlyLast());
    forall j: bv32 | j < 32 ensures Bit32(0x0100_0000, j) == (j < 25 && bs[j as int]) {
    }
    StatusWordUnique(OnlyLast(), 0x0100_0000);
  }

  /** Inputs 0 and 24 high: the word is 0x01000001, sent as 0x0001, 0x0100. */
  lemma FirstAndLastHigh()
    ensures StatusWord(FirstAndLast()) == 0x0100_0001
    ensures SplitWord(StatusWord(FirstAndLast())) == FramePair(0x0001, 0x0100)
  {
    var bs := Levels(FirstAndLast());
    forall j: bv32 | j < 32 ensures Bit32(0x0100_0001, j) == (j < 25 && bs[j as int]) {
    }
    StatusWordUnique(FirstAndLast(), 0x0100_0001);
  }

  /**
   * A pass on a busy channel sends nothing; the next pass, on an idle
   * channel, scans afresh and sends its own word.
   */
  method BusyThenIdle(first: PortLevels, second: PortLevels) returns (frames: seq<bv16>)
    ensures frames == EncodeWords([StatusWord(second)])
    ensures DecodeFrames(frames) == [StatusWord(second)]
  {
    var ssi := new SsiChannel(true);
    Firmware.MainLoopIteration(ssi, first);
    assert ssi.frames == [];
    ssi.busy := false;
    Firmware.MainLoopIteration(ssi, second);
    frames := ssi.frames;
    DecodeEncode([StatusWord(second)]);
  }
}
