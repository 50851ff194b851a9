/**
 * The firmware's main loop: scan the keyboard, then send the word. The loop
 * itself never ends; it is modelled one pass at a time, and over a finite
 * run of passes in which the pad levels and the channel's busy state are
 * supplied by the environment.
 */
module Firmware {
  import opened Keyboard
  import opened Ssi

  /** One pass of the main loop: scan the 25 inputs, then send the word. */
  method MainLoopIteration(ssi: SsiChannel, levels: PortLevels)
    modifies ssi`frames
    ensures old(ssi.busy) ==> ssi.frames == old(ssi.frames)
    ensures !old(ssi.busy) ==> ssi.frames == old(ssi.frames) + EncodeWords([StatusWord(levels)])
  {
    var spiWord: bv32 := 0;
    spiWord := GetKeyPress(levels);
    SpiSend(ssi, spiWord);
  }

  /** What the environment decides for one pass: the pad levels and whether SSI0 is busy. */
  datatype Cycle = Cycle(levels: PortLevels, busy: bool)

  /** The words that reach the channel over a run: those of the passes it was idle for. */
  function Delivered(cycles: seq<Cycle>): (ws: seq<bv32>)
    ensures |ws| <= |cycles|
  {
    if cycles == [] then []
    else
      var last := cycles[|cycles| - 1];
      Delivered(cycles[..|cycles| - 1]) + (if last.busy then [] else [StatusWord(last.levels)])
  }

  /**
   * A finite run of the main loop. Before each pass the environment sets the
   * channel's busy state; the pass then scans and sends. The channel ends up
   * holding the frames of the delivered words, in order.
   */
  method Run(ssi: SsiChannel, cycles: seq<Cycle>)
    modifies ssi
    ensures ssi.frames == old(ssi.frames) + EncodeWords(Delivered(cycles))
  {
    for k := 0 to |cycles|
      invariant ssi.frames == old(ssi.frames) + EncodeWords(Delivered(cycles[..k]))
    {
      ssi.busy := cycles[k].busy;
      MainLoopIteration(ssi, cycles[k].levels);
      DeliveredStep(cycles, k);
    }
    assert cycles[..|cycles|] == cycles;
  }

  /** One more pass appends its word's frames to the run's frames, unless the channel was busy. */
  lemma DeliveredStep(cycles: seq<Cycle>, k: nat)
    requires k < |cycles|
    ensures cycles[k].busy ==>
      EncodeWords(Delivered(cycles[..k + 1])) == EncodeWords(Delivered(cycles[..k]))
    ensures !cycles[k].busy ==>
      EncodeWords(Delivered(cycles[..k + 1]))
        == EncodeWords(Delivered(cycles[..k])) + EncodeWords([StatusWord(cycles[k].levels)])
  {
    var before := Delivered(cycles[..k]);
    assert cycles[..k + 1][..k] == cycles[..k] && cycles[..k + 1][k] == cycles[k];
    if cycles[k].busy {
      assert Delivered(cycles[..k + 1]) == before + [];
      assert before + [] == before;
    } else {
      assert Delivered(cycles[..k + 1]) == before + [StatusWord(cycles[k].levels)];
      EncodeAppend(before, [StatusWord(cycles[k].levels)]);
    }
  }

  /** Every delivered word is below 2^25: bits 25..31 of every word sent are zero. */
  lemma {:induction false} DeliveredBounded(cycles: seq<Cycle>)
    ensures forall k :: 0 <= k < |Delivered(cycles)| ==> Delivered(cycles)[k] < 0x200_0000
  {
    if cycles != [] {
      var init, last := cycles[..|cycles| - 1], cycles[|cycles| - 1];
      DeliveredBounded(init);
      StatusWordBound(last.levels, StatusWord(last.levels));
    }
  }

  /** On the wire, every high frame of a run is below 2^9. */
  lemma WireHighFramesBounded(cycles: seq<Cycle>)
    ensures forall k :: 0 <= k < |Delivered(cycles)| ==>
      EncodeWords(Delivered(cycles))[2 * k + 1] < 0x200
  {
    DeliveredBounded(cycles);
    var ws := Delivered(cycles);
    forall k | 0 <= k < |ws| ensures EncodeWords(ws)[2 * k + 1] < 0x200 {
      HighFrameBound(ws[k]);
      EncodedAt(ws, k);
    }
  }

  /** Word k of a list goes out as frames 2k and 2k + 1. */
  lemma {:induction false} EncodedAt(ws: seq<bv32>, k: nat)
    requires k < |ws|
    ensures EncodeWords(ws)[2 * k] == SplitWord(ws[k]).low
    ensures EncodeWords(ws)[2 * k + 1] == SplitWord(ws[k]).high
  {
    if k < |ws| - 1 {
      EncodedAt(ws[..|ws| - 1], k);
    }
  }

  /** The host, decoding the frames of a run, reads exactly the delivered words. */
  lemma RunDecodes(cycles: seq<Cycle>)
    ensures DecodeFrames(EncodeWords(Delivered(cycles))) == Delivered(cycles)
  {
    DecodeEncode(Delivered(cycles));
  }
}
