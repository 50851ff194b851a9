/**
 * The transmitter: a 32-bit status word leaves the device as two 16-bit SSI
 * frames, low half first. The SSI peripheral is reached only through
 * SSIBusy and SSIDataPutNonBlocking; here it becomes a channel object with a
 * busy flag and the log of frames handed to it.
 */
module Ssi {

  /** The two 16-bit frames a word is split into. */
  datatype FramePair = FramePair(low: bv16, high: bv16)

  /**
   * The split SPISend performs: the low half is the word masked with
   * ~0xFFFF0000, the high half is the word masked with 0xFFFF0000 and shifted
   * down 16 bits. Both are the word's remainder and quotient by 2^16, and
   * together they give the word back.
   */
  function SplitWord(spiWord: bv32): (p: FramePair)
    ensures p.low as bv32 == spiWord % 0x1_0000
    ensures p.high as bv32 == spiWord / 0x1_0000
  {
    FramePair((spiWord & !0xFFFF_0000) as bv16, ((spiWord & 0xFFFF_0000) >> 16) as bv16)
  }

  /** The high frame times 2^16 plus the low frame is the word; no step wraps. */
  lemma SplitRecombines(w: bv32)
    ensures (SplitWord(w).high as bv32) * 0x1_0000 + SplitWord(w).low as bv32 == w
  {
  }

  /** How the host rebuilds a word from its two frames: high half above low half. */
  function JoinFrames(low: bv16, high: bv16): bv32
  {
    ((high as bv32) << 16) | low as bv32
  }

  /** Rebuilding the frames of a word gives the word back. */
  lemma JoinSplit(w: bv32)
    ensures JoinFrames(SplitWord(w).low, SplitWord(w).high) == w
  {
  }

  /** Splitting a rebuilt word gives the frames back. */
  lemma SplitJoin(low: bv16, high: bv16)
    ensures SplitWord(JoinFrames(low, high)) == FramePair(low, high)
  {
  }

  /** A word below 2^25, as every status word is, has a high frame below 2^9. */
  lemma HighFrameBound(w: bv32)
    requires w < 0x200_0000
    ensures SplitWord(w).high < 0x200
  {
  }

  /** The frames a list of words goes out as, two per word, low half first. */
  function EncodeWords(ws: seq<bv32>): (fs: seq<bv16>)
    ensures |fs| == 2 * |ws|
  {
    if ws == [] then []
    else EncodeWords(ws[..|ws| - 1]) + [SplitWord(ws[|ws| - 1]).low, SplitWord(ws[|ws| - 1]).high]
  }

  /** How the host reads a frame log: consecutive pairs, each rebuilt into a word. */
  function DecodeFrames(fs: seq<bv16>): (ws: seq<bv32>)
    requires |fs| % 2 == 0
    ensures |ws| == |fs| / 2
  {
    if fs == [] then []
    else [JoinFrames(fs[0], fs[1])] + DecodeFrames(fs[2..])
  }

  /** Decoding what was encoded gives the words back, in order. */
  lemma {:induction false} DecodeEncode(ws: seq<bv32>)
    ensures DecodeFrames(EncodeWords(ws)) == ws
  {
    if ws != [] {
      var init, w := ws[..|ws| - 1], ws[|ws| - 1];
      DecodeEncode(init);
      JoinSplit(w);
      DecodeAppend(EncodeWords(init), SplitWord(w).low, SplitWord(w).high);
      assert ws == init + [w];
    }
  }

  /** Two more frames at the end of a log decode to one more word at the end. */
  lemma {:induction false} DecodeAppend(fs: seq<bv16>, low: bv16, high: bv16)
    requires |fs| % 2 == 0
    ensures DecodeFrames(fs + [low, high]) == DecodeFrames(fs) + [JoinFrames(low, high)]
    decreases |fs|
  {
    if fs != [] {
      DecodeAppend(fs[2..], low, high);
      assert (fs + [low, high])[2..] == fs[2..] + [low, high];
    }
  }

  /** Encoding a longer list appends the new words' frames. */
  lemma {:induction false} EncodeAppend(ws: seq<bv32>, vs: seq<bv32>)
    ensures EncodeWords(ws + vs) == EncodeWords(ws) + EncodeWords(vs)
    decreases |vs|
  {
    if vs != [] {
      var init, v := vs[..|vs| - 1], vs[|vs| - 1];
      EncodeAppend(ws, init);
      assert (ws + vs)[..|ws + vs| - 1] == ws + init;
      assert (ws + vs)[|ws + vs| - 1] == v;
    } else {
      assert ws + vs == ws;
    }
  }

  /**
   * The SSI0 channel as the firmware sees it: whether it is busy, and the
   * frames that have been put into its transmit path, oldest first.
   */
  class SsiChannel {
    var busy: bool
    var frames: seq<bv16>

    constructor (busy: bool)
      ensures this.busy == busy && frames == []
    {
      this.busy := busy;
      frames := [];
    }

    /** SSIBusy: whether the channel is mid-transmission. */
    method IsBusy() returns (b: bool)
      ensures b == busy
    {
      b := busy;
    }

    /** SSIDataPutNonBlocking: hand one frame to the transmit path. */
    method DataPutNonBlocking(data: bv16)
      modifies this`frames
      ensures frames == old(frames) + [data]
    {
      frames := frames + [data];
    }
  }

  /**
   * SPISend: split the word, then, only if the channel is not busy, put the
   * low frame and then the high frame. A busy channel drops the word.
   */
  method SpiSend(ssi: SsiChannel, spiWord: bv32)
    modifies ssi`frames
    ensures old(ssi.busy) ==> ssi.frames == old(ssi.frames)
    // The idle case twice: as the encoding of the one word, for the main loop
    // and Run to chain, and as the explicit low frame then high frame.
    ensures !old(ssi.busy) ==> ssi.frames == old(ssi.frames) + EncodeWords([spiWord])
    ensures !old(ssi.busy) ==>
      ssi.frames == old(ssi.frames) + [SplitWord(spiWord).low, SplitWord(spiWord).high]
  {
    var split := SplitWord(spiWord);
    var spiWordLow, spiWordHigh := split.low, split.high;
    var busy := ssi.IsBusy();
    if !busy {
      ssi.DataPutNonBlocking(spiWordLow);
      ssi.DataPutNonBlocking(spiWordHigh);
    }
    assert EncodeWords([spiWord]) == [spiWordLow, spiWordHigh];
  }
}
