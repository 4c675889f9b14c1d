/**
 * The frame acceptor of the CPIX pulser scan. Each frame read from the data
 * stream passes through a small state machine: short frames are dropped, the
 * first frames after a failed acquisition are skipped, gaps in the sequence
 * number are dropped, and the counter-A and counter-B frames are counted and
 * saved. Once both counters have saved their frames, the pulser steps up and
 * the 10-bit pulser field of the ASIC's Config3 register is rewritten; after
 * the last pulser value the scan ends.
 *
 * Hardware writes and file saves are returned as actions; a register read is
 * a parameter holding the value read back.
 */
module PulserScan {
  import opened GenericRegister

  const HeaderSize: nat := 14
  const EventsPerFrame: int := 1
  const FramesPerFile: int := 1
  const PulserStart: int := 0
  const PulserStop: int := 1023
  const PulserStep: int := 1
  const MatrixTestBit: uint := 0x1
  const MatrixTrim: uint := 0x7

  /** The smallest frame, in 32-bit words, that is processed. */
  const MinFrameWords: nat := 1168

  /** The header word that tells counter A from counter B. */
  function CounterWord(frame: seq<uint>): uint
    requires |frame| > HeaderSize
  {
    frame[HeaderSize]
  }

  /** A counter-A frame has a non-zero nibble under 0xf0 in its counter word. */
  predicate IsCntA(w: uint)
  {
    And(w, 0xF0) != 0
  }

  lemma AndEvenStep(x: nat, y: nat)
    requires y % 2 == 0
    ensures And(x, y) == 2 * And(x / 2, y / 2)
  {
  }

  lemma AndOddStep(x: nat, y: nat)
    requires y % 2 == 1
    ensures And(x, y) == 2 * And(x / 2, y / 2) + x % 2
  {
  }

  /** The low four bits of v, through the bit-by-bit definition of `&`. */
  lemma AndLowNibble(v: nat)
    ensures And(v, 0xF) == v % 0x10
  {
    var v1 := v / 2;
    var v2 := v1 / 2;
    var v3 := v2 / 2;
    AndOddStep(v, 0xF);
    AndOddStep(v1, 7);
    AndOddStep(v2, 3);
    AndOddStep(v3, 1);
    assert And(v3 / 2, 0) == 0;
    NibbleDigits(v);
  }

  /** The low four bits of v, as binary digits. */
  lemma NibbleDigits(v: nat)
    ensures v % 0x10 == 8 * ((v / 2 / 2 / 2) % 2) + 4 * ((v / 2 / 2) % 2) + 2 * ((v / 2) % 2) + v % 2
  {
    var v1 := v / 2;
    var v2 := v1 / 2;
    var v3 := v2 / 2;
    var v4 := v3 / 2;
    assert v == 2 * v1 + v % 2 && v1 == 2 * v2 + v1 % 2 && v2 == 2 * v3 + v2 % 2 && v3 == 2 * v4 + v3 % 2;
    assert v == 16 * v4 + (8 * (v3 % 2) + 4 * (v2 % 2) + 2 * (v1 % 2) + v % 2);
  }

  /** `w & 0xf0` is bits 4 to 7 of w in place. */
  lemma AndHighNibble(w: nat)
    ensures And(w, 0xF0) == 0x10 * And(w / 0x10, 0xF)
  {
    var w1 := w / 2;
    var w2 := w1 / 2;
    var w3 := w2 / 2;
    AndEvenStep(w, 0xF0);
    AndEvenStep(w1, 0x78);
    AndEvenStep(w2, 0x3C);
    AndEvenStep(w3, 0x1E);
    assert w3 / 2 == w / 0x10;
  }

  /** `data[HEADER_SIZE] & 0xf0` keeps bits 4 to 7: the frame is counter A exactly when that nibble is non-zero. */
  lemma CounterNibble(frame: seq<uint>)
    requires |frame| > HeaderSize
    ensures IsCntA(CounterWord(frame)) <==> (frame[HeaderSize] / 0x10) % 0x10 != 0
  {
    var w := frame[HeaderSize];
    AndHighNibble(w);
    AndLowNibble(w / 0x10);
  }

  /** The hardware writes and file saves of the scan. */
  datatype Action =
    | AutoRunEnable(on: uint)
    | PrepareMultiConfig
    | WriteMatrixData(data: uint)
    | CmdPrepForRead
    | WriteConfig3(word: uint)
    | SaveFrame(cntA: bool, pulser: nat, words: seq<uint>)

  /** The variables of the acquisition loop; `finished` is the loop's `break`. */
  datatype ScanState = ScanState(
    first: bool,
    seqNum: uint,
    cntAevent: int,
    cntBevent: int,
    cntAframe: int,
    cntBframe: int,
    pulser: nat,
    finished: bool)

  // ---------------------------------------------------------------------------
  // The Config3 pulser field
  // ---------------------------------------------------------------------------

  const PulserMask: uint := 0x3FF
  const KeepMask: uint := 0xFFFF_FC00

  /**
   * (value & 0xfffffC00) | (pulser & 0x3FF): bits 0 to 9 of the word are the
   * pulser's, bits 10 to 31 those of the value read back.
   */
  function Config3Word(value: uint, pulser: uint): (w: uint)
    ensures forall i: nat :: i < 32 ==> Bit(w, i) == if i < 10 then Bit(pulser, i) else Bit(value, i)
  {
    OrWord(And(value, KeepMask), And(pulser, PulserMask));
    Config3Bits(value, pulser);
    Or(And(value, KeepMask), And(pulser, PulserMask))
  }

  lemma {:induction false} BitOfHighOnes(k: nat, n: nat, i: nat)
    requires k <= n
    ensures Pow2(k) <= Pow2(n)
    ensures Bit(Pow2(n) - Pow2(k), i) == (k <= i < n)
  {
    if k == 0 {
      BitOfLowOnes(n, i);
    } else {
      BitOfHighOnes(k - 1, n - 1, if i == 0 then 0 else i - 1);
      assert (Pow2(n) - Pow2(k)) / 2 == Pow2(n - 1) - Pow2(k - 1);
    }
  }

  lemma MaskBits(i: nat)
    ensures Bit(PulserMask, i) == (i < 10)
    ensures Bit(KeepMask, i) == (10 <= i < 32)
  {
    assert Pow2(10) == 0x400;
    Pow2Word();
    BitOfLowOnes(10, i);
    BitOfHighOnes(10, 32, i);
  }

  lemma Config3Bits(value: uint, pulser: uint)
    ensures forall i: nat :: i < 32 ==>
              Bit(Or(And(value, KeepMask), And(pulser, PulserMask)), i) ==
              if i < 10 then Bit(pulser, i) else Bit(value, i)
  {
    forall i: nat | i < 32
      ensures Bit(Or(And(value, KeepMask), And(pulser, PulserMask)), i) ==
              if i < 10 then Bit(pulser, i) else Bit(value, i)
    {
      MaskBits(i);
      BitOr(And(value, KeepMask), And(pulser, PulserMask), i);
      BitAnd(value, KeepMask, i);
      BitAnd(pulser, PulserMask, i);
    }
  }

  /**
   * The Config3 write keeps bits 10 to 31 of the value read back and puts the
   * low ten bits of the pulser in bits 0 to 9: it sets the register field
   * (bit 0, mask 0x3FF) to the pulser.
   */
  lemma Config3IsPulserField(value: uint, pulser: uint)
    ensures Config3Word(value, pulser) == Merge(value, pulser, 0, PulserMask)
  {
    KeepIsComplement();
    assert FieldBits(0, PulserMask) == PulserMask;
    assert Shl(And(pulser, PulserMask), 0) == And(pulser, PulserMask);
  }

  /** 0xfffffC00 is the complement of the pulser mask 0x3FF within a word. */
  lemma KeepIsComplement()
    ensures Xor(AllOnes, PulserMask) == KeepMask
  {
    forall i: nat | i < 32
      ensures Bit(Xor(AllOnes, PulserMask), i) == Bit(KeepMask, i)
    {
      KeepBit(i);
    }
    XorWord(AllOnes, PulserMask);
    BitsEqual(Xor(AllOnes, PulserMask), KeepMask);
  }

  lemma KeepBit(i: nat)
    ensures Bit(Xor(AllOnes, PulserMask), i) == Bit(KeepMask, i)
  {
    BitComplement(PulserMask, i);
    MaskBits(i);
  }

  /** Reading the pulser field back from the written word gives the pulser's low ten bits. */
  lemma Config3ReadsBack(value: uint, pulser: uint)
    ensures Extract(Config3Word(value, pulser), 0, PulserMask) == And(pulser, PulserMask)
  {
    Config3IsPulserField(value, pulser);
    forall i: nat | i < 32 && Bit(PulserMask, i)
      ensures i + 0 < 32
    {
    }
    MergeReadsBack(value, pulser, 0, PulserMask);
  }

  // ---------------------------------------------------------------------------
  // Setup and one frame
  // ---------------------------------------------------------------------------

  /**
   * The writes before the loop: auto run off, the matrix configuration, the
   * pulser's Config3 word, auto run on. The test row and column writes are
   * switched off by MATRIX_TEST_ROW and MATRIX_TEST_COL being 0.
   */
  function SetupActions(config3: uint): (acts: seq<Action>)
    ensures |acts| == 6 && acts[0] == AutoRunEnable(0) && acts[5] == AutoRunEnable(1)
    ensures acts[1] == PrepareMultiConfig && acts[2] == WriteMatrixData(0x1D) && acts[3] == CmdPrepForRead
    ensures acts[4] == WriteConfig3(Config3Word(config3, PulserStart))
  {
    var matrix := [AutoRunEnable(0), PrepareMultiConfig,
                   WriteMatrixData(Or(MatrixTestBit, Shl(MatrixTrim, 2))), CmdPrepForRead];
    matrix + [WriteConfig3(Config3Word(config3, PulserStart)), AutoRunEnable(1)]
  }

  const Initial: ScanState := ScanState(true, 0, 0, 0, 0, 0, PulserStart, false)

  /** The next sequence number, with the wrap-around of unsigned 32-bit addition. */
  function NextSeq(n: uint): (r: uint)
    ensures n < AllOnes ==> r == n + 1
    ensures n == AllOnes ==> r == 0
  {
    (n + 1) % Modulus
  }

  /** What one counter does with its frame: save it, or count it as skipped. */
  datatype CounterStep = CounterStep(event: int, frame: int, save: bool)

  function CountFrame(event: int, frame: int): (r: CounterStep)
    ensures r.save <==> event >= EventsPerFrame - 1 && frame <= FramesPerFile - 1
    ensures r.save ==> r.event == 0 && r.frame == frame + 1
    ensures !r.save ==> r.frame == frame && event <= r.event <= event + 1
    ensures !r.save && event < EventsPerFrame - 1 ==> r.event == event + 1
    ensures !r.save && event >= EventsPerFrame - 1 ==> r.event == event
  {
    if event >= EventsPerFrame - 1 && frame <= FramesPerFile - 1 then CounterStep(0, frame + 1, true)
    else if event < EventsPerFrame - 1 then CounterStep(event + 1, frame, false)
    else CounterStep(event, frame, false)
  }

  /** An in-sequence frame goes to its counter, which saves it or counts it as skipped. */
  function Count(s: ScanState, frame: seq<uint>): (r: (ScanState, seq<Action>))
    requires |frame| > HeaderSize
    ensures r.0.first == s.first && r.0.seqNum == s.seqNum && r.0.pulser == s.pulser && r.0.finished == s.finished
    ensures IsCntA(CounterWord(frame)) ==> r.0.cntBevent == s.cntBevent && r.0.cntBframe == s.cntBframe
    ensures !IsCntA(CounterWord(frame)) ==> r.0.cntAevent == s.cntAevent && r.0.cntAframe == s.cntAframe
    ensures IsCntA(CounterWord(frame)) ==>
              r.0.cntAevent == CountFrame(s.cntAevent, s.cntAframe).event &&
              r.0.cntAframe == CountFrame(s.cntAevent, s.cntAframe).frame
    ensures !IsCntA(CounterWord(frame)) ==>
              r.0.cntBevent == CountFrame(s.cntBevent, s.cntBframe).event &&
              r.0.cntBframe == CountFrame(s.cntBevent, s.cntBframe).frame
    ensures r.1 == [] || r.1 == [SaveFrame(IsCntA(CounterWord(frame)), s.pulser, frame)]
    ensures r.1 != [] <==>
              if IsCntA(CounterWord(frame)) then s.cntAevent >= EventsPerFrame - 1 && s.cntAframe <= FramesPerFile - 1
              else s.cntBevent >= EventsPerFrame - 1 && s.cntBframe <= FramesPerFile - 1
  {
    var cntA := IsCntA(CounterWord(frame));
    var c := if cntA then CountFrame(s.cntAevent, s.cntAframe) else CountFrame(s.cntBevent, s.cntBframe);
    var counted := if cntA then s.(cntAevent := c.event, cntAframe := c.frame)
                   else s.(cntBevent := c.event, cntBframe := c.frame);
    (counted, if c.save then [SaveFrame(cntA, s.pulser, frame)] else [])
  }

  /**
   * Once both counters have saved their frames: auto run off, the counters
   * back to zero, and either the next pulser value with its Config3 write and
   * auto run on, or the end of the scan.
   */
  function Advance(s: ScanState, config3: uint): (r: (ScanState, seq<Action>))
    ensures !(s.cntAframe > FramesPerFile - 1 && s.cntBframe > FramesPerFile - 1) ==> r == (s, [])
    ensures r.1 != [] ==>
              r.1[0] == AutoRunEnable(0) &&
              r.0.cntAevent == 0 && r.0.cntBevent == 0 && r.0.cntAframe == 0 && r.0.cntBframe == 0
    ensures r.0.pulser == s.pulser || r.0.pulser == s.pulser + PulserStep <= 1023
    ensures r.0.pulser != s.pulser ==>
              r.0.finished == s.finished &&
              r.1 == [AutoRunEnable(0), WriteConfig3(Config3Word(config3, r.0.pulser)), AutoRunEnable(1)]
    ensures r.0.finished != s.finished ==> r.0.finished && r.0.pulser == s.pulser && r.1 == [AutoRunEnable(0)]
    ensures s.cntAframe > FramesPerFile - 1 && s.cntBframe > FramesPerFile - 1 ==>
              r.1 != [] && r.0.first == s.first && r.0.seqNum == s.seqNum &&
              (r.0.pulser != s.pulser <==> s.pulser < PulserStop && s.pulser + PulserStep <= 1023) &&
              (r.0.pulser == s.pulser ==> r.0.finished && r.1 == [AutoRunEnable(0)])
  {
    if s.cntAframe > FramesPerFile - 1 && s.cntBframe > FramesPerFile - 1 then
      var reset := s.(cntAframe := 0, cntBframe := 0, cntAevent := 0, cntBevent := 0);
      if s.pulser < PulserStop && s.pulser + PulserStep <= 1023 then
        var p := s.pulser + PulserStep;
        (reset.(pulser := p), [AutoRunEnable(0), WriteConfig3(Config3Word(config3, p)), AutoRunEnable(1)])
      else
        (reset.(finished := true), [AutoRunEnable(0)])
    else (s, [])
  }

  /**
   * One frame of the loop, given the Config3 value the pulser step would read
   * back; the result is the new state and the actions taken, in order.
   */
  function Transition(s: ScanState, frame: seq<uint>, config3: uint): (r: (ScanState, seq<Action>))
    ensures |frame| < MinFrameWords ==> r == (s, [])
    ensures |frame| >= MinFrameWords ==> r.0.seqNum == frame[2]
    ensures r.1 != [] ==> |frame| >= MinFrameWords && !s.first && frame[2] == NextSeq(s.seqNum)
    ensures r.0.first ==> |frame| < MinFrameWords || s.first || frame[2] != NextSeq(s.seqNum)
    ensures r.0.pulser == s.pulser || r.0.pulser == s.pulser + PulserStep
  {
    if |frame| < MinFrameWords then (s, [])
    else
      var cntA := IsCntA(CounterWord(frame));
      if s.first then (s.(seqNum := frame[2], first := cntA), [])
      else if frame[2] != NextSeq(s.seqNum) then (s.(seqNum := frame[2], first := cntA), [])
      else Accept(s.(seqNum := frame[2]), frame, config3)
  }

  /** An in-sequence frame: its counter's bookkeeping, then the end-of-step check. */
  function Accept(s: ScanState, frame: seq<uint>, config3: uint): (r: (ScanState, seq<Action>))
    requires |frame| > HeaderSize
    ensures r.0.first == s.first && r.0.seqNum == s.seqNum
    ensures (|r.1| > 0 && r.1[0].SaveFrame?) <==>
              if IsCntA(CounterWord(frame)) then s.cntAevent >= EventsPerFrame - 1 && s.cntAframe <= FramesPerFile - 1
              else s.cntBevent >= EventsPerFrame - 1 && s.cntBframe <= FramesPerFile - 1
    ensures forall k :: 1 <= k < |r.1| ==> !r.1[k].SaveFrame?
  {
    var (counted, saved) := Count(s, frame);
    var (t, acts) := Advance(counted, config3);
    (t, saved + acts)
  }

  // ---------------------------------------------------------------------------
  // Properties of one frame
  // ---------------------------------------------------------------------------

  /** What the loop keeps between frames. */
  ghost predicate Inv(s: ScanState)
  {
    && 0 <= s.cntAevent <= EventsPerFrame - 1 && 0 <= s.cntBevent <= EventsPerFrame - 1
    && 0 <= s.cntAframe <= FramesPerFile && 0 <= s.cntBframe <= FramesPerFile
    && !(s.cntAframe > FramesPerFile - 1 && s.cntBframe > FramesPerFile - 1)
    && PulserStart <= s.pulser <= 1023
  }

  lemma InitialInv()
    ensures Inv(Initial)
  {
  }

  /** A frame of fewer than 1168 words changes nothing and does nothing. */
  lemma ShortFrameIgnored(s: ScanState, frame: seq<uint>, config3: uint)
    requires |frame| < MinFrameWords
    ensures Transition(s, frame, config3) == (s, [])
  {
  }

  /**
   * While `first` is set a frame only records its sequence number; `first`
   * stays set unless the frame is a counter-B frame.
   */
  lemma FirstPhase(s: ScanState, frame: seq<uint>, config3: uint)
    requires s.first && |frame| >= MinFrameWords
    ensures Transition(s, frame, config3).1 == []
    ensures Transition(s, frame, config3).0 == s.(seqNum := frame[2], first := IsCntA(frame[HeaderSize]))
  {
  }

  /** `first` is cleared only by a counter-B frame of full size. */
  lemma FirstClearedOnlyByCntB(s: ScanState, frame: seq<uint>, config3: uint)
    requires s.first && !Transition(s, frame, config3).0.first
    ensures |frame| >= MinFrameWords && !IsCntA(frame[HeaderSize])
  {
  }

  /**
   * A frame out of sequence is dropped: its number becomes the last one seen,
   * a counter-A frame sets `first` again, and nothing else changes.
   */
  lemma SequenceGapDropped(s: ScanState, frame: seq<uint>, config3: uint)
    requires !s.first && |frame| >= MinFrameWords && frame[2] != NextSeq(s.seqNum)
    ensures Transition(s, frame, config3).1 == []
    ensures Transition(s, frame, config3).0 == s.(seqNum := frame[2], first := IsCntA(frame[HeaderSize]))
  {
  }

  /** The loop invariant holds after every frame, finished or not. */
  lemma TransitionKeepsInv(s: ScanState, frame: seq<uint>, config3: uint)
    requires Inv(s)
    ensures Inv(Transition(s, frame, config3).0)
  {
  }

  /**
   * A frame is saved only when its counter's event count has reached
   * EVENTS_PER_FRAME - 1 and fewer than FRAMES_PER_FILE frames are saved; the
   * saved frame is the frame itself, under the pulser value before any step.
   */
  lemma SaveOnlyWhenCounted(s: ScanState, frame: seq<uint>, config3: uint, k: nat)
    requires Inv(s)
    requires k < |Transition(s, frame, config3).1| && Transition(s, frame, config3).1[k].SaveFrame?
    ensures k == 0 && |frame| >= MinFrameWords && !s.first && frame[2] == NextSeq(s.seqNum)
    ensures var a := Transition(s, frame, config3).1[k];
            a.words == frame && a.pulser == s.pulser && a.cntA == IsCntA(frame[HeaderSize])
    ensures IsCntA(frame[HeaderSize]) ==> s.cntAevent >= EventsPerFrame - 1 && s.cntAframe <= FramesPerFile - 1
    ensures !IsCntA(frame[HeaderSize]) ==> s.cntBevent >= EventsPerFrame - 1 && s.cntBframe <= FramesPerFile - 1
  {
  }

  /**
   * Once both counters have saved FRAMES_PER_FILE frames, all four counters
   * return to zero, and the pulser either steps with a Config3 write or the
   * scan finishes.
   */
  lemma ResetWhenBothSaved(s: ScanState, frame: seq<uint>, config3: uint)
    requires Inv(s) && !s.finished && |frame| >= MinFrameWords && !s.first && frame[2] == NextSeq(s.seqNum)
    requires IsCntA(frame[HeaderSize]) ==> s.cntBframe == FramesPerFile && s.cntAframe == FramesPerFile - 1
    requires !IsCntA(frame[HeaderSize]) ==> s.cntAframe == FramesPerFile && s.cntBframe == FramesPerFile - 1
    ensures var t := Transition(s, frame, config3).0;
            t.cntAevent == 0 && t.cntBevent == 0 && t.cntAframe == 0 && t.cntBframe == 0
    ensures var (t, acts) := Transition(s, frame, config3);
            if s.pulser < PulserStop then
              t.pulser == s.pulser + PulserStep && !t.finished &&
              acts[1..] == [AutoRunEnable(0), WriteConfig3(Config3Word(config3, t.pulser)), AutoRunEnable(1)]
            else
              t.pulser == s.pulser && t.finished && acts[1..] == [AutoRunEnable(0)]
  {
  }

  /** The pulser only steps up by PULSER_STEP, never past 1023, and not once the scan has finished. */
  lemma PulserSteps(s: ScanState, frame: seq<uint>, config3: uint)
    requires Inv(s) && !s.finished
    ensures var t := Transition(s, frame, config3).0;
            (t.pulser == s.pulser || (t.pulser == s.pulser + PulserStep && !t.finished)) &&
            PulserStart <= t.pulser <= 1023
  {
  }

  // ---------------------------------------------------------------------------
  // A run of the loop
  // ---------------------------------------------------------------------------

  /** A frame read from the stream, with the Config3 value a read at that point would return. */
  datatype Input = Input(frame: seq<uint>, config3: uint)

  /** The loop over a stream of frames; after the scan has finished no frame is taken. */
  function Run(s: ScanState, inputs: seq<Input>): (r: (ScanState, seq<Action>))
    ensures |inputs| == 0 || s.finished ==> r == (s, [])
    ensures s.pulser <= r.0.pulser
    decreases |inputs|
  {
    if |inputs| == 0 || s.finished then (s, [])
    else
      var (t, acts) := Transition(s, inputs[0].frame, inputs[0].config3);
      var (u, rest) := Run(t, inputs[1..]);
      (u, acts + rest)
  }

  /** One frame taken from the front of the stream. */
  lemma RunFirst(s: ScanState, inputs: seq<Input>)
    requires |inputs| > 0 && !s.finished
    ensures var (t, acts) := Transition(s, inputs[0].frame, inputs[0].config3);
            Run(s, inputs) == (Run(t, inputs[1..]).0, acts + Run(t, inputs[1..]).1)
  {
  }

  // A copy of EpixFpga.AppendAssoc: each module keeps its own helpers, so
  // that no module's proofs see another module's lemmas and functions.
  lemma AppendAssoc<T>(a: seq<T>, b: seq<T>, c: seq<T>)
    ensures (a + b) + c == a + (b + c)
  {
  }

  /**
   * Over any stream the loop invariant holds, the pulser never moves down, and
   * every saved frame carries a pulser value between the start and the end.
   */
  lemma {:induction false} RunKeepsInv(s: ScanState, inputs: seq<Input>)
    requires Inv(s)
    ensures Inv(Run(s, inputs).0)
    ensures s.pulser <= Run(s, inputs).0.pulser
    ensures forall a :: a in Run(s, inputs).1 && a.SaveFrame? ==> s.pulser <= a.pulser <= Run(s, inputs).0.pulser
    decreases |inputs|
  {
    if |inputs| > 0 && !s.finished {
      var (t, acts) := Transition(s, inputs[0].frame, inputs[0].config3);
      TransitionKeepsInv(s, inputs[0].frame, inputs[0].config3);
      PulserSteps(s, inputs[0].frame, inputs[0].config3);
      forall a | a in acts && a.SaveFrame?
        ensures a.pulser == s.pulser
      {
        var k :| 0 <= k < |acts| && acts[k] == a;
        SaveOnlyWhenCounted(s, inputs[0].frame, inputs[0].config3, k);
      }
      RunKeepsInv(t, inputs[1..]);
    }
  }

  // ---------------------------------------------------------------------------
  // The acceptor as the loop runs it
  // ---------------------------------------------------------------------------

  /**
   * The scan's loop variables and the actions issued so far. `finished` is set
   * where the loop breaks; no frame is taken after it.
   */
  class Scan {
    var first: bool
    var seqNum: uint
    var cntAevent: int
    var cntBevent: int
    var cntAframe: int
    var cntBframe: int
    var pulser: nat
    var finished: bool
    var actions: seq<Action>

    function State(): ScanState
      reads this
    {
      ScanState(first, seqNum, cntAevent, cntBevent, cntAframe, cntBframe, pulser, finished)
    }

    ghost predicate Valid()
      reads this
    {
      Inv(State())
    }

    /** The setup writes, then the counters at zero and `first` set. */
    constructor (config3: uint)
      ensures Valid() && State() == Initial && actions == SetupActions(config3)
    {
      first := true;
      seqNum := 0;
      cntAevent := 0;
      cntBevent := 0;
      cntAframe := 0;
      cntBframe := 0;
      pulser := PulserStart;
      finished := false;
      actions := SetupActions(config3);
    }

    /** One frame read from the stream; `config3` is what a Config3 read would return. */
    method Step(frame: seq<uint>, config3: uint)
      requires Valid() && !finished
      modifies this
      ensures Valid()
      ensures State() == Transition(old(State()), frame, config3).0
      ensures actions == old(actions) + Transition(old(State()), frame, config3).1
    {
      ghost var s := State();
      TransitionKeepsInv(s, frame, config3);
      if |frame| < MinFrameWords {
        return;
      }
      var cntA := IsCntA(frame[HeaderSize]);
      if first {
        seqNum := frame[2];
        if !cntA {
          first := false;
        }
      } else if frame[2] != (seqNum + 1) % Modulus {
        if cntA {
          first := true;
        }
        seqNum := frame[2];
      } else {
        seqNum := frame[2];
        AcceptFrame(frame, cntA, config3);
      }
    }

    method AcceptFrame(frame: seq<uint>, cntA: bool, config3: uint)
      requires |frame| > HeaderSize && cntA == IsCntA(frame[HeaderSize])
      modifies this
      ensures State() == Accept(old(State()), frame, config3).0
      ensures actions == old(actions) + Accept(old(State()), frame, config3).1
    {
      CountInSequence(frame, cntA);
      AdvancePulser(config3);
    }

    /** The counter-A or counter-B bookkeeping of an in-sequence frame. */
    method CountInSequence(frame: seq<uint>, cntA: bool)
      requires |frame| > HeaderSize && cntA == IsCntA(frame[HeaderSize])
      modifies this
      ensures State() == Count(old(State()), frame).0
      ensures actions == old(actions) + Count(old(State()), frame).1
    {
      if cntA {
        if cntAevent >= EventsPerFrame - 1 && cntAframe <= FramesPerFile - 1 {
          cntAevent := 0;
          cntAframe := cntAframe + 1;
          actions := actions + [SaveFrame(true, pulser, frame)];
        } else if cntAevent < EventsPerFrame - 1 {
          cntAevent := cntAevent + 1;
        }
      } else {
        if cntBevent >= EventsPerFrame - 1 && cntBframe <= FramesPerFile - 1 {
          cntBevent := 0;
          cntBframe := cntBframe + 1;
          actions := actions + [SaveFrame(false, pulser, frame)];
        } else if cntBevent < EventsPerFrame - 1 {
          cntBevent := cntBevent + 1;
        }
      }
    }

    /** The end-of-step check: reset the counters and step the pulser, or finish. */
    method AdvancePulser(config3: uint)
      modifies this
      ensures State() == Advance(old(State()), config3).0
      ensures actions == old(actions) + Advance(old(State()), config3).1
    {
      ghost var issued := actions;
      if cntAframe > FramesPerFile - 1 && cntBframe > FramesPerFile - 1 {
        actions := actions + [AutoRunEnable(0)];
        cntAframe := 0;
        cntBframe := 0;
        cntAevent := 0;
        cntBevent := 0;
        if pulser < PulserStop && pulser + PulserStep <= 1023 {
          pulser := pulser + PulserStep;
          actions := actions + [WriteConfig3(Config3Word(config3, pulser))];
        } else {
          finished := true;
          return;
        }
        actions := actions + [AutoRunEnable(1)];
        assert actions == issued + [AutoRunEnable(0), WriteConfig3(Config3Word(config3, pulser)), AutoRunEnable(1)];
      }
    }

    /** The acquisition loop over a stream of frames, left at the `break` once the scan finishes. */
    method RunFrames(inputs: seq<Input>)
      requires Valid()
      modifies this
      ensures Valid()
      ensures State() == Run(old(State()), inputs).0
      ensures actions == old(actions) + Run(old(State()), inputs).1
    {
      ghost var run := Run(State(), inputs);
      ghost var start := actions;
      var rest := inputs;
      while |rest| > 0 && !finished
        invariant Valid()
        invariant Run(State(), rest).0 == run.0
        invariant actions + Run(State(), rest).1 == start + run.1
        decreases |rest|
      {
        TakeFrame(rest);
        rest := rest[1..];
      }
    }

    /** Step on the first frame of a stream: what remains of the run is the run of the rest. */
    method TakeFrame(rest: seq<Input>)
      requires Valid() && !finished && |rest| > 0
      modifies this
      ensures Valid()
      ensures Run(State(), rest[1..]).0 == Run(old(State()), rest).0
      ensures actions + Run(State(), rest[1..]).1 == old(actions) + Run(old(State()), rest).1
    {
      ghost var s := State();
      ghost var issued := actions;
      RunFirst(s, rest);
      Step(rest[0].frame, rest[0].config3);
      AppendAssoc(issued, Transition(s, rest[0].frame, rest[0].config3).1, Run(State(), rest[1..]).1);
    }
  }
}
