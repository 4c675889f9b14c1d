/**
 * The Coulter readout's frame decoder (CoulterFrameParser) and its helpers.
 *
 * A raw data frame is a 16-byte header followed by 16-byte records. Each record
 * carries a little-endian metadata word (channel, last, slot) and two 56-bit
 * little-endian words, each packing four 14-bit sub-samples. Decoding fills a
 * zeroed [256][12][16] array; the parser keeps every decoded frame, in arrival
 * order, in its store `d`.
 *
 * A decoded frame is held as a flat sequence of 256 * 12 * 16 cells in
 * row-major order, the memory layout of the numpy array it models: cell
 * [slot][channel][sub] sits at Cell(slot, channel, sub).
 */
module Coulter {

  type byte = x: int | 0 <= x < 256

  // The same Option as EpixFpga's, declared here so that this module imports nothing.
  datatype Option<T> = None | Some(value: T)

  const Slots: nat := 256
  const Channels: nat := 12
  const SubSamples: nat := 16
  const FrameCells: nat := 49152   // Slots * Channels * SubSamples
  const HeaderBytes: nat := 16
  const RecordBytes: nat := 16
  const SampleMask: nat := 0x3FFF  // a 14-bit sub-sample

  // A copy of GenericRegister.Pow2: importing that module here put the
  // decoder's proofs past the resource limit.
  function Pow2(n: nat): (r: int)
    ensures r >= 1
  {
    if n == 0 then 1 else 2 * Pow2(n - 1)
  }

  lemma {:induction false} Pow2Add(m: nat, n: nat)
    ensures Pow2(m + n) == Pow2(m) * Pow2(n)
  {
    if m > 0 {
      Pow2Add(m - 1, n);
    }
  }

  /** Division with a remainder below the divisor recovers quotient and remainder. */
  lemma DivModUnique(x: int, d: int, q: int, r: int)
    requires d > 0 && 0 <= r < d && x == q * d + r
    ensures x / d == q && x % d == r
  {
    var q', r' := x / d, x % d;
    assert q' * d + r' == q * d + r;
    assert (q' - q) * d == r - r';
    if q' > q {
      MulAtLeast(q' - q, d);
    } else if q' < q {
      MulAtLeast(q - q', d);
    }
  }

  lemma MulAtLeast(k: int, d: int)
    requires k >= 1 && d > 0
    ensures k * d >= d
  {
  }

  // ---------------------------------------------------------------------------
  // Bit fields: conv and sign_extend
  // ---------------------------------------------------------------------------

  /** conv(i, highBit, lowBit): bits lowBit..highBit of i, as a non-negative integer. */
  function Conv(i: int, highBit: int, lowBit: nat): (o: nat)
    requires lowBit <= highBit + 1
    ensures o < Pow2(highBit - lowBit + 1)
  {
    (i / Pow2(lowBit)) % Pow2(highBit - lowBit + 1)
  }

  /** Packing a field of `width` bits at `lowBit` and extracting it with Conv gives it back. */
  lemma ConvExtractsField(below: nat, v: nat, above: int, lowBit: nat, width: nat)
    requires below < Pow2(lowBit) && v < Pow2(width)
    ensures Conv(below + Pow2(lowBit) * (v + Pow2(width) * above), lowBit + width - 1, lowBit) == v
  {
    var lo, w := Pow2(lowBit), Pow2(width);
    var upper := v + w * above;
    var x := below + lo * upper;
    DivModUnique(x, lo, upper, below);
    DivModUnique(upper, w, above, v);
    assert Conv(x, lowBit + width - 1, lowBit) == (x / lo) % w;
  }

  /**
   * sign_extend(value, bits): the two's-complement reading of the low `bits`
   * bits of value (bit bits-1 is the sign).
   */
  function SignExtend(value: int, bits: nat): (r: int)
    requires bits >= 1
    ensures -Pow2(bits - 1) <= r < Pow2(bits - 1)
    ensures 0 <= value < Pow2(bits) ==>
              r == if value < Pow2(bits - 1) then value else value - Pow2(bits)
  {
    var signBit := Pow2(bits - 1);
    assert Pow2(bits) == 2 * signBit;
    SplitBelowDouble(value, signBit);
    value % signBit - (value / signBit) % 2 * signBit
  }

  lemma SplitBelowDouble(v: int, s: int)
    requires s > 0
    ensures 0 <= v < s ==> v / s == 0 && v % s == v
    ensures s <= v < 2 * s ==> v / s == 1 && v % s == v - s
  {
    if 0 <= v < s {
      DivModUnique(v, s, 0, v);
    } else if s <= v < 2 * s {
      DivModUnique(v, s, 1, v - s);
    }
  }

  /** Re-encoding a sign-extended code modulo 2^bits recovers the code. */
  lemma SignExtendRoundTrip(value: int, bits: nat)
    requires bits >= 1 && 0 <= value < Pow2(bits)
    ensures (SignExtend(value, bits) + Pow2(bits)) % Pow2(bits) == value
  {
    var half, p := Pow2(bits - 1), Pow2(bits);
    assert p == 2 * half;
    WrapBack(value, SignExtend(value, bits), half, p);
  }

  lemma WrapBack(value: int, r: int, half: int, p: int)
    requires 0 < half && p == 2 * half && 0 <= value < p
    requires r == if value < half then value else value - p
    ensures (r + p) % p == value
  {
    if value < half {
      DivModUnique(r + p, p, 1, value);
    } else {
      DivModUnique(r + p, p, 0, value);
    }
  }

  /** Every signed value in range is the sign extension of its two's-complement code. */
  lemma SignExtendOfTwosComplement(s: int, bits: nat)
    requires bits >= 1 && -Pow2(bits - 1) <= s < Pow2(bits - 1)
    ensures 0 <= s % Pow2(bits) < Pow2(bits)
    ensures SignExtend(s % Pow2(bits), bits) == s
  {
    assert Pow2(bits) == 2 * Pow2(bits - 1);
    if s >= 0 {
      DivModUnique(s, Pow2(bits), 0, s);
    } else {
      DivModUnique(s, Pow2(bits), -1, s + Pow2(bits));
    }
  }

  // ---------------------------------------------------------------------------
  // Records
  // ---------------------------------------------------------------------------

  /** int.from_bytes(s, 'little') */
  function LittleEndian(s: seq<byte>): (n: nat)
    ensures n < Pow2(8 * |s|)
  {
    if s == [] then 0
    else
      Pow2Add(8, 8 * (|s| - 1));
      s[0] + 256 * LittleEndian(s[1..])
  }

  datatype Record = Record(channel: nat, last: nat, slot: nat, low: nat, high: nat)

  /** The record at byte offset b: metadata word at [b, b+2), low at [b+2, b+9), high at [b+9, b+16). */
  function RecordAt(p: seq<byte>, b: nat): (r: Record)
    requires b + RecordBytes <= |p|
    ensures r.channel < 16 && r.last < 2 && r.slot < 2048
    ensures r.low < Pow2(56) && r.high < Pow2(56)
  {
    var meta := LittleEndian(p[b..b + 2]);
    Record(meta % 16, (meta / 16) % 2, (meta / 32) % 2048,
           LittleEndian(p[b + 2..b + 9]), LittleEndian(p[b + 9..b + 16]))
  }

  /** channel, last and slot are the bit fields [3:0], [4:4] and [15:5] of the metadata word. */
  lemma RecordFieldsAreConvFields(p: seq<byte>, b: nat)
    requires b + RecordBytes <= |p|
    ensures var meta := p[b] as int + 256 * p[b + 1] as int;
            var r := RecordAt(p, b);
            r.channel == Conv(meta, 3, 0) && r.last == Conv(meta, 4, 4) && r.slot == Conv(meta, 15, 5)
  {
    var s := p[b..b + 2];
    assert s[1..][1..] == [];
    assert LittleEndian(s) == p[b] as int + 256 * p[b + 1] as int;
    assert Pow2(0) == 1 && Pow2(1) == 2 && Pow2(4) == 16 && Pow2(5) == 32 && Pow2(11) == 2048;
  }

  /** Sub-sample i of a 56-bit word: (word >> 14i) & 0x3FFF. */
  function SubSample(word: nat, i: nat): (v: nat)
    ensures v <= SampleMask
  {
    (word / Pow2(14 * i)) % (SampleMask + 1)
  }

  /** Sub-sample i of a 56-bit word is its bit field [14i+13 : 14i]. */
  lemma SubSampleIsConv(word: nat, i: nat)
    ensures SubSample(word, i) == Conv(word, 14 * i + 13, 14 * i)
  {
    assert Pow2(14) == SampleMask + 1;
  }

  // ---------------------------------------------------------------------------
  // Decoded frames
  // ---------------------------------------------------------------------------

  /** Position of [slot][channel][sub] in the row-major [256][12][16] array. */
  function Cell(slot: nat, channel: nat, sub: nat): (k: nat)
    ensures slot < Slots && channel < Channels && sub < SubSamples ==> k < FrameCells
  {
    (slot * 12 + channel) * 16 + sub
  }

  /** Sub-sample x of a row sits x cells after the row's first cell. */
  lemma RowCells(slot: nat, channel: nat)
    ensures forall x: nat {:trigger Cell(slot, channel, x)} :: Cell(slot, channel, x) == Cell(slot, channel, 0) + x
  {
  }

  /** Distinct positions of the [256][12][16] array occupy distinct cells. */
  lemma CellInjective(s: nat, c: nat, x: nat, s': nat, c': nat, x': nat)
    requires c < Channels && x < SubSamples && c' < Channels && x' < SubSamples
    requires Cell(s, c, x) == Cell(s', c', x')
    ensures s == s' && c == c' && x == x'
  {
    DivModUnique(Cell(s, c, x), 16, s * 12 + c, x);
    DivModUnique(Cell(s, c, x), 16, s' * 12 + c', x');
    DivModUnique(s * 12 + c, 12, s, c);
    DivModUnique(s * 12 + c, 12, s', c');
  }

  ghost predicate IsFrame(cells: seq<int>)
  {
    |cells| == FrameCells && forall k :: 0 <= k < |cells| ==> 0 <= cells[k] <= SampleMask
  }

  function ZeroFrame(): (z: seq<int>)
    ensures IsFrame(z)
  {
    seq(FrameCells, _ => 0)
  }

  /**
   * The two slice assignments of one record: the four low sub-samples go to
   * [slot][channel][last*8 .. last*8+4), the four high ones to
   * [slot][channel][last*8+4 .. last*8+8). Every other cell is kept.
   */
  function StoreRecord(cells: seq<int>, r: Record): (c: seq<int>)
    requires |cells| == FrameCells
    requires r.slot < Slots && r.channel < Channels && r.last < 2
    ensures |c| == FrameCells
  {
    var at := Cell(r.slot, r.channel, r.last * 8);
    assert Cell(r.slot, r.channel, r.last * 8 + 7) < FrameCells;
    seq(FrameCells, k requires 0 <= k < FrameCells =>
      if at <= k < at + 4 then SubSample(r.low, k - at)
      else if at + 4 <= k < at + 8 then SubSample(r.high, k - at - 4)
      else cells[k])
  }

  /** StoreRecord puts the four low sub-samples, then the four high ones, in the record's own row. */
  lemma StoreRecordWrites(cells: seq<int>, r: Record, i: nat)
    requires |cells| == FrameCells
    requires r.slot < Slots && r.channel < Channels && r.last < 2 && i < 4
    ensures StoreRecord(cells, r)[Cell(r.slot, r.channel, r.last * 8 + i)] == SubSample(r.low, i)
    ensures StoreRecord(cells, r)[Cell(r.slot, r.channel, r.last * 8 + 4 + i)] == SubSample(r.high, i)
  {
    RowCells(r.slot, r.channel);
  }

  /** StoreRecord keeps every cell outside the eight it writes. */
  lemma StoreRecordKeeps(cells: seq<int>, r: Record, k: nat)
    requires |cells| == FrameCells
    requires r.slot < Slots && r.channel < Channels && r.last < 2 && k < FrameCells
    requires !(Cell(r.slot, r.channel, r.last * 8) <= k < Cell(r.slot, r.channel, r.last * 8) + 8)
    ensures StoreRecord(cells, r)[k] == cells[k]
  {
  }

  /** A frame of 14-bit samples stays one after a record is stored. */
  lemma StoreRecordFrame(cells: seq<int>, r: Record)
    requires |cells| == FrameCells
    requires r.slot < Slots && r.channel < Channels && r.last < 2
    ensures IsFrame(cells) ==> IsFrame(StoreRecord(cells, r))
  {
    if IsFrame(cells) {
      var c := StoreRecord(cells, r);
      var at := Cell(r.slot, r.channel, r.last * 8);
      forall k | 0 <= k < |c|
        ensures 0 <= c[k] <= SampleMask
      {
        RowCells(r.slot, r.channel);
        if k < at || at + 8 <= k {
          StoreRecordKeeps(cells, r, k);
        } else if k < at + 4 {
          StoreRecordWrites(cells, r, k - at);
        } else {
          StoreRecordWrites(cells, r, k - at - 4);
        }
      }
    }
  }

  /** A record changes cells of its own [slot][channel] row only. */
  lemma StoreRecordKeepsOtherRows(cells: seq<int>, r: Record, s: nat, c: nat, x: nat)
    requires |cells| == FrameCells
    requires r.slot < Slots && r.channel < Channels && r.last < 2
    requires s < Slots && c < Channels && x < SubSamples
    requires s != r.slot || c != r.channel
    ensures StoreRecord(cells, r)[Cell(s, c, x)] == cells[Cell(s, c, x)]
  {
    assert s * 12 + c != r.slot * 12 + r.channel;
  }

  datatype DecodeResult =
    | Complete(cells: seq<int>)
      // numpy raised IndexError on the record at `offset`; `cells` holds the records before it
    | IndexError(cells: seq<int>, offset: nat)

  /**
   * The record loop of _acceptFrame from byte offset b on: a record is decoded
   * only while its offset is strictly below |p| - 16.
   */
  function DecodeRecords(p: seq<byte>, cells: seq<int>, b: nat): (r: DecodeResult)
    requires |cells| == FrameCells
    ensures |r.cells| == FrameCells
    ensures IsFrame(cells) ==> IsFrame(r.cells)
    ensures r.IndexError? ==> b <= r.offset < |p| - RecordBytes
    ensures r.IndexError? ==> RecordAt(p, r.offset).slot >= Slots || RecordAt(p, r.offset).channel >= Channels
    decreases |p| - b
  {
    if b >= |p| - RecordBytes then Complete(cells)
    else
      var rec := RecordAt(p, b);
      if rec.slot >= Slots || rec.channel >= Channels then IndexError(cells, b)
      else
        StoreRecordFrame(cells, rec);
        DecodeRecords(p, StoreRecord(cells, rec), b + RecordBytes)
  }

  /** The records of a whole payload, from offset 16 into an all-zero frame: every cell a 14-bit sample. */
  function DecodePayload(p: seq<byte>): (r: DecodeResult)
    ensures IsFrame(r.cells)
    ensures r.IndexError? ==> HeaderBytes <= r.offset < |p| - RecordBytes
    ensures r.IndexError? ==> RecordAt(p, r.offset).slot >= Slots || RecordAt(p, r.offset).channel >= Channels
  {
    DecodeRecords(p, ZeroFrame(), HeaderBytes)
  }

  /** One turn of the record loop: an in-range record is stored and decoding goes on 16 bytes later. */
  lemma DecodeStep(p: seq<byte>, cells: seq<int>, b: nat)
    requires |cells| == FrameCells && b < |p| - RecordBytes
    requires RecordAt(p, b).slot < Slots && RecordAt(p, b).channel < Channels
    ensures DecodeRecords(p, cells, b) == DecodeRecords(p, StoreRecord(cells, RecordAt(p, b)), b + RecordBytes)
  {
  }

  /**
   * A record before the footer whose slot is 256 or more or whose channel is
   * 12 or more stops the loop there, with the cells decoded so far.
   */
  lemma DecodeStopsAt(p: seq<byte>, cells: seq<int>, b: nat)
    requires |cells| == FrameCells && b < |p| - RecordBytes
    requires RecordAt(p, b).slot >= Slots || RecordAt(p, b).channel >= Channels
    ensures DecodeRecords(p, cells, b) == IndexError(cells, b)
  {
  }

  /** Decoding from the footer onwards reads nothing more and leaves the cells as they are. */
  lemma DecodeEnds(p: seq<byte>, cells: seq<int>, b: nat)
    requires |cells| == FrameCells && b >= |p| - RecordBytes
    ensures DecodeRecords(p, cells, b) == Complete(cells)
  {
  }

  /** A payload of 32 bytes or fewer has no record before its footer: the frame stays all zero. */
  lemma ShortPayloadDecodesToZero(p: seq<byte>)
    requires |p| <= HeaderBytes + RecordBytes
    ensures DecodePayload(p) == Complete(ZeroFrame())
  {
  }

  /** The record at offset 16 alone is decoded from a payload of 33 to 48 bytes. */
  lemma SingleRecordPayload(p: seq<byte>)
    requires HeaderBytes + RecordBytes < |p| <= HeaderBytes + 2 * RecordBytes
    ensures var rec := RecordAt(p, HeaderBytes);
            DecodePayload(p) ==
              if rec.slot >= Slots || rec.channel >= Channels then IndexError(ZeroFrame(), HeaderBytes)
              else Complete(StoreRecord(ZeroFrame(), rec))
  {
    var rec := RecordAt(p, HeaderBytes);
    if rec.slot < Slots && rec.channel < Channels {
      assert DecodeRecords(p, StoreRecord(ZeroFrame(), rec), HeaderBytes + RecordBytes)
          == Complete(StoreRecord(ZeroFrame(), rec));
    }
  }

  /**
   * For a payload that is a whole number of 16-byte blocks, the last block (the
   * footer) is never read: payloads that differ only there decode alike.
   */
  lemma {:induction false} FooterIgnored(p: seq<byte>, q: seq<byte>, cells: seq<int>, b: nat)
    requires |cells| == FrameCells
    requires |p| == |q| && |p| % RecordBytes == 0 && b % RecordBytes == 0
    requires |p| >= RecordBytes && p[..|p| - RecordBytes] == q[..|q| - RecordBytes]
    ensures DecodeRecords(p, cells, b) == DecodeRecords(q, cells, b)
    decreases |p| - b
  {
    if b < |p| - RecordBytes {
      NextRecordAligned(b, |p| - RecordBytes);
      SameRecord(p, q, b);
      var rec := RecordAt(p, b);
      if rec.slot < Slots && rec.channel < Channels {
        DecodeStep(p, cells, b);
        DecodeStep(q, cells, b);
        FooterIgnored(p, q, StoreRecord(cells, rec), b + RecordBytes);
      } else {
        DecodeStopsAt(p, cells, b);
        DecodeStopsAt(q, cells, b);
      }
    } else {
      DecodeEnds(p, cells, b);
      DecodeEnds(q, cells, b);
    }
  }

  /** Records 16 bytes apart, from an aligned offset below an aligned end, stay aligned and before the end. */
  lemma NextRecordAligned(b: nat, end: nat)
    requires b % RecordBytes == 0 && end % RecordBytes == 0 && b < end
    ensures b + RecordBytes <= end && (b + RecordBytes) % RecordBytes == 0
  {
  }

  /** Two payloads that agree on a record's 16 bytes hold the same record there. */
  lemma SameRecord(p: seq<byte>, q: seq<byte>, b: nat)
    requires b + RecordBytes <= |p| - RecordBytes && |p| == |q|
    requires p[..|p| - RecordBytes] == q[..|q| - RecordBytes]
    ensures RecordAt(p, b) == RecordAt(q, b)
  {
    assert p[b..b + 2] == q[b..b + 2];
    assert p[b + 2..b + 9] == q[b + 2..b + 9];
    assert p[b + 9..b + 16] == q[b + 9..b + 16];
  }

  /** A record decoded at offset b, in range, fully fits the payload; it is a "covering" record for cell k. */
  ghost predicate Covers(p: seq<byte>, b: nat, k: nat)
  {
    b + RecordBytes <= |p| &&
    var rec := RecordAt(p, b);
    rec.slot < Slots && rec.channel < Channels &&
    Cell(rec.slot, rec.channel, rec.last * 8) <= k < Cell(rec.slot, rec.channel, rec.last * 8) + 8
  }

  /** Offset of the j-th record from offset b on. */
  function RecordOffset(b: nat, j: nat): nat
  {
    b + 16 * j
  }

  /**
   * A cell that no record from offset b on covers keeps its value: in a decoded
   * frame every cell not named by a record stays zero.
   */
  lemma {:induction false} UncoveredCellKept(p: seq<byte>, cells: seq<int>, b: nat, k: nat)
    requires |cells| == FrameCells && k < FrameCells
    requires forall j: nat :: RecordOffset(b, j) < |p| - RecordBytes ==> !Covers(p, RecordOffset(b, j), k)
    ensures DecodeRecords(p, cells, b).cells[k] == cells[k]
    decreases |p| - b
  {
    if b < |p| - RecordBytes {
      var rec := RecordAt(p, b);
      if rec.slot < Slots && rec.channel < Channels {
        assert RecordOffset(b, 0) == b;
        assert !Covers(p, b, k);
        var next := b + RecordBytes;
        forall j: nat | RecordOffset(next, j) < |p| - RecordBytes
          ensures !Covers(p, RecordOffset(next, j), k)
        {
          assert RecordOffset(next, j) == RecordOffset(b, j + 1);
        }
        UncoveredCellKept(p, StoreRecord(cells, rec), b + RecordBytes, k);
      }
    }
  }

  /** What a record writes into a cell of its own eight: a low sub-sample, then a high one. */
  function RecordSample(rec: Record, k: nat): int
    requires rec.slot < Slots && rec.channel < Channels && rec.last < 2
    requires Cell(rec.slot, rec.channel, rec.last * 8) <= k < Cell(rec.slot, rec.channel, rec.last * 8) + 8
  {
    var at := Cell(rec.slot, rec.channel, rec.last * 8);
    if k < at + 4 then SubSample(rec.low, k - at) else SubSample(rec.high, k - at - 4)
  }

  /**
   * The record loop from offset b gets to the record at offset o: o is b plus
   * a whole number of records, and every record before it lies before the
   * footer and is in range.
   */
  ghost predicate Reaches(p: seq<byte>, b: nat, o: nat)
    decreases o - b
  {
    b == o ||
    (b < o && b < |p| - RecordBytes && RecordAt(p, b).slot < Slots && RecordAt(p, b).channel < Channels &&
     Reaches(p, b + RecordBytes, o))
  }

  /** No record from offset b up to the footer covers cell k. */
  ghost predicate NotCoveredFrom(p: seq<byte>, b: nat, k: nat)
    decreases |p| - b
  {
    b >= |p| - RecordBytes || (!Covers(p, b, k) && NotCoveredFrom(p, b + RecordBytes, k))
  }

  /**
   * The last record to cover a cell decides it: if decoding from offset b
   * reaches the record at offset o, that record covers cell k, and no later
   * record before the footer covers k, then the decoded cell holds that
   * record's sub-sample, whether decoding completes or stops later.
   */
  lemma {:induction false} CoveredCellDecoded(p: seq<byte>, cells: seq<int>, b: nat, o: nat, k: nat)
    requires |cells| == FrameCells && k < FrameCells
    requires Reaches(p, b, o)
    requires o < |p| - RecordBytes && Covers(p, o, k) && NotCoveredFrom(p, o + RecordBytes, k)
    ensures DecodeRecords(p, cells, b).cells[k] == RecordSample(RecordAt(p, o), k)
    decreases o - b
  {
    if b == o {
      LastCoverDecides(p, cells, b, k);
    } else {
      var rec := RecordAt(p, b);
      DecodeStep(p, cells, b);
      CoveredCellDecoded(p, StoreRecord(cells, rec), b + RecordBytes, o, k);
    }
  }

  /** A record that covers cell k, with no later record before the footer covering it, decides the cell. */
  lemma LastCoverDecides(p: seq<byte>, cells: seq<int>, b: nat, k: nat)
    requires |cells| == FrameCells && k < FrameCells
    requires b < |p| - RecordBytes && Covers(p, b, k)
    requires NotCoveredFrom(p, b + RecordBytes, k)
    ensures DecodeRecords(p, cells, b).cells[k] == RecordSample(RecordAt(p, b), k)
  {
    var rec := RecordAt(p, b);
    DecodeStep(p, cells, b);
    StoredSample(cells, rec, k);
    NotCoveredKept(p, StoreRecord(cells, rec), b + RecordBytes, k);
  }

  /** A cell that no record from offset b on covers keeps its value. */
  lemma {:induction false} NotCoveredKept(p: seq<byte>, cells: seq<int>, b: nat, k: nat)
    requires |cells| == FrameCells && k < FrameCells
    requires NotCoveredFrom(p, b, k)
    ensures DecodeRecords(p, cells, b).cells[k] == cells[k]
    decreases |p| - b
  {
    if b < |p| - RecordBytes {
      var rec := RecordAt(p, b);
      if rec.slot < Slots && rec.channel < Channels {
        DecodeStep(p, cells, b);
        StoreRecordKeeps(cells, rec, k);
        NotCoveredKept(p, StoreRecord(cells, rec), b + RecordBytes, k);
      } else {
        DecodeStopsAt(p, cells, b);
      }
    } else {
      DecodeEnds(p, cells, b);
    }
  }

  /** StoreRecord puts the record's sub-sample into each of its eight cells. */
  lemma StoredSample(cells: seq<int>, rec: Record, k: nat)
    requires |cells| == FrameCells
    requires rec.slot < Slots && rec.channel < Channels && rec.last < 2
    requires Cell(rec.slot, rec.channel, rec.last * 8) <= k < Cell(rec.slot, rec.channel, rec.last * 8) + 8
    ensures StoreRecord(cells, rec)[k] == RecordSample(rec, k)
  {
    var at := Cell(rec.slot, rec.channel, rec.last * 8);
    RowCells(rec.slot, rec.channel);
    if k < at + 4 {
      StoreRecordWrites(cells, rec, k - at);
    } else {
      StoreRecordWrites(cells, rec, k - at - 4);
    }
  }

  /**
   * In a decoded payload, a cell covered by a record that decoding reaches,
   * and by no later record before the footer, holds that record's sub-sample.
   */
  lemma PayloadCellDecoded(p: seq<byte>, o: nat, k: nat)
    requires k < FrameCells && Reaches(p, HeaderBytes, o)
    requires o < |p| - RecordBytes && Covers(p, o, k) && NotCoveredFrom(p, o + RecordBytes, k)
    ensures DecodePayload(p).cells[k] == RecordSample(RecordAt(p, o), k)
  {
    CoveredCellDecoded(p, ZeroFrame(), HeaderBytes, o, k);
  }

  // ---------------------------------------------------------------------------
  // Query helpers
  // ---------------------------------------------------------------------------

  /** Python/numpy indexing of an axis of length n: negative indices count from the end. */
  function PyIndex(i: int, n: nat): (r: Option<nat>)
    ensures r.Some? <==> -(n as int) <= i < n
    ensures r.Some? ==> r.value < n && (r.value == i || r.value == i + n)
  {
    if 0 <= i < n then Some(i) else if -(n as int) <= i < 0 then Some(i + n) else None
  }

  /** Concatenation of a sequence of sequences, as a nested comprehension yields them. */
  function Flatten<T>(rows: seq<seq<T>>): seq<T>
  {
    if rows == [] then [] else rows[0] + Flatten(rows[1..])
  }

  lemma {:induction false} FlattenLength<T>(rows: seq<seq<T>>, m: nat)
    requires forall i :: 0 <= i < |rows| ==> |rows[i]| == m
    ensures |Flatten(rows)| == |rows| * m
  {
    if rows != [] {
      FlattenLength(rows[1..], m);
      assert |rows| * m == m + (|rows| - 1) * m;
    }
  }
  lemma {:induction false} FlattenAt<T>(rows: seq<seq<T>>, m: nat, i: nat, j: nat)
    requires forall k :: 0 <= k < |rows| ==> |rows[k]| == m
    requires i < |rows| && j < m
    ensures i * m + j < |Flatten(rows)| && Flatten(rows)[i * m + j] == rows[i][j]
  {
    FlattenLength(rows, m);
    if i > 0 {
      FlattenAt(rows[1..], m, i - 1, j);
      assert i * m + j == m + ((i - 1) * m + j);
    }
  }

  /** Position i of a flattened sequence of rows of length m is element i % m of row i / m. */
  lemma {:induction false} FlattenIndex<T>(rows: seq<seq<T>>, m: nat)
    requires m > 0 && forall i :: 0 <= i < |rows| ==> |rows[i]| == m
    ensures |Flatten(rows)| == |rows| * m
    ensures forall i :: 0 <= i < |Flatten(rows)| ==>
              i / m < |rows| && i % m < m && Flatten(rows)[i] == rows[i / m][i % m]
  {
    FlattenLength(rows, m);
    forall i | 0 <= i < |Flatten(rows)|
      ensures i / m < |rows| && i % m < m && Flatten(rows)[i] == rows[i / m][i % m]
    {
      var q, r := SplitIndex(i, |rows|, m);
      FlattenAt(rows, m, q, r);
      assert i == q * m + r;
      assert Flatten(rows)[q * m + r] == rows[q][r];
    }
  }

  lemma {:induction false} SplitIndex(i: nat, n: nat, m: nat) returns (q: nat, r: nat)
    requires m > 0 && i < n * m
    ensures q == i / m && r == i % m && q < n && r < m && i == q * m + r
  {
    q, r := i / m, i % m;
    assert q * m <= i;
    assert (n - q) * m == n * m - q * m;
    assert (n - q) * m > 0;
  }

  /** Flattening n copies of one row of length m: position i is element i % m of the row. */
  lemma RepeatedRowsIndex<T>(rows: seq<seq<T>>, m: nat, row: seq<T>)
    requires m > 0 && |row| == m && forall i :: 0 <= i < |rows| ==> rows[i] == row
    ensures |Flatten(rows)| == |rows| * m
    ensures forall i :: 0 <= i < |Flatten(rows)| ==> Flatten(rows)[i] == row[i % m]
  {
    FlattenIndex(rows, m);
  }

  // ---------------------------------------------------------------------------
  // AcquisitionControl._count
  // ---------------------------------------------------------------------------

  function Sum(s: seq<int>): int
  {
    if s == [] then 0 else s[0] + Sum(s[1..])
  }

  lemma {:induction false} SumSnoc(s: seq<int>, x: int)
    ensures Sum(s + [x]) == Sum(s) + x
  {
    if s != [] {
      assert (s + [x])[1..] == s[1..] + [x];
      SumSnoc(s[1..], x);
    }
  }

  /** _count(vars): 2 plus the current values of the variables, accumulated in order. */
  method Count(values: seq<int>) returns (count: int)
    ensures count == 2 + Sum(values)
  {
    count := 2;
    for i := 0 to |values|
      invariant count == 2 + Sum(values[..i])
    {
      SumSnoc(values[..i], values[i]);
      assert values[..i + 1] == values[..i] + [values[i]];
      count := count + values[i];
    }
    assert values[..|values|] == values;
  }

  /**
   * The record loop of _acceptFrame: a new zeroed [256][12][16] array, then
   * each record from offset 16 on written in place until 16 bytes before the
   * end of the payload, or until a record's slot or channel is out of range.
   */
  method DecodeInto(p: seq<byte>) returns (cells: seq<int>, outcome: Outcome)
    ensures cells == DecodePayload(p).cells
    ensures outcome == if DecodePayload(p).Complete? then Stored else RecordIndexError(DecodePayload(p).offset)
  {
    var a := new int[FrameCells](_ => 0);
    assert a[..] == ZeroFrame();
    var lastByte := |p| - RecordBytes;
    var byte := HeaderBytes;
    outcome := Stored;
    while byte < lastByte
      invariant HeaderBytes <= byte && outcome == Stored
      invariant DecodeRecords(p, a[..], byte) == DecodePayload(p)
      decreases lastByte - byte
    {
      var rec := RecordAt(p, byte);
      if rec.slot >= Slots || rec.channel >= Channels {
        DecodeStopsAt(p, a[..], byte);
        outcome := RecordIndexError(byte);
        break;
      }
      ghost var cells := a[..];
      DecodeStep(p, cells, byte);
      WriteRecord(a, rec);
      assert a[..] == StoreRecord(cells, rec);
      byte := byte + RecordBytes;
    }
    cells := a[..];
  }

  // ---------------------------------------------------------------------------
  // CoulterFrameParser
  // ---------------------------------------------------------------------------

  /** A frame as the stream delivers it: transport error indicator, flag word and payload bytes. */
  datatype RawFrame = RawFrame(error: bool, flags: nat, payload: seq<byte>)

  datatype Outcome =
    | FrameError                      // getError() was set: nothing stored
    | TextFrame(channel: nat)         // flags >> 24 was non-zero: printed as text, nothing stored
    | Stored                          // a decoded frame was appended
    | RecordIndexError(offset: nat)   // appended, then numpy raised IndexError at this record

  /** The channel number of the flag word: flags >> 24. */
  function FlagChannel(flags: nat): (ch: nat)
    ensures ch * 0x100_0000 <= flags < (ch + 1) * 0x100_0000
    ensures flags < 0x1_0000_0000 ==> ch < 0x100
  {
    flags / 0x100_0000
  }

  /** Writes one record into the frame array in place (the two numpy slice assignments). */
  method WriteRecord(a: array<int>, r: Record)
    requires a.Length == FrameCells
    requires r.slot < Slots && r.channel < Channels && r.last < 2
    modifies a
    ensures a[..] == StoreRecord(old(a[..]), r)
  {
    ghost var cells := a[..];
    var at := Cell(r.slot, r.channel, r.last * 8);
    assert Cell(r.slot, r.channel, r.last * 8 + 7) < FrameCells;
    forall i | 0 <= i < 4 {
      a[at + i] := SubSample(r.low, i);
    }
    forall i | 0 <= i < 4 {
      a[at + 4 + i] := SubSample(r.high, i);
    }
    StoredAsWritten(cells, a[..], r);
  }

  /** A frame that agrees with `cells` but for the record's eight cells, which hold its sub-samples, is StoreRecord's. */
  lemma StoredAsWritten(cells: seq<int>, after: seq<int>, r: Record)
    requires |cells| == FrameCells && |after| == FrameCells
    requires r.slot < Slots && r.channel < Channels && r.last < 2
    requires var at := Cell(r.slot, r.channel, r.last * 8);
             forall k :: 0 <= k < FrameCells && !(at <= k < at + 8) ==> after[k] == cells[k]
    requires var at := Cell(r.slot, r.channel, r.last * 8);
             forall i :: 0 <= i < 4 ==> after[at + i] == SubSample(r.low, i) && after[at + 4 + i] == SubSample(r.high, i)
    ensures after == StoreRecord(cells, r)
  {
    var at := Cell(r.slot, r.channel, r.last * 8);
    RowCells(r.slot, r.channel);
    forall k | 0 <= k < FrameCells
      ensures after[k] == StoreRecord(cells, r)[k]
    {
      if k < at || at + 8 <= k {
        StoreRecordKeeps(cells, r, k);
      } else if k < at + 4 {
        StoreRecordWrites(cells, r, k - at);
      } else {
        StoreRecordWrites(cells, r, k - at - 4);
      }
    }
  }

  /** frame[slot][channel]: the 16 sub-samples of one row of a decoded frame. */
  function Row(frame: seq<int>, slot: nat, channel: nat): (row: seq<int>)
    requires |frame| == FrameCells && slot < Slots && channel < Channels
    ensures |row| == SubSamples
    ensures forall x :: 0 <= x < SubSamples ==> row[x] == frame[Cell(slot, channel, x)]
  {
    frame[Cell(slot, channel, 0)..Cell(slot, channel, 0) + 16]
  }

  /** frame[slot]: the [12][16] slab of one slot of a decoded frame, row-major. */
  function Slab(frame: seq<int>, slot: nat): (s: seq<int>)
    requires |frame| == FrameCells && slot < Slots
    ensures |s| == Channels * SubSamples
    ensures forall c, x :: 0 <= c < Channels && 0 <= x < SubSamples ==> s[c * 16 + x] == frame[Cell(slot, c, x)]
  {
    frame[Cell(slot, 0, 0)..Cell(slot, 0, 0) + 192]
  }

  ghost predicate AllFrames(frames: seq<seq<int>>)
  {
    forall k :: 0 <= k < |frames| ==> |frames[k]| == FrameCells
  }

  /** [frame[:][s][c] for slot in range(256) for frame in frames]: row [s][c] of each frame, 256 times over. */
  function PixelDataOf(frames: seq<seq<int>>, s: nat, c: nat): (r: seq<seq<int>>)
    requires AllFrames(frames) && s < Slots && c < Channels
    ensures |r| == Slots * |frames|
    ensures forall i :: 0 <= i < |r| ==> r[i] == Row(frames[i % |frames|], s, c)
  {
    if |frames| == 0 then []
    else
      var row := seq(|frames|, k requires 0 <= k < |frames| => Row(frames[k], s, c));
      var rows := seq(Slots, _ => row);
      RepeatedRowsIndex(rows, |frames|, row);
      Flatten(rows)
  }

  /** [frame[:][s][:] for frame in frames for mck in range(16)]: each frame's slab [s], 16 times in a row. */
  function SlabPerMck(frames: seq<seq<int>>, s: nat): (r: seq<seq<int>>)
    requires AllFrames(frames) && s < Slots
    ensures |r| == |frames| * SubSamples
    ensures forall j :: 0 <= j < |r| ==> j / SubSamples < |frames| && r[j] == Slab(frames[j / SubSamples], s)
  {
    var blocks := seq(|frames|, k requires 0 <= k < |frames| => seq(SubSamples, _ => Slab(frames[k], s)));
    FlattenIndex(blocks, SubSamples);
    Flatten(blocks)
  }

  /** [frame[:][s][:] for slot in range(256) for frame in frames for mck in range(16)] */
  function AdcDataOf(frames: seq<seq<int>>, s: nat): (r: seq<seq<int>>)
    requires AllFrames(frames) && s < Slots
    ensures |r| == Slots * (|frames| * SubSamples)
    ensures forall i :: 0 <= i < |r| ==>
              i % (|frames| * SubSamples) / SubSamples < |frames| &&
              r[i] == Slab(frames[i % (|frames| * SubSamples) / SubSamples], s)
  {
    if |frames| == 0 then []
    else
      var inner := SlabPerMck(frames, s);
      var rows := seq(Slots, _ => inner);
      RepeatedRowsIndex(rows, |frames| * SubSamples, inner);
      Flatten(rows)
  }

  /** [frame[slot][channel][sub] for frame in frames] */
  function CellAcrossFrames(frames: seq<seq<int>>, slot: nat, channel: nat, sub: nat): (r: seq<int>)
    requires AllFrames(frames) && slot < Slots && channel < Channels && sub < SubSamples
    ensures |r| == |frames|
    ensures forall k :: 0 <= k < |r| ==> r[k] == frames[k][Cell(slot, channel, sub)]
  {
    seq(|frames|, k requires 0 <= k < |frames| => frames[k][Cell(slot, channel, sub)])
  }

  /** [frame[slot][channel][sub] for slot in range(256) for frame in frames] */
  function PixelSeriesOf(frames: seq<seq<int>>, channel: nat, sub: nat): (r: seq<int>)
    requires AllFrames(frames) && channel < Channels && sub < SubSamples
    ensures |r| == Slots * |frames|
    ensures forall i :: 0 <= i < |r| ==>
              i / |frames| < Slots && r[i] == frames[i % |frames|][Cell(i / |frames|, channel, sub)]
  {
    if |frames| == 0 then []
    else
      var rows := seq(Slots, slot requires 0 <= slot < Slots => CellAcrossFrames(frames, slot, channel, sub));
      FlattenIndex(rows, |frames|);
      Flatten(rows)
  }

  /** [frame[slot][channel][mck] for frame in frames for mck in range(16)] */
  function RowAcrossFrames(frames: seq<seq<int>>, slot: nat, channel: nat): (r: seq<int>)
    requires AllFrames(frames) && slot < Slots && channel < Channels
    ensures |r| == |frames| * SubSamples
    ensures forall j :: 0 <= j < |r| ==>
              j / SubSamples < |frames| && r[j] == frames[j / SubSamples][Cell(slot, channel, j % SubSamples)]
  {
    var rows := seq(|frames|, k requires 0 <= k < |frames| => Row(frames[k], slot, channel));
    FlattenIndex(rows, SubSamples);
    Flatten(rows)
  }

  /** [frame[slot][channel][mck] for slot in range(256) for frame in frames for mck in range(16)] */
  function ChannelSeriesOf(frames: seq<seq<int>>, channel: nat): (r: seq<int>)
    requires AllFrames(frames) && channel < Channels
    ensures |r| == Slots * (|frames| * SubSamples)
    ensures forall i :: 0 <= i < |r| ==>
              var j := i % (|frames| * SubSamples);
              i / (|frames| * SubSamples) < Slots && j / SubSamples < |frames| &&
              r[i] == frames[j / SubSamples][Cell(i / (|frames| * SubSamples), channel, j % SubSamples)]
  {
    if |frames| == 0 then []
    else
      var rows := seq(Slots, slot requires 0 <= slot < Slots => RowAcrossFrames(frames, slot, channel));
      FlattenIndex(rows, |frames| * SubSamples);
      Flatten(rows)
  }

  class FrameParser {
    /** The decoded frames, in arrival order of data frames. */
    var d: seq<seq<int>>

    ghost predicate Valid()
      reads this
    {
      forall k :: 0 <= k < |d| ==> IsFrame(d[k])
    }

    constructor ()
      ensures Valid() && d == []
    {
      d := [];
    }

    /**
     * _acceptFrame: drop error and text frames; otherwise decode the payload
     * into a new zeroed frame and append it to d. Frames already in d are
     * never touched.
     */
    method AcceptFrame(frame: RawFrame) returns (outcome: Outcome)
      requires Valid()
      modifies this
      ensures Valid()
      ensures frame.error ==> outcome == FrameError && d == old(d)
      ensures !frame.error && FlagChannel(frame.flags) != 0 ==>
                outcome == TextFrame(FlagChannel(frame.flags)) && d == old(d)
      ensures !frame.error && FlagChannel(frame.flags) == 0 ==>
                var r := DecodePayload(frame.payload);
                d == old(d) + [r.cells] &&
                outcome == (if r.Complete? then Stored else RecordIndexError(r.offset))
    {
      if frame.error {
        return FrameError;
      }
      var p := frame.payload;
      var chNum := FlagChannel(frame.flags);
      if chNum != 0 {
        return TextFrame(chNum);
      }
      var cells;
      cells, outcome := DecodeInto(p);
      d := d + [cells];
    }

    /**
     * pixelData((adc, mck)) as written: frame[:][adc][mck] indexes the SLOT axis
     * with adc and the channel axis with mck, so each entry is a 16-sample row,
     * the same row for every value of the comprehension's slot. None is numpy's
     * IndexError, raised only when there is a frame to index.
     */
    function PixelData(adc: int, mck: int): (r: Option<seq<seq<int>>>)
      reads this
      requires Valid()
      ensures r.None? <==> |d| > 0 && (PyIndex(adc, Slots).None? || PyIndex(mck, Channels).None?)
      ensures r.Some? ==> |r.value| == Slots * |d|
      ensures r.Some? && |d| > 0 ==> forall i :: 0 <= i < |r.value| ==>
                r.value[i] == Row(d[i % |d|], PyIndex(adc, Slots).value, PyIndex(mck, Channels).value)
    {
      if |d| == 0 then Some([])
      else match (PyIndex(adc, Slots), PyIndex(mck, Channels))
        case (Some(s), Some(c)) => Some(PixelDataOf(d, s, c))
        case _ => None
    }

    /**
     * adcData(adcCh) as written: frame[:][adcCh][:] is the whole [12][16] slab
     * of SLOT adcCh, repeated for every slot and every mck of the comprehension.
     */
    function AdcData(adcCh: int): (r: Option<seq<seq<int>>>)
      reads this
      requires Valid()
      ensures r.None? <==> |d| > 0 && PyIndex(adcCh, Slots).None?
      ensures r.Some? ==> |r.value| == Slots * (|d| * SubSamples)
      ensures r.Some? && |d| > 0 ==> forall i :: 0 <= i < |r.value| ==>
                i % (|d| * SubSamples) / SubSamples < |d| &&
                r.value[i] == Slab(d[i % (|d| * SubSamples) / SubSamples], PyIndex(adcCh, Slots).value)
    {
      if |d| == 0 then Some([])
      else match PyIndex(adcCh, Slots)
        case Some(s) => Some(AdcDataOf(d, s))
        case None => None
    }

    /**
     * The per-pixel series pixelData evidently means: frame[slot][channel][sub]
     * for every slot and, within a slot, every frame in arrival order.
     */
    function PixelSeries(channel: nat, sub: nat): (r: seq<int>)
      reads this
      requires Valid() && channel < Channels && sub < SubSamples
      ensures |r| == Slots * |d|
      ensures forall i :: 0 <= i < |r| ==> i / |d| < Slots && r[i] == d[i % |d|][Cell(i / |d|, channel, sub)]
      ensures forall i :: 0 <= i < |r| ==> 0 <= r[i] <= SampleMask
    {
      PixelSeriesOf(d, channel, sub)
    }

    /**
     * The per-channel series adcData evidently means: frame[slot][channel][mck]
     * for every slot, frame and mck, in the comprehension's order.
     */
    function ChannelSeries(channel: nat): (r: seq<int>)
      reads this
      requires Valid() && channel < Channels
    {
      ChannelSeriesOf(d, channel)
    }
  }

  /**
   * The discrepancy of pixelData as written. With one stored frame whose only
   * non-zero cell is [1][0][0] = 7, entry 1 of pixel (0, 0) (slot 1, frame 0)
   * is the all-zero row [0][0] instead of the value 7 the per-pixel series
   * holds there; and pixel (0, 13) raises, although sub-sample 13 exists.
   */
  lemma PixelDataIgnoresSlot(parser: FrameParser)
    requires parser.Valid() && |parser.d| == 1
    requires parser.d[0] == ZeroFrame()[Cell(1, 0, 0) := 7]
    ensures parser.PixelData(0, 0).Some? && |parser.PixelData(0, 0).value| > 1
    ensures parser.PixelData(0, 0).value[1] == seq(SubSamples, _ => 0)
    ensures parser.PixelSeries(0, 0)[1] == 7
    ensures parser.PixelData(0, 13).None?
  {
    var frame := parser.d[0];
    var r := parser.PixelData(0, 0).value;
    assert r[1] == Row(frame, 0, 0);
    forall x | 0 <= x < SubSamples ensures Row(frame, 0, 0)[x] == 0 {
      assert Cell(0, 0, x) != Cell(1, 0, 0);
    }
    assert parser.PixelSeries(0, 0)[1] == frame[Cell(1, 0, 0)];
  }

  /**
   * The discrepancy of adcData as written. With the same single frame, entry
   * 16 of channel 0 (slot 1, frame 0, mck 0) is the whole all-zero slab of
   * slot 0 instead of the value 7 the per-channel series holds there.
   */
  lemma AdcDataIgnoresSlot(parser: FrameParser)
    requires parser.Valid() && |parser.d| == 1
    requires parser.d[0] == ZeroFrame()[Cell(1, 0, 0) := 7]
    ensures parser.AdcData(0).Some? && |parser.AdcData(0).value| > 16
    ensures parser.AdcData(0).value[16] == seq(Channels * SubSamples, _ => 0)
    ensures parser.ChannelSeries(0)[16] == 7
  {
    var frame := parser.d[0];
    var r := parser.AdcData(0).value;
    assert r[16] == Slab(frame, 0);
    forall j | 0 <= j < Channels * SubSamples ensures Slab(frame, 0)[j] == 0 {
      assert Slab(frame, 0)[j] == frame[Cell(0, 0, j)];
    }
    assert parser.ChannelSeries(0)[16] == frame[Cell(1, 0, 0)];
  }
}
