/**
 * Two command functions of the ePix FPGA devices, as the register accesses
 * they issue in order.
 *
 * TuneSerialDelay loads a 354 x 384 pixel configuration matrix into the ASIC:
 * after the R0 mode bit is set, and only when the ASIC is enabled, the file is
 * a .csv file and the matrix has the expected shape, it writes a header pair,
 * then for every pixel its row, its column address and its value, then a
 * closing write. The column address of pixel column y is the base of its
 * 96-column bank plus the column within the bank.
 *
 * The high-speed DAC ramp steps the 16-bit DacValue through every value, with
 * one trigger after each.
 */
module EpixFpga {

  // ---------------------------------------------------------------------------
  // Column addresses
  // ---------------------------------------------------------------------------

  const Rows: nat := 354
  const Cols: nat := 384
  const BankWidth: nat := 96

  /** Column address base of banks 0 to 3. */
  const BankBase: seq<int> := [0x700, 0x680, 0x580, 0x380]

  // The same Option as Coulter's, declared here so that this module imports nothing.
  datatype Option<T> = None | Some(value: T)

  /**
   * The column address of pixel column y: bank int(y / 96), base of the bank
   * plus y % 96; a bank past 3 has no address (the 'unexpected bank' branch).
   */
  function Column(y: nat): (c: Option<int>)
    ensures c.Some? <==> y < Cols
    ensures c.Some? ==> ColumnIndex(c.value) == Some(y)
  {
    var bank := y / BankWidth;
    if bank == 0 then Some(0x700 + y % BankWidth)
    else if bank == 1 then Some(0x680 + y % BankWidth)
    else if bank == 2 then Some(0x580 + y % BankWidth)
    else if bank == 3 then Some(0x380 + y % BankWidth)
    else None
  }

  /** Every column of the matrix has an address: bank y / 96 is one of 0 to 3. */
  lemma ColumnInBank(y: nat)
    requires y < Cols
    ensures y / BankWidth < 4
    ensures Column(y) == Some(BankBase[y / BankWidth] + y % BankWidth)
  {
  }

  /** The pixel column that a column address stands for, if any. */
  function ColumnIndex(col: int): (y: Option<nat>)
    ensures y.Some? ==> y.value < Cols
  {
    if 0x700 <= col < 0x700 + BankWidth then Some(col - 0x700)
    else if 0x680 <= col < 0x680 + BankWidth then Some(BankWidth + col - 0x680)
    else if 0x580 <= col < 0x580 + BankWidth then Some(2 * BankWidth + col - 0x580)
    else if 0x380 <= col < 0x380 + BankWidth then Some(3 * BankWidth + col - 0x380)
    else None
  }

  /** Every address that names a column is the address of that column. */
  lemma ColumnIndexRoundTrip(col: int)
    requires ColumnIndex(col).Some?
    ensures Column(ColumnIndex(col).value) == Some(col)
  {
  }

  /** The four banks' address ranges are disjoint, so no two columns share an address. */
  lemma ColumnInjective(y: nat, y': nat)
    requires y < Cols && y' < Cols && Column(y) == Column(y')
    ensures y == y'
  {
  }

  // ---------------------------------------------------------------------------
  // The pixel matrix writer
  // ---------------------------------------------------------------------------

  const AddrSize: int := 4

  /** The register accesses of the command, in order. */
  datatype Access =
    | SetAsicR0Mode(on: bool)
    | RawWrite(offset: int, value: int)

  /** Python's int() of a float: toward zero. */
  function Trunc(r: real): (n: int)
    ensures r >= 0.0 ==> n as real <= r < n as real + 1.0
    ensures r < 0.0 ==> n as real - 1.0 < r <= n as real
  {
    if r >= 0.0 then r.Floor else -((-r).Floor)
  }

  /** matrixCfg.shape == (354, 384) */
  predicate HasShape(m: seq<seq<real>>)
  {
    |m| == Rows && forall x :: 0 <= x < |m| ==> |m[x]| == Cols
  }

  /** The three writes for pixel (x, y): its row, its column address, its value. */
  function PixelWrites(m: seq<seq<real>>, x: nat, y: nat): (w: seq<Access>)
    requires HasShape(m) && x < Rows && y < Cols
    ensures |w| == 3 && w[0] == RawWrite(0x6011 * AddrSize, x) && w[2] == RawWrite(0x5000 * AddrSize, Trunc(m[x][y]))
    ensures w[1].RawWrite? && w[1].offset == 0x6013 * AddrSize && ColumnIndex(w[1].value) == Some(y)
  {
    ColumnInBank(y);
    [RawWrite(0x6011 * AddrSize, x),
     RawWrite(0x6013 * AddrSize, Column(y).value),
     RawWrite(0x5000 * AddrSize, Trunc(m[x][y]))]
  }

  /** The writes for the first y pixels of row x. */
  function RowWrites(m: seq<seq<real>>, x: nat, y: nat): seq<Access>
    requires HasShape(m) && x < Rows && y <= Cols
  {
    if y == 0 then [] else RowWrites(m, x, y - 1) + PixelWrites(m, x, y - 1)
  }

  /** The writes for the first x rows. */
  function MatrixWrites(m: seq<seq<real>>, x: nat): seq<Access>
    requires HasShape(m) && x <= Rows
  {
    if x == 0 then [] else MatrixWrites(m, x - 1) + RowWrites(m, x - 1, Cols)
  }

  const Opening: seq<Access> := [RawWrite(0, 0), RawWrite(0x8000 * AddrSize, 0)]
  const Closing: seq<Access> := [RawWrite(0, 0)]

  /**
   * The accesses of TuneSerialDelay: the R0 mode bit is set first, whatever
   * follows; the matrix is written only when the ASIC is enabled, the file has
   * the .csv extension and the matrix has the right shape.
   */
  function SerDelayTrace(enable: bool, isCsv: bool, m: seq<seq<real>>): (t: seq<Access>)
    ensures |t| >= 1 && t[0] == SetAsicR0Mode(true)
    ensures !(enable && isCsv && HasShape(m)) ==> t == [SetAsicR0Mode(true)]
    ensures enable && isCsv && HasShape(m) ==>
              |t| >= 4 && t[1] == RawWrite(0, 0) && t[2] == RawWrite(0x8000 * AddrSize, 0) &&
              t[|t| - 1] == RawWrite(0, 0)
  {
    [SetAsicR0Mode(true)] +
    if enable && isCsv && HasShape(m) then Opening + MatrixWrites(m, Rows) + Closing else []
  }

  lemma {:induction false} RowWritesLength(m: seq<seq<real>>, x: nat, y: nat)
    requires HasShape(m) && x < Rows && y <= Cols
    ensures |RowWrites(m, x, y)| == 3 * y
  {
    if y > 0 {
      RowWritesLength(m, x, y - 1);
    }
  }

  lemma {:induction false} MatrixWritesLength(m: seq<seq<real>>, x: nat)
    requires HasShape(m) && x <= Rows
    ensures |MatrixWrites(m, x)| == 3 * Cols * x
  {
    if x > 0 {
      MatrixWritesLength(m, x - 1);
      RowWritesLength(m, x - 1, Cols);
    }
  }

  /** Within a row, pixel y's three writes come at 3y, 3y+1, 3y+2. */
  lemma {:induction false} RowWritesAt(m: seq<seq<real>>, x: nat, n: nat, y: nat, j: nat)
    requires HasShape(m) && x < Rows && y < n <= Cols && j < 3
    ensures |RowWrites(m, x, n)| == 3 * n
    ensures RowWrites(m, x, n)[3 * y + j] == PixelWrites(m, x, y)[j]
  {
    RowWritesLength(m, x, n);
    RowWritesLength(m, x, n - 1);
    if y < n - 1 {
      RowWritesAt(m, x, n - 1, y, j);
    }
  }

  /** Pixel (x, y)'s three writes come at 3(384x + y), in row-major order. */
  lemma {:induction false} MatrixWritesAt(m: seq<seq<real>>, n: nat, x: nat, y: nat, j: nat)
    requires HasShape(m) && x < n <= Rows && y < Cols && j < 3
    ensures |MatrixWrites(m, n)| == 3 * Cols * n
    ensures MatrixWrites(m, n)[3 * (Cols * x + y) + j] == PixelWrites(m, x, y)[j]
  {
    MatrixWritesLength(m, n);
    MatrixWritesLength(m, n - 1);
    if x < n - 1 {
      assert 3 * (Cols * x + y) + j < 3 * Cols * (n - 1);
      MatrixWritesAt(m, n - 1, x, y, j);
    } else {
      assert 3 * (Cols * x + y) + j == |MatrixWrites(m, n - 1)| + (3 * y + j);
      RowWritesAt(m, x, Cols, y, j);
    }
  }

  /**
   * Without an enabled ASIC, a .csv file and a 354 x 384 matrix, the command
   * only sets the R0 mode bit; otherwise it issues 3 + 3 * 354 * 384 writes
   * after it, with pixel (x, y) written as row x, column address Column(y),
   * value int(m[x][y]), from position 3 + 3(384x + y).
   */
  lemma SerDelayTraceShape(enable: bool, isCsv: bool, m: seq<seq<real>>)
    ensures SerDelayTrace(enable, isCsv, m)[0] == SetAsicR0Mode(true)
    ensures !(enable && isCsv && HasShape(m)) ==> SerDelayTrace(enable, isCsv, m) == [SetAsicR0Mode(true)]
    ensures enable && isCsv && HasShape(m) ==>
              |SerDelayTrace(enable, isCsv, m)| == 1 + 3 + 3 * Rows * Cols
    ensures enable && isCsv && HasShape(m) ==>
              SerDelayTrace(enable, isCsv, m)[1..3] == Opening &&
              SerDelayTrace(enable, isCsv, m)[3 + 3 * Rows * Cols] == RawWrite(0, 0)
    ensures enable && isCsv && HasShape(m) ==>
              forall x: nat, y: nat, j: nat :: x < Rows && y < Cols && j < 3 ==>
                SerDelayTrace(enable, isCsv, m)[3 + 3 * (Cols * x + y) + j] == PixelWrites(m, x, y)[j]
  {
    if enable && isCsv && HasShape(m) {
      MatrixWritesLength(m, Rows);
      forall x: nat, y: nat, j: nat | x < Rows && y < Cols && j < 3
        ensures SerDelayTrace(enable, isCsv, m)[3 + 3 * (Cols * x + y) + j] == PixelWrites(m, x, y)[j]
      {
        MatrixWritesAt(m, Rows, x, y, j);
      }
    }
  }

  /**
   * fnEvaluateSerDelay, with the file already chosen: `isCsv` is the
   * extension test on its name and `m` what the CSV parser read from it.
   * The same code is AsicDeserHrRegisters' and AsicDeserRegisters'.
   */
  method EvaluateSerDelay(enable: bool, isCsv: bool, m: seq<seq<real>>) returns (trace: seq<Access>)
    ensures trace == SerDelayTrace(enable, isCsv, m)
  {
    trace := [SetAsicR0Mode(true)];
    if !enable || !isCsv || !HasShape(m) {
      return;
    }
    trace := trace + Opening;
    ghost var head := [SetAsicR0Mode(true)] + Opening;
    var x := 0;
    while x < Rows
      invariant 0 <= x <= Rows
      invariant trace == head + MatrixWrites(m, x)
    {
      ghost var done := head + MatrixWrites(m, x);
      var y := 0;
      while y < Cols
        invariant 0 <= y <= Cols
        invariant trace == done + RowWrites(m, x, y)
      {
        var bank := y / BankWidth;
        var col := 0;
        if bank == 0 {
          col := 0x700 + y % BankWidth;
        } else if bank == 1 {
          col := 0x680 + y % BankWidth;
        } else if bank == 2 {
          col := 0x580 + y % BankWidth;
        } else if bank == 3 {
          col := 0x380 + y % BankWidth;
        } else {
          assert false;
        }
        assert col == Column(y).value;
        trace := trace + [RawWrite(0x6011 * AddrSize, x),
                          RawWrite(0x6013 * AddrSize, col),
                          RawWrite(0x5000 * AddrSize, Trunc(m[x][y]))];
        AppendAssoc(done, RowWrites(m, x, y), PixelWrites(m, x, y));
        y := y + 1;
      }
      AppendAssoc(head, MatrixWrites(m, x), RowWrites(m, x, Cols));
      x := x + 1;
    }
    trace := trace + Closing;
  }

  // A copy of PulserScan.AppendAssoc: each module keeps its own helpers, so
  // that no module's proofs see another module's lemmas and functions.
  lemma AppendAssoc<T>(a: seq<T>, b: seq<T>, c: seq<T>)
    ensures (a + b) + c == a + (b + c)
  {
  }

  // ---------------------------------------------------------------------------
  // The high-speed DAC ramp
  // ---------------------------------------------------------------------------

  /** The DAC kinds the ramp knows; the code selects the 16-bit one. */
  datatype DacType = Dac16 | Dac20

  const RampDac: DacType := Dac16
  const DacRange: nat := 65536

  /** The ramp's step for each DAC kind: positive, and its 65536 values stay within the DAC's width. */
  function DacStep(t: DacType): (s: nat)
    ensures 0 < s && (DacRange - 1) * s < (if t == Dac16 then 0x1_0000 else 0x10_0000)
  {
    match t
    case Dac20 => 8
    case Dac16 => 1
  }

  /** The ramp's accesses: data writer and DAC controls, DAC values, triggers. */
  datatype RampAccess =
    | DataWriterEnable(on: bool)
    | DataWriterOpen(on: bool)
    | DacEnable(on: bool)
    | DacValue(value: int)
    | Trigger

  /** n iterations of the ramp loop from DacValue `value` on: DacValue, then one trigger. */
  function RampSteps(value: int, step: nat, n: nat): seq<RampAccess>
    decreases n
  {
    if n == 0 then [] else [DacValue(value), Trigger] + RampSteps(value + step, step, n - 1)
  }

  const RampOpening: seq<RampAccess> :=
    [DataWriterEnable(true), DataWriterOpen(false), DataWriterOpen(true), DacEnable(true)]

  /** The ramp with `range` iterations of `step`: open the writer, step the DAC from 0, close the writer. */
  function RampTrace(step: nat, range: nat): (t: seq<RampAccess>)
    ensures |t| == |RampOpening| + 2 * range + 1
    ensures t[..|RampOpening|] == RampOpening && t[|t| - 1] == DataWriterOpen(false)
  {
    RampStepsLength(0, step, range);
    RampOpening + RampSteps(0, step, range) + [DataWriterOpen(false)]
  }

  lemma {:induction false} RampStepsLength(value: int, step: nat, n: nat)
    ensures |RampSteps(value, step, n)| == 2 * n
    decreases n
  {
    if n > 0 {
      RampStepsLength(value + step, step, n - 1);
    }
  }

  /** Iteration i sets DacValue to value + i * step and then triggers once. */
  lemma {:induction false} RampStepsAt(value: int, step: nat, n: nat, i: nat)
    requires i < n
    ensures |RampSteps(value, step, n)| == 2 * n
    ensures RampSteps(value, step, n)[2 * i] == DacValue(value + i * step)
    ensures RampSteps(value, step, n)[2 * i + 1] == Trigger
    decreases n
  {
    var rest := RampSteps(value + step, step, n - 1);
    assert RampSteps(value, step, n) == [DacValue(value), Trigger] + rest;
    RampStepsLength(value, step, n);
    if i > 0 {
      RampStepsAt(value + step, step, n - 1, i - 1);
      assert value + i * step == (value + step) + (i - 1) * step;
    }
  }

  /** The number of triggers in a trace. */
  function Triggers(t: seq<RampAccess>): nat
  {
    if |t| == 0 then 0 else (if t[0] == Trigger then 1 else 0) + Triggers(t[1..])
  }

  lemma {:induction false} TriggersAppend(a: seq<RampAccess>, b: seq<RampAccess>)
    ensures Triggers(a + b) == Triggers(a) + Triggers(b)
  {
    if |a| > 0 {
      assert (a + b)[1..] == a[1..] + b;
      TriggersAppend(a[1..], b);
    } else {
      assert a + b == b;
    }
  }

  /** Exactly one trigger per iteration. */
  lemma {:induction false} RampTriggers(value: int, step: nat, n: nat)
    ensures Triggers(RampSteps(value, step, n)) == n
    decreases n
  {
    if n > 0 {
      TriggersAppend([DacValue(value), Trigger], RampSteps(value + step, step, n - 1));
      RampTriggers(value + step, step, n - 1);
    }
  }

  lemma RampTraceAt(step: nat, range: nat, i: nat)
    requires i < range
    ensures |RampTrace(step, range)| == |RampOpening| + 2 * range + 1
    ensures RampTrace(step, range)[|RampOpening| + 2 * i] == DacValue(i * step)
    ensures RampTrace(step, range)[|RampOpening| + 2 * i + 1] == Trigger
  {
    RampStepsAt(0, step, range, i);
  }

  lemma RampTraceTriggers(step: nat, range: nat)
    ensures Triggers(RampTrace(step, range)) == range
  {
    RampTriggers(0, step, range);
    TriggersAppend(RampOpening, RampSteps(0, step, range));
    TriggersAppend(RampOpening + RampSteps(0, step, range), [DataWriterOpen(false)]);
  }

  /**
   * The ramp's trace: the writer opened, iteration i setting DacValue to
   * i * step and then triggering, the writer closed; one trigger per iteration.
   */
  lemma RampShape(step: nat, range: nat)
    ensures |RampTrace(step, range)| == |RampOpening| + 2 * range + 1
    ensures forall i :: 0 <= i < range ==>
              RampTrace(step, range)[|RampOpening| + 2 * i] == DacValue(i * step) &&
              RampTrace(step, range)[|RampOpening| + 2 * i + 1] == Trigger
    ensures Triggers(RampTrace(step, range)) == range
  {
    if range > 0 {
      RampTraceAt(step, range, 0);
    }
    forall i | 0 <= i < range
      ensures RampTrace(step, range)[|RampOpening| + 2 * i] == DacValue(i * step) &&
              RampTrace(step, range)[|RampOpening| + 2 * i + 1] == Trigger
    {
      RampTraceAt(step, range, i);
    }
    RampTraceTriggers(step, range);
  }

  /**
   * With the 16-bit DAC the ramp sets DacValue to 0, 1, ..., 65535 in turn:
   * every value of the 16-bit DacValue field, and only those.
   */
  lemma RampCovers16Bits(step: nat, range: nat)
    requires step == DacStep(RampDac) && range == DacRange
    ensures |RampTrace(step, range)| == |RampOpening| + 2 * range + 1
    ensures forall i :: 0 <= i < range ==> RampTrace(step, range)[|RampOpening| + 2 * i] == DacValue(i)
    ensures forall k :: 0 <= k < |RampTrace(step, range)| && RampTrace(step, range)[k].DacValue? ==>
              0 <= RampTrace(step, range)[k].value < 0x1_0000
  {
    RampShape(step, range);
    forall k | 0 <= k < |RampTrace(step, range)| && RampTrace(step, range)[k].DacValue?
      ensures 0 <= RampTrace(step, range)[k].value < 0x1_0000
    {
      var i := (k - |RampOpening|) / 2;
      assert |RampOpening| <= k < |RampOpening| + 2 * range;
      assert k == |RampOpening| + 2 * i || k == |RampOpening| + 2 * i + 1;
    }
  }

  /** fnRampTestHSDac: the accesses it issues, sleeps and prints aside. */
  method RampTestHSDac() returns (trace: seq<RampAccess>)
    ensures trace == RampTrace(DacStep(RampDac), DacRange)
  {
    var range := DacRange;
    var step := DacStep(RampDac);
    trace := RampOpening;
    var dacValue: int := 1;
    var i := 0;
    while i < range
      invariant 0 <= i <= range
      invariant trace + RampSteps(dacValue - 1, step, range - i) == RampOpening + RampSteps(0, step, range)
    {
      trace := trace + [DacValue(dacValue - 1), Trigger];
      dacValue := dacValue + step;
      i := i + 1;
    }
    trace := trace + [DataWriterOpen(false)];
  }
}
