/** The correction of packet timestamps for the demodulation delay. */
module LegacyCorrection {
  import opened Bits
  import opened Lora

  /** The payload and its CRC, in nibbles, and the five nibbles of the header. */
  function Nibbles(crcEn: bool, len: byte): nat {
    (len + 2 * FromBool(crcEn)) * 2 + 5
  }

  /** The nibbles that the header block carries. */
  function HeaderNibbles(sf: int): int {
    if sf == 5 || sf == 6 then sf else sf - 2
  }

  /** The nibbles of one further block. */
  function BlockNibbles(sf: int, ppm: nat): int {
    sf - 2 * ppm
  }

  /** The last of the blocks of `d` nibbles that hold `rest` nibbles, in 32-bit unsigned arithmetic. */
  function LastOf(rest: int, d: int): int
    requires d > 0
  {
    var r: int := U32(rest);
    var last: int := U32(r - d * (r / d));
    if last == 0 then d else last
  }

  /** `nb_nibble_in_last_block` as the code computes it. */
  function LastBlockComputed(sf: int, ppm: nat, crcEn: bool, len: byte): int
    requires IsDatarate(sf) && ppm <= 1
  {
    LastOf(Nibbles(crcEn, len) - HeaderNibbles(sf), BlockNibbles(sf, ppm))
  }

  /** The condition under which the code takes the payload to fit in the header block. */
  predicate FitsInHeader(sf: int, crcEn: bool, len: byte) {
    2 * (len + 2 * FromBool(crcEn)) - (sf - 7) <= 0 || (len == 0 && !crcEn)
  }

  function DecodeCycles(cr: int, last: int): int {
    5 + (9 + cr) * last + 3
  }

  function DemapCycles(chips: nat, sf: int, ppm: nat, fits: bool): int {
    if fits then 1 + chips * 3 / 4 + 3 + (sf - 2) else 1 + chips + 3 + (sf - 2 * ppm)
  }

  function FftState3Cycles(chips: nat, sf: int): int {
    (chips - 6) + 2 * (chips * ((sf + 1) / 2 - 1) + 6) + 4
  }

  function FftCycles(chips: nat, ppm: nat, dftPeak: bool): int {
    if dftPeak then (5 - 2 * ppm) * (chips + 7) + 2 else chips * 2 + 3
  }

  /** The clock periods of all delays but the filtering; all are whole multiples of the period. */
  function Cycles(sf: int, ppm: nat, cr: int, dftPeak: bool, fits: bool, last: int): int
    requires IsDatarate(sf)
  {
    var chips := Chips(sf);
    FftState3Cycles(chips, sf) + FftCycles(chips, ppm, dftPeak) + DemapCycles(chips, sf, ppm, fits)
    + DecodeCycles(cr, last)
  }

  /** All delays together in microseconds, rounded to the nearest. */
  function TotalDelay(bw: int, cycles: int): int
    requires IsBandwidth(bw)
  {
    var clkPeriod := 250_000 / BwPow(bw);
    var filtering := 16_000_000 / BwPow(bw) + 2_031_250;
    (filtering + clkPeriod * cycles + 500_000) / 1_000_000
  }

  /** `legacy_timestamp_correction`, for the parameters that `timestamp_counter_correction` lets by. */
  function Correction(bw: int, sf: int, cr: int, crcEn: bool, len: byte, dftPeak: bool): int
    requires IsBandwidth(bw) && IsDatarate(sf) && IsCoderate(cr)
  {
    var ppm := FromBool(PpmOn(bw, sf));
    var fits := FitsInHeader(sf, crcEn, len);
    var last := if fits then if sf > 6 then sf - 2 else sf else LastBlockComputed(sf, ppm, crcEn, len);
    -TotalDelay(bw, Cycles(sf, ppm, if fits then 4 else cr, dftPeak && !fits, fits, last))
  }

  /** `timestamp_counter_correction` without fine timestamps */
  function CounterCorrection(bw: int, sf: int, cr: int, crcEn: bool, len: byte, dftPeak: bool): int {
    if !IsDatarate(sf) || !IsBandwidth(bw) || !IsCoderate(cr) then 0 else Correction(bw, sf, cr, crcEn, len, dftPeak)
  }

  // ---------- The same, in whole numbers ----------

  /** The nibbles that do not fit in the header block. */
  function Remaining(sf: int, crcEn: bool, len: byte): int {
    Nibbles(crcEn, len) - HeaderNibbles(sf)
  }

  /** What is left for the last block, all blocks before it being full. */
  function LastBlock(rest: int, d: int): int
    requires rest > 0 && d > 0
  {
    rest - d * (CeilDiv(rest, d) - 1)
  }

  /** The correction without any unsigned arithmetic: the header block alone, or as many full blocks as
      fit and a last one. */
  function IdealCorrection(bw: int, sf: int, cr: int, crcEn: bool, len: byte, dftPeak: bool): int
    requires IsBandwidth(bw) && IsDatarate(sf) && IsCoderate(cr)
  {
    var ppm, rest := FromBool(PpmOn(bw, sf)), Remaining(sf, crcEn, len);
    var cycles :=
      if rest <= 0 then Cycles(sf, ppm, 4, false, true, HeaderNibbles(sf))
      else Cycles(sf, ppm, cr, dftPeak, false, LastBlock(rest, BlockNibbles(sf, ppm)));
    -TotalDelay(bw, cycles)
  }

  /** The fit test is right: it holds exactly when no nibble is left after the header block. The
      difference underflows only then. */
  lemma FitsIffNoneRemains(sf: int, crcEn: bool, len: byte)
    requires IsDatarate(sf)
    ensures FitsInHeader(sf, crcEn, len) <==> Remaining(sf, crcEn, len) <= 0
  {
  }

  lemma LastBlockIsRemainder(rest: nat, d: nat)
    requires rest > 0 && d > 0
    ensures LastBlock(rest, d) == if rest % d == 0 then d else rest % d
    ensures 1 <= LastBlock(rest, d) <= d
  {
    if rest % d == 0 {
      DivisionIsUnique(rest + d - 1, d, rest / d, d - 1);
      assert d * (rest / d - 1) == d * (rest / d) - d;
    } else {
      assert d * (rest / d + 1) == d * (rest / d) + d;
      DivisionIsUnique(rest + d - 1, d, rest / d + 1, rest % d - 1);
    }
  }

  lemma LastOfIsLastBlock(rest: nat, d: nat)
    requires 0 < rest < 0x1_0000_0000 && d > 0
    ensures LastOf(rest, d) == LastBlock(rest, d)
  {
    hide U32, LastBlock;
    LastBlockIsRemainder(rest, d);
    assert rest - d * (rest / d) == rest % d;
    U32Small(rest);
    U32Small(rest % d);
  }

  lemma ComputedIsLastBlock(sf: int, ppm: nat, crcEn: bool, len: byte)
    requires IsDatarate(sf) && ppm <= 1 && Remaining(sf, crcEn, len) > 0
    ensures LastBlockComputed(sf, ppm, crcEn, len) == LastBlock(Remaining(sf, crcEn, len), BlockNibbles(sf, ppm))
    ensures 1 <= LastBlockComputed(sf, ppm, crcEn, len) <= sf
  {
    hide LastBlock, LastOf;
    LastBlockIsRemainder(Remaining(sf, crcEn, len), BlockNibbles(sf, ppm));
    LastOfIsLastBlock(Remaining(sf, crcEn, len), BlockNibbles(sf, ppm));
  }

  /** For every valid packet the unsigned underflow leaves no trace in the correction. */
  lemma CorrectionIsIdeal(bw: int, sf: int, cr: int, crcEn: bool, len: byte, dftPeak: bool)
    requires IsBandwidth(bw) && IsDatarate(sf) && IsCoderate(cr)
    ensures Correction(bw, sf, cr, crcEn, len, dftPeak) == IdealCorrection(bw, sf, cr, crcEn, len, dftPeak)
  {
    hide Cycles, TotalDelay, LastBlock, LastBlockComputed;
    FitsIffNoneRemains(sf, crcEn, len);
    if Remaining(sf, crcEn, len) > 0 {
      ComputedIsLastBlock(sf, FromBool(PpmOn(bw, sf)), crcEn, len);
    }
  }

  /** The underflow does happen, and then gives a number that has nothing to do with the packet: an
      empty packet without CRC at spreading factor 12 has no nibble left, yet one is computed. */
  lemma UnderflowHappens()
    ensures Remaining(12, false, 0) == -5 && LastBlockComputed(12, 1, false, 0) == 1
  {
  }

  lemma TotalDelayBounds(bw: int, cycles: int)
    requires IsBandwidth(bw) && 0 < cycles < (if bw == BW_125KHZ then 63_840 else 72_000)
    ensures 0 < TotalDelay(bw, cycles) < 16_000
  {
  }

  lemma DecodeBounds(cr: int, last: int)
    requires IsCoderate(cr) && 1 <= last <= 12
    ensures 0 < DecodeCycles(cr, last) <= 164
  {
    ProductMonotone(9 + cr, 13, last, 12);
  }

  lemma CyclesInMode(bw: int, sf: int, cr: int, dftPeak: bool, fits: bool, last: int)
    requires IsBandwidth(bw) && IsDatarate(sf) && IsCoderate(cr) && 1 <= last <= sf
    ensures 0 < Cycles(sf, FromBool(PpmOn(bw, sf)), cr, dftPeak, fits, last) <
            (if bw == BW_125KHZ then 63_840 else 72_000)
  {
    hide DecodeCycles;
    DecodeBounds(cr, last);
  }

  /** The correction always takes off between 0 and 16 milliseconds, so the overflow assertion on
      31 bits cannot fail. */
  lemma CorrectionBounds(bw: int, sf: int, cr: int, crcEn: bool, len: byte, dftPeak: bool)
    requires IsBandwidth(bw) && IsDatarate(sf) && IsCoderate(cr)
    ensures -16_000 < Correction(bw, sf, cr, crcEn, len, dftPeak) < 0
  {
    hide Cycles, TotalDelay, LastBlock, LastBlockComputed;
    CorrectionIsIdeal(bw, sf, cr, crcEn, len, dftPeak);
    var ppm, rest := FromBool(PpmOn(bw, sf)), Remaining(sf, crcEn, len);
    if rest > 0 {
      LastBlockIsRemainder(rest, BlockNibbles(sf, ppm));
      var last := LastBlock(rest, BlockNibbles(sf, ppm));
      CyclesInMode(bw, sf, cr, dftPeak, false, last);
      TotalDelayBounds(bw, Cycles(sf, ppm, cr, dftPeak, false, last));
    } else {
      CyclesInMode(bw, sf, 4, false, true, HeaderNibbles(sf));
      TotalDelayBounds(bw, Cycles(sf, ppm, 4, false, true, HeaderNibbles(sf)));
    }
  }

  /** `timestamp_counter_correction` without fine timestamps takes off less than 16 milliseconds, and nothing
      exactly when it refuses its parameters. */
  lemma CounterCorrectionBounds(bw: int, sf: int, cr: int, crcEn: bool, len: byte, dftPeak: bool)
    ensures -16_000 < CounterCorrection(bw, sf, cr, crcEn, len, dftPeak) <= 0
    ensures CounterCorrection(bw, sf, cr, crcEn, len, dftPeak) == 0 <==>
            !(IsDatarate(sf) && IsBandwidth(bw) && IsCoderate(cr))
  {
    hide Correction;
    if IsDatarate(sf) && IsBandwidth(bw) && IsCoderate(cr) {
      CorrectionBounds(bw, sf, cr, crcEn, len, dftPeak);
    }
  }

  /** Whole blocks do not count: payloads that differ by them have the same correction. */
  lemma CorrectionIsPeriodic(bw: int, sf: int, cr: int, crcEn: bool, len: byte, longer: byte, dftPeak: bool)
    requires IsBandwidth(bw) && IsDatarate(sf) && IsCoderate(cr)
    requires Remaining(sf, crcEn, len) > 0 && longer == len + BlockNibbles(sf, FromBool(PpmOn(bw, sf)))
    ensures Correction(bw, sf, cr, crcEn, longer, dftPeak) == Correction(bw, sf, cr, crcEn, len, dftPeak)
  {
    hide Cycles, TotalDelay, LastBlock, LastBlockComputed;
    CorrectionIsIdeal(bw, sf, cr, crcEn, len, dftPeak);
    CorrectionIsIdeal(bw, sf, cr, crcEn, longer, dftPeak);
    LastBlockIsPeriodic(Remaining(sf, crcEn, len), BlockNibbles(sf, FromBool(PpmOn(bw, sf))));
  }

  lemma LastBlockIsPeriodic(rest: nat, d: nat)
    requires rest > 0 && d > 0
    ensures LastBlock(rest + 2 * d, d) == LastBlock(rest, d)
  {
    LastBlockIsRemainder(rest, d);
    LastBlockIsRemainder(rest + 2 * d, d);
    DivisionIsUnique(rest + 2 * d, d, rest / d + 2, rest % d);
  }

  // ---------- The delays, stage by stage ----------

  /** The stages behind the filtering, in units of 1e-12 seconds: demapping, the third FFT state, the FFTs, and the
      decoding of the last block. `clk` is the clock period, `chips` is 2^sf. */
  function Demap(clk: int, chips: int, sf: int, ppm: int, fits: bool): int {
    if fits then clk + chips * clk * 3 / 4 + 3 * clk + (sf - 2) * clk
    else clk + chips * clk * (1 - ppm / 4) + 3 * clk + (sf - 2 * ppm) * clk
  }

  function FftState3(clk: int, chips: int, sf: int): int {
    clk * ((chips - 6) + 2 * (chips * ((sf + 1) / 2 - 1) + 6)) + 4 * clk
  }

  function Fft(clk: int, chips: int, ppm: int, dftPeak: bool): int {
    if dftPeak then (5 - 2 * ppm) * (chips * clk + 7 * clk) + 2 * clk
    else chips * 2 * clk + 3 * clk
  }

  function DecodeLast(clk: int, cr: int, last: int): int {
    5 * clk + (9 * clk + clk * cr) * last + 3 * clk
  }

  /** All stages. A payload that fits in the header block is demapped and decoded with it, at its own coding rate
      and without DFT peak. `last` counts the nibbles of the last block. */
  function Stages(bwPow: nat, sf: int, ppm: int, cr: int, dftPeak: bool, fits: bool, last: int): int
    requires 5 <= sf <= 12 && bwPow > 0
  {
    var clk, chips := 250_000 / bwPow, Pow2(sf);
    16_000_000 / bwPow + 2_031_250
    + FftState3(clk, chips, sf) + Fft(clk, chips, ppm, dftPeak && !fits)
    + Demap(clk, chips, sf, ppm, fits) + DecodeLast(clk, if fits then 4 else cr, last)
  }

  /** The bytes of payload and CRC, less what the header block takes, in nibbles. */
  function LeftOver(sf: int, crcEn: bool, len: byte): int {
    2 * (len as int + (if crcEn then 2 else 0)) + 5 - (if sf <= 6 then sf else sf - 2)
  }

  /** `bw` is 4, 5 or 6 for 125, 250 or 500 kHz. */
  function StageSum(bw: int, sf: int, cr: int, crcEn: bool, len: byte, dftPeak: bool): int
    requires 4 <= bw <= 6 && 5 <= sf <= 12
  {
    var bwPow := if bw == 4 then 1 else if bw == 5 then 2 else 4;
    var ppm := if (bw == 4 && sf >= 11) || (bw == 5 && sf == 12) then 1 else 0;
    var rest := LeftOver(sf, crcEn, len);
    if rest <= 0 then Stages(bwPow, sf, ppm, cr, dftPeak, true, if sf > 6 then sf - 2 else sf)
    else Stages(bwPow, sf, ppm, cr, dftPeak, false, (rest - 1) % (sf - 2 * ppm) + 1)
  }

  lemma DemapScales(clk: nat, chips: nat, sf: int, ppm: nat, fits: bool)
    requires chips % 4 == 0 && ppm <= 1
    ensures Demap(clk, chips, sf, ppm, fits) == clk * DemapCycles(chips, sf, ppm, fits)
  {
    assert chips * clk == clk * chips;
    assert clk * chips * 3 == 4 * (clk * (chips / 4) * 3);
    assert chips * 3 / 4 == chips / 4 * 3;
  }

  lemma FftState3Scales(clk: nat, chips: nat, sf: int)
    ensures FftState3(clk, chips, sf) == clk * FftState3Cycles(chips, sf)
  {
  }

  lemma FftScales(clk: nat, chips: nat, ppm: nat, dftPeak: bool)
    requires ppm <= 1
    ensures Fft(clk, chips, ppm, dftPeak) == clk * FftCycles(chips, ppm, dftPeak)
  {
    if ppm == 0 {
      assert (5 - 2 * ppm) * (chips + 7) == 5 * chips + 35;
    } else {
      assert (5 - 2 * ppm) * (chips + 7) == 3 * chips + 21;
    }
  }

  lemma DecodeScales(clk: nat, cr: int, last: int)
    ensures DecodeLast(clk, cr, last) == clk * DecodeCycles(cr, last)
  {
    assert (9 * clk + clk * cr) * last == clk * ((9 + cr) * last);
  }

  lemma Distributes(c: int, a: int, b: int, d: int, e: int)
    ensures c * (a + b + d + e) == c * a + c * b + c * d + c * e
  {
  }

  lemma StagesAreCycles(bw: int, sf: int, ppm: nat, cr: int, dftPeak: bool, fits: bool, last: int)
    requires IsBandwidth(bw) && IsDatarate(sf) && ppm <= 1
    ensures Stages(BwPow(bw), sf, ppm, cr, dftPeak, fits, last) ==
            16_000_000 / BwPow(bw) + 2_031_250
            + 250_000 / BwPow(bw) * Cycles(sf, ppm, if fits then 4 else cr, dftPeak && !fits, fits, last)
  {
    ChipsArePowers(sf);
    assert Chips(sf) % 4 == 0;
    hide Demap, FftState3, Fft, DecodeLast, DecodeCycles, DemapCycles, FftState3Cycles, FftCycles, Chips, Pow2, BwPow;
    var clk, chips := 250_000 / BwPow(bw), Chips(sf);
    var used, peak := if fits then 4 else cr, dftPeak && !fits;
    DemapScales(clk, chips, sf, ppm, fits);
    FftState3Scales(clk, chips, sf);
    FftScales(clk, chips, ppm, peak);
    DecodeScales(clk, used, last);
    Distributes(clk, FftState3Cycles(chips, sf), FftCycles(chips, ppm, peak), DemapCycles(chips, sf, ppm, fits),
                DecodeCycles(used, last));
  }

  lemma LastIsRemainder(rest: nat, d: nat)
    requires rest > 0 && d > 0
    ensures LastBlock(rest, d) == (rest - 1) % d + 1
  {
    LastBlockIsRemainder(rest, d);
    if rest % d == 0 {
      assert (rest / d - 1) * d == rest / d * d - d;
      DivisionIsUnique(rest - 1, d, rest / d - 1, d - 1);
    } else {
      DivisionIsUnique(rest - 1, d, rest / d, rest % d - 1);
    }
  }

  /** The correction is the sum of the stage delays in microseconds, rounded to the nearest, taken off. */
  lemma CorrectionIsStageSum(bw: int, sf: int, cr: int, crcEn: bool, len: byte, dftPeak: bool)
    requires IsBandwidth(bw) && IsDatarate(sf) && IsCoderate(cr)
    ensures Correction(bw, sf, cr, crcEn, len, dftPeak) ==
            -((StageSum(bw, sf, cr, crcEn, len, dftPeak) + 500_000) / 1_000_000)
  {
    hide Cycles, Stages, LastBlock, LastBlockComputed;
    CorrectionIsIdeal(bw, sf, cr, crcEn, len, dftPeak);
    var ppm, rest := FromBool(PpmOn(bw, sf)), Remaining(sf, crcEn, len);
    if rest <= 0 {
      StagesAreCycles(bw, sf, ppm, cr, dftPeak, true, HeaderNibbles(sf));
    } else {
      LastIsRemainder(rest, BlockNibbles(sf, ppm));
      StagesAreCycles(bw, sf, ppm, cr, dftPeak, false, LastBlock(rest, BlockNibbles(sf, ppm)));
    }
  }

  /** 20 bytes with CRC at spreading factor 7, 125 kHz and coding rate 4/5 are stamped 456 microseconds late. */
  lemma CorrectionAtSf7()
    ensures Correction(4, 7, 1, true, 20, true) == -456
  {
    hide Correction;
    CorrectionIsStageSum(4, 7, 1, true, 20, true);
    ChipsArePowers(7);
  }

  /** At spreading factor 12 it is more than 15 milliseconds. */
  lemma CorrectionAtSf12()
    ensures Correction(4, 12, 1, true, 20, true) == -15_414
  {
    hide Correction;
    CorrectionIsStageSum(4, 12, 1, true, 20, true);
    ChipsArePowers(12);
  }

  /** An empty packet without CRC at spreading factor 12 and 500 kHz fits in the header. */
  lemma CorrectionOfHeader()
    ensures Correction(6, 12, 1, false, 0, true) == -3_536
  {
    hide Correction;
    CorrectionIsStageSum(6, 12, 1, false, 0, true);
    ChipsArePowers(12);
  }
}
