/** The frequency-to-time-drift setting of the LoRa modems: a mantissa and an exponent. */
module FreqDrift {
  import opened Bits
  import opened Lora

  /** `lgw_bw_getval`: the bandwidth in Hz. */
  function BwHz(bw: int): nat
    requires IsBandwidth(bw)
  {
    125_000 * BwPow(bw)
  }

  /** The drift at 20 binary digits: floor(bw * 2^20 / freq). */
  function Drift(bw: int, freqHz: nat): nat
    requires IsBandwidth(bw) && freqHz > 0
  {
    BwHz(bw) * 0x10_0000 / freqHz
  }

  lemma DriftBounds(bw: int, freqHz: nat)
    requires IsBandwidth(bw) && 0 < freqHz < 0x1_0000_0000
    ensures Drift(bw, freqHz) >= 30
    ensures Drift(bw, freqHz) < 4096 <==> freqHz > 256 * BwHz(bw)
  {
    hide BwHz;
    BwHzBounds(bw);
    QuotientBound(BwHz(bw) * 0x10_0000, freqHz, 30);
    QuotientBound(BwHz(bw) * 0x10_0000, freqHz, 4096);
  }

  lemma BwHzIs()
    ensures BwHz(4) == 125_000 && BwHz(5) == 250_000 && BwHz(6) == 500_000
  {
  }

  /** The drift is bw * 2^20 / freq, rounded down. */
  lemma DriftIsQuotient(bw: int, freqHz: nat)
    requires IsBandwidth(bw) && freqHz > 0
    ensures Drift(bw, freqHz) * freqHz <= BwHz(bw) * 1_048_576 < (Drift(bw, freqHz) + 1) * freqHz
  {
    QuotientBound(BwHz(bw) * 0x10_0000, freqHz, Drift(bw, freqHz));
    QuotientBound(BwHz(bw) * 0x10_0000, freqHz, Drift(bw, freqHz) + 1);
  }

  lemma BwHzBounds(bw: int)
    requires IsBandwidth(bw)
    ensures 125_000 <= BwHz(bw) <= 500_000
  {
  }

  /** `drift << exponent` */
  function Shifted(drift: nat, exponent: nat): nat {
    drift * Pow2(exponent)
  }

  lemma Shifts(drift: nat, exponent: nat)
    ensures Shifted(drift, 0) == drift <= Shifted(drift, exponent)
    ensures Shifted(drift, exponent + 1) == 2 * Shifted(drift, exponent)
    ensures drift >= 30 ==> Shifted(drift, 7) >= 2048
  {
    assert Pow2(7) == 128;
    assert Pow2(exponent + 1) == 2 * Pow2(exponent);
  }

  /** The exponent is the least that brings the drift to 2048. */
  predicate Normalised(drift: nat, exponent: nat) {
    Shifted(drift, exponent) >= 2048 && (exponent > 0 ==> Shifted(drift, exponent - 1) < 2048)
  }

  /** `calculate_freq_to_time_drift`. The exponent never goes above 7, and the mantissa keeps every
      digit of the shifted drift unless it is cut to 16 bits. */
  method Calculate(freqHz: uint32, bw: byte) returns (ok: bool, mant: uint16, exp: byte)
    requires freqHz > 0
    ensures ok <==> IsBandwidth(bw)
    ensures ok ==> exp <= 7 && Normalised(Drift(bw, freqHz), exp)
    ensures ok ==> mant == Shifted(Drift(bw, freqHz), exp) % 0x1_0000
  {
    mant, exp := 0, 0;
    if !IsBandwidth(bw) {
      return false, mant, exp;
    }
    hide Drift, BwHz, Shifted;
    ok := true;
    var drift := Drift(bw, freqHz);
    var mantissa: int, exponent: nat := drift, 0;
    DriftBounds(bw, freqHz);
    Shifts(drift, 0);
    while mantissa < 2048
      invariant mantissa == Shifted(drift, exponent) && exponent <= 7
      invariant exponent > 0 ==> Shifted(drift, exponent - 1) < 2048
      decreases 2048 - mantissa
    {
      Shifts(drift, exponent);
      exponent := exponent + 1;
      mantissa := mantissa * 2;
    }
    mant, exp := mantissa % 0x1_0000, exponent;
  }

  /** What the registers take: four bits of the high byte and the low byte. */
  function RegisterMantissa(mant: uint16): nat {
    mant / 0x100 % 0x10 * 0x100 + mant % 0x100
  }

  /** The 4 + 8 bits of the registers hold the whole mantissa exactly for frequencies above 256 times the
      bandwidth: above 32, 64 or 128 MHz. */
  lemma RegistersHoldMantissaIff(freqHz: uint32, bw: int, exp: nat, mant: uint16)
    requires IsBandwidth(bw) && freqHz > 0
    requires Normalised(Drift(bw, freqHz), exp) && mant == Shifted(Drift(bw, freqHz), exp) % 0x1_0000
    ensures RegisterMantissa(mant) == Shifted(Drift(bw, freqHz), exp) <==> freqHz > 256 * BwHz(bw)
  {
    hide Drift, BwHz, Shifted;
    var drift := Drift(bw, freqHz);
    DriftBounds(bw, freqHz);
    LowBits(Shifted(drift, exp));
    Shifts(drift, exp);
    if exp > 0 {
      Shifts(drift, exp - 1);
    }
  }

  lemma LowBits(m: nat)
    ensures RegisterMantissa(m % 0x1_0000) == m % 0x1000
  {
    var low := m % 0x1_0000;
    assert low == low / 0x1000 * 0x1000 + low / 0x100 % 0x10 * 0x100 + low % 0x100;
    DivisionIsUnique(m, 0x1000, 0x10 * (m / 0x1_0000) + low / 0x1000, low % 0x1000);
  }
}
