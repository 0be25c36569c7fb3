/** The LoRa parameter codes shared by the radio computations. */
module Lora {
  import opened Bits

  const BW_125KHZ := 4
  const BW_250KHZ := 5
  const BW_500KHZ := 6

  predicate IsBandwidth(bw: int) {
    BW_125KHZ <= bw <= BW_500KHZ
  }

  /** The spreading factors 5 to 12. */
  predicate IsDatarate(sf: int) {
    5 <= sf <= 12
  }

  /** The coding rates 4/5 to 4/8. */
  predicate IsCoderate(cr: int) {
    1 <= cr <= 4
  }

  /** The bandwidth as a multiple of 125 kHz. */
  function BwPow(bw: int): nat
    requires IsBandwidth(bw)
  {
    if bw == BW_125KHZ then 1 else if bw == BW_250KHZ then 2 else 4
  }

  /** `1 << sf`: the chips of one symbol. */
  function Chips(sf: int): nat
    requires IsDatarate(sf)
  {
    if sf == 5 then 32 else if sf == 6 then 64 else if sf == 7 then 128 else if sf == 8 then 256
    else if sf == 9 then 512 else if sf == 10 then 1024 else if sf == 11 then 2048 else 4096
  }

  /** `SET_PPM_ON`: the modem uses the low data rate optimisation. */
  predicate PpmOn(bw: int, sf: int) {
    (bw == BW_125KHZ && sf >= 11) || (bw == BW_250KHZ && sf == 12)
  }

  /** The codes of the parameters that the radio knows. */
  lemma ParameterCodes(bw: int, sf: int, cr: int)
    ensures IsBandwidth(bw) <==> bw in {4, 5, 6}
    ensures IsDatarate(sf) <==> sf in {5, 6, 7, 8, 9, 10, 11, 12}
    ensures IsCoderate(cr) <==> cr in {1, 2, 3, 4}
    ensures BwPow(4) == 1 && BwPow(5) == 2 && BwPow(6) == 4
  {
  }

  lemma ChipsArePowers(sf: int)
    requires IsDatarate(sf)
    ensures Chips(sf) == Pow2(sf)
  {
    assert Pow2(4) == 16;
    assert Pow2(8) == 256;
    assert Pow2(sf) == 2 * Pow2(sf - 1);
    assert Pow2(12) == 4096;
  }

  /** The modem uses the low data rate optimisation exactly for symbols longer than 16 milliseconds. */
  lemma PpmOnIff(bw: int, sf: int)
    requires IsBandwidth(bw) && IsDatarate(sf)
    ensures PpmOn(bw, sf) <==> Pow2(sf) * 8 / BwPow(bw) > 16_000
  {
    ChipsArePowers(sf);
  }
}
