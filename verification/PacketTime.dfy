/** The count of a received packet, all the way from the stamp in its frame: expanded by the counter and
    corrected for the demodulation of a packet of its bandwidth, datarate, coding rate and length.
 */
module PacketTime {
  import opened Bits
  import opened Lora
  import RxFrame
  import Receive
  import LegacyCorrection
  import opened Timestamp

  const CR_UNDEFINED := 0

  /** What the configuration contributes: the LoRa service modem and the FSK datarate. */
  datatype Service = Service(bandwidth: byte, implicitHdr: bool, implicitCoderate: byte, fskDatarate: uint32)

  /** The multi-SF channels are 125 kHz wide; the service channel is as configured. */
  function Bandwidth(svc: Service, p: RxFrame.RxPacket): byte {
    if p.channel < Receive.IF_CHAIN_STD then BW_125KHZ else svc.bandwidth
  }

  function Coderate(svc: Service, p: RxFrame.RxPacket): nat {
    var cr := if p.channel < Receive.IF_CHAIN_STD || !svc.implicitHdr then p.codingRate else svc.implicitCoderate;
    if IsCoderate(cr) then cr else CR_UNDEFINED
  }

  /** The correction that `sx1302_parse` applies, with fine timestamps off. */
  function Correction(svc: Service, p: RxFrame.RxPacket): int
    requires |p.payload| <= 255 && svc.fskDatarate > 0
  {
    if p.channel == Receive.IF_CHAIN_FSK then 680_000 / svc.fskDatarate as int - 20
    else LegacyCorrection.CounterCorrection(Bandwidth(svc, p), p.sf, Coderate(svc, p), p.crcEn, |p.payload|, true)
  }

  /** Whose parameters the correction takes: on the multi-SF channels 0 to 7 the bandwidth is 125 kHz and the coding
      rate that of the header; on the service channel 8 they are as configured, the coding rate if headers are
      implicit; FSK packets are corrected by their datarate alone. */
  lemma CorrectionCases(svc: Service, p: RxFrame.RxPacket)
    requires |p.payload| <= 255 && svc.fskDatarate > 0 && 5 <= p.sf <= 12
    ensures p.channel <= 7 ==>
            Correction(svc, p) == if 1 <= p.codingRate <= 4
              then LegacyCorrection.Correction(4, p.sf, p.codingRate, p.crcEn, |p.payload|, true) else 0
    ensures p.channel == 8 ==>
            var cr := if svc.implicitHdr then svc.implicitCoderate else p.codingRate;
            Correction(svc, p) == if 4 <= svc.bandwidth <= 6 && 1 <= cr <= 4
              then LegacyCorrection.Correction(svc.bandwidth, p.sf, cr, p.crcEn, |p.payload|, true) else 0
    ensures p.channel == 9 ==> Correction(svc, p) == 680_000 / svc.fskDatarate as int - 20
  {
    hide LegacyCorrection.Correction;
  }

  /** `count_us` */
  function CountUs(svc: Service, info: Info, p: RxFrame.RxPacket): uint32
    requires |p.payload| <= 255 && svc.fskDatarate > 0 && p.timestamp < WORD
  {
    PacketCount(info, p.timestamp, Correction(svc, p))
  }

  /** The counter was read at least every 2^27 microseconds, and the packet stamped, at the true tick count
      `ticks`, less than that before the last read. */
  predicate ReadInTime(times: seq<nat>, ticks: nat) {
    && NeverBack(0, times) && times != [] && times[0] < WRAP
    && (forall k :: 0 < k < |times| ==> times[k] - times[k - 1] < WRAP)
    && ticks / 32 <= Last(0, times) < ticks / 32 + WRAP
  }

  lemma CountIsCorrectedTime(svc: Service, times: seq<nat>, ticks: nat, p: RxFrame.RxPacket)
    requires |p.payload| <= 255 && svc.fskDatarate > 0
    requires ReadInTime(times, ticks) && p.timestamp == ticks % WORD
    ensures CountUs(svc, Run(ZERO, times), p) == U32(ticks / 32 + Correction(svc, p))
  {
    hide Correction;
    FrequentReadsMissNone(0, times);
    RunMisses(ZERO, 0, times, 0);
    PacketCountIsTrueIff(Run(ZERO, times), Last(0, times), 0, ticks, Correction(svc, p));
  }

  /** The count of every LoRa packet that comes out of the receive buffer is its true time, less than
      16 milliseconds before the true time of its stamp; it is that time itself exactly if the coding rate
      or the configured bandwidth is none that the correction knows. */
  lemma LoraCountIsTrue(svc: Service, times: seq<nat>, ticks: nat, p: RxFrame.RxPacket)
    requires |p.payload| <= 255 && svc.fskDatarate > 0 && RxFrame.InRange(p)
    requires p.modemId <= RxFrame.LORA_STD_MODEM_ID && p.channel != Receive.IF_CHAIN_FSK
    requires ReadInTime(times, ticks) && p.timestamp == ticks % WORD
    ensures var before := U32(ticks / 32 - CountUs(svc, Run(ZERO, times), p));
      && before < 16_000
      && (before == 0 <==> !IsBandwidth(Bandwidth(svc, p)) || Coderate(svc, p) == CR_UNDEFINED)
  {
    hide CountUs, ReadInTime, LegacyCorrection.CounterCorrection;
    CountIsCorrectedTime(svc, times, ticks, p);
    LegacyCorrection.CounterCorrectionBounds(Bandwidth(svc, p), p.sf, Coderate(svc, p), p.crcEn, |p.payload|, true);
    TakenBack(ticks / 32, Correction(svc, p));
  }

  lemma TakenBack(t: nat, c: int)
    requires -WORD < c <= 0
    ensures U32(t - U32(t + c)) == -c
  {
    DivisionIsUnique(t - U32(t + c), WORD, (t + c) / WORD, -c);
  }
}
