/** Listen-before-talk: whether a LoRa packet may be sent on a channel. */
module Lbt {
  import opened Bits
  import opened TimeOnAir

  /** `struct lgw_conf_chan_lbt_s`; the scan time is only handed on to the radio. */
  datatype Channel = Channel(freqHz: uint32, bandwidth: byte, scanTimeUs: uint16, transmitTimeMs: uint16)

  datatype Outcome = WrongChannel | TransmitTimeTooShort | PacketTooLong | Admitted(channel: nat)

  predicate IsEqualFreq(a: uint32, b: uint32) {
    var diff: int := (a as int) - b;
    (if diff < 0 then -diff else diff) <= 10_000
  }

  predicate Matches(c: Channel, freqHz: uint32, bandwidth: byte) {
    IsEqualFreq(freqHz, c.freqHz) && bandwidth == c.bandwidth
  }

  /** A channel matches a packet of its bandwidth whose frequency is at most 10 kHz away. */
  lemma MatchesIff(c: Channel, freqHz: uint32, bandwidth: byte)
    ensures Matches(c, freqHz, bandwidth) <==>
            bandwidth == c.bandwidth && -10_000 <= (freqHz as int) - c.freqHz <= 10_000
  {
  }

  /** Frequencies are equal within 10 kHz, which is symmetric but not transitive. */
  lemma EqualFreqIsNoEquivalence(a: uint32, b: uint32)
    ensures IsEqualFreq(a, b) == IsEqualFreq(b, a)
    ensures IsEqualFreq(0, 10_000) && IsEqualFreq(10_000, 20_000) && !IsEqualFreq(0, 20_000)
  {
  }

  /** `is_lbt_channel`: the first channel that matches, or -1. */
  method IsLbtChannel(channels: seq<Channel>, freqHz: uint32, bandwidth: byte) returns (found: int)
    ensures -1 <= found < |channels|
    ensures found >= 0 ==> Matches(channels[found], freqHz, bandwidth)
    ensures forall i :: 0 <= i < (if found >= 0 then found else |channels|) ==>
                        !Matches(channels[i], freqHz, bandwidth)
  {
    found := -1;
    for i := 0 to |channels|
      invariant found == -1
      invariant forall j :: 0 <= j < i ==> !Matches(channels[j], freqHz, bandwidth)
    {
      if Matches(channels[i], freqHz, bandwidth) {
        found := i;
        break;
      }
    }
  }

  /** The channel with number `i` is the one selected for the packet. */
  predicate Selected(channels: seq<Channel>, i: nat, p: TxPacket) {
    && i < |channels| && Matches(channels[i], p.freqHz, p.bandwidth)
    && forall j :: 0 <= j < i ==> !Matches(channels[j], p.freqHz, p.bandwidth)
  }

  /** The packet and the 1.5 ms between the carrier sense and the departure fit strictly within the
      time the channel may be used. */
  predicate FitsChannel(c: Channel, p: TxPacket) {
    ToaUs(p) + 1500 < 1000 * c.transmitTimeMs as int
  }

  lemma AdmissionTest(transmitTimeMs: uint16, p: TxPacket)
    requires transmitTimeMs as int * 1000 > 1500
    ensures U32(ToaMs(p) * 1000) > U32(transmitTimeMs as int * 1000 - 1500) <==>
            ToaUs(p) + 1500 >= 1000 * transmitTimeMs as int
  {
    hide ToaUs;
    ToaFits(p);
    U32Small(ToaMs(p) * 1000);
    U32Small(transmitTimeMs as int * 1000 - 1500);
  }

  /** The checks of `lgw_lbt_start` on a LoRa packet. Although the time on air is rounded to the nearest
      millisecond before it is compared, a packet is admitted exactly if its exact time fits. */
  method Start(channels: seq<Channel>, p: TxPacket) returns (r: Outcome)
    ensures r == WrongChannel <==> forall i :: 0 <= i < |channels| ==> !Matches(channels[i], p.freqHz, p.bandwidth)
    ensures r.Admitted? ==> Selected(channels, r.channel, p) && FitsChannel(channels[r.channel], p)
    ensures forall i: nat :: Selected(channels, i, p) && FitsChannel(channels[i], p) ==> r == Admitted(i)
    ensures r == TransmitTimeTooShort <==> exists i: nat ::
              Selected(channels, i, p) && channels[i].transmitTimeMs <= 1
    ensures r == PacketTooLong <==> exists i: nat ::
              Selected(channels, i, p) && channels[i].transmitTimeMs > 1 && !FitsChannel(channels[i], p)
  {
    hide Matches, ToaUs, ToaMs;
    var selected := IsLbtChannel(channels, p.freqHz, p.bandwidth);
    if selected == -1 {
      return WrongChannel;
    }
    assert Selected(channels, selected, p);
    var transmitTimeMs: int := channels[selected].transmitTimeMs;
    if transmitTimeMs * 1000 <= 1500 {
      return TransmitTimeTooShort;
    }
    AdmissionTest(transmitTimeMs, p);
    if U32(ToaMs(p) * 1000) > U32(transmitTimeMs * 1000 - 1500) {
      return PacketTooLong;
    }
    return Admitted(selected);
  }

  /** What is admitted goes on being admitted when it gets no longer. */
  lemma ShorterFits(c: Channel, p: TxPacket, q: TxPacket)
    requires Valid(p) && Valid(q) && NoShorter(p, q) && FitsChannel(c, q)
    ensures FitsChannel(c, p)
  {
    ToaMonotone(p, q);
  }
}
