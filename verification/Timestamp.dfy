/** The 27-bit microsecond counter and its extension to 32 bits, against an unbounded true time. */
module Timestamp {
  import opened Bits
  import PpsHistory

  const WRAP := 0x800_0000
  const WORD := 0x1_0000_0000

  /** A microsecond count as the chip delivers it. */
  type uint27 = x: int | 0 <= x < 0x800_0000

  /** `struct timestamp_info_s`: the last count read, and the wraps seen so far, modulo 32. */
  datatype Info = Info(reference: uint27, wraps: byte)

  const ZERO := Info(0, 0)

  /** The effect of one read on one counter in `timestamp_counter_update`. */
  function Updated(info: Info, count: uint27): Info {
    Info(count, if count < info.reference then (info.wraps + 1) % 0x100 % 32 else info.wraps)
  }

  /** `(wraps << 27) | count` on 32 bits */
  function Join(wraps: nat, count: uint27): uint32 {
    U32(wraps * WRAP + count)
  }

  /** `timestamp_counter_expand` */
  function Expand(info: Info, count: uint27): uint32 {
    Join(info.wraps, count)
  }

  /** `timestamp_pkt_expand`: a packet count above the last read belongs to the previous wrap. */
  function ExpandPacket(info: Info, count: uint27): uint32 {
    var wraps := info.wraps - (if info.reference >= count then 0 else 1);
    Join(wraps % 0x100 % 32, count)
  }

  // ---------- True time ----------

  /** What the chip counts at the true time `t`, in microseconds. */
  function Count(t: nat): uint27 {
    t % WRAP
  }

  /** The counter was last read at the true time `t`, and its wrap count runs `missed` wraps behind. */
  predicate Behind(info: Info, t: nat, missed: nat) {
    info.reference == Count(t) && info.wraps == (t / WRAP - missed) % 32
  }

  /** The register counts at 32 MHz in 32 bits, so a division by 32 yields 27 bits of microseconds. */
  lemma TicksToMicros(ticks: nat)
    ensures (ticks % WORD) / 32 == Count(ticks / 32)
  {
    var q, r := ticks / WORD, ticks % WORD;
    assert r == 32 * (r / 32) + r % 32;
    DivisionIsUnique(ticks, 32, WRAP * q + r / 32, r % 32);
    DivisionIsUnique(ticks / 32, WRAP, q, r / 32);
  }

  lemma Wraps(t: nat, d: nat)
    ensures (t + d) / WRAP == t / WRAP + d / WRAP + (if Count(t) + d % WRAP >= WRAP then 1 else 0)
    ensures Count(t + d) == (Count(t) + d % WRAP) % WRAP
    ensures Count(t) + d % WRAP >= WRAP <==> Count(t + d) < Count(t)
  {
    var r := Count(t) + d % WRAP;
    var carry := if r >= WRAP then 1 else 0;
    DivisionIsUnique(t + d, WRAP, t / WRAP + d / WRAP + carry, r - carry * WRAP);
  }

  /** A read after `d` microseconds misses exactly the full wraps in `d`: one wrap shows as a smaller
      count, any other does not show at all. */
  lemma UpdateMisses(info: Info, t: nat, d: nat, missed: nat)
    requires Behind(info, t, missed)
    ensures Behind(Updated(info, Count(t + d)), t + d, missed + d / WRAP)
  {
    Wraps(t, d);
  }

  lemma JoinIsTime(t: nat, missed: int)
    ensures Join((t / WRAP - missed) % 32, Count(t)) == (t - missed * WRAP) % WORD
  {
    var w := t / WRAP - missed;
    assert t - missed * WRAP == w * WRAP + Count(t);
    DivisionIsUnique(t - missed * WRAP, WORD, w / 32, (w % 32) * WRAP + Count(t));
  }

  /** The expanded counter is the true time less the wraps missed. */
  lemma ExpandIsTime(info: Info, t: nat, missed: nat)
    requires Behind(info, t, missed)
    ensures Expand(info, Count(t)) == (t - missed * WRAP) % WORD
  {
    JoinIsTime(t, missed);
  }

  lemma WholeWords(k: int)
    ensures (k * WRAP) % WORD == 0 <==> k % 32 == 0
  {
    DivisionIsUnique(k * WRAP, WORD, k / 32, (k % 32) * WRAP);
  }

  lemma SameModulo(a: int, b: int)
    ensures a % WORD == b % WORD <==> (a - b) % WORD == 0
  {
    var q := a / WORD - b / WORD;
    var r := a % WORD - b % WORD;
    assert a - b == q * WORD + r;
    DivisionIsUnique(a - b, WORD, if r >= 0 then q else q - 1, if r >= 0 then r else r + WORD);
  }

  // ---------- Runs ----------

  /** The counter after reads at the given true times. */
  function Run(info: Info, times: seq<nat>): Info
    decreases |times|
  {
    if times == [] then info else Run(Updated(info, Count(times[0])), times[1..])
  }

  predicate NeverBack(from: nat, times: seq<nat>) {
    times != [] ==> from <= times[0] && forall k :: 0 < k < |times| ==> times[k - 1] <= times[k]
  }

  /** The full wraps between consecutive reads, added up. */
  function Missed(from: nat, times: seq<nat>): int
    decreases |times|
  {
    if times == [] then 0 else (times[0] - from) / WRAP + Missed(times[0], times[1..])
  }

  function Last(from: nat, times: seq<nat>): nat {
    if times == [] then from else times[|times| - 1]
  }

  lemma {:induction false} RunMisses(info: Info, from: nat, times: seq<nat>, missed: nat)
    requires NeverBack(from, times) && Behind(info, from, missed)
    ensures Missed(from, times) >= 0
    ensures Behind(Run(info, times), Last(from, times), missed + Missed(from, times))
    decreases |times|
  {
    if times != [] {
      UpdateMisses(info, from, times[0] - from, missed);
      RunMisses(Updated(info, Count(times[0])), times[0], times[1..], missed + (times[0] - from) / WRAP);
    }
  }

  /** After any run of reads from the reset counter, the expanded count is the true time modulo 2^32
      exactly when the wraps missed between reads add up to a multiple of 32. */
  lemma ExpandedIffNoneMissed(times: seq<nat>)
    requires NeverBack(0, times)
    ensures var now := Last(0, times);
      Expand(Run(ZERO, times), Count(now)) == now % WORD <==> Missed(0, times) % 32 == 0
  {
    RunMisses(ZERO, 0, times, 0);
    var now, missed := Last(0, times), Missed(0, times);
    ExpandIsTime(Run(ZERO, times), now, missed);
    SameModulo(now, now - missed * WRAP);
    WholeWords(missed);
  }

  lemma {:induction false} FrequentReadsMissNone(from: nat, times: seq<nat>)
    requires NeverBack(from, times)
    requires times != [] ==> times[0] - from < WRAP
    requires forall k :: 0 < k < |times| ==> times[k] - times[k - 1] < WRAP
    ensures Missed(from, times) == 0
    decreases |times|
  {
    if times != [] {
      FrequentReadsMissNone(times[0], times[1..]);
    }
  }

  /** With reads less than 2^27 microseconds apart, every expansion on the way is the true time. */
  lemma ExpandedIsTrueTime(times: seq<nat>, n: nat)
    requires NeverBack(0, times) && 0 < n <= |times|
    requires times[0] < WRAP && forall k :: 0 < k < |times| ==> times[k] - times[k - 1] < WRAP
    ensures Expand(Run(ZERO, times[..n]), Count(times[n - 1])) == times[n - 1] % WORD
  {
    FrequentReadsMissNone(0, times[..n]);
    ExpandedIffNoneMissed(times[..n]);
  }

  // ---------- Packets ----------

  /** On a counter that was last read at the true time `read` and missed `missed` wraps until then, a packet
      stamped at `at` expands to its own true time exactly when the counter, as it takes the time to be, is,
      modulo 2^32, less than 2^27 microseconds later. */
  lemma PacketIsTrueTimeIff(info: Info, read: nat, missed: nat, at: nat)
    requires Behind(info, read, missed)
    ensures ExpandPacket(info, Count(at)) == at % WORD <==> (read - missed * WRAP - at) % WORD < WRAP
  {
    var wraps := read / WRAP - missed - (if Count(read) >= Count(at) then 0 else 1);
    WrapsBefore(info, read, missed, Count(at));
    var late := wraps - at / WRAP;
    JoinIsTime(at, -late);
    assert read - missed * WRAP - at == late * WRAP + (Count(read) - Count(at)) % WRAP by {
      var gap := Count(read) - Count(at);
      DivisionIsUnique(gap, WRAP, if gap >= 0 then 0 else -1, if gap >= 0 then gap else gap + WRAP);
    }
    LessThanWrapIff(read - missed * WRAP - at, late);
    SameModulo(at + late * WRAP, at);
    WholeWords(late);
  }

  lemma WrapsBefore(info: Info, read: nat, missed: nat, count: uint27)
    requires Behind(info, read, missed)
    ensures ExpandPacket(info, count) ==
            Join((read / WRAP - missed - (if Count(read) >= count then 0 else 1)) % 32, count)
  {
  }

  /** Over any run of reads from the reset counter: a packet expands to its own true time exactly when the
      last read, less the wraps missed on the way, is less than 2^27 microseconds after it, modulo 2^32. */
  lemma PacketAfterRunIff(times: seq<nat>, at: nat)
    requires NeverBack(0, times)
    ensures ExpandPacket(Run(ZERO, times), Count(at)) == at % WORD <==>
            (Last(0, times) - Missed(0, times) * WRAP - at) % WORD < WRAP
  {
    RunMisses(ZERO, 0, times, 0);
    PacketIsTrueTimeIff(Run(ZERO, times), Last(0, times), Missed(0, times), at);
  }

  /** So with reads less than 2^27 microseconds apart, every packet stamped in the 2^27 microseconds up to the
      last read, and no other of the 2^32 microseconds up to it, expands to its true time. */
  lemma PacketAfterFrequentReadsIff(times: seq<nat>, at: nat)
    requires NeverBack(0, times) && times != []
    requires times[0] < WRAP && forall k :: 0 < k < |times| ==> times[k] - times[k - 1] < WRAP
    requires at <= Last(0, times) < at + WORD
    ensures ExpandPacket(Run(ZERO, times), Count(at)) == at % WORD <==> Last(0, times) - at < WRAP
  {
    FrequentReadsMissNone(0, times);
    PacketAfterRunIff(times, at);
  }

  lemma LessThanWrapIff(d: int, k: int)
    requires k * WRAP <= d < (k + 1) * WRAP
    ensures d % WORD < WRAP <==> k % 32 == 0
  {
    DivisionIsUnique(d, WORD, k / 32, (k % 32) * WRAP + (d - k * WRAP));
  }

  /** `count_us` of a received packet: the 32 MHz stamp of the frame scaled, expanded and corrected. */
  function PacketCount(info: Info, stamp: uint32, correction: int): uint32 {
    U32(ExpandPacket(info, stamp / 32) + correction)
  }

  /** It is the true time of the stamp plus the correction, modulo 2^32, exactly for packets that were
      stamped less than 2^27 microseconds before the time that the counter takes it to be. */
  lemma PacketCountIsTrueIff(info: Info, read: nat, missed: nat, ticks: nat, correction: int)
    requires Behind(info, read, missed)
    ensures PacketCount(info, ticks % WORD, correction) == U32(ticks / 32 + correction) <==>
            (read - missed * WRAP - ticks / 32) % WORD < WRAP
  {
    hide Behind, ExpandPacket;
    TicksToMicros(ticks);
    PacketIsTrueTimeIff(info, read, missed, ticks / 32);
    SumModulo(ExpandPacket(info, Count(ticks / 32)), ticks / 32, correction);
  }

  lemma SumModulo(a: uint32, b: nat, c: int)
    ensures (a + c) % WORD == (b + c) % WORD <==> a == b % WORD
  {
    SameModulo(a + c, b + c);
    SameModulo(a, b);
  }

  // ---------- Reading the registers ----------

  /** Four register bytes from `i` on, the highest first. */
  function BigEndian(b: seq<byte>, i: nat): uint32
    requires i + 4 <= |b|
  {
    b[i] * 0x100_0000 as int + b[i + 1] * 0x1_0000 as int + b[i + 2] * 0x100 as int + b[i + 3]
  }

  /** It puts a word that was split into its bytes together again. */
  lemma BigEndianOfSplit(b: seq<byte>, i: nat, v: uint32)
    requires i + 4 <= |b|
    requires b[i] == v / 0x100_0000 && b[i + 1] == v / 0x1_0000 % 0x100
    requires b[i + 2] == v / 0x100 % 0x100 && b[i + 3] == v % 0x100
    ensures BigEndian(b, i) == v
  {
    var w: int := v;
    assert w / 0x100 / 0x100 == w / 0x1_0000 && w / 0x1_0000 / 0x100 == w / 0x100_0000;
    assert w == w / 0x100 * 0x100 + w % 0x100;
    assert w / 0x100 == w / 0x1_0000 * 0x100 + w / 0x100 % 0x100;
    assert w / 0x1_0000 == w / 0x100_0000 * 0x100 + w / 0x1_0000 % 0x100;
  }

  /** The eight bytes of the two registers, the PPS counter first. */
  predicate Registers(b: seq<byte>, pps: uint32, inst: uint32) {
    |b| == 8 && BigEndian(b, 0) == pps && BigEndian(b, 4) == inst
  }

  // ---------- The class ----------

  /** `timestamp_counter_t`: the free-running counter and the one latched by the PPS. */
  class TimestampCounter {
    var inst: Info
    var pps: Info

    /** `timestamp_counter_new` */
    constructor ()
      ensures inst == ZERO && pps == ZERO
    {
      inst := ZERO;
      pps := ZERO;
    }

    /** `timestamp_counter_update` */
    method Update(ppsCount: uint27, instCount: uint27)
      modifies this
      ensures inst == Updated(old(inst), instCount) && pps == Updated(old(pps), ppsCount)
    {
      if ppsCount < pps.reference {
        pps := pps.(wraps := (pps.wraps + 1) % 0x100);
        pps := pps.(wraps := pps.wraps % 32);
      }
      if instCount < inst.reference {
        inst := inst.(wraps := (inst.wraps + 1) % 0x100);
        inst := inst.(wraps := inst.wraps % 32);
      }
      pps := pps.(reference := ppsCount);
      inst := inst.(reference := instCount);
    }

    /** `timestamp_counter_get`. The eight bytes are read twice, and a third time if one of the two high bytes
        has changed. When the bytes used are the two 32 MHz registers at the true tick counts `ppsTicks` and
        `instTicks`, the PPS edge goes to the history, and both counters come back in true microseconds
        unless a wrap has been missed. */
    method Get(history: PpsHistory.History, first: seq<byte>, second: seq<byte>, third: seq<byte>,
               ghost ppsTicks: nat, ghost instTicks: nat, ghost ppsBefore: nat, ghost instBefore: nat)
        returns (instNow: uint32, ppsNow: uint32)
      requires history.Valid()
      requires |first| == |second| == |third| == 8
      requires Registers(if first[0] == second[0] && first[4] == second[4] then first else third,
                         ppsTicks % WORD, instTicks % WORD)
      requires ppsBefore <= ppsTicks / 32 && instBefore <= instTicks / 32
      requires Behind(pps, ppsBefore, 0) && Behind(inst, instBefore, 0)
      modifies this, history, history.slots
      ensures history.Valid() && history.saved == old(history.saved) + [ppsTicks % WORD]
      ensures Behind(pps, ppsTicks / 32, (ppsTicks / 32 - ppsBefore) / WRAP)
      ensures Behind(inst, instTicks / 32, (instTicks / 32 - instBefore) / WRAP)
      ensures ppsTicks / 32 - ppsBefore < WRAP ==> ppsNow == (ppsTicks / 32) % WORD
      ensures instTicks / 32 - instBefore < WRAP ==> instNow == (instTicks / 32) % WORD
    {
      hide PpsHistory.HoldsLast, PpsHistory.WithoutRepeats, PpsHistory.Saved, Updated, BigEndian;
      var buff := first;
      if first[0] != second[0] || first[4] != second[4] {
        buff := third;
      }
      var ppsReg, instReg := BigEndian(buff, 0), BigEndian(buff, 4);
      history.Save(ppsReg);
      TicksToMicros(ppsTicks);
      TicksToMicros(instTicks);
      var ppsCount, instCount := ppsReg / 32, instReg / 32;
      Update(ppsCount, instCount);
      UpdateMisses(old(pps), ppsBefore, ppsTicks / 32 - ppsBefore, 0);
      UpdateMisses(old(inst), instBefore, instTicks / 32 - instBefore, 0);
      ExpandIsTime(pps, ppsTicks / 32, (ppsTicks / 32 - ppsBefore) / WRAP);
      ExpandIsTime(inst, instTicks / 32, (instTicks / 32 - instBefore) / WRAP);
      instNow := Expand(inst, instCount);
      ppsNow := Expand(pps, ppsCount);
    }
  }
}
