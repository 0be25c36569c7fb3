/** The byte layout of one frame in the SX1302 RX FIFO: sync word and head metadata
    (9 bytes), payload, tail metadata, timestamp metrics and an additive checksum.
    `Decode` reads a frame the way `rx_buffer_pop` does; `Encode` is its inverse.
 */
module RxFrame {
  import opened Bits

  const SYNC_0: byte := 0xA5
  const SYNC_1: byte := 0xC0
  const HEAD_METADATA := 9
  const TAIL_METADATA := 14
  const FSK_MODEM_ID := 17
  const LORA_STD_MODEM_ID := 16

  /** `rx_packet_t`, as far as `rx_buffer_pop` fills it in. */
  datatype RxPacket = RxPacket(
    payload: seq<byte>,
    channel: byte,
    crcEn: bool,
    codingRate: nat,
    sf: nat,
    modemId: byte,
    freqOffset: int,
    crcError: bool,
    syncError: bool,
    headerError: bool,
    timingSet: bool,
    snr: int,
    rssiChan: byte,
    rssiSig: byte,
    timestamp: nat,
    crc16: nat,
    tsMetrics: seq<int>
  )

  /** The bits of a frame that are never read. */
  datatype Unread = Unread(freqHigh: nat, flag1: bool, flagsHigh: nat, chanDelta: byte, sigDelta: byte)

  datatype FrameData = FrameData(pkt: RxPacket, unread: Unread)

  /** `(int8_t)b` */
  function Int8(b: byte): int {
    if b < 128 then b else b - 256
  }

  function FromInt8(v: int): byte
    requires -128 <= v < 128
  {
    if v >= 0 then v else v + 256
  }

  /** Bytes joined from the least significant. */
  function Join2(b0: int, b1: int): int {
    b0 + 0x100 * b1
  }

  function Join4(b0: int, b1: int, b2: int, b3: int): int {
    Join2(b0, b1) + 0x1_0000 * Join2(b2, b3)
  }

  predicate SyncAt(b: seq<byte>, i: nat) {
    i + 1 < |b| && b[i] == SYNC_0 && b[i + 1] == SYNC_1
  }

  /** `SX1302_PKT_PAYLOAD_LENGTH` and `SX1302_PKT_NUM_TS_METRICS` can be read at `i`. */
  predicate LengthsReadable(b: seq<byte>, i: nat) {
    i + 2 < |b| && i + b[i + 2] + 21 < |b|
  }

  function PayloadLength(b: seq<byte>, i: nat): nat
    requires LengthsReadable(b, i)
  {
    b[i + 2]
  }

  /** Half the number of timestamp metrics. */
  function MetricPairs(b: seq<byte>, i: nat): nat
    requires LengthsReadable(b, i)
  {
    b[i + b[i + 2] + 21]
  }

  function FrameLength(b: seq<byte>, i: nat): (n: nat)
    requires LengthsReadable(b, i)
    ensures 23 <= n <= 788
  {
    HEAD_METADATA + PayloadLength(b, i) + TAIL_METADATA + 2 * MetricPairs(b, i)
  }

  /** The sum of the first `n` bytes. */
  function Sum(s: seq<byte>, n: nat): nat
    requires n <= |s|
  {
    if n == 0 then 0 else Sum(s, n - 1) + s[n - 1]
  }

  /** The received checksum is the sum of the other bytes, modulo 256. */
  predicate ChecksumOk(f: seq<byte>)
    requires |f| > 0
  {
    f[|f| - 1] == Sum(f, |f| - 1) % 256
  }

  /** `f` is as long as its own two length fields say. */
  predicate Complete(f: seq<byte>) {
    LengthsReadable(f, 0) && FrameLength(f, 0) == |f|
  }

  /** The signed 20-bit frequency offset. */
  function FreqOffset(f6: byte, f7: byte, f8: byte): int {
    var raw := Join4(f6, f7, f8 % 16, 0);
    if raw >= 0x8_0000 then raw - 0x10_0000 else raw
  }

  function MetricsOf(f: seq<byte>): (m: seq<int>)
    requires Complete(f)
    ensures |m| == 2 * MetricPairs(f, 0)
    ensures forall i :: 0 <= i < |m| ==> m[i] == Int8(f[PayloadLength(f, 0) + 22 + i])
  {
    seq(2 * MetricPairs(f, 0), i requires 0 <= i < 2 * MetricPairs(f, 0) => Int8(f[PayloadLength(f, 0) + 22 + i]))
  }

  /** The metadata and payload of a complete frame. */
  function Decode(f: seq<byte>): RxPacket
    requires Complete(f)
  {
    var n: nat := f[2];
    RxPacket(
      payload := Sub(f, HEAD_METADATA, n),
      channel := f[3],
      crcEn := f[4] % 2 == 1,
      codingRate := (f[4] / 2) % 8,
      sf := f[4] / 16,
      modemId := f[5],
      freqOffset := FreqOffset(f[6], f[7], f[8]),
      crcError := f[n + 9] % 2 == 1,
      syncError := (f[n + 9] / 4) % 2 == 1,
      headerError := (f[n + 9] / 8) % 2 == 1,
      timingSet := (f[n + 9] / 16) % 2 == 1,
      snr := Int8(f[n + 10]),
      rssiChan := f[n + 11],
      rssiSig := f[n + 12],
      timestamp := Join4(f[n + 15], f[n + 16], f[n + 17], f[n + 18]),
      crc16 := Join2(f[n + 19], f[n + 20]),
      tsMetrics := MetricsOf(f)
    )
  }

  lemma DecodeLength(f: seq<byte>)
    requires Complete(f)
    ensures |f| == HEAD_METADATA + |Decode(f).payload| + TAIL_METADATA + |Decode(f).tsMetrics|
  {
  }

  function UnreadOf(f: seq<byte>): Unread
    requires Complete(f)
  {
    var n: nat := f[2];
    Unread(f[8] / 16, (f[n + 9] / 2) % 2 == 1, f[n + 9] / 32, f[n + 13], f[n + 14])
  }

  /** The final range checks of `rx_buffer_pop`. */
  predicate InRange(p: RxPacket) {
    p.modemId <= FSK_MODEM_ID &&
    (p.modemId <= LORA_STD_MODEM_ID ==> p.channel <= 9 && 5 <= p.sf <= 12)
  }

  predicate MetricsFit(m: seq<int>) {
    |m| % 2 == 0 && |m| <= 254 && forall i :: 0 <= i < |m| ==> -128 <= m[i] < 128
  }

  /** The packets that fit the fields of a frame and the arrays of `rx_packet_t`. */
  predicate ValidFrame(fr: FrameData) {
    var p, u := fr.pkt, fr.unread;
    && |p.payload| <= 255
    && p.codingRate < 8 && p.sf < 16
    && -0x8_0000 <= p.freqOffset < 0x8_0000
    && -128 <= p.snr < 128
    && p.timestamp < 0x1_0000_0000 && p.crc16 < 0x1_0000
    && MetricsFit(p.tsMetrics)
    && u.freqHigh < 16 && u.flagsHigh < 8
    && InRange(p)
  }

  /** An empty SF5 packet. */
  const SMALLEST := FrameData(
    RxPacket([], 0, false, 0, 5, 0, 0, false, false, false, false, 0, 0, 0, 0, 0, []),
    Unread(0, false, 0, 0, 0))

  type Frame = fr: FrameData | ValidFrame(fr) witness SMALLEST

  function RateByte(crcEn: bool, codingRate: nat, sf: nat): byte
    requires codingRate < 8 && sf < 16
  {
    FromBool(crcEn) + 2 * codingRate + 16 * sf
  }

  function FlagsByte(p: RxPacket, u: Unread): byte
    requires u.flagsHigh < 8
  {
    FromBool(p.crcError) + 2 * FromBool(u.flag1) + 4 * FromBool(p.syncError) + 8 * FromBool(p.headerError)
    + 16 * FromBool(p.timingSet) + 32 * u.flagsHigh
  }

  /** The 20-bit two's complement of a frequency offset. */
  function RawOffset(offset: int): nat
    requires -0x8_0000 <= offset < 0x8_0000
  {
    if offset < 0 then offset + 0x10_0000 else offset
  }

  function Head(fr: Frame): (h: seq<byte>)
    ensures |h| == 9
  {
    var p := fr.pkt;
    var raw := RawOffset(p.freqOffset);
    [SYNC_0, SYNC_1, |p.payload|, p.channel,
     RateByte(p.crcEn, p.codingRate, p.sf),
     p.modemId,
     raw % 0x100, (raw / 0x100) % 0x100, raw / 0x1_0000 + 16 * fr.unread.freqHigh]
  }

  function Tail(fr: Frame): (t: seq<byte>)
    ensures |t| == 13
  {
    var p, u := fr.pkt, fr.unread;
    [FlagsByte(p, u),
     FromInt8(p.snr), p.rssiChan, p.rssiSig, u.chanDelta, u.sigDelta,
     p.timestamp % 0x100, (p.timestamp / 0x100) % 0x100, (p.timestamp / 0x1_0000) % 0x100, p.timestamp / 0x100_0000,
     p.crc16 % 0x100, p.crc16 / 0x100,
     |p.tsMetrics| / 2]
  }

  function Metrics(fr: Frame): (m: seq<byte>)
    ensures |m| == |fr.pkt.tsMetrics|
  {
    seq(|fr.pkt.tsMetrics|, i requires 0 <= i < |fr.pkt.tsMetrics| => FromInt8(fr.pkt.tsMetrics[i]))
  }

  function Body(fr: Frame): seq<byte>
  {
    Head(fr) + fr.pkt.payload + Tail(fr) + Metrics(fr)
  }

  /** Appends the checksum. */
  function Seal(body: seq<byte>): (f: seq<byte>)
    ensures |f| == |body| + 1
  {
    body + [Sum(body, |body|) % 256]
  }

  lemma {:induction false} SumOfPrefix(a: seq<byte>, b: seq<byte>, n: nat)
    requires n <= |a| && n <= |b| && forall k :: 0 <= k < n ==> a[k] == b[k]
    ensures Sum(a, n) == Sum(b, n)
  {
    if n > 0 {
      SumOfPrefix(a, b, n - 1);
    }
  }

  lemma SealIsChecked(body: seq<byte>)
    ensures ChecksumOk(Seal(body))
  {
    SumOfPrefix(body, Seal(body), |body|);
  }

  lemma CheckedIsSealed(f: seq<byte>, body: seq<byte>)
    requires |f| == |body| + 1 && ChecksumOk(f) && forall k :: 0 <= k < |body| ==> f[k] == body[k]
    ensures f == Seal(body)
  {
    SumOfPrefix(f, body, |body|);
  }

  /** The bytes of a frame. */
  function Encode(fr: Frame): seq<byte>
  {
    Seal(Body(fr))
  }

  /** Where the parts of a frame are. */
  predicate LaidOut(e: seq<byte>, h: seq<byte>, t: seq<byte>, p: RxPacket)
    requires |h| == 9 && |t| == 13
  {
    var n := |p.payload|;
    && |e| == 23 + n + |p.tsMetrics|
    && Sub(e, 9, n) == p.payload
    && (forall i :: 0 <= i < 9 ==> e[i] == h[i])
    && (forall i :: 0 <= i < 13 ==> e[9 + n + i] == t[i])
    && (forall i :: 0 <= i < |p.tsMetrics| ==> Int8(e[22 + n + i]) == p.tsMetrics[i])
  }

  lemma ConcatLayout(h: seq<byte>, t: seq<byte>, m: seq<byte>, c: byte, p: RxPacket)
    requires |h| == 9 && |t| == 13 && |m| == |p.tsMetrics|
    requires forall i :: 0 <= i < |m| ==> Int8(m[i]) == p.tsMetrics[i]
    ensures LaidOut(h + p.payload + t + m + [c], h, t, p)
  {
    var e, n := h + p.payload + t + m + [c], |p.payload|;
    assert Sub(e, 9, n) == p.payload;
    assert forall i :: 0 <= i < |m| ==> e[22 + n + i] == m[i];
  }

  lemma EncodeLayout(fr: Frame)
    ensures LaidOut(Encode(fr), Head(fr), Tail(fr), fr.pkt)
  {
    ConcatLayout(Head(fr), Tail(fr), Metrics(fr), Sum(Body(fr), |Body(fr)|) % 256, fr.pkt);
  }

  lemma ConcatBytes(h: seq<byte>, p: seq<byte>, t: seq<byte>, m: seq<byte>, c: byte)
    requires |h| == 9 && |t| == 13
    ensures var e := h + p + t + m + [c];
      && |e| == 23 + |p| + |m|
      && e[0] == h[0] && e[1] == h[1] && e[2] == h[2] && e[|p| + 21] == t[12]
  {
  }

  lemma EncodeIsComplete(fr: Frame)
    ensures SyncAt(Encode(fr), 0) && Complete(Encode(fr))
  {
    ConcatBytes(Head(fr), fr.pkt.payload, Tail(fr), Metrics(fr), Sum(Body(fr), |Body(fr)|) % 256);
  }

  /** The fields that the nine bytes of a head carry. */
  predicate HeadCarries(h: seq<byte>, p: RxPacket, u: Unread)
    requires |h| == 9
  {
    && h[2] == |p.payload| && h[3] == p.channel && h[5] == p.modemId
    && (h[4] % 2 == 1) == p.crcEn && (h[4] / 2) % 8 == p.codingRate && h[4] / 16 == p.sf
    && FreqOffset(h[6], h[7], h[8]) == p.freqOffset
    && h[8] / 16 == u.freqHigh
  }

  predicate FlagsCarry(b: byte, p: RxPacket, u: Unread) {
    && (b % 2 == 1) == p.crcError && ((b / 2) % 2 == 1) == u.flag1
    && ((b / 4) % 2 == 1) == p.syncError && ((b / 8) % 2 == 1) == p.headerError
    && ((b / 16) % 2 == 1) == p.timingSet && b / 32 == u.flagsHigh
  }

  /** The fields that the thirteen bytes after the payload carry. */
  predicate TailCarries(t: seq<byte>, p: RxPacket, u: Unread)
    requires |t| == 13
  {
    && FlagsCarry(t[0], p, u)
    && Int8(t[1]) == p.snr && t[2] == p.rssiChan && t[3] == p.rssiSig
    && t[4] == u.chanDelta && t[5] == u.sigDelta
    && Join4(t[6], t[7], t[8], t[9]) == p.timestamp
    && Join2(t[10], t[11]) == p.crc16
    && 2 * t[12] as int == |p.tsMetrics|
  }

  lemma RateByteFields(crcEn: bool, codingRate: nat, sf: nat)
    requires codingRate < 8 && sf < 16
    ensures var b := RateByte(crcEn, codingRate, sf);
      (b % 2 == 1) == crcEn && (b / 2) % 8 == codingRate && b / 16 == sf
  {
    var b := RateByte(crcEn, codingRate, sf);
    assert b / 2 == codingRate + 8 * sf;
  }

  lemma FlagsByteFields(p: RxPacket, u: Unread)
    requires u.flagsHigh < 8
    ensures FlagsCarry(FlagsByte(p, u), p, u)
  {
    var b4 := FromBool(p.timingSet) + 2 * u.flagsHigh;
    var b3 := FromBool(p.headerError) + 2 * b4;
    var b2 := FromBool(p.syncError) + 2 * b3;
    var b1 := FromBool(u.flag1) + 2 * b2;
    var b: int := FlagsByte(p, u);
    assert b == FromBool(p.crcError) + 2 * b1;
    assert b / 2 == b1 && b / 4 == b1 / 2 == b2 && b / 8 == b2 / 2 == b3 && b / 16 == b3 / 2 == b4 && b / 32 == b4 / 2;
  }

  lemma OffsetBytes(raw: nat, high: nat)
    requires raw < 0x10_0000 && high < 16
    ensures Join4(raw % 0x100, (raw / 0x100) % 0x100, (raw / 0x1_0000 + 16 * high) % 16, 0) == raw
    ensures (raw / 0x1_0000 + 16 * high) / 16 == high
  {
    var q := raw / 0x1_0000;
    assert (q + 16 * high) % 16 == q && (q + 16 * high) / 16 == high;
    assert (raw / 0x100) % 0x100 + 0x100 * q == raw / 0x100;
  }

  lemma HeadFields(fr: Frame)
    ensures HeadCarries(Head(fr), fr.pkt, fr.unread)
  {
    var h, p := Head(fr), fr.pkt;
    RateByteFields(p.crcEn, p.codingRate, p.sf);
    OffsetBytes(RawOffset(p.freqOffset), fr.unread.freqHigh);
    assert h[4] == RateByte(p.crcEn, p.codingRate, p.sf);
    assert FreqOffset(h[6], h[7], h[8]) == p.freqOffset;
  }

  lemma SplitWord(v: nat)
    requires v < 0x1_0000_0000
    ensures Join4(v % 0x100, (v / 0x100) % 0x100, (v / 0x1_0000) % 0x100, v / 0x100_0000) == v
    ensures v < 0x1_0000 ==> Join2(v % 0x100, v / 0x100) == v
  {
    var w1 := v / 0x100;
    var w2 := w1 / 0x100;
    assert v / 0x1_0000 == w2 && v / 0x100_0000 == w2 / 0x100;
    assert v == v % 0x100 + 0x100 * w1 && w1 == w1 % 0x100 + 0x100 * w2 && w2 == w2 % 0x100 + 0x100 * (w2 / 0x100);
  }

  lemma TailFields(fr: Frame)
    ensures TailCarries(Tail(fr), fr.pkt, fr.unread)
  {
    var p, t := fr.pkt, Tail(fr);
    SplitWord(p.timestamp);
    SplitWord(p.crc16);
    FlagsByteFields(p, fr.unread);
    assert t[0] == FlagsByte(p, fr.unread);
  }

  lemma DecodeLaidOut(h: seq<byte>, t: seq<byte>, e: seq<byte>, p: RxPacket, u: Unread)
    requires |h| == 9 && |t| == 13 && LaidOut(e, h, t, p) && Complete(e)
    requires HeadCarries(h, p, u) && TailCarries(t, p, u)
    ensures Decode(e) == p && UnreadOf(e) == u
  {
    var n, d := |p.payload|, Decode(e);
    assert e[2] == h[2] && e[3] == h[3] && e[4] == h[4] && e[5] == h[5] && e[6] == h[6] && e[7] == h[7] && e[8] == h[8];
    assert e[n + 9] == t[0] && e[n + 10] == t[1] && e[n + 11] == t[2];
    assert e[n + 12] == t[3] && e[n + 13] == t[4] && e[n + 14] == t[5];
    assert e[n + 15] == t[6] && e[n + 16] == t[7] && e[n + 17] == t[8] && e[n + 18] == t[9];
    assert e[n + 19] == t[10] && e[n + 20] == t[11] && e[n + 21] == t[12];
    assert d.tsMetrics == p.tsMetrics;
  }

  /** Reading back an encoded frame gives its packet. */
  lemma DecodeEncode(fr: Frame)
    ensures Complete(Encode(fr)) && Decode(Encode(fr)) == fr.pkt && UnreadOf(Encode(fr)) == fr.unread
  {
    EncodeIsComplete(fr);
    EncodeLayout(fr);
    HeadFields(fr);
    TailFields(fr);
    DecodeLaidOut(Head(fr), Tail(fr), Encode(fr), fr.pkt, fr.unread);
  }

  datatype Verdict = Accept | NoSync | Truncated | WrongChecksum | TooManyMetrics | OutOfRange

  /** What `rx_buffer_pop` finds in the bytes of a frame, check by check. */
  function Check(f: seq<byte>): Verdict {
    if !SyncAt(f, 0) then NoSync
    else if !Complete(f) then Truncated
    else if !ChecksumOk(f) then WrongChecksum
    else if 2 * MetricPairs(f, 0) > 255 then TooManyMetrics
    else if !InRange(Decode(f)) then OutOfRange
    else Accept
  }

  /** The frames that `rx_buffer_pop` accepts. */
  predicate Accepted(f: seq<byte>) {
    Check(f) == Accept
  }

  lemma JoinBounds(b0: byte, b1: byte, b2: byte, b3: byte)
    ensures 0 <= Join2(b0, b1) < 0x1_0000 && 0 <= Join4(b0, b1, b2, b3) < 0x1_0000_0000
    ensures -0x8_0000 <= FreqOffset(b0, b1, b2) < 0x8_0000
  {
  }

  lemma DecodedMetricsFit(f: seq<byte>)
    requires Complete(f) && 2 * MetricPairs(f, 0) <= 255
    ensures MetricsFit(MetricsOf(f))
  {
  }

  lemma DecodedIsValid(f: seq<byte>)
    requires Complete(f) && InRange(Decode(f)) && 2 * MetricPairs(f, 0) <= 255
    ensures ValidFrame(FrameData(Decode(f), UnreadOf(f)))
  {
    var n := PayloadLength(f, 0);
    DecodedMetricsFit(f);
    JoinBounds(f[6], f[7], f[8], 0);
    JoinBounds(f[n + 15], f[n + 16], f[n + 17], f[n + 18]);
    JoinBounds(f[n + 19], f[n + 20], 0, 0);
  }

  lemma UnpackRate(b: byte)
    ensures FromBool(b % 2 == 1) + 2 * ((b / 2) % 8) + 16 * (b / 16) == b
  {
  }

  lemma UnpackFlags(b: byte)
    ensures FromBool(b % 2 == 1) + 2 * FromBool((b / 2) % 2 == 1) + 4 * FromBool((b / 4) % 2 == 1)
            + 8 * FromBool((b / 8) % 2 == 1) + 16 * FromBool((b / 16) % 2 == 1) + 32 * (b / 32) == b
  {
    var b1 := b / 2;
    var b2 := b1 / 2;
    var b3 := b2 / 2;
    var b4 := b3 / 2;
    assert b / 4 == b2 && b / 8 == b3 && b / 16 == b4 && b / 32 == b4 / 2;
  }

  lemma JoinedBytes(b0: byte, b1: byte, b2: byte, b3: byte)
    ensures var v := Join4(b0, b1, b2, b3);
      v % 0x100 == b0 && (v / 0x100) % 0x100 == b1 && (v / 0x1_0000) % 0x100 == b2 && v / 0x100_0000 == b3
    ensures Join2(b0, b1) % 0x100 == b0 && Join2(b0, b1) / 0x100 == b1
  {
    var w2: int := b2 + 0x100 * (b3 as int);
    var w1: int := b1 + 0x100 * w2;
    var v := Join4(b0, b1, b2, b3);
    assert v == b0 + 0x100 * w1;
    assert v / 0x100 == w1 && w1 / 0x100 == w2 && v / 0x1_0000 == w2 && w2 / 0x100 == b3 && v / 0x100_0000 == b3;
  }

  lemma DecodedOffset(b6: byte, b7: byte, b8: byte)
    ensures var raw := RawOffset(FreqOffset(b6, b7, b8));
      raw % 0x100 == b6 && (raw / 0x100) % 0x100 == b7 && raw / 0x1_0000 + 16 * (b8 / 16) == b8
  {
    JoinedBytes(b6, b7, b8 % 16, 0);
  }

  lemma DecodedHead(f: seq<byte>)
    requires Accepted(f) && ValidFrame(FrameData(Decode(f), UnreadOf(f)))
    ensures Head(FrameData(Decode(f), UnreadOf(f))) == f[..9]
  {
    var p, h := Decode(f), Head(FrameData(Decode(f), UnreadOf(f)));
    UnpackRate(f[4]);
    DecodedOffset(f[6], f[7], f[8]);
    assert h[4] == f[4];
    assert h[6] == f[6] && h[7] == f[7] && h[8] == f[8];
  }

  lemma DecodedFlags(f: seq<byte>)
    requires Complete(f)
    ensures FlagsByte(Decode(f), UnreadOf(f)) == f[f[2] as int + 9]
  {
    UnpackFlags(f[f[2] as int + 9]);
  }

  lemma DecodedTail(f: seq<byte>)
    requires Accepted(f) && ValidFrame(FrameData(Decode(f), UnreadOf(f)))
    ensures Tail(FrameData(Decode(f), UnreadOf(f))) == f[9 + f[2] as int..22 + f[2] as int]
  {
    var n: nat := f[2];
    var p, t := Decode(f), Tail(FrameData(Decode(f), UnreadOf(f)));
    var g := f[9 + n..22 + n];
    DecodedFlags(f);
    JoinedBytes(f[n + 15], f[n + 16], f[n + 17], f[n + 18]);
    JoinedBytes(f[n + 19], f[n + 20], 0, 0);
    assert t[0] == g[0] && t[1] == g[1] && t[2] == g[2] && t[3] == g[3] && t[4] == g[4] && t[5] == g[5];
    assert t[6] == g[6] && t[7] == g[7] && t[8] == g[8] && t[9] == g[9];
    assert t[10] == g[10] && t[11] == g[11] && t[12] == g[12];
  }

  lemma DecodedMetrics(f: seq<byte>)
    requires Accepted(f) && ValidFrame(FrameData(Decode(f), UnreadOf(f)))
    ensures Metrics(FrameData(Decode(f), UnreadOf(f))) == f[22 + f[2] as int..|f| - 1]
  {
    var n: nat, m := f[2], Metrics(FrameData(Decode(f), UnreadOf(f)));
    forall i | 0 <= i < |m|
      ensures m[i] == f[22 + n + i]
    {
      assert Decode(f).tsMetrics[i] == Int8(f[n + 22 + i]);
    }
  }

  lemma JoinFrame(f: seq<byte>, n: nat, m: nat)
    requires 22 + n <= m <= |f|
    ensures f[..9] + Sub(f, 9, n) + f[9 + n..22 + n] + f[22 + n..m] == f[..m]
  {
  }

  /** An accepted frame is the encoding of what is read from it. */
  lemma EncodeDecode(f: seq<byte>)
    requires Accepted(f)
    ensures ValidFrame(FrameData(Decode(f), UnreadOf(f))) && Encode(FrameData(Decode(f), UnreadOf(f))) == f
  {
    DecodedIsValid(f);
    DecodedHead(f);
    DecodedTail(f);
    DecodedMetrics(f);
    JoinFrame(f, f[2], |f| - 1);
    CheckedIsSealed(f, f[..|f| - 1]);
  }

  /** Encodings are accepted. */
  lemma EncodeIsAccepted(fr: Frame)
    ensures Accepted(Encode(fr))
  {
    EncodeIsComplete(fr);
    SealIsChecked(Body(fr));
    DecodeEncode(fr);
  }

  /** `TAKE_N_BITS_FROM` */
  function TakeBits(b: byte, from: nat, n: nat): nat {
    b / Pow2(from) % Pow2(n)
  }

  /** The fields of the head as the macros name them. */
  lemma HeadMacros(f: seq<byte>)
    requires Complete(f)
    ensures var p := Decode(f);
      && |p.payload| == TakeBits(f[2], 0, 8) && p.channel == TakeBits(f[3], 0, 8)
      && FromBool(p.crcEn) == TakeBits(f[4], 0, 1) && p.codingRate == TakeBits(f[4], 1, 3)
      && p.sf == TakeBits(f[4], 4, 4) && p.modemId == TakeBits(f[5], 0, 8)
    ensures var raw := TakeBits(f[8], 0, 4) * 0x1_0000 + TakeBits(f[7], 0, 8) * 0x100 + TakeBits(f[6], 0, 8);
      Decode(f).freqOffset == if raw >= 0x8_0000 then raw - 0x10_0000 else raw
    ensures forall k :: 0 <= k < |Decode(f).payload| ==> Decode(f).payload[k] == f[9 + k]
  {
    SmallPowers();
    hide Pow2;
  }

  lemma SmallPowers()
    ensures Pow2(0) == 1 && Pow2(1) == 2 && Pow2(2) == 4 && Pow2(3) == 8 && Pow2(4) == 16 && Pow2(8) == 256
  {
    WordSizes();
  }

  /** `v` is the signed 8-bit value of the byte `b`. */
  predicate IsSigned8(v: int, b: int) {
    -128 <= v < 128 && (v - b) % 256 == 0
  }

  /** The flags behind the payload. */
  lemma FlagMacros(f: seq<byte>)
    requires Complete(f)
    ensures var p, b := Decode(f), f[9 + f[2]];
      && FromBool(p.crcError) == TakeBits(b, 0, 1) && FromBool(p.syncError) == TakeBits(b, 2, 1)
      && FromBool(p.headerError) == TakeBits(b, 3, 1) && FromBool(p.timingSet) == TakeBits(b, 4, 1)
  {
    SmallPowers();
    hide Pow2;
  }

  /** The fields behind the flags. */
  lemma TailMacros(f: seq<byte>)
    requires Complete(f)
    ensures var p := Decode(f); var t: seq<int> := f[9 + f[2]..];
      && IsSigned8(p.snr, t[1]) && p.rssiChan == t[2] && p.rssiSig == t[3]
      && p.timestamp == t[6] + 0x100 * t[7] + 0x1_0000 * t[8] + 0x100_0000 * t[9]
      && p.crc16 == t[10] + 0x100 * t[11] && |p.tsMetrics| == 2 * t[12]
      && forall k :: 0 <= k < |p.tsMetrics| ==> IsSigned8(p.tsMetrics[k], t[13 + k])
  {
    assert f[9 + f[2]..][12] == f[f[2] + 21];
  }

  /** What a pop finds, in terms of the bytes: of all frames that are as long as they say, with at most 127
      pairs of metrics, it takes those with a correct checksum that are from an FSK modem, or from a LoRa
      modem with a channel up to 9 and a spreading factor of 5 to 12 in the high half of the fifth byte. */
  lemma CheckByBytes(f: seq<byte>)
    requires |f| >= 23 && f[0] == 0xA5 && f[1] == 0xC0
    requires f[2] as int + 21 < |f| && |f| == 23 + f[2] as int + 2 * f[f[2] as int + 21] as int
    requires f[f[2] as int + 21] <= 127
    ensures Check(f) == if f[|f| - 1] != Sum(f, |f| - 1) % 256 then WrongChecksum
                        else if f[5] > 17 || (f[5] <= 16 && (f[3] > 9 || f[4] < 0x50 || f[4] >= 0xD0)) then OutOfRange
                        else Accept
  {
    hide Sum;
    assert Decode(f).sf == f[4] / 16;
  }

  /** No other bytes are a frame that can be read to its end. */
  lemma FramedByBytes(f: seq<byte>)
    ensures Framed(f) ==>
            && |f| >= 23 && f[0] == 0xA5 && f[1] == 0xC0
            && f[2] as int + 21 < |f| && |f| == 23 + f[2] as int + 2 * f[f[2] as int + 21] as int
    ensures Framed(f) && f[f[2] as int + 21] > 127 ==> f[|f| - 1] != Sum(f, |f| - 1) % 256
  {
    hide Sum;
  }

  lemma {:induction false} SumCounts(s: seq<byte>, n: nat, k: nat, v: byte)
    requires k < n <= |s|
    ensures Sum(s[k := v], n) == Sum(s, n) - s[k] + v
    decreases n
  {
    if k < n - 1 {
      SumCounts(s, n - 1, k, v);
    } else {
      SumOfSame(s, s[k := v], k);
    }
  }

  lemma {:induction false} SumOfSame(s: seq<byte>, t: seq<byte>, n: nat)
    requires n <= |s| && n <= |t| && forall k :: 0 <= k < n ==> s[k] == t[k]
    ensures Sum(s, n) == Sum(t, n)
    decreases n
  {
    if n > 0 {
      SumOfSame(s, t, n - 1);
    }
  }

  /** Any single changed byte of a frame is found by the checksum, wherever it is, unless it changes the length
      fields or the sync word. */
  lemma ChangedByteIsFound(f: seq<byte>, k: nat, v: byte)
    requires Framed(f) && ChecksumOk(f) && 2 < k < |f| && k != f[2] as int + 21 && v != f[k]
    ensures Check(f[k := v]) == WrongChecksum
  {
    var g := f[k := v];
    var n := |f| - 1;
    if k < n {
      SumCounts(f, n, k, v);
      DifferentResidues(Sum(f, n), Sum(g, n));
    } else {
      SumOfSame(f, g, n);
    }
  }

  lemma DifferentResidues(a: int, b: int)
    requires -256 < a - b < 256 && a != b
    ensures a % 256 != b % 256
  {
  }

  function SmallestFrame(): (f: seq<byte>)
    ensures Accepted(f)
  {
    EncodeIsAccepted(SMALLEST);
    Encode(SMALLEST)
  }

  /** The frames that `rx_buffer_pop` reads to their end inside the array, good or bad. */
  predicate Framed(f: seq<byte>) {
    Check(f) == Accept || Check(f) == WrongChecksum || Check(f) == OutOfRange
  }

  lemma FramedIsComplete(f: seq<byte>)
    requires Framed(f)
    ensures SyncAt(f, 0) && Complete(f) && |f| >= 23
  {
  }

  type RawFrame = f: seq<byte> | Framed(f) witness SmallestFrame()
}
