/** `lgw_receive` over `sx1302_fetch` and `sx1302_parse`, with fine timestamping off: which packets
    of the FIFO's stream the caller gets over any run of calls.
 */
module Receive {
  import opened Bits
  import opened Crc
  import opened RxFrame
  import opened RxBuffer
  import opened RxStream
  import opened Streams

  const IF_CHAIN_NB := 10
  const IF_CHAIN_STD := 8
  const IF_CHAIN_FSK := 9

  datatype Status = NoCrc | CrcOk | CrcBad

  /** `lgw_pkt_rx_s`, without the radio measurements. `timestamp` is the raw 32 MHz counter. */
  datatype HalPacket = HalPacket(
    payload: seq<byte>, modemId: byte, ifChain: byte, status: Status, crc: nat, timestamp: nat)

  datatype ParseResult = Parsed(hal: HalPacket) | ParseWarning | ParseError

  /** What `sx1302_parse` makes of a popped packet. `implicitCrc` is `lora_service_cfg.implicit_crc_en`. */
  function Convert(implicitCrc: bool, p: RxPacket): ParseResult {
    if p.channel >= IF_CHAIN_NB then ParseError
    else if p.channel != IF_CHAIN_FSK then
      if p.crcEn || (p.channel == IF_CHAIN_STD && implicitCrc) then
        if p.crcError then Parsed(ToHal(p, CrcBad))
        else if |p.payload| > 0 && PayloadCrc(p.payload) != p.crc16 then ParseError
        else Parsed(ToHal(p, CrcOk))
      else Parsed(ToHal(p, NoCrc))
    else if p.crcEn then
      if p.crcError then Parsed(ToHal(p, CrcBad)) else Parsed(ToHal(p, CrcOk))
    else Parsed(ToHal(p, NoCrc))
  }

  function ToHal(p: RxPacket, status: Status): HalPacket {
    HalPacket(p.payload, p.modemId, p.channel, status, p.crc16, p.timestamp)
  }

  /** The CRC of the packet is to be checked: it says that it has one, or it is from the service modem and its
      headers are implicit. */
  predicate CrcIsOn(implicitCrc: bool, p: RxPacket) {
    p.crcEn || (p.channel == 8 && implicitCrc)
  }

  /** The CRC field is the remainder of the payload modulo x^16+x^12+x^5+1. */
  ghost predicate CrcFieldIsRemainder(p: RxPacket)
    requires p.crc16 < 0x1_0000
  {
    IsRemainder(MessageBits(p.payload), BitsOf(p.crc16, 16))
  }

  /** The packet handed on has the payload, modem, channel, CRC and stamp of the frame. */
  predicate Reports(r: ParseResult, p: RxPacket, status: Status) {
    r.Parsed? && r.hal == HalPacket(payload := p.payload, modemId := p.modemId, ifChain := p.channel, status := status,
                                    crc := p.crc16, timestamp := p.timestamp)
  }

  /** LoRa packets: what is reported, by the flags and the remainder of the payload. */
  lemma LoraStatusIff(implicitCrc: bool, p: RxPacket)
    requires p.channel <= 8 && p.crc16 < 0x1_0000
    ensures Reports(Convert(implicitCrc, p), p, CrcBad) <==> CrcIsOn(implicitCrc, p) && p.crcError
    ensures Reports(Convert(implicitCrc, p), p, CrcOk) <==>
            CrcIsOn(implicitCrc, p) && !p.crcError && (p.payload == [] || CrcFieldIsRemainder(p))
    ensures Reports(Convert(implicitCrc, p), p, NoCrc) <==> !CrcIsOn(implicitCrc, p)
    ensures Convert(implicitCrc, p) == ParseError <==>
            CrcIsOn(implicitCrc, p) && !p.crcError && p.payload != [] && !CrcFieldIsRemainder(p)
  {
    CrcIsTheRemainder(p.payload, p.crc16);
  }

  /** FSK packets: the flags alone decide, and none is refused. Channels above are always refused. */
  lemma FskStatusIff(implicitCrc: bool, p: RxPacket)
    requires p.channel >= 9
    ensures Reports(Convert(implicitCrc, p), p, CrcBad) <==> p.channel == 9 && p.crcEn && p.crcError
    ensures Reports(Convert(implicitCrc, p), p, CrcOk) <==> p.channel == 9 && p.crcEn && !p.crcError
    ensures Reports(Convert(implicitCrc, p), p, NoCrc) <==> p.channel == 9 && !p.crcEn
    ensures Convert(implicitCrc, p) == ParseError <==> p.channel >= 10
  {
  }

  /** A LoRa packet that arrives with a good CRC is refused when an error burst of up to 16 bits has
      changed its payload since, even if the frame checksum still fits. */
  lemma BurstInPayloadIsRefused(implicitCrc: bool, p: RxPacket, payload: seq<byte>, start: int, k: int)
    requires p.channel < IF_CHAIN_FSK && Convert(implicitCrc, p) == Parsed(ToHal(p, CrcOk))
    requires p.payload != [] && payload != [] && Differ(p.payload, payload, k)
    requires forall j :: Differ(p.payload, payload, j) ==> start <= j < start + 16
    ensures Convert(implicitCrc, p.(payload := payload)) == ParseError
  {
    BurstIsDetected(p.payload, payload, start, k);
  }

  /** `sx1302_parse`: a damaged frame makes it delete the whole buffer. */
  function ParseNext(implicitCrc: bool, s: State): (ParseResult, State)
    requires PopInside(s)
  {
    match PopOutcome(s)
    case PopWarning => (ParseWarning, Deleted(s))
    case PopError => (ParseError, s)
    case Popped(p) => (Convert(implicitCrc, p), AfterPop(s))
  }

  // ---------- One call ----------

  predicate PopsInside(implicitCrc: bool, s: State, n: nat)
    decreases n
  {
    n > 0 ==>
      && PopInside(s)
      && (ParseNext(implicitCrc, s).0.Parsed? ==> PopsInside(implicitCrc, ParseNext(implicitCrc, s).1, n - 1))
  }

  /** The parsing loop of `lgw_receive` with `n` packets to go and `got` already parsed. A damaged frame
      makes the call return 0 whatever it parsed before. */
  function Collect(implicitCrc: bool, s: State, n: nat, got: seq<HalPacket>): (Result<HalPacket>, State)
    requires PopsInside(implicitCrc, s, n)
    decreases n
  {
    if n == 0 then (Received(got), s)
    else
      var (r, t) := ParseNext(implicitCrc, s);
      match r
      case ParseWarning => (Received([]), t)
      case ParseError => (Failed, t)
      case Parsed(hal) => Collect(implicitCrc, t, n - 1, got + [hal])
  }

  /** The next frame in the buffer is whole and correct, and its packet is not refused. */
  predicate GoodFront(implicitCrc: bool, s: State) {
    && s.size <= |s.buf| && FrontOf(s).Whole? && Check(FrontOf(s).frame) == Accept
    && Convert(implicitCrc, Decode(FrontOf(s).frame)).Parsed?
  }

  /** The buffer without its next frame. */
  function Next(s: State): State
    requires s.size <= |s.buf| && FrontOf(s).Whole?
  {
    s.(index := s.index + |FrontOf(s).frame|, pktNb := (s.pktNb + 255) % 256)
  }

  /** The next `n` frames are all good. */
  predicate GoodFronts(implicitCrc: bool, s: State, n: nat)
    decreases n
  {
    n > 0 ==> GoodFront(implicitCrc, s) && GoodFronts(implicitCrc, Next(s), n - 1)
  }

  /** The packets of the next `n` frames, and the buffer without them. */
  function Fronts(implicitCrc: bool, s: State, n: nat): (r: (seq<HalPacket>, State))
    requires GoodFronts(implicitCrc, s, n)
    ensures |r.0| == n
    decreases n
  {
    if n == 0 then ([], s)
    else
      var (hals, t) := Fronts(implicitCrc, Next(s), n - 1);
      ([Convert(implicitCrc, Decode(FrontOf(s).frame)).hal] + hals, t)
  }

  /** What a frame that is not good makes of the call and of the buffer that starts with it: one that is
      cut off or has a wrong checksum empties the buffer, one that is refused is consumed, and any other
      stays. */
  function Spoiled(s: State): (Result<HalPacket>, State)
    requires s.size <= |s.buf|
  {
    match FrontOf(s)
    case Cut => (Received([]), Deleted(s))
    case Whole(f) =>
      if Check(f) == WrongChecksum then (Received([]), Deleted(s))
      else if Check(f) == Accept then (Failed, Next(s))
      else (Failed, s)
    case _ => (Failed, s)
  }

  lemma ParseIsGoodFront(implicitCrc: bool, s: State)
    requires PopInside(s)
    ensures s.size <= |s.buf|
    ensures if GoodFront(implicitCrc, s) then
              ParseNext(implicitCrc, s) == (Convert(implicitCrc, Decode(FrontOf(s).frame)), Next(s))
            else
              && !ParseNext(implicitCrc, s).0.Parsed? && ParseNext(implicitCrc, s).1 == Spoiled(s).1
              && Spoiled(s).0 == if ParseNext(implicitCrc, s).0.ParseWarning? then Received([]) else Failed
  {
  }

  /** The loop returns all the packets it was asked for exactly when the bytes of the next frames are all
      good. */
  lemma {:induction false} CollectIff(implicitCrc: bool, s: State, n: nat, got: seq<HalPacket>)
    requires PopsInside(implicitCrc, s, n)
    ensures var (r, t) := Collect(implicitCrc, s, n, got);
      && (r.Received? && |r.pkts| == |got| + n <==> GoodFronts(implicitCrc, s, n))
      && (GoodFronts(implicitCrc, s, n) ==>
            r == Received(got + Fronts(implicitCrc, s, n).0) && t == Fronts(implicitCrc, s, n).1)
    decreases n
  {
    hide PopInside, ParseNext, GoodFront, Convert, Spoiled, Next;
    if n > 0 {
      ParseIsGoodFront(implicitCrc, s);
      if GoodFront(implicitCrc, s) {
        GoodFrontIsWhole(implicitCrc, s);
        var hal := Convert(implicitCrc, Decode(FrontOf(s).frame)).hal;
        CollectIff(implicitCrc, Next(s), n - 1, got + [hal]);
      } else {
        SpoiledIsShort(s);
      }
    }
  }

  lemma GoodFrontIsWhole(implicitCrc: bool, s: State)
    requires GoodFront(implicitCrc, s)
    ensures FrontOf(s).Whole? && Complete(FrontOf(s).frame) && Convert(implicitCrc, Decode(FrontOf(s).frame)).Parsed?
  {
  }

  lemma SpoiledIsShort(s: State)
    requires s.size <= |s.buf|
    ensures Spoiled(s).0 == Failed || Spoiled(s).0 == Received([])
  {
  }

  /** The first bad frame ends the call. The packets of the good frames before it are lost. */
  lemma {:induction false} FirstBadFrame(implicitCrc: bool, s: State, k: nat, n: nat, got: seq<HalPacket>)
    requires PopsInside(implicitCrc, s, n) && k < n && GoodFronts(implicitCrc, s, k)
    requires !GoodFront(implicitCrc, Fronts(implicitCrc, s, k).1)
    ensures Fronts(implicitCrc, s, k).1.size <= |Fronts(implicitCrc, s, k).1.buf|
    ensures Collect(implicitCrc, s, n, got) == Spoiled(Fronts(implicitCrc, s, k).1)
    decreases n
  {
    hide PopInside, ParseNext, GoodFront, Convert, Spoiled, Next;
    ParseIsGoodFront(implicitCrc, s);
    if k > 0 {
      GoodFrontIsWhole(implicitCrc, s);
      var hal := Convert(implicitCrc, Decode(FrontOf(s).frame)).hal;
      FirstBadFrame(implicitCrc, Next(s), k - 1, n - 1, got + [hal]);
    }
  }

  /** The state after `sx1302_fetch`. */
  function AfterFetch(s: State, data: seq<byte>): State
    requires s.pktNb == 0 ==> FetchInside(data)
  {
    if s.pktNb == 0 then Fetched(State(Padded([]), 0, 0, 0), data) else s
  }

  function Min(a: nat, b: nat): nat {
    if a <= b then a else b
  }

  predicate CallInside(implicitCrc: bool, s: State, maxPkt: nat, data: seq<byte>) {
    && (s.pktNb == 0 ==> FetchInside(data))
    && PopsInside(implicitCrc, AfterFetch(s, data), Min(AfterFetch(s, data).pktNb, maxPkt))
  }

  /** One call of `lgw_receive`, when the FIFO would deliver `data`. */
  function ReceiveCall(implicitCrc: bool, s: State, maxPkt: nat, data: seq<byte>): (Result<HalPacket>, State)
    requires CallInside(implicitCrc, s, maxPkt, data)
  {
    var t := AfterFetch(s, data);
    Collect(implicitCrc, t, Min(t.pktNb, maxPkt), [])
  }

  class Hal {
    const rx: RxBuffer
    const implicitCrc: bool

    constructor (implicitCrc: bool)
      ensures fresh(rx) && fresh(rx.buffer) && rx.Valid() && rx.Value() == State(Padded([]), 0, 0, 0)
      ensures this.implicitCrc == implicitCrc
    {
      rx := new RxBuffer();
      this.implicitCrc := implicitCrc;
    }

    /** `sx1302_fetch`: `nb1`, `nb2` and `fifo` are what a fetch reads from the chip. */
    method Fetch(nb1: uint16, nb2: uint16, fifo: seq<byte>) returns (nbPkt: nat)
      requires rx.Valid()
      requires (if nb2 > nb1 then nb2 else nb1) <= |fifo|
      requires rx.pktNb == 0 ==> FetchInside(fifo[..if nb2 > nb1 then nb2 else nb1])
      modifies rx, rx.buffer
      ensures rx.Valid() && nbPkt == rx.pktNb
      ensures rx.Value() == AfterFetch(old(rx.Value()), fifo[..if nb2 > nb1 then nb2 else nb1])
    {
      if rx.pktNb == 0 {
        rx.New();
        rx.Fetch(nb1, nb2, fifo);
      }
      nbPkt := rx.pktNb;
    }

    /** `sx1302_parse` */
    method ParsePacket() returns (r: ParseResult)
      requires rx.Valid() && PopInside(rx.Value())
      modifies rx
      ensures rx.Valid() && (r, rx.Value()) == ParseNext(implicitCrc, old(rx.Value()))
    {
      var p := rx.Pop();
      match p
      case PopWarning =>
        rx.Del();
        r := ParseWarning;
      case PopError =>
        r := ParseError;
      case Popped(pkt) =>
        r := Convert(implicitCrc, pkt);
    }

    /** The parsing loop of `lgw_receive`. */
    method ParsePackets(n: nat) returns (r: Result<HalPacket>)
      requires rx.Valid() && PopsInside(implicitCrc, rx.Value(), n)
      modifies rx
      ensures rx.Valid() && (r, rx.Value()) == Collect(implicitCrc, old(rx.Value()), n, [])
    {
      hide ParseNext, PopInside;
      ghost var t := rx.Value();
      ghost var s := t;
      var got := [];
      for found := 0 to n
        invariant rx.Valid() && rx.Value() == s
        invariant PopsInside(implicitCrc, s, n - found)
        invariant Collect(implicitCrc, s, n - found, got) == Collect(implicitCrc, t, n, [])
      {
        var p := ParsePacket();
        match p {
          case ParseWarning => return Received([]);
          case ParseError => return Failed;
          case Parsed(hal) => got := got + [hal];
        }
        s := ParseNext(implicitCrc, s).1;
      }
      return Received(got);
    }

    /** `lgw_receive` */
    method Receive(maxPkt: byte, nb1: uint16, nb2: uint16, fifo: seq<byte>) returns (r: Result<HalPacket>)
      requires rx.Valid()
      requires (if nb2 > nb1 then nb2 else nb1) <= |fifo|
      requires CallInside(implicitCrc, rx.Value(), maxPkt, fifo[..if nb2 > nb1 then nb2 else nb1])
      modifies rx, rx.buffer
      ensures rx.Valid()
      ensures (r, rx.Value()) ==
              old(ReceiveCall(implicitCrc, rx.Value(), maxPkt, fifo[..if nb2 > nb1 then nb2 else nb1]))
    {
      var fetched := Fetch(nb1, nb2, fifo);
      if fetched == 0 {
        return Received([]);
      }
      r := ParsePackets(Min(fetched, maxPkt));
    }
  }
}
