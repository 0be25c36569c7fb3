/** Whole runs of `lgw_receive` on the real buffer, for arriving frames good or bad: they are runs of the
    queue of frames, so the caller gets the FIFO's packets in order, and frames are lost or block the
    receiver exactly where the queue says so.
 */
module Delivery {
  import opened Bits
  import opened Streams
  import opened Queues
  import opened RxFrame
  import opened RxBuffer
  import opened RxStream
  import opened Receive

  /** The receive buffer and the frames waiting in the FIFO. */
  datatype System = System(rx: State, fifo: seq<RawFrame>)

  /** What a call makes of a frame, read off its bytes. */
  function FateOf(implicitCrc: bool, f: RawFrame): Fate {
    if Check(f) == WrongChecksum then Damaged
    else if Check(f) == OutOfRange then Blocking
    else if Convert(implicitCrc, Decode(f)).Parsed? then Good
    else Refused
  }

  /** The packet that `sx1302_parse` makes of a good frame. */
  function Hal(implicitCrc: bool, f: RawFrame): HalPacket {
    match Convert(implicitCrc, Decode(f))
    case Parsed(hal) => hal
    case _ => ToHal(Decode(f), NoCrc)
  }

  function Fates(implicitCrc: bool): RawFrame -> Fate {
    (f: RawFrame) => FateOf(implicitCrc, f)
  }

  function Hals(implicitCrc: bool): RawFrame -> HalPacket {
    (f: RawFrame) => Hal(implicitCrc, f)
  }

  // ---------- One call on a buffer that holds frames ----------

  lemma ParseHeld(implicitCrc: bool, s: State, fs: seq<RawFrame>)
    requires Holds(s, fs) && fs != [] && |fs| < 256
    ensures PopInside(s)
    ensures var (r, t) := ParseNext(implicitCrc, s);
      match FateOf(implicitCrc, fs[0])
      case Good => r == Parsed(Hal(implicitCrc, fs[0])) && Holds(t, fs[1..])
      case Refused => r == ParseError && Holds(t, fs[1..])
      case Damaged => r == ParseWarning && Holds(t, [])
      case Blocking => r == ParseError && t == s
  {
    hide PopInside, PopOutcome, AfterPop, Convert;
    PopHeld(s, fs);
    DeletedHolds(s, fs);
    ConvertIsParsedOrError(implicitCrc, Decode(fs[0]));
  }

  lemma DeletedHolds(s: State, fs: seq<RawFrame>)
    requires Holds(s, fs)
    ensures Holds(Deleted(s), [])
  {
  }

  lemma ConvertIsParsedOrError(implicitCrc: bool, p: RxPacket)
    ensures Convert(implicitCrc, p) != ParseWarning
  {
  }

  /** The loop takes from the buffer what a call takes from the queue. */
  lemma {:induction false} CollectTakes(implicitCrc: bool, s: State, fs: seq<RawFrame>, n: nat, got: seq<HalPacket>)
    requires Holds(s, fs) && n <= |fs| < 256
    ensures PopsInside(implicitCrc, s, n)
    ensures var (r, left) := Taken(Fates(implicitCrc), Hals(implicitCrc), fs, n);
      && Collect(implicitCrc, s, n, got).0 == Behind(got, r, GoodPrefix(Fates(implicitCrc), fs, n) == n)
      && Holds(Collect(implicitCrc, s, n, got).1, left)
    decreases n
  {
    hide PopInside, ParseNext, FateOf, Hal, Holds, Map, Taken, GoodPrefix;
    var fate, h := Fates(implicitCrc), Hals(implicitCrc);
    if n == 0 {
      NothingTaken(fate, h, fs);
      Neutral(got);
    } else {
      ParseHeld(implicitCrc, s, fs);
      TakenFirst(fate, h, fs, n);
      if fate(fs[0]) == Good {
        CollectTakes(implicitCrc, ParseNext(implicitCrc, s).1, fs[1..], n - 1, got + [Hal(implicitCrc, fs[0])]);
        Associative(got, [h(fs[0])], Output(Taken(fate, h, fs[1..], n - 1).0));
      }
    }
  }

  /** The packets got before count only if no bad frame comes. */
  function Behind<H>(got: seq<H>, r: Result<H>, complete: bool): Result<H> {
    if complete && r.Received? then Received(got + r.pkts) else r
  }

  lemma NothingTaken<T, H>(fate: T -> Fate, h: T -> H, fs: seq<T>)
    ensures Taken(fate, h, fs, 0) == (Received([]), fs)
  {
    assert fs[0..] == fs && Map(h, fs[..0]) == [];
  }

  lemma TakenFirst<T, H>(fate: T -> Fate, h: T -> H, fs: seq<T>, n: nat)
    requires 0 < n <= |fs|
    ensures GoodPrefix(fate, fs, n) == if fate(fs[0]) == Good then 1 + GoodPrefix(fate, fs[1..], n - 1) else 0
    ensures var (r, left) := Taken(fate, h, fs[1..], n - 1);
      match fate(fs[0])
      case Good => Taken(fate, h, fs, n) == (Behind([h(fs[0])], r, GoodPrefix(fate, fs, n) == n), left)
      case Refused => Taken(fate, h, fs, n) == (Failed, fs[1..])
      case Damaged => Taken(fate, h, fs, n) == (Received([]), [])
      case Blocking => Taken(fate, h, fs, n) == (Failed, fs)
  {
    var k := GoodPrefix(fate, fs, n);
    assert fs[0..] == fs;
    if k == n {
      assert Map(h, fs[..n]) == [h(fs[0])] + Map(h, fs[1..][..n - 1]);
    } else if k > 0 {
      assert fs[1..][k - 1] == fs[k] && fs[1..][k - 1..] == fs[k..] && fs[1..][k..] == fs[k + 1..];
    }
  }

  /** A call returns all the packets it asks for exactly when the frames it meets are all good. */
  lemma CallReturnsAllIff(implicitCrc: bool, s: State, fs: seq<RawFrame>, n: nat)
    requires Holds(s, fs) && n <= |fs| < 256
    ensures PopsInside(implicitCrc, s, n)
    ensures Collect(implicitCrc, s, n, []).0 == Received(Map(Hals(implicitCrc), fs[..n])) <==>
            forall k :: 0 <= k < n ==> FateOf(implicitCrc, fs[k]) == Good
  {
    hide Collect, Holds, PopsInside, FateOf;
    var fate := Fates(implicitCrc);
    CollectTakes(implicitCrc, s, fs, n, []);
    var k := GoodPrefix(fate, fs, n);
    Neutral(Map(Hals(implicitCrc), fs[..n]));
    if k < n {
      assert fate(fs[k]) != Good;
    }
    assert forall i :: 0 <= i < k ==> fate(fs[i]) == FateOf(implicitCrc, fs[i]);
  }

  // ---------- One event ----------

  predicate StepInside(implicitCrc: bool, sys: System, e: Event<RawFrame>) {
    e.Call? ==> CallInside(implicitCrc, sys.rx, e.maxPkt, Concat(sys.fifo))
  }

  /** A frame arrives in the FIFO, or `lgw_receive` is called. A fetch empties the FIFO. */
  function Step(implicitCrc: bool, sys: System, e: Event<RawFrame>): (System, Result<HalPacket>)
    requires StepInside(implicitCrc, sys, e)
  {
    match e
    case Arrive(f) => (System(sys.rx, sys.fifo + [f]), Received([]))
    case Call(maxPkt) =>
      var (r, t) := ReceiveCall(implicitCrc, sys.rx, maxPkt, Concat(sys.fifo));
      (System(t, if sys.rx.pktNb == 0 then [] else sys.fifo), r)
  }

  /** The buffer holds the frames of the queue, and the FIFO those waiting in it. */
  predicate Represents(sys: System, q: Queue<RawFrame>) {
    && Holds(sys.rx, q.held) && |q.held| <= 179
    && sys.fifo == q.fifo && |Concat(q.fifo)| <= CAPACITY
  }

  /** The FIFO has room for an arriving frame. */
  predicate HasRoom(q: Queue<RawFrame>, e: Event<RawFrame>) {
    e.Arrive? ==> |Concat(q.fifo + [e.frame])| <= 4096
  }

  lemma FetchHolds(sys: System, q: Queue<RawFrame>)
    requires Represents(sys, q)
    ensures sys.rx.pktNb == 0 <==> q.held == []
    ensures sys.rx.pktNb == 0 ==> FetchInside(Concat(sys.fifo))
    ensures Holds(AfterFetch(sys.rx, Concat(sys.fifo)), Base(q)) && |Base(q)| <= 179
    ensures AfterFetch(sys.rx, Concat(sys.fifo)).pktNb == |Base(q)|
  {
    hide Holds, FetchInside, Fetched;
    HoldsCount(sys.rx, q.held);
    if q.held == [] {
      Neutral(Concat(sys.fifo));
      FetchStream(State(Padded([]), 0, 0, 0), [], sys.fifo);
    }
    HoldsCount(AfterFetch(sys.rx, Concat(sys.fifo)), Base(q));
  }

  /** Every event acts on the buffer and the FIFO as it does on the queue. */
  lemma StepRefines(implicitCrc: bool, sys: System, q: Queue<RawFrame>, e: Event<RawFrame>)
    requires Represents(sys, q) && HasRoom(q, e)
    ensures StepInside(implicitCrc, sys, e)
    ensures var (q', r) := QueueStep(Fates(implicitCrc), Hals(implicitCrc), q, e);
      Represents(Step(implicitCrc, sys, e).0, q') && Step(implicitCrc, sys, e).1 == r
  {
    hide Holds, Collect, PopsInside, AfterFetch, FetchInside, GoodPrefix;
    if e.Call? {
      FetchHolds(sys, q);
      var t := AfterFetch(sys.rx, Concat(sys.fifo));
      var n := Asked(q, e.maxPkt);
      CollectTakes(implicitCrc, t, Base(q), n, []);
      TakenIsShorter(Fates(implicitCrc), Hals(implicitCrc), Base(q), n);
      NothingBehind(Taken(Fates(implicitCrc), Hals(implicitCrc), Base(q), n).0,
                    GoodPrefix(Fates(implicitCrc), Base(q), n) == n);
    }
  }

  lemma TakenIsShorter<T, H>(fate: T -> Fate, h: T -> H, fs: seq<T>, n: nat)
    requires n <= |fs|
    ensures |Taken(fate, h, fs, n).1| <= |fs|
  {
  }

  lemma NothingBehind<H>(r: Result<H>, complete: bool)
    ensures Behind([], r, complete) == r
  {
  }

  // ---------- Runs ----------

  predicate RunInside(implicitCrc: bool, sys: System, events: seq<Event<RawFrame>>)
    decreases |events|
  {
    events != [] ==>
      && StepInside(implicitCrc, sys, events[0])
      && RunInside(implicitCrc, Step(implicitCrc, sys, events[0]).0, events[1..])
  }

  /** The system after the events, and the result of each. */
  function Run(implicitCrc: bool, sys: System, events: seq<Event<RawFrame>>): (System, seq<Result<HalPacket>>)
    requires RunInside(implicitCrc, sys, events)
    decreases |events|
  {
    if events == [] then (sys, [])
    else
      var (next, r) := Step(implicitCrc, sys, events[0]);
      var (end, rs) := Run(implicitCrc, next, events[1..]);
      (end, [r] + rs)
  }

  /** The FIFO has room for each arriving frame when it arrives. */
  predicate RunHasRoom(implicitCrc: bool, q: Queue<RawFrame>, events: seq<Event<RawFrame>>)
    decreases |events|
  {
    events != [] ==>
      && HasRoom(q, events[0])
      && RunHasRoom(implicitCrc, QueueStep(Fates(implicitCrc), Hals(implicitCrc), q, events[0]).0, events[1..])
  }

  /** Every run, whatever frames arrive, stays inside the array and returns, call by call, what the queue
      returns. */
  lemma {:induction false} RunRefines(implicitCrc: bool, sys: System, q: Queue<RawFrame>, events: seq<Event<RawFrame>>)
    requires Represents(sys, q) && RunHasRoom(implicitCrc, q, events)
    ensures RunInside(implicitCrc, sys, events)
    ensures var (end, rs) := QueueRun(Fates(implicitCrc), Hals(implicitCrc), q, events);
      Represents(Run(implicitCrc, sys, events).0, end) && Run(implicitCrc, sys, events).1 == rs
    decreases |events|
  {
    hide Represents, HasRoom, StepInside, Step, QueueStep;
    if events != [] {
      StepRefines(implicitCrc, sys, q, events[0]);
      RunRefines(implicitCrc, Step(implicitCrc, sys, events[0]).0,
                 QueueStep(Fates(implicitCrc), Hals(implicitCrc), q, events[0]).0, events[1..]);
    }
  }

  const START := System(State(Padded([]), 0, 0, 0), [])
  const EMPTY: Queue<RawFrame> := Queue([], [])

  lemma StartIsEmpty()
    ensures Represents(START, EMPTY)
  {
  }

  /** From start-up, over any run and for any frames: what has been returned and what is still pending is
      exactly what arrived, in order, if and only if no call lost a frame. */
  lemma DeliversIff(implicitCrc: bool, events: seq<Event<RawFrame>>)
    requires RunHasRoom(implicitCrc, EMPTY, events)
    ensures RunInside(implicitCrc, START, events)
    ensures var pending := Pending(QueueRun(Fates(implicitCrc), Hals(implicitCrc), EMPTY, events).0);
      Delivered(Hals(implicitCrc), Arrivals(events), Outputs(Run(implicitCrc, START, events).1), pending) <==>
      RunLosesNothing(Fates(implicitCrc), Hals(implicitCrc), EMPTY, events)
  {
    hide Delivered, QueueStep, Represents, RunHasRoom, LosesNothing, Step, StepInside;
    StartIsEmpty();
    RunRefines(implicitCrc, START, EMPTY, events);
    RunDeliversIff(Fates(implicitCrc), Hals(implicitCrc), EMPTY, events);
    Neutral(Arrivals(events));
    Neutral<RawFrame>([]);
  }

  /** With good frames only, the packets returned so far are the first of those that arrived, in order. */
  lemma DeliveryFromStart(implicitCrc: bool, events: seq<Event<RawFrame>>)
    requires RunHasRoom(implicitCrc, EMPTY, events) && AllGood(Fates(implicitCrc), Arrivals(events))
    ensures RunInside(implicitCrc, START, events)
    ensures Outputs(Run(implicitCrc, START, events).1) <= Map(Hals(implicitCrc), Arrivals(events))
  {
    hide QueueStep, Represents, RunHasRoom, LosesNothing, Step, StepInside, RunLosesNothing;
    Neutral(Arrivals(events));
    Neutral<RawFrame>([]);
    GoodRun(Fates(implicitCrc), Hals(implicitCrc), EMPTY, events);
    DeliversIff(implicitCrc, events);
  }

  lemma {:induction false} CallsHaveRoom(implicitCrc: bool, q: Queue<RawFrame>, maxPkt: nat, n: nat)
    ensures RunHasRoom(implicitCrc, q, Calls(maxPkt, n))
    decreases n
  {
    hide QueueStep;
    if n > 0 {
      var e: Event<RawFrame> := Call(maxPkt);
      assert Calls<RawFrame>(maxPkt, n)[1..] == Calls<RawFrame>(maxPkt, n - 1);
      CallsHaveRoom(implicitCrc, QueueStep(Fates(implicitCrc), Hals(implicitCrc), q, e).0, maxPkt, n - 1);
    }
  }

  /** Once nothing more arrives, as many calls as there are good frames pending return all their packets. */
  lemma PendingIsDrained(implicitCrc: bool, sys: System, q: Queue<RawFrame>, maxPkt: nat, n: nat)
    requires Represents(sys, q) && AllGood(Fates(implicitCrc), Pending(q)) && maxPkt > 0 && n >= |Pending(q)|
    ensures RunInside(implicitCrc, sys, Calls(maxPkt, n))
    ensures Outputs(Run(implicitCrc, sys, Calls(maxPkt, n)).1) == Map(Hals(implicitCrc), Pending(q))
  {
    hide Represents, AllGood, RunHasRoom;
    CallsHaveRoom(implicitCrc, q, maxPkt, n);
    RunRefines(implicitCrc, sys, q, Calls(maxPkt, n));
    CallsDrain(Fates(implicitCrc), Hals(implicitCrc), q, maxPkt, n);
  }

  // ---------- What the caller sees ----------

  /** What the flags of a packet say about its CRC. */
  function StatusOf(implicitCrc: bool, p: RxPacket): Status {
    if !CrcIsOn(implicitCrc, p) then NoCrc else if p.crcError then CrcBad else CrcOk
  }

  lemma HalOfEncoding(implicitCrc: bool, fr: Frame)
    requires FateOf(implicitCrc, Wire(fr)) == Good
    ensures var hal := Hal(implicitCrc, Wire(fr));
      && hal.payload == fr.pkt.payload && hal.modemId == fr.pkt.modemId && hal.ifChain == fr.pkt.channel
      && hal.crc == fr.pkt.crc16 && hal.timestamp == fr.pkt.timestamp
      && hal.status == StatusOf(implicitCrc, fr.pkt)
  {
    DecodeEncode(fr);
    assert Wire(fr) == Encode(fr);
    if fr.pkt.channel <= 8 {
      LoraStatusIff(implicitCrc, fr.pkt);
    } else {
      FskStatusIff(implicitCrc, fr.pkt);
    }
  }

  /** From start-up, over any run in which encoded frames arrive that are not refused, the packet number `k`
      returned has the payload, modem, channel, CRC and stamp of the frame number `k` sent, and its CRC status. */
  lemma DeliveredAsSent(implicitCrc: bool, events: seq<Event<RawFrame>>, frs: seq<Frame>, k: nat)
    requires RunHasRoom(implicitCrc, EMPTY, events) && Arrivals(events) == EncodeEach(frs)
    requires AllGood(Fates(implicitCrc), Arrivals(events))
    ensures RunInside(implicitCrc, START, events)
    ensures |Outputs(Run(implicitCrc, START, events).1)| <= |frs|
    ensures k < |Outputs(Run(implicitCrc, START, events).1)| ==>
            var hal, p := Outputs(Run(implicitCrc, START, events).1)[k], frs[k].pkt;
            && hal.payload == p.payload && hal.modemId == p.modemId && hal.ifChain == p.channel
            && hal.crc == p.crc16 && hal.timestamp == p.timestamp && hal.status == StatusOf(implicitCrc, p)
  {
    hide QueueStep, Represents, RunHasRoom, Step, StepInside, FateOf, Hal;
    DeliveryFromStart(implicitCrc, events);
    var out := Outputs(Run(implicitCrc, START, events).1);
    if k < |out| {
      assert Fates(implicitCrc)(Arrivals(events)[k]) == Good;
      assert out[k] == Map(Hals(implicitCrc), Arrivals(events))[k];
      HalOfEncoding(implicitCrc, frs[k]);
    }
  }

  /** When a frame is good, by its bytes: it is a frame that the pop accepts from a channel up to 9, and not a
      LoRa packet whose CRC is on and reported right, with a payload that has another remainder. */
  lemma GoodIff(implicitCrc: bool, f: RawFrame)
    ensures FateOf(implicitCrc, f) == Damaged <==> f[|f| - 1] != Sum(f, |f| - 1) % 256
    ensures FateOf(implicitCrc, f) == Blocking <==>
            f[|f| - 1] == Sum(f, |f| - 1) % 256
            && (f[5] > 17 || (f[5] <= 16 && (f[3] > 9 || f[4] < 0x50 || f[4] >= 0xD0)))
    ensures FateOf(implicitCrc, f) == Refused <==>
            && Check(f) == Accept
            && (f[3] >= 10
                || (f[3] <= 8 && CrcIsOn(implicitCrc, Decode(f)) && !Decode(f).crcError && f[2] > 0
                    && !CrcFieldIsRemainder(Decode(f))))
  {
    hide Sum, Convert, Decode;
    FramedIsComplete(f);
    FramedByBytes(f);
    if f[f[2] as int + 21] <= 127 {
      CheckByBytes(f);
    } else {
      TooLongIsDamaged(f);
    }
    if Check(f) == Accept {
      DecodedParts(f);
      ConvertIsParsedOrError(implicitCrc, Decode(f));
      if f[3] <= 8 {
        LoraStatusIff(implicitCrc, Decode(f));
      } else {
        FskStatusIff(implicitCrc, Decode(f));
      }
    }
  }

  lemma TooLongIsDamaged(f: RawFrame)
    requires Complete(f) && f[f[2] as int + 21] > 127
    ensures Check(f) == WrongChecksum
  {
    hide Sum;
  }

  lemma DecodedParts(f: seq<byte>)
    requires Complete(f)
    ensures Decode(f).channel == f[3] && |Decode(f).payload| == f[2] && Decode(f).crc16 < 0x1_0000
  {
    JoinBounds(f[f[2] as int + 19], f[f[2] as int + 20], 0, 0);
  }

  // ---------- Blocking frames ----------

  /** On a counted buffer, a pop fails with an error exactly at a frame that is complete and has a
      correct checksum but carries metadata out of range. */
  lemma PopErrorIff(s: State)
    requires Counted(s) && PopInside(s) && s.pktNb > 0
    ensures PopOutcome(s) == PopError <==> FrontOf(s).Whole? && Check(FrontOf(s).frame) == OutOfRange
  {
    CountBound(s);
    if FrontOf(s).Whole? {
      WholeFrame(s.buf, s.size, s.index);
    }
  }

  /** The next frame in the buffer is complete and has a correct checksum, but metadata out of range. */
  predicate StuckAt(s: State) {
    s.pktNb > 0 && s.size <= |s.buf| && FrontOf(s).Whole? && Check(FrontOf(s).frame) == OutOfRange
  }

  lemma StuckStep(implicitCrc: bool, sys: System, e: Event<RawFrame>)
    requires StuckAt(sys.rx)
    ensures StepInside(implicitCrc, sys, e)
    ensures Step(implicitCrc, sys, e) ==
            (System(sys.rx, sys.fifo + ArrivalOf(e)), if e.Call? && e.maxPkt > 0 then Failed else Received([]))
  {
    hide Holds, Concat;
    Neutral(sys.fifo);
    assert ParseNext(implicitCrc, sys.rx) == (ParseError, sys.rx);
  }

  function FailuresOf(events: seq<Event<RawFrame>>): seq<Result<HalPacket>> {
    if events == [] then []
    else [if events[0].Call? && events[0].maxPkt > 0 then Failed else Received([])] + FailuresOf(events[1..])
  }

  /** Such a frame is never consumed: every later call that asks for packets fails, whatever arrives,
      because the non-zero frame counter keeps the FIFO from being read. */
  lemma {:induction false} StuckForever(implicitCrc: bool, sys: System, events: seq<Event<RawFrame>>)
    requires StuckAt(sys.rx)
    ensures RunInside(implicitCrc, sys, events)
    ensures Run(implicitCrc, sys, events) == (System(sys.rx, sys.fifo + Arrivals(events)), FailuresOf(events))
    decreases |events|
  {
    hide StuckAt, Step, StepInside;
    if events == [] {
      Neutral(sys.fifo);
    } else {
      StuckStep(implicitCrc, sys, events[0]);
      StuckForever(implicitCrc, Step(implicitCrc, sys, events[0]).0, events[1..]);
      Associative(sys.fifo, ArrivalOf(events[0]), Arrivals(events[1..]));
    }
  }

  lemma HeldBlockingIsStuck(implicitCrc: bool, s: State, fs: seq<RawFrame>)
    requires Holds(s, fs) && fs != []
    ensures StuckAt(s) <==> FateOf(implicitCrc, fs[0]) == Blocking
  {
    HoldsCount(s, fs);
    HoldsRest(s, fs);
  }

  // ---------- Runs that meet a bad frame ----------

  /** Two frames arrive, and a call asks for both. */
  function TwoFrames(f: RawFrame, g: RawFrame): seq<Event<RawFrame>> {
    [Arrive(f), Arrive(g), Call(2)]
  }

  /** What the call returns, and what it leaves in the buffer. */
  function SecondDecides(implicitCrc: bool, f: RawFrame, g: RawFrame): (Result<HalPacket>, seq<RawFrame>) {
    match FateOf(implicitCrc, g)
    case Good => (Received([Hal(implicitCrc, f), Hal(implicitCrc, g)]), [])
    case Refused => (Failed, [])
    case Damaged => (Received([]), [])
    case Blocking => (Failed, [g])
  }

  lemma TwoFramesFit(implicitCrc: bool, f: RawFrame, g: RawFrame)
    ensures RunHasRoom(implicitCrc, EMPTY, TwoFrames(f, g))
  {
    FramedIsComplete(f);
    FramedIsComplete(g);
    assert Concat([f, g]) == f + Concat([g]) && Concat([g]) == g + Concat([]);
    assert Concat([f]) == f + Concat([]);
    assert [] + [f] == [f] && [f] + [g] == [f, g];
    hide Concat, Fates, Hals, Taken;
    var q1, q2: Queue<RawFrame> := Queue([], [f]), Queue([], [f, g]);
    var e0, e1, e2: Event<RawFrame> := Arrive(f), Arrive(g), Call(2);
    assert [e0, e1, e2][1..] == [e1, e2] && [e1, e2][1..] == [e2] && [e2][1..] == [];
    assert RunHasRoom(implicitCrc, q2, [e2]);
    assert QueueStep(Fates(implicitCrc), Hals(implicitCrc), q1, e1).0 == q2;
    assert RunHasRoom(implicitCrc, q1, [e1, e2]);
    assert QueueStep(Fates(implicitCrc), Hals(implicitCrc), EMPTY, e0).0 == q1;
  }

  lemma TwoFramesTaken<T, H>(fate: T -> Fate, h: T -> H, f: T, g: T)
    requires fate(f) == Good
    ensures Taken(fate, h, [f, g], 2) ==
            match fate(g)
            case Good => (Received([h(f), h(g)]), [])
            case Refused => (Failed, [])
            case Damaged => (Received([]), [])
            case Blocking => (Failed, [g])
  {
    var fs := [f, g];
    assert fs[1..] == [g];
    assert GoodPrefix(fate, fs, 2) == 1 + GoodPrefix(fate, [g], 1);
    assert GoodPrefix(fate, [g], 1) == if fate(g) == Good then 1 + GoodPrefix(fate, [g][1..], 0) else 0;
    assert fs[..2] == fs && fs[2..] == [] && Map(h, fs) == [h(f), h(g)];
  }

  lemma TwoFramesQueued<T, H>(fate: T -> Fate, h: T -> H, f: T, g: T)
    requires fate(f) == Good
    ensures var (r, left) := Taken(fate, h, [f, g], 2);
      QueueRun(fate, h, Queue([], []), [Arrive(f), Arrive(g), Call(2)]) ==
      (Queue(left, []), [Received([]), Received([]), r])
  {
    hide Taken;
    var q0, q1, q2 := Queue([], []), Queue([], [f]), Queue([], [f, g]);
    var e0, e1, e2 := Arrive(f), Arrive(g), Call(2);
    assert [] + [f] == [f] && [f] + [g] == [f, g];
    assert QueueStep(fate, h, q0, e0) == (q1, Received([]));
    assert QueueStep(fate, h, q1, e1) == (q2, Received([]));
    var (r, left) := Taken(fate, h, [f, g], 2);
    assert QueueStep(fate, h, q2, e2) == (Queue(left, []), r);
    assert [e0, e1, e2][1..] == [e1, e2] && [e1, e2][1..] == [e2] && [e2][1..] == [];
    assert QueueRun(fate, h, Queue(left, []), []) == (Queue(left, []), []);
    var none: Result<H> := Received([]);
    assert [r] + [] == [r] && [none] + [r] == [none, r] && [none] + [none, r] == [none, none, r];
    assert QueueRun(fate, h, q2, [e2]) == (Queue(left, []), [r]);
    assert QueueRun(fate, h, q1, [e1, e2]) == (Queue(left, []), [Received([]), r]);
  }

  /** A good frame in front of any other: the call returns both packets if the second frame is good, and
      otherwise the first packet is lost, the second frame is dropped with it or, if its metadata are out of
      range, stays and blocks the receiver. */
  lemma SecondFrameDecides(implicitCrc: bool, f: RawFrame, g: RawFrame)
    requires FateOf(implicitCrc, f) == Good
    ensures RunInside(implicitCrc, START, TwoFrames(f, g))
    ensures var (sys, rs) := Run(implicitCrc, START, TwoFrames(f, g));
      var (r, left) := SecondDecides(implicitCrc, f, g);
      && rs == [Received([]), Received([]), r]
      && Holds(sys.rx, left) && sys.fifo == []
      && (StuckAt(sys.rx) <==> FateOf(implicitCrc, g) == Blocking)
  {
    hide Holds, StuckAt, FateOf, Hal, Run, RunInside, RunHasRoom, Taken, QueueRun;
    StartIsEmpty();
    TwoFramesFit(implicitCrc, f, g);
    RunRefines(implicitCrc, START, EMPTY, TwoFrames(f, g));
    TwoFramesQueued(Fates(implicitCrc), Hals(implicitCrc), f, g);
    TwoFramesTaken(Fates(implicitCrc), Hals(implicitCrc), f, g);
    var sys := Run(implicitCrc, START, TwoFrames(f, g)).0;
    var left := SecondDecides(implicitCrc, f, g).1;
    if left == [] {
      DrainedIsNotStuck(sys.rx);
    } else {
      HeldBlockingIsStuck(implicitCrc, sys.rx, left);
    }
  }

  lemma DrainedIsNotStuck(s: State)
    requires Holds(s, [])
    ensures !StuckAt(s)
  {
    HoldsCount(s, []);
  }

  /** A frame of which the FIFO has not delivered the end is cut off in the buffer. */
  lemma CutFrameIsFetched(f: RawFrame, m: nat)
    requires 23 <= m < |f|
    ensures FetchInside(f[..m])
    ensures var s := Fetched(State(Padded([]), 0, 0, 0), f[..m]);
      s.pktNb == 1 && s.size <= |s.buf| && FrontOf(s) == Cut
  {
    hide Resynced, ResyncedSize, FrontAt, WalkInside, WalkSynced, FramesLeft, Fetched, FetchInside, Complete, Padded,
      SyncAt;
    FramedIsComplete(f);
    CutIsPadded(f, m);
    SyncedAlready(f[..m]);
    CutWalk(Padded(f[..m]), m, f);
    FetchedSynced(State(Padded([]), 0, 0, 0), f[..m]);
  }

  lemma CutIsPadded(f: seq<byte>, m: nat)
    requires 23 <= m < |f| && Complete(f) && SyncAt(f, 0)
    ensures m <= CAPACITY && SyncAt(f[..m], 0)
    ensures var b := Padded(f[..m]);
      SyncAt(b, 0) && b[2] == f[2] && forall k :: 2 < k < CAPACITY ==> b[k] == if k < m then f[k] else 0
  {
  }

  lemma CutWalk(b: seq<byte>, m: nat, f: seq<byte>)
    requires 23 <= m < |f| && |b| == CAPACITY && SyncAt(b, 0) && Complete(f) && b[2] == f[2]
    requires forall k :: 2 < k < CAPACITY ==> b[k] == if k < m then f[k] else 0
    ensures LengthsReadable(b, 0) && FrameLength(b, 0) > m
    ensures WalkInside(b, m, 0) && WalkSynced(b, m, 0) && FramesLeft(b, m, 0) == 1
    ensures FrontAt(b, m, 0) == Cut
  {
    assert b[f[2] as int + 21] == if f[2] as int + 21 < m then f[f[2] as int + 21] else 0;
  }

  /** A call on it returns nothing and empties the buffer. */
  lemma CutFrameIsDropped(implicitCrc: bool, f: RawFrame, m: nat, maxPkt: nat)
    requires 23 <= m < |f| && maxPkt > 0
    ensures var s := State(Padded([]), 0, 0, 0);
      && CallInside(implicitCrc, s, maxPkt, f[..m])
      && ReceiveCall(implicitCrc, s, maxPkt, f[..m]) == (Received([]), Deleted(Fetched(s, f[..m])))
  {
    CutFrameIsFetched(f, m);
    CutFrontIsDropped(implicitCrc, Fetched(State(Padded([]), 0, 0, 0), f[..m]));
  }

  lemma CutFrontIsDropped(implicitCrc: bool, s: State)
    requires s.size <= |s.buf| && FrontOf(s) == Cut
    ensures PopsInside(implicitCrc, s, 1) && Collect(implicitCrc, s, 1, []) == (Received([]), Deleted(s))
  {
  }

  /** The 23 bytes of an empty frame from the given modem and channel, with `sum` as checksum. */
  function EmptyFrame(channel: byte, modemId: byte, sum: byte): seq<byte> {
    [SYNC_0, SYNC_1, 0, channel, 0x50, modemId, 0, 0, 0, 0, 0, 0, 0, 0, 0, 0, 0, 0, 0, 0, 0, 0, sum]
  }

  lemma EmptyFrameSum(channel: byte, modemId: byte, sum: byte)
    ensures Sum(EmptyFrame(channel, modemId, sum), 22) == 0xA5 + 0xC0 + 0x50 + channel + modemId
  {
    var f := EmptyFrame(channel, modemId, sum);
    var n := 1;
    assert Sum(f, n) == Sum(f, 0) + f[0];
    assert Sum(f, 2) == 0xA5 + 0xC0;
    assert Sum(f, 4) == 0xA5 + 0xC0 + channel;
    assert Sum(f, 6) == 0xA5 + 0xC0 + channel + 0x50 + modemId;
    SumOfZeros(f, 6, 22);
  }

  lemma {:induction false} SumOfZeros(f: seq<byte>, m: nat, n: nat)
    requires m <= n <= |f| && forall k :: m <= k < n ==> f[k] == 0
    ensures Sum(f, n) == Sum(f, m)
    decreases n
  {
    if m < n {
      SumOfZeros(f, m, n - 1);
    }
  }

  lemma EmptyFrameDecoded(channel: byte, modemId: byte, sum: byte)
    requires Complete(EmptyFrame(channel, modemId, sum))
    ensures var p := Decode(EmptyFrame(channel, modemId, sum));
      p.channel == channel && p.modemId == modemId && p.sf == 5 && !p.crcEn
  {
  }

  lemma EmptyFrameCheck(channel: byte, modemId: byte, sum: byte)
    ensures var f := EmptyFrame(channel, modemId, sum);
      Check(f) == if sum != (0x1B5 + channel as int + modemId) % 256 then WrongChecksum
                  else if modemId > 17 || (modemId <= 16 && channel > 9) then OutOfRange
                  else Accept
  {
    EmptyFrameSum(channel, modemId, sum);
    hide Sum, Check;
    CheckByBytes(EmptyFrame(channel, modemId, sum));
  }

  lemma EmptyFrameConverts(implicitCrc: bool, channel: byte, modemId: byte, sum: byte)
    requires Complete(EmptyFrame(channel, modemId, sum)) && channel != 8
    ensures Convert(implicitCrc, Decode(EmptyFrame(channel, modemId, sum))).Parsed? <==> channel < 10
  {
    hide EmptyFrame, Complete, Decode;
    EmptyFrameDecoded(channel, modemId, sum);
  }

  /** There are frames of each bad kind: a wrong checksum, a modem that does not exist, and an FSK frame
      for a channel that does not exist. */
  lemma BadFramesExist(implicitCrc: bool)
    ensures Framed(EmptyFrame(0, 0, 0)) && FateOf(implicitCrc, EmptyFrame(0, 0, 0)) == Damaged
    ensures Framed(EmptyFrame(0, 18, 0xC7)) && FateOf(implicitCrc, EmptyFrame(0, 18, 0xC7)) == Blocking
    ensures Framed(EmptyFrame(10, 17, 0xD0)) && FateOf(implicitCrc, EmptyFrame(10, 17, 0xD0)) == Refused
    ensures Framed(EmptyFrame(0, 0, 0xB5)) && FateOf(implicitCrc, EmptyFrame(0, 0, 0xB5)) == Good
  {
    hide EmptyFrame, Check, Convert;
    EmptyFrameCheck(0, 0, 0);
    EmptyFrameCheck(0, 18, 0xC7);
    EmptyFrameCheck(10, 17, 0xD0);
    EmptyFrameCheck(0, 0, 0xB5);
    FramedIsComplete(EmptyFrame(0, 0, 0xB5));
    FramedIsComplete(EmptyFrame(10, 17, 0xD0));
    EmptyFrameConverts(implicitCrc, 0, 0, 0xB5);
    EmptyFrameConverts(implicitCrc, 10, 17, 0xD0);
  }
}
