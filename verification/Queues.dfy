/** `lgw_receive` seen from outside: a queue of frames, some good and some bad, that calls take from. The
    frames can be of any type; `fate` says what a call makes of one, and `h` the packet of a good one.
 */
module Queues {
  import opened Bits
  import opened Streams

  /** Good: the packet is returned. Refused: the frame is consumed and the call fails. Damaged: the call
      returns nothing, and every frame held is dropped. Blocking: the call fails and the frame stays. */
  datatype Fate = Good | Refused | Damaged | Blocking

  /** The frames in the receive buffer, and those waiting in the FIFO. */
  datatype Queue<T> = Queue(held: seq<T>, fifo: seq<T>)

  datatype Event<T> = Arrive(frame: T) | Call(maxPkt: nat)

  /** The number of good frames before the first bad one, up to `n`. */
  function GoodPrefix<T>(fate: T -> Fate, fs: seq<T>, n: nat): (k: nat)
    requires n <= |fs|
    ensures k <= n && forall i :: 0 <= i < k ==> fate(fs[i]) == Good
    ensures k < n ==> fate(fs[k]) != Good
    decreases n
  {
    if n == 0 || fate(fs[0]) != Good then 0 else 1 + GoodPrefix(fate, fs[1..], n - 1)
  }

  /** A call for `n` of the frames held: what it returns, and what it leaves. */
  function Taken<T, H>(fate: T -> Fate, h: T -> H, fs: seq<T>, n: nat): (Result<H>, seq<T>)
    requires n <= |fs|
  {
    var k := GoodPrefix(fate, fs, n);
    if k == n then (Received(Map(h, fs[..n])), fs[n..])
    else
      match fate(fs[k])
      case Damaged => (Received([]), [])
      case Refused => (Failed, fs[k + 1..])
      case _ => (Failed, fs[k..])
  }

  /** The frames that the next call draws from: those held or, when there are none, those in the FIFO. */
  function Base<T(==)>(q: Queue<T>): seq<T> {
    if q.held == [] then q.fifo else q.held
  }

  function Asked<T(==)>(q: Queue<T>, maxPkt: nat): nat {
    if |Base(q)| <= maxPkt then |Base(q)| else maxPkt
  }

  function QueueStep<T(==), H>(fate: T -> Fate, h: T -> H, q: Queue<T>, e: Event<T>): (Queue<T>, Result<H>) {
    match e
    case Arrive(f) => (Queue(q.held, q.fifo + [f]), Received([]))
    case Call(maxPkt) =>
      var (r, left) := Taken(fate, h, Base(q), Asked(q, maxPkt));
      (Queue(left, if q.held == [] then [] else q.fifo), r)
  }

  /** The queue after the events, and the result of each. */
  function QueueRun<T(==), H>(fate: T -> Fate, h: T -> H, q: Queue<T>, events: seq<Event<T>>)
      : (r: (Queue<T>, seq<Result<H>>))
    ensures |r.1| == |events|
    decreases |events|
  {
    if events == [] then (q, [])
    else
      var (next, r) := QueueStep(fate, h, q, events[0]);
      var (end, rs) := QueueRun(fate, h, next, events[1..]);
      (end, [r] + rs)
  }

  function Output<H>(r: Result<H>): seq<H> {
    if r.Received? then r.pkts else []
  }

  /** All packets returned. */
  function Outputs<H>(rs: seq<Result<H>>): seq<H> {
    if rs == [] then [] else Output(rs[0]) + Outputs(rs[1..])
  }

  function ArrivalOf<T>(e: Event<T>): seq<T> {
    match e
    case Arrive(f) => [f]
    case Call(_) => []
  }

  function Arrivals<T>(events: seq<Event<T>>): seq<T> {
    if events == [] then [] else ArrivalOf(events[0]) + Arrivals(events[1..])
  }

  function Pending<T>(q: Queue<T>): seq<T> {
    q.held + q.fifo
  }

  // ---------- When a call loses frames ----------

  /** The call meets no bad frame, or a blocking one right away. */
  predicate LosesNothing<T(==)>(fate: T -> Fate, q: Queue<T>, e: Event<T>) {
    e.Call? ==>
      var k := GoodPrefix(fate, Base(q), Asked(q, e.maxPkt));
      k == Asked(q, e.maxPkt) || (k == 0 && fate(Base(q)[0]) == Blocking)
  }

  lemma PendingIsBase<T>(q: Queue<T>)
    ensures Pending(q) == Base(q) + (if q.held == [] then [] else q.fifo)
  {
  }

  lemma DeliveredWithRest<T, H>(h: T -> H, base: seq<T>, k: nat, rest: seq<T>)
    requires k <= |base|
    ensures Delivered(h, base + rest, Map(h, base[..k]), base[k..] + rest)
  {
    assert (base + rest)[..k] == base[..k] && (base + rest)[k..] == base[k..] + rest;
    DeliveredFront(h, base + rest, k);
  }

  /** A step that loses nothing delivers from the front of what is pending and arriving; any other leaves
      fewer frames than it takes and returns. */
  lemma StepConserves<T, H>(fate: T -> Fate, h: T -> H, q: Queue<T>, e: Event<T>)
    ensures var (q', r) := QueueStep(fate, h, q, e);
      if LosesNothing(fate, q, e) then Delivered(h, Pending(q) + ArrivalOf(e), Output(r), Pending(q'))
      else |Output(r)| + |Pending(q')| < |Pending(q) + ArrivalOf(e)|
  {
    hide Delivered;
    var (q', r) := QueueStep(fate, h, q, e);
    match e
    case Arrive(f) =>
      Associative(q.held, q.fifo, [f]);
      DeliveredWithRest(h, [], 0, Pending(q'));
      Neutral(Pending(q'));
      assert Map(h, [][..0]) == [];
      assert [][0..] + Pending(q') == Pending(q');
    case Call(maxPkt) =>
      PendingIsBase(q);
      Neutral(Pending(q));
      var n := Asked(q, maxPkt);
      var k := GoodPrefix(fate, Base(q), n);
      var rest := if q.held == [] then [] else q.fifo;
      if LosesNothing(fate, q, e) {
        var m := if k == n then n else 0;
        DeliveredWithRest(h, Base(q), m, rest);
        assert Map(h, Base(q)[..m]) == Output(r);
      }
  }

  predicate RunLosesNothing<T(==), H>(fate: T -> Fate, h: T -> H, q: Queue<T>, events: seq<Event<T>>)
    decreases |events|
  {
    events != [] ==>
      && LosesNothing(fate, q, events[0])
      && RunLosesNothing(fate, h, QueueStep(fate, h, q, events[0]).0, events[1..])
  }

  lemma ArrivalsFirst<T>(q: Queue<T>, events: seq<Event<T>>)
    requires events != []
    ensures Pending(q) + Arrivals(events) == Pending(q) + ArrivalOf(events[0]) + Arrivals(events[1..])
  {
  }

  lemma RunFirst<T, H>(fate: T -> Fate, h: T -> H, q: Queue<T>, events: seq<Event<T>>)
    requires events != []
    ensures var (next, r) := QueueStep(fate, h, q, events[0]);
      && QueueRun(fate, h, q, events).0 == QueueRun(fate, h, next, events[1..]).0
      && Outputs(QueueRun(fate, h, q, events).1) == Output(r) + Outputs(QueueRun(fate, h, next, events[1..]).1)
  {
    var (next, r) := QueueStep(fate, h, q, events[0]);
    var (end, rs) := QueueRun(fate, h, next, events[1..]);
    assert ([r] + rs)[1..] == rs;
  }

  /** Frames never multiply; they decrease on any run that loses some. */
  lemma {:induction false} RunShrinks<T, H>(fate: T -> Fate, h: T -> H, q: Queue<T>, events: seq<Event<T>>)
    ensures var (end, rs) := QueueRun(fate, h, q, events);
      && |Outputs(rs)| + |Pending(end)| <= |Pending(q) + Arrivals(events)|
      && (!RunLosesNothing(fate, h, q, events) ==>
            |Outputs(rs)| + |Pending(end)| < |Pending(q) + Arrivals(events)|)
    decreases |events|
  {
    hide LosesNothing, QueueStep, Delivered, Pending;
    if events != [] {
      var (next, r) := QueueStep(fate, h, q, events[0]);
      StepConserves(fate, h, q, events[0]);
      if LosesNothing(fate, q, events[0]) {
        DeliveredLength(h, Pending(q) + ArrivalOf(events[0]), Output(r), Pending(next));
      }
      ArrivalsFirst(q, events);
      RunFirst(fate, h, q, events);
      RunShrinks(fate, h, next, events[1..]);
    }
  }

  lemma {:induction false} RunConserves<T, H>(fate: T -> Fate, h: T -> H, q: Queue<T>, events: seq<Event<T>>)
    requires RunLosesNothing(fate, h, q, events)
    ensures var (end, rs) := QueueRun(fate, h, q, events);
      Delivered(h, Pending(q) + Arrivals(events), Outputs(rs), Pending(end))
    decreases |events|
  {
    hide LosesNothing, QueueStep, Delivered, Pending;
    if events == [] {
      Neutral(Pending(q));
      DeliveredWithRest(h, [], 0, Pending(q));
      assert Map(h, [][..0]) == [] && [][0..] + Pending(q) == Pending(q);
    } else {
      var (next, r) := QueueStep(fate, h, q, events[0]);
      StepConserves(fate, h, q, events[0]);
      RunConserves(fate, h, next, events[1..]);
      var (end, rs) := QueueRun(fate, h, next, events[1..]);
      Compose(h, Pending(q) + ArrivalOf(events[0]), Output(r), Pending(next), Arrivals(events[1..]), Outputs(rs),
              Pending(end));
      ArrivalsFirst(q, events);
      RunFirst(fate, h, q, events);
    }
  }

  /** Over any run, with frames good or bad, what was returned and what is still pending make up exactly the
      stream if and only if no call lost a frame. */
  lemma RunDeliversIff<T, H>(fate: T -> Fate, h: T -> H, q: Queue<T>, events: seq<Event<T>>)
    ensures var (end, rs) := QueueRun(fate, h, q, events);
      Delivered(h, Pending(q) + Arrivals(events), Outputs(rs), Pending(end)) <==>
      RunLosesNothing(fate, h, q, events)
  {
    hide Delivered, Pending;
    var (end, rs) := QueueRun(fate, h, q, events);
    RunShrinks(fate, h, q, events);
    if RunLosesNothing(fate, h, q, events) {
      RunConserves(fate, h, q, events);
    } else if Delivered(h, Pending(q) + Arrivals(events), Outputs(rs), Pending(end)) {
      DeliveredLength(h, Pending(q) + Arrivals(events), Outputs(rs), Pending(end));
    }
  }

  // ---------- Good frames only ----------

  predicate AllGood<T>(fate: T -> Fate, fs: seq<T>) {
    forall k :: 0 <= k < |fs| ==> fate(fs[k]) == Good
  }

  lemma GoodStep<T, H>(fate: T -> Fate, h: T -> H, q: Queue<T>, e: Event<T>)
    requires AllGood(fate, Pending(q) + ArrivalOf(e))
    ensures LosesNothing(fate, q, e) && AllGood(fate, Pending(QueueStep(fate, h, q, e).0))
    ensures e.Call? ==> |Output(QueueStep(fate, h, q, e).1)| == Asked(q, e.maxPkt)
  {
    StepConserves(fate, h, q, e);
    PendingIsBase(q);
    if e.Call? {
      forall i | 0 <= i < |Base(q)|
        ensures fate(Base(q)[i]) == Good
      {
        assert (Pending(q) + ArrivalOf(e))[i] == Base(q)[i];
      }
    }
  }

  lemma {:induction false} GoodRun<T, H>(fate: T -> Fate, h: T -> H, q: Queue<T>, events: seq<Event<T>>)
    requires AllGood(fate, Pending(q) + Arrivals(events))
    ensures RunLosesNothing(fate, h, q, events)
    decreases |events|
  {
    hide LosesNothing, QueueStep, Pending;
    if events != [] {
      ArrivalsFirst(q, events);
      var now, later := Pending(q) + ArrivalOf(events[0]), Arrivals(events[1..]);
      AllGoodParts(fate, now, later);
      GoodStep(fate, h, q, events[0]);
      GoodRun(fate, h, QueueStep(fate, h, q, events[0]).0, events[1..]);
    }
  }

  lemma AllGoodParts<T>(fate: T -> Fate, a: seq<T>, b: seq<T>)
    ensures AllGood(fate, a + b) <==> AllGood(fate, a) && AllGood(fate, b)
  {
    if AllGood(fate, a + b) {
      assert forall k :: 0 <= k < |a| ==> a[k] == (a + b)[k];
      assert forall k :: 0 <= k < |b| ==> b[k] == (a + b)[|a| + k];
    }
  }

  function Calls<T>(maxPkt: nat, n: nat): seq<Event<T>> {
    if n == 0 then [] else [Call(maxPkt)] + Calls(maxPkt, n - 1)
  }

  /** Once nothing more arrives, as many calls as there are pending packets return them all. */
  lemma {:induction false} CallsDrain<T, H>(fate: T -> Fate, h: T -> H, q: Queue<T>, maxPkt: nat, n: nat)
    requires AllGood(fate, Pending(q)) && maxPkt > 0 && n >= |Pending(q)|
    ensures Outputs(QueueRun(fate, h, q, Calls(maxPkt, n)).1) == Map(h, Pending(q))
    decreases n
  {
    hide QueueStep, Delivered, LosesNothing, AllGood, Outputs;
    if n == 0 {
      NoOutputs<H>();
      assert Map(h, Pending(q)) == [];
    } else {
      var e: Event<T> := Call(maxPkt);
      var (next, r) := QueueStep(fate, h, q, e);
      Neutral(Pending(q));
      GoodStep(fate, h, q, e);
      StepConserves(fate, h, q, e);
      DeliveredLength(h, Pending(q), Output(r), Pending(next));
      RestDelivered(h, Pending(q), Output(r), Pending(next));
      CallsDrain(fate, h, next, maxPkt, n - 1);
      assert Calls<T>(maxPkt, n)[1..] == Calls<T>(maxPkt, n - 1);
      RunFirst(fate, h, q, Calls(maxPkt, n));
    }
  }

  lemma NoOutputs<H>()
    ensures Outputs<H>([]) == []
  {
  }

  // ---------- Blocking frames ----------

  /** A call that asks for packets leaves everything pending exactly when the next frame blocks. */
  lemma CallBlockedIff<T, H>(fate: T -> Fate, h: T -> H, q: Queue<T>, maxPkt: nat)
    requires maxPkt > 0 && Base(q) != []
    ensures Pending(QueueStep(fate, h, q, Call(maxPkt)).0) == Pending(q) <==> fate(Base(q)[0]) == Blocking
  {
    PendingIsBase(q);
  }
}
