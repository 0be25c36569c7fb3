/** The receive buffer of loragw_sx1302_rx.c: `rx_buffer_fetch` re-synchronises and counts
    frames, `rx_buffer_pop` checks and decodes them one at a time.
 */
module RxBuffer {
  import opened Bits
  import opened RxFrame

  const CAPACITY := 4096

  datatype PopResult = Popped(pkt: RxPacket) | PopWarning | PopError

  /** The value of an `rx_buffer_t`. */
  datatype State = State(buf: seq<byte>, size: nat, index: nat, pktNb: nat)

  // ---------- The header walk ----------

  /** Every header read on the walk from `i` stays inside the array. */
  predicate WalkInside(b: seq<byte>, size: nat, i: nat)
    decreases size - i
  {
    i < size ==>
      && i + 1 < |b|
      && (SyncAt(b, i) ==> LengthsReadable(b, i) && WalkInside(b, size, i + FrameLength(b, i)))
  }

  /** Every frame on the walk from `i` starts with the sync word. */
  predicate WalkSynced(b: seq<byte>, size: nat, i: nat)
    requires WalkInside(b, size, i)
    decreases size - i
  {
    i < size ==> SyncAt(b, i) && WalkSynced(b, size, i + FrameLength(b, i))
  }

  /** The number of frames on the walk from `i`. */
  function FramesLeft(b: seq<byte>, size: nat, i: nat): nat
    requires WalkInside(b, size, i)
    decreases size - i
  {
    if i < size && SyncAt(b, i) then 1 + FramesLeft(b, size, i + FrameLength(b, i)) else 0
  }

  /** A walk over at most 4096 bytes meets at most 179 frames, so the 8-bit counter cannot wrap. */
  lemma {:induction false} FramesLeftBound(b: seq<byte>, size: nat, i: nat)
    requires WalkInside(b, size, i)
    ensures i < size ==> 23 * FramesLeft(b, size, i) <= size - i + 22
    ensures size <= CAPACITY ==> FramesLeft(b, size, i) <= 179
    decreases size - i
  {
    if i < size && SyncAt(b, i) {
      FramesLeftBound(b, size, i + FrameLength(b, i));
    }
  }

  // ---------- Fetch ----------

  /** The first sync word at or after `i` that ends within `size` bytes, or else `size - 1`. */
  function FirstSync(b: seq<byte>, size: nat, i: nat): (j: nat)
    requires i < size <= |b|
    ensures i <= j < size
    ensures j + 2 <= size ==> SyncAt(b, j)
    ensures forall k :: i <= k < j ==> !SyncAt(b, k)
    decreases size - i
  {
    if i + 2 > size || SyncAt(b, i) then i else FirstSync(b, size, i + 1)
  }

  function Padded(data: seq<byte>): (b: seq<byte>)
    requires |data| <= CAPACITY
    ensures |b| == CAPACITY
  {
    seq(CAPACITY, k requires 0 <= k < CAPACITY => if k < |data| then data[k] else 0)
  }

  /** `memmove` of the bytes from `j` to the front; the bytes after the moved ones stay. */
  function MovedUp(b: seq<byte>, size: nat, j: nat): (b': seq<byte>)
    requires j <= size <= |b|
    ensures |b'| == |b|
  {
    seq(|b|, k requires 0 <= k < |b| => if k < size - j then b[k + j] else b[k])
  }

  /** The fetched bytes from the first sync word on. */
  function Resynced(data: seq<byte>): seq<byte>
    requires 0 < |data| <= CAPACITY
  {
    var b := Padded(data);
    MovedUp(b, |data|, FirstSync(b, |data|, 0))
  }

  function ResyncedSize(data: seq<byte>): nat
    requires 0 < |data| <= CAPACITY
  {
    |data| - FirstSync(Padded(data), |data|, 0)
  }

  /** The walk over the fetched bytes reads no header outside the array. */
  predicate FetchInside(data: seq<byte>) {
    && |data| <= CAPACITY
    && (|data| >= 23 && ResyncedSize(data) >= 2 ==> WalkInside(Resynced(data), ResyncedSize(data), 0))
  }

  function Deleted(s: State): State {
    s.(size := 0, index := 0, pktNb := 0)
  }

  /** The counting loop on a re-synchronised buffer. */
  function Counting(s: State): State
    requires WalkInside(s.buf, s.size, 0)
  {
    if WalkSynced(s.buf, s.size, 0) then s.(index := 0, pktNb := (s.pktNb + FramesLeft(s.buf, s.size, 0)) % 256)
    else Deleted(s)
  }

  /** `rx_buffer_fetch` when the FIFO delivers `data`. */
  function Fetched(s: State, data: seq<byte>): State
    requires FetchInside(data)
  {
    if data == [] then s.(size := 0, index := 0)
    else if |data| < 23 || ResyncedSize(data) < 2 then Deleted(s.(buf := Padded(data)))
    else Counting(s.(buf := Resynced(data), size := ResyncedSize(data)))
  }

  // ---------- Pop ----------

  function FrameAt(b: seq<byte>, i: nat): seq<byte>
    requires LengthsReadable(b, i) && i + FrameLength(b, i) <= |b|
  {
    Sub(b, i, FrameLength(b, i))
  }

  /** What the header reads find at an index: nothing left, no sync word, a frame that ends after the
      fetched bytes, a whole frame, or a header that reaches past the array. */
  datatype Front = Drained | Unsynced | Cut | Whole(frame: seq<byte>) | Outside

  function FrontAt(b: seq<byte>, size: nat, i: nat): Front
    requires size <= |b|
  {
    if i >= size then Drained
    else if i + 1 >= |b| then Outside
    else if !SyncAt(b, i) then Unsynced
    else if !LengthsReadable(b, i) then Outside
    else if i + FrameLength(b, i) > size then Cut
    else Whole(FrameAt(b, i))
  }

  lemma WholeFrame(b: seq<byte>, size: nat, i: nat)
    requires size <= |b| && FrontAt(b, size, i).Whole?
    ensures var f := FrontAt(b, size, i).frame;
      SyncAt(f, 0) && Complete(f) && i + |f| <= size && f == Sub(b, i, |f|) && MetricPairs(f, 0) == MetricPairs(b, i)
  {
    var f := FrameAt(b, i);
    assert f[2] == b[i + 2];
    assert f[b[i + 2] as int + 21] == b[i + b[i + 2] + 21];
  }

  function FrontOf(s: State): Front
    requires s.size <= |s.buf|
  {
    FrontAt(s.buf, s.size, s.index)
  }

  /** The array accesses of `rx_buffer_pop` are in bounds: the header reads, and the metrics of a
      frame with a correct checksum. */
  function PopAccess(s: State): Access {
    if s.size > |s.buf| || FrontOf(s) == Outside then OutOfBounds
    else if FrontOf(s).Whole? && Check(FrontOf(s).frame) == TooManyMetrics then OutOfBounds
    else InBounds
  }

  datatype Access = InBounds | OutOfBounds

  predicate PopInside(s: State) {
    PopAccess(s) == InBounds
  }

  /** What `rx_buffer_pop` returns. */
  function PopOutcome(s: State): PopResult
    requires PopInside(s)
  {
    match FrontOf(s)
    case Drained => PopError
    case Unsynced => PopError
    case Cut => PopWarning
    case Whole(f) =>
      match Check(f)
      case WrongChecksum => PopWarning
      case Accept => Popped(Decode(f))
      case _ => PopError
  }

  /** The state after `rx_buffer_pop`. */
  function AfterPop(s: State): State
    requires PopInside(s)
  {
    if PopOutcome(s).Popped? then s.(index := s.index + |FrontOf(s).frame|, pktNb := (s.pktNb + 255) % 256) else s
  }

  // ---------- The class ----------

  /** The sum of the first `n` bytes, as an unsigned byte: the checksum loop of `rx_buffer_pop`. */
  method Checksum(bytes: seq<byte>, n: nat) returns (checksum: byte)
    requires n <= |bytes|
    ensures checksum == Sum(bytes, n) % 256
  {
    checksum := 0;
    for i := 0 to n
      invariant checksum == Sum(bytes, i) % 256
    {
      checksum := (checksum as int + bytes[i]) % 256;
    }
  }

  class RxBuffer {
    const buffer: array<byte>
    var size: nat
    var index: nat
    var pktNb: nat

    ghost predicate Valid()
      reads this
    {
      buffer.Length == CAPACITY && size <= CAPACITY && pktNb < 256
    }

    ghost function Value(): State
      reads this, buffer
    {
      State(buffer[..], size, index, pktNb)
    }

    constructor ()
      ensures Valid() && fresh(buffer)
      ensures Value() == State(Padded([]), 0, 0, 0)
    {
      buffer := new byte[CAPACITY](_ => 0);
      size, index, pktNb := 0, 0, 0;
    }

    /** `rx_buffer_new` */
    method New()
      requires Valid()
      modifies this, buffer
      ensures Valid() && Value() == State(Padded([]), 0, 0, 0)
    {
      forall i | 0 <= i < buffer.Length { buffer[i] := 0; }
      size, index, pktNb := 0, 0, 0;
    }

    /** `rx_buffer_del` */
    method Del()
      requires Valid()
      modifies this
      ensures Valid() && Value() == Deleted(old(Value()))
    {
      size, index, pktNb := 0, 0, 0;
    }

    /** Clears the array and reads `size` bytes into it. */
    method Load(fifo: seq<byte>)
      requires Valid() && size <= |fifo|
      modifies buffer
      ensures buffer[..] == Padded(fifo[..size])
    {
      forall i | 0 <= i < buffer.Length { buffer[i] := if i < size then fifo[i] else 0; }
    }

    /** Moves the bytes from `idx` on to the front. */
    method MoveUp(idx: nat)
      requires Valid() && idx <= size
      modifies this`size, buffer
      ensures Valid() && size == old(size) - idx
      ensures buffer[..] == MovedUp(old(buffer[..]), old(size), idx)
    {
      forall i | 0 <= i < size - idx { buffer[i] := buffer[i + idx]; }
      size := size - idx;
    }

    /** The index of the first sync word, the search loop of `rx_buffer_fetch`. */
    method FindSync() returns (idx: nat)
      requires Valid() && size > 0
      ensures idx == FirstSync(buffer[..], size, 0)
    {
      idx := 0;
      while idx + 2 <= size
        invariant 0 <= idx <= size - 1
        invariant FirstSync(buffer[..], size, 0) == FirstSync(buffer[..], size, idx)
      {
        if buffer[idx] == SYNC_0 && buffer[idx + 1] == SYNC_1 {
          break;
        }
        idx := idx + 1;
      }
    }

    /** The counting loop of `rx_buffer_fetch`, which gives up at a frame without sync word. */
    method CountFrames()
      requires Valid() && WalkInside(buffer[..], size, 0)
      modifies this
      ensures Valid() && Value() == Counting(old(Value()))
    {
      ghost var b := buffer[..];
      ghost var seen := 0;
      var idx := 0;
      while idx < size
        invariant size == old(size) && index == old(index) && pktNb == (old(pktNb) + seen) % 256
        invariant WalkInside(b, size, idx)
        invariant WalkSynced(b, size, 0) == WalkSynced(b, size, idx)
        invariant WalkSynced(b, size, 0) ==> FramesLeft(b, size, 0) == seen + FramesLeft(b, size, idx)
      {
        assert buffer[idx] == b[idx] && buffer[idx + 1] == b[idx + 1];
        if buffer[idx] != SYNC_0 || buffer[idx + 1] != SYNC_1 {
          Del();
          return;
        }
        pktNb := (pktNb + 1) % 256;
        seen := seen + 1;
        var payloadLen: nat := buffer[idx + 2];
        var metricPairs: nat := buffer[idx + payloadLen + 21];
        idx := idx + (HEAD_METADATA + payloadLen + TAIL_METADATA + 2 * metricPairs);
      }
      index := 0;
    }

    /** `rx_buffer_fetch`: `nb1` and `nb2` are the two readings of the FIFO level, `fifo` the bytes
        the FIFO delivers. */
    method Fetch(nb1: uint16, nb2: uint16, fifo: seq<byte>)
      requires Valid()
      requires (if nb2 > nb1 then nb2 else nb1) <= |fifo|
      requires FetchInside(fifo[..if nb2 > nb1 then nb2 else nb1])
      modifies this, buffer
      ensures Valid()
      ensures Value() == Fetched(old(Value()), fifo[..if nb2 > nb1 then nb2 else nb1])
    {
      size := if nb2 > nb1 then nb2 else nb1;
      if size == 0 {
        index := 0;
        return;
      }
      ghost var data := fifo[..size];
      Load(fifo);
      if size < HEAD_METADATA + TAIL_METADATA {
        Del();
        return;
      }
      var idx := FindSync();
      if idx + 2 > size {
        Del();
        return;
      }
      if idx != 0 {
        MoveUp(idx);
      }
      assert buffer[..] == Resynced(data) && size == ResyncedSize(data);
      CountFrames();
    }

    /** The header reads at the start of `rx_buffer_pop`. */
    method Front() returns (front: Front)
      requires Valid() && FrontOf(Value()) != Outside
      ensures front == FrontOf(Value())
    {
      if index >= size {
        return Drained;
      }
      if buffer[index] != SYNC_0 || buffer[index + 1] != SYNC_1 {
        return Unsynced;
      }
      var payloadLen: nat := buffer[index + 2];
      var metricPairs: nat := buffer[index + payloadLen + 21];
      var n := HEAD_METADATA + payloadLen + TAIL_METADATA + 2 * metricPairs;
      if index + n > size {
        return Cut;
      }
      return Whole(Sub(buffer[..], index, n));
    }

    /** The checks and the decoding of `rx_buffer_pop`. */
    method Inspect() returns (r: PopResult)
      requires Valid() && PopInside(Value())
      ensures r == PopOutcome(Value())
    {
      var front := Front();
      match front {
        case Drained => r := PopError;
        case Unsynced => r := PopError;
        case Cut => r := PopWarning;
        case Whole(f) =>
          WholeFrame(buffer[..], size, index);
          var checksum := Checksum(f, |f| - 1);
          if f[|f| - 1] != checksum {
            return PopWarning;
          }
          var pkt := Decode(f);
          r := if InRange(pkt) then Popped(pkt) else PopError;
      }
    }

    /** `rx_buffer_pop` */
    method Pop() returns (r: PopResult)
      requires Valid() && PopInside(Value())
      modifies this
      ensures Valid()
      ensures r == PopOutcome(old(Value())) && Value() == AfterPop(old(Value()))
    {
      r := Inspect();
      if r.Popped? {
        DecodeLength(FrontOf(Value()).frame);
        index := index + (HEAD_METADATA + |r.pkt.payload| + TAIL_METADATA + |r.pkt.tsMetrics|);
        pktNb := (pktNb + 255) % 256;
      }
    }
  }
}
