/** What fetch and pop do together: the two header walks agree on every buffer, and a stream of
    encoded frames comes out of them unchanged.
 */
module RxStream {
  import opened Bits
  import opened RxFrame
  import opened RxBuffer

  // ---------- Agreement of the two walks ----------

  /** The number of frames on the walk from the current index, if it stays inside the array and
      in sync. */
  function WalkCount(s: State): Option<nat> {
    if s.size <= |s.buf| == CAPACITY && WalkInside(s.buf, s.size, s.index) && WalkSynced(s.buf, s.size, s.index)
    then Some(FramesLeft(s.buf, s.size, s.index))
    else None
  }

  /** The frame counter is the number of frames left on the walk from the current index. */
  predicate Counted(s: State) {
    WalkCount(s) == Some(s.pktNb)
  }

  lemma FetchCounts(s: State, data: seq<byte>)
    requires |s.buf| == CAPACITY && s.pktNb == 0 && FetchInside(data)
    ensures Counted(Fetched(s, data))
  {
    if |data| >= 23 && ResyncedSize(data) >= 2 {
      FramesLeftBound(Resynced(data), ResyncedSize(data), 0);
    }
  }

  lemma CountBound(s: State)
    requires Counted(s)
    ensures s.pktNb <= 179
    ensures s.pktNb == 0 <==> s.index >= s.size
  {
    FramesLeftBound(s.buf, s.size, s.index);
  }

  lemma WalkNext(b: seq<byte>, size: nat, i: nat)
    requires i < size && WalkInside(b, size, i) && WalkSynced(b, size, i)
    ensures SyncAt(b, i) && LengthsReadable(b, i)
    ensures var j := i + FrameLength(b, i);
      WalkInside(b, size, j) && WalkSynced(b, size, j) && FramesLeft(b, size, i) == 1 + FramesLeft(b, size, j)
  {
  }

  lemma PoppedFrame(s: State)
    requires PopInside(s) && PopOutcome(s).Popped?
    ensures s.index < s.size <= |s.buf| && LengthsReadable(s.buf, s.index)
    ensures AfterPop(s) == s.(index := s.index + FrameLength(s.buf, s.index), pktNb := (s.pktNb + 255) % 256)
  {
  }

  lemma PopStays(s: State)
    requires PopInside(s)
    ensures !PopOutcome(s).Popped? ==> AfterPop(s) == s
    ensures s.index >= s.size ==> PopOutcome(s) == PopError
  {
  }

  /** A successful pop moves to the next frame of the walk and counts it; any other pop changes
      nothing. */
  lemma PopCounts(s: State)
    requires Counted(s) && PopInside(s)
    ensures Counted(AfterPop(s))
    ensures PopOutcome(s).Popped? ==> AfterPop(s).pktNb == s.pktNb - 1 && AfterPop(s).index > s.index
    ensures !PopOutcome(s).Popped? ==> AfterPop(s) == s
    ensures s.pktNb == 0 ==> PopOutcome(s) == PopError
  {
    hide PopInside, PopOutcome, AfterPop, WalkInside, WalkSynced, FramesLeft;
    CountBound(s);
    PopStays(s);
    if PopOutcome(s).Popped? {
      PoppedFrame(s);
      WalkNext(s.buf, s.size, s.index);
    }
  }

  // ---------- What a pop accepts ----------

  /** The unread bytes start with `f`. */
  predicate StartsWith(b: seq<byte>, size: nat, i: nat, f: seq<byte>) {
    i + |f| <= size <= |b| && Sub(b, i, |f|) == f
  }

  /** The header reads find exactly the complete frames that are there. */
  lemma FrontIff(b: seq<byte>, size: nat, i: nat, f: seq<byte>)
    requires size <= |b|
    ensures FrontAt(b, size, i) == Whole(f) <==> SyncAt(f, 0) && Complete(f) && StartsWith(b, size, i, f)
  {
    if FrontAt(b, size, i) == Whole(f) {
      WholeFrame(b, size, i);
    }
    if SyncAt(f, 0) && Complete(f) && StartsWith(b, size, i, f) {
      assert forall k :: 0 <= k < |f| ==> f[k] == b[i + k];
      assert f[f[2] as int + 21] == b[i + f[2] + 21];
    }
  }

  lemma PopsFront(s: State, f: RawFrame)
    requires s.size <= |s.buf| && FrontOf(s) == Whole(f)
    ensures PopInside(s)
    ensures PopOutcome(s) == if Accepted(f) then Popped(Decode(f))
                             else if Check(f) == WrongChecksum then PopWarning
                             else PopError
    ensures AfterPop(s) == if Accepted(f) then s.(index := s.index + |f|, pktNb := (s.pktNb + 255) % 256) else s
  {
  }

  /** A pop returns a packet exactly when the unread bytes start with the encoding of a frame with
      that packet. */
  lemma PopAcceptsEncodings(s: State, p: RxPacket)
    requires PopInside(s)
    ensures PopOutcome(s) == Popped(p) <==>
            exists fr: Frame :: fr.pkt == p && StartsWith(s.buf, s.size, s.index, Encode(fr))
  {
    if PopOutcome(s) == Popped(p) {
      var f := FrontOf(s).frame;
      FrontIff(s.buf, s.size, s.index, f);
      EncodeDecode(f);
      var fr: Frame := FrameData(Decode(f), UnreadOf(f));
      assert fr.pkt == p && StartsWith(s.buf, s.size, s.index, Encode(fr));
    }
    if fr: Frame :| fr.pkt == p && StartsWith(s.buf, s.size, s.index, Encode(fr)) {
      EncodeIsAccepted(fr);
      DecodeEncode(fr);
      FrontIff(s.buf, s.size, s.index, Encode(fr));
      PopsFront(s, Encode(fr));
    }
  }

  // ---------- Streams ----------

  function Wire(fr: Frame): (f: RawFrame)
    ensures Accepted(f)
  {
    EncodeIsAccepted(fr);
    Encode(fr)
  }

  function EncodeEach(frs: seq<Frame>): (fs: seq<RawFrame>)
    ensures |fs| == |frs|
  {
    seq(|frs|, i requires 0 <= i < |frs| => Wire(frs[i]))
  }

  function Concat(fs: seq<RawFrame>): seq<byte> {
    if fs == [] then [] else fs[0] + Concat(fs[1..])
  }

  /** The bytes of a stream of frames. */
  function EncodeAll(frs: seq<Frame>): seq<byte> {
    Concat(EncodeEach(frs))
  }

  /** The bytes from `i` to `size` cut at the frame boundaries, or None when they do not end with a frame. */
  function Slices(b: seq<byte>, size: nat, i: nat): Option<seq<seq<byte>>>
    requires size <= |b|
    decreases size - i
  {
    match FrontAt(b, size, i)
    case Drained => if i == size then Some([]) else None
    case Whole(f) =>
      (match Slices(b, size, i + |f|)
       case None => None
       case Some(rest) => Some([f] + rest))
    case _ => None
  }

  lemma SlicesRest(b: seq<byte>, size: nat, i: nat, fs: seq<RawFrame>)
    requires size <= |b| && Slices(b, size, i) == Some(fs) && fs != []
    ensures FrontAt(b, size, i) == Whole(fs[0]) && Slices(b, size, i + |fs[0]|) == Some(fs[1..])
  {
    hide FrontAt;
    var f := FrontAt(b, size, i).frame;
    var rest := Slices(b, size, i + |f|).value;
    assert ([f] + rest)[1..] == rest;
  }

  /** The bytes of `u` are those of `b` from `i` on. */
  predicate Embedded(b: seq<byte>, size: nat, i: nat, u: seq<byte>) {
    i + |u| == size <= |b| && forall k :: 0 <= k < |u| ==> u[k] == b[i + k]
  }

  lemma FrontShifted(b: seq<byte>, size: nat, i: nat, u: seq<byte>, m: nat)
    requires Embedded(b, size, i, u) && FrontAt(u, |u|, m).Whole?
    ensures FrontAt(b, size, i + m) == FrontAt(u, |u|, m)
  {
    var f := FrontAt(u, |u|, m).frame;
    FrontIff(u, |u|, m, f);
    assert forall k :: 0 <= k < |f| ==> f[k] == u[m + k];
    assert Sub(b, i + m, |f|) == f;
    FrontIff(b, size, i + m, f);
  }

  /** Cutting depends only on the bytes cut. */
  lemma {:induction false} SlicesShifted(b: seq<byte>, size: nat, i: nat, u: seq<byte>, m: nat)
    requires Embedded(b, size, i, u) && Slices(u, |u|, m).Some?
    ensures Slices(b, size, i + m) == Slices(u, |u|, m)
    decreases |u| - m
  {
    if m < |u| {
      FrontShifted(b, size, i, u, m);
      SlicesShifted(b, size, i, u, m + |FrontAt(u, |u|, m).frame|);
    }
  }

  lemma SlicesStep(b: seq<byte>, size: nat, i: nat, f: seq<byte>, fs: seq<seq<byte>>)
    requires size <= |b| && FrontAt(b, size, i) == Whole(f) && Slices(b, size, i + |f|) == Some(fs)
    ensures Slices(b, size, i) == Some([f] + fs)
  {
  }

  lemma ConcatParts(f: seq<byte>, rest: seq<byte>)
    ensures StartsWith(f + rest, |f + rest|, 0, f) && Embedded(f + rest, |f + rest|, |f|, rest)
  {
  }

  lemma FrontOfConcat(f: RawFrame, rest: seq<byte>)
    ensures FrontAt(f + rest, |f + rest|, 0) == Whole(f)
  {
    FramedIsComplete(f);
    ConcatParts(f, rest);
    FrontIff(f + rest, |f + rest|, 0, f);
  }

  lemma SlicesAfterFront(f: seq<byte>, rest: seq<byte>)
    requires Slices(rest, |rest|, 0).Some?
    ensures Slices(f + rest, |f + rest|, |f|) == Slices(rest, |rest|, 0)
  {
    ConcatParts(f, rest);
    SlicesShifted(f + rest, |f + rest|, |f|, rest, 0);
  }

  /** Concatenated frames are cut apart again. */
  lemma {:induction false} SlicesOfConcat(fs: seq<RawFrame>)
    ensures Slices(Concat(fs), |Concat(fs)|, 0) == Some(fs)
  {
    if fs != [] {
      var f, rest := fs[0], Concat(fs[1..]);
      SlicesOfConcat(fs[1..]);
      SlicesOfCons(f, rest, fs[1..]);
      HeadAndTail(fs);
    }
  }

  lemma SlicesOfCons(f: RawFrame, rest: seq<byte>, fs: seq<RawFrame>)
    requires Slices(rest, |rest|, 0) == Some(fs)
    ensures Slices(f + rest, |f + rest|, 0) == Some([f] + fs)
  {
    FrontOfConcat(f, rest);
    SlicesAfterFront(f, rest);
    SlicesStep(f + rest, |f + rest|, 0, f, fs);
  }

  lemma HeadAndTail(fs: seq<RawFrame>)
    requires fs != []
    ensures fs == [fs[0]] + fs[1..] && Concat(fs) == fs[0] + Concat(fs[1..])
  {
  }

  /** The frames in the unread part of a buffer whose counter is right, or None. */
  function Held(s: State): Option<seq<seq<byte>>> {
    if |s.buf| != CAPACITY || s.size > CAPACITY then None
    else
      match Slices(s.buf, s.size, s.index)
      case None => None
      case Some(fs) => if s.pktNb == |fs| then Some(fs) else None
  }

  /** The unread part of the buffer is the row of frames `fs`, good or bad. */
  predicate Holds(s: State, fs: seq<RawFrame>) {
    Held(s) == Some(fs)
  }

  lemma HoldsCount(s: State, fs: seq<RawFrame>)
    requires Holds(s, fs)
    ensures s.pktNb == |fs|
  {
  }

  lemma HoldsRest(s: State, fs: seq<RawFrame>)
    requires Holds(s, fs) && fs != []
    ensures FrontOf(s) == Whole(fs[0]) && s.size <= |s.buf|
    ensures Holds(s.(index := s.index + |fs[0]|, pktNb := s.pktNb - 1), fs[1..])
  {
    SlicesRest(s.buf, s.size, s.index, fs);
  }

  /** The next pop looks at the first frame held. If it is acceptable, its packet is returned and the
      rest stays held; if not, everything does. */
  lemma PopHeld(s: State, fs: seq<RawFrame>)
    requires Holds(s, fs) && fs != [] && |fs| < 256
    ensures PopInside(s)
    ensures PopOutcome(s) == if Accepted(fs[0]) then Popped(Decode(fs[0]))
                             else if Check(fs[0]) == WrongChecksum then PopWarning
                             else PopError
    ensures if Accepted(fs[0]) then Holds(AfterPop(s), fs[1..]) && AfterPop(s).size == s.size else AfterPop(s) == s
  {
    hide Held, FrontOf, PopInside, PopOutcome, AfterPop, Accepted;
    HoldsCount(s, fs);
    HoldsRest(s, fs);
    PopsFront(s, fs[0]);
  }

  lemma PopDrained(s: State)
    requires Holds(s, [])
    ensures PopInside(s) && PopOutcome(s) == PopError && s.index == s.size && s.pktNb == 0
  {
  }

  /** The results of `n` pops in a row, up to the first that would read outside the array. */
  function PopResults(s: State, n: nat): seq<PopResult>
    decreases n
  {
    if n == 0 || !PopInside(s) then [] else [PopOutcome(s)] + PopResults(AfterPop(s), n - 1)
  }

  function AfterPops(s: State, n: nat): State
    decreases n
  {
    if n == 0 || !PopInside(s) then s else AfterPops(AfterPop(s), n - 1)
  }

  predicate AllAccepted(fs: seq<RawFrame>) {
    forall k :: 0 <= k < |fs| ==> Accepted(fs[k])
  }

  lemma AcceptedRest(fs: seq<RawFrame>)
    requires AllAccepted(fs) && fs != []
    ensures Accepted(fs[0]) && AllAccepted(fs[1..])
  {
  }

  function PoppedAll(fs: seq<RawFrame>): (rs: seq<PopResult>)
    requires AllAccepted(fs)
    ensures |rs| == |fs|
  {
    if fs == [] then [] else [Popped(Decode(fs[0]))] + PoppedAll(fs[1..])
  }

  lemma {:induction false} PopResultsHeld(s: State, fs: seq<RawFrame>)
    requires Holds(s, fs) && |fs| < 256 && AllAccepted(fs)
    ensures PopResults(s, |fs|) == PoppedAll(fs)
    decreases |fs|
  {
    hide PopInside, PopOutcome, AfterPop, Holds, Accepted, AllAccepted, Decode, Check;
    if fs != [] {
      AcceptedRest(fs);
      PopHeld(s, fs);
      PopResultsHeld(AfterPop(s), fs[1..]);
    }
  }

  lemma {:induction false} AfterPopsHeld(s: State, fs: seq<RawFrame>)
    requires Holds(s, fs) && |fs| < 256 && AllAccepted(fs)
    ensures Holds(AfterPops(s, |fs|), []) && AfterPops(s, |fs|).size == s.size
    decreases |fs|
  {
    hide PopInside, PopOutcome, AfterPop, Holds, Accepted, AllAccepted, Decode, Check;
    if fs != [] {
      AcceptedRest(fs);
      PopHeld(s, fs);
      assert AfterPops(s, |fs|) == AfterPops(AfterPop(s), |fs[1..]|);
      AfterPopsHeld(AfterPop(s), fs[1..]);
    }
  }

  // ---------- Fetching a stream ----------

  predicate NoSyncPair(junk: seq<byte>) {
    forall i :: 0 <= i < |junk| - 1 ==> !(junk[i] == SYNC_0 && junk[i + 1] == SYNC_1)
  }

  lemma {:induction false} WalkOverFrames(b: seq<byte>, size: nat, i: nat)
    requires size <= |b| && Slices(b, size, i).Some?
    ensures WalkInside(b, size, i) && WalkSynced(b, size, i)
    ensures FramesLeft(b, size, i) == |Slices(b, size, i).value|
    decreases size - i
  {
    if i < size {
      WholeFrame(b, size, i);
      WalkOverFrames(b, size, i + |FrontAt(b, size, i).frame|);
    }
  }

  lemma {:induction false} FirstSyncIs(b: seq<byte>, size: nat, i: nat, j: nat)
    requires i <= j && j + 2 <= size <= |b| && SyncAt(b, j) && forall k :: i <= k < j ==> !SyncAt(b, k)
    ensures FirstSync(b, size, i) == j
    decreases j - i
  {
    if i < j {
      FirstSyncIs(b, size, i + 1, j);
    }
  }

  lemma FetchedSynced(s: State, data: seq<byte>)
    requires |s.buf| == CAPACITY && s.pktNb == 0
    requires 23 <= |data| <= CAPACITY && ResyncedSize(data) >= 2
    requires WalkInside(Resynced(data), ResyncedSize(data), 0) && WalkSynced(Resynced(data), ResyncedSize(data), 0)
    ensures FetchInside(data) && FramesLeft(Resynced(data), ResyncedSize(data), 0) <= 179
    ensures Fetched(s, data) ==
            State(Resynced(data), ResyncedSize(data), 0, FramesLeft(Resynced(data), ResyncedSize(data), 0))
  {
    FramesLeftBound(Resynced(data), ResyncedSize(data), 0);
  }

  /** Junk without the sync pair is skipped, and the buffer then holds exactly the frames sent. */
  lemma FetchStream(s: State, junk: seq<byte>, fs: seq<RawFrame>)
    requires |s.buf| == CAPACITY && s.pktNb == 0
    requires NoSyncPair(junk) && |junk + Concat(fs)| <= CAPACITY
    ensures |fs| <= 179
    ensures FetchInside(junk + Concat(fs)) && Holds(Fetched(s, junk + Concat(fs)), fs)
    ensures Fetched(s, junk + Concat(fs)).size == |Concat(fs)|
  {
    var data, u := junk + Concat(fs), Concat(fs);
    if fs != [] {
      JunkIsSkipped(junk, u);
      SlicesOfConcat(fs);
      SlicesShifted(Resynced(data), |u|, 0, u, 0);
      WalkOverFrames(Resynced(data), |u|, 0);
      FetchedSynced(s, data);
    } else if junk != [] {
      NoFirstSync(Padded(data), |data|, 0);
    }
  }

  /** On a buffer that still counts frames, the frames fetched are added to them, modulo 256. */
  lemma FetchAddsFrames(s: State, junk: seq<byte>, fs: seq<RawFrame>)
    requires |s.buf| == CAPACITY && NoSyncPair(junk) && |junk + Concat(fs)| <= CAPACITY && fs != []
    ensures FetchInside(junk + Concat(fs))
    ensures Fetched(s, junk + Concat(fs)).pktNb == (s.pktNb + |fs|) % 256
  {
    hide Concat, Holds, NoSyncPair, Fetched, FetchInside;
    var data := junk + Concat(fs);
    FetchStream(s.(pktNb := 0), junk, fs);
    HoldsCount(Fetched(s.(pktNb := 0), data), fs);
    FetchAdds(s, data);
  }

  /** Unless it drops everything, a fetch adds to the counter what it would set it to. */
  lemma FetchAdds(s: State, data: seq<byte>)
    requires |s.buf| == CAPACITY && FetchInside(data) && Fetched(s.(pktNb := 0), data).pktNb != 0
    ensures Fetched(s, data).pktNb == (s.pktNb + Fetched(s.(pktNb := 0), data).pktNb) % 256
  {
  }

  lemma JunkIsSkipped(junk: seq<byte>, rest: seq<byte>)
    requires NoSyncPair(junk) && |rest| >= 23 && SyncAt(rest, 0) && |junk + rest| <= CAPACITY
    ensures ResyncedSize(junk + rest) == |rest|
    ensures Embedded(Resynced(junk + rest), |rest|, 0, rest)
  {
    var data := junk + rest;
    var b, n := Padded(data), |data|;
    assert b[|junk|] == rest[0] && b[|junk| + 1] == rest[1];
    forall k | 0 <= k < |junk|
      ensures !SyncAt(b, k)
    {
      assert b[k] == junk[k];
      assert k + 1 < |junk| ==> b[k + 1] == junk[k + 1];
    }
    FirstSyncIs(b, n, 0, |junk|);
  }

  lemma {:induction false} NoFirstSync(b: seq<byte>, size: nat, i: nat)
    requires i < size <= |b| && NoSyncPair(b[..size])
    ensures FirstSync(b, size, i) == size - 1
    decreases size - i
  {
    if i + 2 <= size {
      assert b[..size][i] == b[i] && b[..size][i + 1] == b[i + 1];
      NoFirstSync(b, size, i + 1);
    }
  }

  /** Fewer bytes than the smallest frame has, or bytes without a sync pair, are dropped. */
  lemma FetchWithoutFrame(s: State, data: seq<byte>)
    requires |s.buf| == CAPACITY && |data| <= CAPACITY
    requires |data| < 23 || NoSyncPair(data)
    ensures FetchInside(data)
    ensures var t := Fetched(s, data); t.size == 0 && t.index == 0 && t.pktNb == if data == [] then s.pktNb else 0
  {
    if |data| >= 23 {
      assert Padded(data)[..|data|] == data;
      NoFirstSync(Padded(data), |data|, 0);
    }
  }

  lemma StartsWithParts(b: seq<byte>, size: nat, i: nat, f: seq<byte>, rest: seq<byte>)
    requires StartsWith(b, size, i, f + rest)
    ensures StartsWith(b, size, i, f) && StartsWith(b, size, i + |f|, rest)
  {
    var u := f + rest;
    assert forall k :: 0 <= k < |u| ==> u[k] == Sub(b, i, |u|)[k] == b[i + k];
    assert forall k :: 0 <= k < |f| ==> f[k] == u[k];
    assert forall k :: 0 <= k < |rest| ==> rest[k] == u[|f| + k];
    assert Sub(b, i, |f|) == f && Sub(b, i + |f|, |rest|) == rest;
  }

  lemma {:induction false} WalkLosesSync(b: seq<byte>, size: nat, i: nat, fs: seq<RawFrame>)
    requires StartsWith(b, size, i, Concat(fs)) && i + |Concat(fs)| < size && i + |Concat(fs)| + 1 < |b|
    requires !SyncAt(b, i + |Concat(fs)|)
    ensures WalkInside(b, size, i) && !WalkSynced(b, size, i)
    decreases |fs|
  {
    if fs != [] {
      HeadAndTail(fs);
      FramedIsComplete(fs[0]);
      StartsWithParts(b, size, i, fs[0], Concat(fs[1..]));
      FrontIff(b, size, i, fs[0]);
      WholeFrame(b, size, i);
      WalkLosesSync(b, size, i + |fs[0]|, fs[1..]);
    }
  }

  /** Bytes that start with the sync pair are not moved. */
  lemma SyncedAlready(data: seq<byte>)
    requires 23 <= |data| <= CAPACITY && SyncAt(data, 0)
    ensures Resynced(data) == Padded(data) && ResyncedSize(data) == |data|
  {
    var b := Padded(data);
    FirstSyncIs(b, |data|, 0, 0);
    assert MovedUp(b, |data|, 0) == b;
  }

  lemma PaddedFrames(u: seq<byte>, more: seq<byte>)
    requires |u + more| <= CAPACITY
    ensures StartsWith(Padded(u + more), |u + more|, 0, u)
    ensures |more| >= 2 ==> (SyncAt(Padded(u + more), |u|) <==> SyncAt(more, 0))
    ensures |u| >= 2 && SyncAt(u, 0) ==> SyncAt(u + more, 0)
  {
    var b := Padded(u + more);
    assert Sub(b, 0, |u|) == u;
    if |more| >= 2 {
      assert b[|u|] == more[0] && b[|u| + 1] == more[1];
    }
  }

  /** Bytes behind the frames that do not start with the sync pair cost all of them: nothing is kept. */
  lemma TrailingBytesDropAll(s: State, fs: seq<RawFrame>, more: seq<byte>)
    requires |s.buf| == CAPACITY && s.pktNb == 0 && fs != []
    requires |more| >= 2 && !SyncAt(more, 0) && |Concat(fs) + more| <= CAPACITY
    ensures FetchInside(Concat(fs) + more)
    ensures var t := Fetched(s, Concat(fs) + more); t.size == 0 && t.index == 0 && t.pktNb == 0
  {
    hide Padded, Resynced, ResyncedSize, Concat, Sub, WalkInside, WalkSynced;
    var data := Concat(fs) + more;
    HeadAndTail(fs);
    FramedIsComplete(fs[0]);
    SyncOfConcat(fs[0], Concat(fs[1..]));
    PaddedFrames(Concat(fs), more);
    SyncedAlready(data);
    WalkLosesSync(Padded(data), |data|, 0, fs);
  }

  lemma SyncOfConcat(f: seq<byte>, rest: seq<byte>)
    requires |f| >= 2 && SyncAt(f, 0)
    ensures SyncAt(f + rest, 0)
  {
  }

  /** One fetch of junk and frames, followed by one pop for each frame, returns their packets in order
      and leaves the buffer drained. */
  lemma FramesRoundTrip(s: State, junk: seq<byte>, fs: seq<RawFrame>)
    requires |s.buf| == CAPACITY && s.pktNb == 0
    requires NoSyncPair(junk) && |junk + Concat(fs)| <= CAPACITY && AllAccepted(fs)
    ensures FetchInside(junk + Concat(fs))
    ensures PopResults(Fetched(s, junk + Concat(fs)), |fs|) == PoppedAll(fs)
    ensures var t := AfterPops(Fetched(s, junk + Concat(fs)), |fs|);
      t.index == t.size == |Concat(fs)| && t.pktNb == 0
  {
    FetchStream(s, junk, fs);
    PopResultsHeld(Fetched(s, junk + Concat(fs)), fs);
    AfterPopsHeld(Fetched(s, junk + Concat(fs)), fs);
    PopDrained(AfterPops(Fetched(s, junk + Concat(fs)), |fs|));
  }

  lemma {:induction false} PoppedAllAt(fs: seq<RawFrame>, k: nat)
    requires k < |fs| && AllAccepted(fs)
    ensures PoppedAll(fs)[k] == Popped(Decode(fs[k]))
  {
    if k > 0 {
      PoppedAllAt(fs[1..], k - 1);
    }
  }

  /** So the packets of any encoded frames come out as they went in. */
  lemma StreamRoundTrip(s: State, junk: seq<byte>, frs: seq<Frame>)
    requires |s.buf| == CAPACITY && s.pktNb == 0
    requires NoSyncPair(junk) && |junk + EncodeAll(frs)| <= CAPACITY
    ensures FetchInside(junk + EncodeAll(frs))
    ensures PopResults(Fetched(s, junk + EncodeAll(frs)), |frs|) ==
            seq(|frs|, k requires 0 <= k < |frs| => Popped(frs[k].pkt))
    ensures var t := AfterPops(Fetched(s, junk + EncodeAll(frs)), |frs|);
      t.index == t.size == |EncodeAll(frs)| && t.pktNb == 0
  {
    var fs := EncodeEach(frs);
    FramesRoundTrip(s, junk, fs);
    forall k | 0 <= k < |frs|
      ensures PoppedAll(fs)[k] == Popped(frs[k].pkt)
    {
      PoppedAllAt(fs, k);
      DecodeEncode(frs[k]);
    }
  }
}
