/** The ring of the last sixteen PPS edges, and the search for the edge a packet is timed against. */
module PpsHistory {
  import opened Bits

  const SLOTS := 16
  const SECOND := 32_000_000

  /** The ticks from `from` to `to`, as the 32-bit registers show it. */
  function Since(to: int, from: int): uint32 {
    U32(to - from)
  }

  /** `struct timestamp_pps_history_s`. Despite its comment in the source, `idx` is the slot that was
      written last. */
  datatype Ring = Ring(slots: seq<uint32>, idx: byte, size: byte)

  /** `timestamp_pps_history_save`, on values. */
  function Saved(r: Ring, v: uint32): Ring
    requires |r.slots| == SLOTS && r.idx < SLOTS && r.size <= SLOTS
  {
    if v == r.slots[r.idx] && r.size != 0 then r
    else
      var i := if r.size == 0 then r.idx else if r.idx == SLOTS - 1 then 0 else r.idx + 1;
      Ring(r.slots[i := v], i, if r.size < SLOTS then r.size + 1 else r.size)
  }

  /** A value is recorded when it differs from the last one recorded. */
  function Append(stored: seq<uint32>, v: uint32): seq<uint32> {
    if stored != [] && stored[|stored| - 1] == v then stored else stored + [v]
  }

  /** The values saved so far, consecutive repeats dropped. */
  function WithoutRepeats(saved: seq<uint32>): seq<uint32> {
    if saved == [] then [] else Append(WithoutRepeats(saved[..|saved| - 1]), saved[|saved| - 1])
  }

  /** The slot of the entry number `k`. */
  function Slot(k: nat): nat {
    k % SLOTS
  }

  /** The ring holds the last sixteen of `stored`, or all of them, and `idx` is the slot of the last. */
  predicate HoldsLast(r: Ring, stored: seq<uint32>) {
    && |r.slots| == SLOTS
    && r.size == (if |stored| < SLOTS then |stored| else SLOTS)
    && r.idx == (if stored == [] then 0 else Slot(|stored| - 1))
    && forall k :: 0 <= k < |stored| && |stored| - k <= SLOTS ==> r.slots[Slot(k)] == stored[k]
  }

  lemma NextSlot(k: nat)
    ensures Slot(k + 1) == (if Slot(k) == SLOTS - 1 then 0 else Slot(k) + 1)
  {
  }

  lemma SlotsApart(j: nat, k: nat)
    requires j < k < j + SLOTS
    ensures Slot(j) != Slot(k)
  {
  }

  lemma FirstSlots(n: nat)
    ensures Slot(0) == 0 && Slot(n) < SLOTS
  {
  }

  lemma SlotsOf(r: Ring, stored: seq<uint32>)
    requires HoldsLast(r, stored)
    ensures |r.slots| == SLOTS && r.idx < SLOTS && r.size <= SLOTS
    ensures r.size == 0 <==> stored == []
    ensures if stored == [] then r.idx == 0
            else r.idx == Slot(|stored| - 1) && r.slots[r.idx] == stored[|stored| - 1]
  {
    if stored != [] {
      FirstSlots(|stored| - 1);
    }
  }

  lemma StoreHoldsLast(r: Ring, stored: seq<uint32>, v: uint32)
    requires HoldsLast(r, stored) && Slot(|stored|) < SLOTS
    ensures HoldsLast(Ring(r.slots[Slot(|stored|) := v], Slot(|stored|), if r.size < SLOTS then r.size + 1 else r.size),
                      stored + [v])
  {
    hide Slot;
    var n := |stored|;
    forall k | 0 <= k < n && n + 1 - k <= SLOTS
      ensures Slot(k) != Slot(n) && Slot(k) < SLOTS
    {
      SlotsApart(k, n);
      FirstSlots(k);
    }
  }

  lemma SaveHoldsLast(r: Ring, stored: seq<uint32>, v: uint32)
    requires HoldsLast(r, stored) && |r.slots| == SLOTS && r.idx < SLOTS && r.size <= SLOTS
    ensures HoldsLast(Saved(r, v), Append(stored, v))
  {
    hide Slot, HoldsLast;
    FirstSlots(|stored|);
    SlotsOf(r, stored);
    if stored != [] {
      NextSlot(|stored| - 1);
    }
    if Append(stored, v) != stored {
      StoreHoldsLast(r, stored, v);
    }
  }

  // ---------- The saved values as true edges ----------

  /** What the PPS register reads for the first `n` edges, given by their true tick counts. */
  function Readings(edges: seq<int>, n: nat): (r: seq<uint32>)
    requires n <= |edges|
    ensures |r| == n
  {
    seq(n, k requires 0 <= k < n => U32(edges[k]))
  }

  /** The reads see every edge, from the first on, each any number of times. */
  predicate SeesEach(picks: seq<nat>) {
    && (picks != [] ==> picks[0] == 0)
    && forall j :: 0 < j < |picks| ==> picks[j] == picks[j - 1] || picks[j] == picks[j - 1] + 1
  }

  predicate Within(edges: seq<int>, picks: seq<nat>) {
    forall j :: 0 <= j < |picks| ==> picks[j] < |edges|
  }

  function ReadingsAt(edges: seq<int>, picks: seq<nat>): (r: seq<uint32>)
    requires Within(edges, picks)
    ensures |r| == |picks|
  {
    seq(|picks|, j requires 0 <= j < |picks| => U32(edges[picks[j]]))
  }

  /** 0.8 <= 32e6 / gap <= 1.2 */
  predicate PlausibleGap(gap: int) {
    8 * gap <= 10 * SECOND <= 12 * gap
  }

  /** Edges in time order, with all gaps that the plausibility check lets through: 26 666 667 to 40e6
      ticks. */
  predicate Spaced(edges: seq<int>) {
    forall k :: 0 < k < |edges| ==> 26_666_667 <= edges[k] - edges[k - 1] <= 40_000_000
  }

  /** The check is on the ratio of a nominal second to the gap, and lets exactly these gaps through. */
  lemma PlausibleGapIff(gap: int)
    ensures PlausibleGap(gap) <==> 26_666_667 <= gap <= 40_000_000
    ensures gap > 0 ==> (PlausibleGap(gap) <==> 0.8 <= 32_000_000.0 / gap as real <= 1.2)
  {
    if gap > 0 {
      RatioIff(32_000_000.0, gap as real, 0.8);
      RatioIff(32_000_000.0, gap as real, 1.2);
    }
  }

  /** What the wrapped difference says about true counts less than 2^32 ticks apart. */
  lemma WrappedDifference(t: int, e: int)
    requires -0x1_0000_0000 < t - e < 0x1_0000_0000
    ensures Since(U32(t), U32(e)) == (if t >= e then t - e else t - e + 0x1_0000_0000)
  {
    var q := e / 0x1_0000_0000 - t / 0x1_0000_0000 - (if t >= e then 0 else 1);
    var d := if t >= e then t - e else t - e + 0x1_0000_0000;
    DivisionIsUnique(U32(t) as int - U32(e), 0x1_0000_0000, q, d);
  }

  lemma CloseReadingsDiffer(a: int, b: int)
    requires 0 < b - a < 0x1_0000_0000
    ensures U32(a) != U32(b)
  {
    WrappedDifference(b, a);
  }

  lemma NextReading(edges: seq<int>, j: nat, k: nat)
    requires Spaced(edges) && j <= k <= j + 1 && k < |edges|
    ensures Append(Readings(edges, j + 1), U32(edges[k])) == Readings(edges, k + 1)
  {
    if k == j + 1 {
      CloseReadingsDiffer(edges[j], edges[k]);
    }
  }

  /** However often each edge is read, what is stored is the edges themselves, once each. */
  lemma {:induction false} StoredAreEdges(edges: seq<int>, picks: seq<nat>)
    requires Spaced(edges) && SeesEach(picks) && Within(edges, picks)
    ensures WithoutRepeats(ReadingsAt(edges, picks)) ==
            if picks == [] then [] else Readings(edges, picks[|picks| - 1] + 1)
    decreases |picks|
  {
    hide Spaced, Append;
    if picks != [] {
      var n := |picks| - 1;
      StoredAreEdges(edges, picks[..n]);
      assert ReadingsAt(edges, picks)[..n] == ReadingsAt(edges, picks[..n]);
      if n > 0 {
        NextReading(edges, picks[n - 1], picks[n]);
      } else {
        FirstReading(edges);
      }
    }
  }

  lemma FirstReading(edges: seq<int>)
    requires edges != []
    ensures Append([], U32(edges[0])) == Readings(edges, 1)
  {
  }

  // ---------- The reference edge of a packet ----------

  /** Found: the reference edge, and the ticks between two edges from which the clock error follows. */
  datatype Reference = Found(edge: uint32, gap: uint32) | NoReference

  /** The first slot from `i` on whose edge is less than a second before `cnt`. */
  function Search(slots: seq<uint32>, cnt: uint32, i: nat): (r: nat)
    requires i <= |slots|
    ensures i <= r <= |slots|
    ensures forall j :: i <= j < r ==> Since(cnt, slots[j]) >= SECOND
    ensures r < |slots| ==> Since(cnt, slots[r]) < SECOND
    decreases |slots| - i
  {
    if i == |slots| || Since(cnt, slots[i]) < SECOND then i else Search(slots, cnt, i + 1)
  }

  /** The edge used for `cnt`, and the gap next to it, once `reg` has been saved. */
  function Candidate(r: Ring, cnt: uint32, reg: uint32): Reference
    requires |r.slots| == SLOTS && r.idx < SLOTS
  {
    if Since(cnt, reg) > SECOND then
      var i := Search(r.slots, cnt, 0);
      if i == SLOTS then NoReference
      else Found(r.slots[i], Since(r.slots[if i == SLOTS - 1 then 0 else i + 1], r.slots[i]))
    else
      Found(reg, Since(r.slots[r.idx], r.slots[if r.idx == 0 then SLOTS - 1 else r.idx - 1]))
  }

  function Checked(c: Reference): Reference {
    if c.Found? && PlausibleGap(c.gap) then c else NoReference
  }

  function ReferenceFor(r: Ring, cnt: uint32, reg: uint32): Reference
    requires |r.slots| == SLOTS && r.idx < SLOTS && r.size <= SLOTS
  {
    if r.size < SLOTS then NoReference else Checked(Candidate(Saved(r, reg), cnt, reg))
  }

  /** A reference is found exactly with a full ring, a candidate, and a gap of 26 666 667 to 40e6 ticks. */
  lemma ReferenceForIff(r: Ring, cnt: uint32, reg: uint32)
    requires |r.slots| == 16 && r.idx < 16 && r.size <= 16
    ensures ReferenceFor(r, cnt, reg).Found? <==>
            && r.size == 16 && Candidate(Saved(r, reg), cnt, reg).Found?
            && 26_666_667 <= Candidate(Saved(r, reg), cnt, reg).gap <= 40_000_000
    ensures ReferenceFor(r, cnt, reg).Found? ==> ReferenceFor(r, cnt, reg) == Candidate(Saved(r, reg), cnt, reg)
  {
    hide Candidate;
    if r.size == 16 && Candidate(Saved(r, reg), cnt, reg).Found? {
      PlausibleGapIff(Candidate(Saved(r, reg), cnt, reg).gap);
    }
  }

  /** The crystal is not slow: the edges are at least 32e6 ticks apart. */
  predicate NotSlow(edges: seq<int>) {
    forall k :: 0 < k < |edges| ==> edges[k] - edges[k - 1] >= SECOND
  }

  /** The stored edge with number `k` is the reference, and its gap is to an edge next to it in time. */
  predicate RefersTo(stored: seq<uint32>, k: nat, c: Reference) {
    && k < |stored| && c.Found? && c.edge == stored[k]
    && if k + 1 < |stored| then c.gap == Since(stored[k + 1], stored[k])
       else k > 0 && c.gap == Since(stored[k], stored[k - 1])
  }

  /** The number of the edge in slot `i`. */
  function EdgeIn(n: nat, i: nat): int
    requires n > 0
  {
    var last := Slot(n - 1);
    if i <= last then n - 1 - last + i else n - 1 - last + i - SLOTS
  }

  lemma EdgeInSlot(r: Ring, stored: seq<uint32>, i: nat)
    requires HoldsLast(r, stored) && |stored| >= SLOTS && i < SLOTS
    ensures var k := EdgeIn(|stored|, i);
      |stored| - SLOTS <= k < |stored| && Slot(k) == i && r.slots[i] == stored[k]
  {
    var n := |stored|;
    var last := Slot(n - 1);
    var q := (n - 1) / SLOTS;
    DivisionIsUnique(EdgeIn(n, i), SLOTS, if i <= last then q else q - 1, i);
  }

  /** Whatever the counts, the gap is between two chronologically consecutive edges: the seam of the
      ring, from the newest edge to the oldest, is never used. */
  lemma GapIsConsecutive(r: Ring, stored: seq<uint32>, cnt: uint32) returns (k: nat)
    requires HoldsLast(r, stored) && |stored| >= SLOTS
    requires Candidate(r, cnt, stored[|stored| - 1]).Found?
    ensures |stored| - SLOTS <= k
    ensures RefersTo(stored, k, Candidate(r, cnt, stored[|stored| - 1]))
    ensures k == |stored| - 1 <==> Since(cnt, stored[|stored| - 1]) <= SECOND
    ensures k < |stored| - 1 ==> Since(cnt, stored[k]) < SECOND && Slot(k) == Search(r.slots, cnt, 0)
  {
    var n := |stored|;
    EdgeInSlot(r, stored, r.idx);
    if Since(cnt, stored[n - 1]) > SECOND {
      var i := Search(r.slots, cnt, 0);
      EdgeInSlot(r, stored, i);
      EdgeInSlot(r, stored, if i == SLOTS - 1 then 0 else i + 1);
      k := EdgeIn(n, i);
    } else {
      EdgeInSlot(r, stored, if r.idx == 0 then SLOTS - 1 else r.idx - 1);
      k := n - 1;
    }
  }

  // ---------- The reference in true time ----------

  /** The edge number `k` lies in the second before the true tick count `t`. */
  predicate LastSecond(edges: seq<int>, k: nat, t: int) {
    k < |edges| && edges[k] <= t && (t - edges[k] < SECOND || (k == |edges| - 1 && t - edges[k] == SECOND))
  }

  lemma {:induction false} EdgesApart(edges: seq<int>, j: nat, k: nat)
    requires Spaced(edges) && j <= k < |edges|
    ensures (k - j) * 26_666_667 <= edges[k] - edges[j] <= (k - j) * 40_000_000
    decreases k
  {
    if j < k {
      EdgesApart(edges, j, k - 1);
    }
  }

  /** With a slow crystal two edges can lie in that second, but only two in a row. */
  lemma AtMostTwoLastSecond(edges: seq<int>, j: nat, k: nat, t: int)
    requires Spaced(edges) && LastSecond(edges, j, t) && LastSecond(edges, k, t) && j < k
    ensures k == j + 1
  {
    EdgesApart(edges, j, k);
  }

  /** Otherwise there is at most one. */
  lemma AtMostOneLastSecond(edges: seq<int>, j: nat, k: nat, t: int)
    requires Spaced(edges) && NotSlow(edges) && LastSecond(edges, j, t) && LastSecond(edges, k, t)
    ensures j == k
  {
    if j < k {
      EdgesApart(edges, j, k - 1);
    } else if k < j {
      EdgesApart(edges, k, j - 1);
    }
  }

  /** A stored edge looks less than a second old exactly when it is. */
  lemma LooksRecentIff(edges: seq<int>, k: nat, t: int)
    requires Spaced(edges) && SLOTS <= |edges| && |edges| - SLOTS <= k < |edges|
    requires t - edges[|edges| - SLOTS] < 0x1_0000_0000
    requires edges[|edges| - 1] - t < 0x1_0000_0000 - SECOND
    ensures var age := Since(U32(t), U32(edges[k]));
      && (age < SECOND <==> edges[k] <= t && t - edges[k] < SECOND)
      && (age <= SECOND <==> edges[k] <= t && t - edges[k] <= SECOND)
  {
    EdgesApart(edges, |edges| - SLOTS, k);
    EdgesApart(edges, k, |edges| - 1);
    WrappedDifference(t, edges[k]);
  }

  /** The number of ticks between the edge `k` and the next one, or the one before if it is the last. */
  function GapNextTo(edges: seq<int>, k: nat): int
    requires 1 < |edges| && k < |edges|
  {
    if k + 1 < |edges| then edges[k + 1] - edges[k] else edges[k] - edges[k - 1]
  }

  lemma GapReading(edges: seq<int>, k: nat, c: Reference)
    requires Spaced(edges) && 1 < |edges| && RefersTo(Readings(edges, |edges|), k, c)
    ensures c == Found(U32(edges[k]), GapNextTo(edges, k)) && PlausibleGap(c.gap)
  {
    PlausibleGapIff(GapNextTo(edges, k));
    if k + 1 < |edges| {
      WrappedDifference(edges[k + 1], edges[k]);
    } else {
      WrappedDifference(edges[k], edges[k - 1]);
    }
  }

  lemma EdgeReadingsDiffer(edges: seq<int>, j: nat, k: nat)
    requires Spaced(edges) && |edges| - SLOTS <= j < |edges| && |edges| - SLOTS <= k < |edges| && j != k
    ensures U32(edges[j]) != U32(edges[k])
  {
    if j < k {
      EdgesApart(edges, j, k);
      CloseReadingsDiffer(edges[j], edges[k]);
    } else {
      EdgesApart(edges, k, j);
      CloseReadingsDiffer(edges[k], edges[j]);
    }
  }

  /** What `precise_timestamp_calculate` uses for a packet at the true tick count `t`, once the newest
      edge has been saved. */
  function ReferenceAt(r: Ring, edges: seq<int>, t: int): Reference
    requires |r.slots| == SLOTS && r.idx < SLOTS && edges != []
  {
    Checked(Candidate(r, U32(t), U32(edges[|edges| - 1])))
  }

  /** The ring holds the readings of the edges, and the packet is neither 2^32 ticks after the oldest
      of the last sixteen nor 2^32 - 32e6 before the newest. */
  predicate Timely(r: Ring, edges: seq<int>, t: int) {
    && Spaced(edges) && SLOTS <= |edges| && HoldsLast(r, Readings(edges, |edges|))
    && t - edges[|edges| - SLOTS] < 0x1_0000_0000
    && edges[|edges| - 1] - t < 0x1_0000_0000 - SECOND
  }

  lemma FoundIsLastSecond(r: Ring, edges: seq<int>, t: int) returns (k: nat)
    requires Timely(r, edges, t) && Candidate(r, U32(t), U32(edges[|edges| - 1])).Found?
    ensures |edges| - SLOTS <= k && LastSecond(edges, k, t)
    ensures ReferenceAt(r, edges, t) == Found(U32(edges[k]), GapNextTo(edges, k))
    ensures k == |edges| - 1 <==> LastSecond(edges, |edges| - 1, t)
    ensures k < |edges| - 1 ==> Slot(k) == Search(r.slots, U32(t), 0)
  {
    k := GapIsConsecutive(r, Readings(edges, |edges|), U32(t));
    LooksRecentIff(edges, |edges| - 1, t);
    LooksRecentIff(edges, k, t);
    GapReading(edges, k, Candidate(r, U32(t), U32(edges[|edges| - 1])));
  }

  lemma LastSecondIsFound(r: Ring, edges: seq<int>, t: int, k: nat)
    requires Timely(r, edges, t) && |edges| - SLOTS <= k && LastSecond(edges, k, t)
    ensures Candidate(r, U32(t), U32(edges[|edges| - 1])).Found?
  {
    hide Spaced;
    LooksRecentIff(edges, |edges| - 1, t);
    if k < |edges| - 1 {
      LooksRecentIff(edges, k, t);
      assert r.slots[Slot(k)] == Readings(edges, |edges|)[k];
    }
  }

  /** The edge number `k` is the last one at or before `t`. */
  predicate Latest(edges: seq<int>, k: nat, t: int) {
    k < |edges| && edges[k] <= t && (k + 1 < |edges| ==> t < edges[k + 1])
  }

  /** The edge before `k` is stored too, and lies in the second before the packet as well. */
  predicate Rivalled(edges: seq<int>, k: nat, t: int) {
    0 < k < |edges| - 1 && |edges| - SLOTS < k && t - edges[k - 1] < SECOND
  }

  /** Of two stored edges in the last second, the search takes the one in the lower slot. */
  lemma LowerSlotIsTaken(r: Ring, edges: seq<int>, t: int, j: nat, k: nat)
    requires Timely(r, edges, t) && |edges| - SLOTS <= j < |edges| - 1
    requires edges[j] <= t && t - edges[j] < SECOND && Slot(k) == Search(r.slots, U32(t), 0)
    ensures Slot(k) <= Slot(j)
  {
    LooksRecentIff(edges, j, t);
    assert r.slots[Slot(j)] == Readings(edges, |edges|)[j];
    FirstSlots(j);
  }

  /** The reference is the right one, the last edge before the packet, exactly when that is the newest edge,
      or there is no second edge within the last second, or its slot is the first of the ring. */
  lemma ReferenceIsLatestIff(r: Ring, edges: seq<int>, t: int, k: nat)
    requires Timely(r, edges, t) && |edges| - SLOTS <= k
    requires Latest(edges, k, t) && LastSecond(edges, k, t)
    ensures ReferenceAt(r, edges, t) == Found(U32(edges[k]), GapNextTo(edges, k)) <==>
            !Rivalled(edges, k, t) || Slot(k) == 0
    ensures Rivalled(edges, k, t) && Slot(k) != 0 ==>
            ReferenceAt(r, edges, t) == Found(U32(edges[k - 1]), GapNextTo(edges, k - 1))
  {
    hide Candidate, GapNextTo, Spaced, Search, HoldsLast, Slot;
    LastSecondIsFound(r, edges, t, k);
    var found := FoundIsLastSecond(r, edges, t);
    LatestIsLast(edges, found, k, t);
    if found < k {
      AtMostTwoLastSecond(edges, found, k, t);
      EdgeReadingsDiffer(edges, found, k);
      LowerSlotIsTaken(r, edges, t, k, found);
    }
    if Rivalled(edges, k, t) {
      RivalIsBefore(edges, k);
      LowerSlotIsTaken(r, edges, t, k - 1, found);
    }
    if k > 0 {
      NextSlot(k - 1);
    }
  }

  lemma RivalIsBefore(edges: seq<int>, k: nat)
    requires Spaced(edges) && 0 < k < |edges|
    ensures edges[k - 1] < edges[k]
  {
  }

  lemma LatestIsLast(edges: seq<int>, j: nat, k: nat, t: int)
    requires Spaced(edges) && Latest(edges, k, t) && j < |edges| && edges[j] <= t
    ensures j <= k
  {
    if j > k {
      EdgesApart(edges, k + 1, j);
    }
  }

  /** With edges 32e6 to 40e6 ticks apart, the stored edge `k` is the reference, with the true gap to an
      edge next to it, exactly when it lies in the second before the packet. */
  lemma ReferenceIsLastSecond(r: Ring, edges: seq<int>, t: int, k: nat)
    requires Timely(r, edges, t) && NotSlow(edges) && |edges| - SLOTS <= k < |edges|
    ensures ReferenceAt(r, edges, t) == Found(U32(edges[k]), GapNextTo(edges, k)) <==> LastSecond(edges, k, t)
  {
    hide Candidate, LastSecond, GapNextTo;
    if LastSecond(edges, k, t) {
      LastSecondIsFound(r, edges, t, k);
    }
    if Candidate(r, U32(t), U32(edges[|edges| - 1])).Found? {
      var found := FoundIsLastSecond(r, edges, t);
      if LastSecond(edges, k, t) {
        AtMostOneLastSecond(edges, k, found, t);
      } else {
        EdgeReadingsDiffer(edges, k, found);
      }
    }
  }

  /** Without a stored edge in that second, and only then, there is no reference. */
  lemma NoReferenceIff(r: Ring, edges: seq<int>, t: int)
    requires Timely(r, edges, t)
    ensures ReferenceAt(r, edges, t) == NoReference <==>
            forall k :: |edges| - SLOTS <= k < |edges| ==> !LastSecond(edges, k, t)
  {
    hide Candidate, GapNextTo;
    if Candidate(r, U32(t), U32(edges[|edges| - 1])).Found? {
      var found := FoundIsLastSecond(r, edges, t);
    }
    forall k | |edges| - SLOTS <= k < |edges| && LastSecond(edges, k, t)
      ensures ReferenceAt(r, edges, t) != NoReference
    {
      LastSecondIsFound(r, edges, t, k);
    }
  }

  /** Over any run of saves that sees every edge, the last of them the one made by the search itself,
      the search works on exactly the true edges. */
  lemma SearchAfterReads(r: Ring, edges: seq<int>, picks: seq<nat>, t: int)
    requires Spaced(edges) && SLOTS <= |edges| && SeesEach(picks) && Within(edges, picks)
    requires picks != [] && picks[|picks| - 1] == |edges| - 1
    requires HoldsLast(r, WithoutRepeats(ReadingsAt(edges, picks[..|picks| - 1]))) && r.size == SLOTS
    ensures HoldsLast(Saved(r, U32(edges[|edges| - 1])), Readings(edges, |edges|))
    ensures ReferenceFor(r, U32(t), U32(edges[|edges| - 1])) ==
            ReferenceAt(Saved(r, U32(edges[|edges| - 1])), edges, t)
  {
    hide Spaced, SeesEach, HoldsLast, Candidate;
    var n := |picks| - 1;
    StoredAreEdges(edges, picks);
    assert ReadingsAt(edges, picks)[..n] == ReadingsAt(edges, picks[..n]);
    SlotsOf(r, WithoutRepeats(ReadingsAt(edges, picks[..n])));
    SaveHoldsLast(r, WithoutRepeats(ReadingsAt(edges, picks[..n])), U32(edges[picks[n]]));
    SlotsOf(Saved(r, U32(edges[|edges| - 1])), Readings(edges, |edges|));
  }

  /** The bound on old packets is sharp: a packet before the newest edge is timed against that edge, which
      comes after it, exactly when it is at least 2^32 - 32e6 ticks older. */
  lemma TooOldIffMisled(r: Ring, edges: seq<int>, t: int)
    requires Spaced(edges) && SLOTS <= |edges| && HoldsLast(r, Readings(edges, |edges|))
    requires 0 < edges[|edges| - 1] - t < 0x1_0000_0000
    ensures ReferenceAt(r, edges, t) == Found(U32(edges[|edges| - 1]), GapNextTo(edges, |edges| - 1)) <==>
            edges[|edges| - 1] - t >= 0x1_0000_0000 - SECOND
  {
    hide Candidate, GapNextTo;
    var n, stored := |edges|, Readings(edges, |edges|);
    WrappedDifference(t, edges[n - 1]);
    NewestIsTaken(r, stored, U32(t));
    if Candidate(r, U32(t), stored[n - 1]).Found? {
      var k := GapIsConsecutive(r, stored, U32(t));
      GapReading(edges, k, Candidate(r, U32(t), stored[n - 1]));
      if k < n - 1 {
        EdgeReadingsDiffer(edges, k, n - 1);
      }
    }
  }

  /** The ring after sixteen edges `gap` ticks apart, the first at `first`. */
  function EvenRing(first: int, gap: int): Ring {
    Ring(Readings(EvenEdges(first, gap), SLOTS), 15, 16)
  }

  function EvenEdges(first: int, gap: int): (edges: seq<int>)
    ensures |edges| == SLOTS
  {
    seq(SLOTS, k => first + k * gap)
  }

  lemma EvenRingHolds(first: int, gap: int)
    requires PlausibleGap(gap)
    ensures Spaced(EvenEdges(first, gap))
    ensures HoldsLast(EvenRing(first, gap), Readings(EvenEdges(first, gap), SLOTS))
  {
    hide Slot;
    PlausibleGapIff(gap);
    var edges := EvenEdges(first, gap);
    forall k | 0 < k < |edges|
      ensures edges[k] - edges[k - 1] == gap
    {
      EvenGap(first, gap, k);
    }
    hide EvenEdges;
    forall k | 0 <= k < SLOTS
      ensures Slot(k) == k
    {
      SmallSlot(k);
    }
  }

  lemma EvenGap(first: int, gap: int, k: nat)
    requires 0 < k < SLOTS
    ensures EvenEdges(first, gap)[k] - EvenEdges(first, gap)[k - 1] == gap
  {
    assert k * gap == (k - 1) * gap + gap;
  }

  lemma SmallSlot(k: nat)
    requires k < SLOTS
    ensures Slot(k) == k
  {
  }

  /** A slow crystal does mislead: with 30e6 ticks a second and a packet 1e6 ticks after the edge number 5,
      the edge before that is taken. */
  lemma SlowCrystalMisleads()
    ensures var edges := EvenEdges(0, 30_000_000);
      && Latest(edges, 5, edges[5] + 1_000_000)
      && ReferenceAt(EvenRing(0, 30_000_000), edges, edges[5] + 1_000_000) == Found(U32(edges[4]), 30_000_000)
  {
    var edges := EvenEdges(0, 30_000_000);
    EvenRingHolds(0, 30_000_000);
    ReferenceIsLatestIff(EvenRing(0, 30_000_000), edges, edges[5] + 1_000_000, 5);
  }

  /** And so does an old packet: one of exactly 2^32 - 32e6 ticks before the newest edge. */
  lemma OldPacketIsMisled()
    ensures var edges := EvenEdges(0x1_0000_0000 - 16 * SECOND, SECOND);
      edges[15] == 0x1_0000_0000 - SECOND
      && ReferenceAt(EvenRing(0x1_0000_0000 - 16 * SECOND, SECOND), edges, 0) == Found(U32(edges[15]), SECOND)
  {
    EvenRingHolds(0x1_0000_0000 - 16 * SECOND, SECOND);
    TooOldIffMisled(EvenRing(0x1_0000_0000 - 16 * SECOND, SECOND), EvenEdges(0x1_0000_0000 - 16 * SECOND, SECOND), 0);
  }

  lemma NewestIsTaken(r: Ring, stored: seq<uint32>, cnt: uint32)
    requires HoldsLast(r, stored) && |stored| >= SLOTS && |r.slots| == SLOTS && r.idx < SLOTS
    ensures Since(cnt, stored[|stored| - 1]) <= SECOND ==> Candidate(r, cnt, stored[|stored| - 1]).Found?
  {
  }

  // ---------- The class ----------

  class History {
    const slots: array<uint32>
    var idx: byte
    var size: byte
    /** All values saved so far. */
    ghost var saved: seq<uint32>

    ghost function Value(): Ring
      reads this, slots
    {
      Ring(slots[..], idx, size)
    }

    ghost predicate Valid()
      reads this, slots
    {
      HoldsLast(Value(), WithoutRepeats(saved))
    }

    constructor ()
      ensures Valid() && fresh(slots) && saved == []
    {
      slots := new uint32[SLOTS](_ => 0);
      idx, size := 0, 0;
      saved := [];
    }

    /** `timestamp_pps_history_save`. The ring goes on holding the last sixteen distinct edges. */
    method Save(v: uint32)
      requires Valid()
      modifies this, slots
      ensures Valid() && saved == old(saved) + [v]
      ensures Value() == Saved(old(Value()), v)
    {
      hide HoldsLast, Append;
      SlotsOf(Value(), WithoutRepeats(saved));
      SaveHoldsLast(Value(), WithoutRepeats(saved), v);
      assert (saved + [v])[..|saved|] == saved;
      saved := saved + [v];
      if v != slots[idx] || size == 0 {
        if size > 0 {
          idx := idx + 1;
        }
        if idx == SLOTS {
          idx := 0;
        }
        slots[idx] := v;
        if size < SLOTS {
          size := size + 1;
        }
      }
    }

    method SearchSlots(cnt: uint32) returns (i: nat)
      requires slots.Length == SLOTS && size == SLOTS
      ensures i == Search(slots[..], cnt, 0)
    {
      i := 0;
      while i < size && Since(cnt, slots[i]) >= SECOND
        invariant 0 <= i <= size
        invariant Search(slots[..], cnt, 0) == Search(slots[..], cnt, i)
      {
        i := i + 1;
      }
    }

    /** The reference search of `precise_timestamp_calculate`, when the PPS register reads `reg`. */
    method FindReference(cnt: uint32, reg: uint32) returns (c: Reference)
      requires Valid()
      modifies this, slots
      ensures Valid() && saved == old(saved) + (if old(size) < SLOTS then [] else [reg])
      ensures c == ReferenceFor(old(Value()), cnt, reg)
    {
      hide WithoutRepeats;
      if size < SLOTS {
        return NoReference;
      }
      Save(reg);
      if Since(cnt, reg) > SECOND {
        var i := SearchSlots(cnt);
        if i == size {
          return NoReference;
        }
        var next := if i == SLOTS - 1 then 0 else i + 1;
        c := Found(slots[i], Since(slots[next], slots[i]));
      } else {
        var prev := if idx == 0 then SLOTS - 1 else idx - 1;
        c := Found(reg, Since(slots[idx], slots[prev]));
      }
      if !PlausibleGap(c.gap) {
        c := NoReference;
      }
    }
  }
}
