/** The merge of duplicate packets received by several demodulators. */
module Merge {
  import opened Bits

  const STAT_NO_CRC := 0x01
  const STAT_CRC_OK := 0x10
  const STAT_CRC_BAD := 0x11

  /** The fields of `struct lgw_pkt_rx_s` that merging reads, and the frequency for those it only
      moves. The payload is its first `size` bytes. */
  datatype Packet = Packet(countUs: uint32, ifChain: byte, datarate: uint32, payload: seq<byte>,
                           status: byte, ftimeReceived: bool, freqHz: uint32)

  // ---------- Sameness and preference ----------

  /** The distance of two counts on the circle of 2^32 microseconds. */
  function Distance(a: int, b: int): int {
    var d: int := U32(a - b);
    if d <= 0x8000_0000 then d else 0x1_0000_0000 - d
  }

  /** `is_same_pkt` */
  predicate Same(p: Packet, q: Packet) {
    && Distance(p.countUs, q.countUs) <= 24
    && p.ifChain == q.ifChain && p.datarate == q.datarate && p.payload == q.payload
  }

  lemma SameIsSymmetric(p: Packet, q: Packet)
    ensures Same(p, p) && Same(p, q) == Same(q, p)
  {
    WrapAround(p.countUs, q.countUs);
  }

  lemma WrapAround(a: int, b: int)
    ensures U32(b - a) == if U32(a - b) == 0 then 0 else 0x1_0000_0000 - U32(a - b)
  {
  }

  /** Two packets are taken for one exactly when chain, datarate and payload are equal and one count is at most
      24 microseconds ahead of the other, around the wrap of the counter too. */
  lemma SameIff(p: Packet, q: Packet)
    ensures Same(p, q) <==>
            && p.ifChain == q.ifChain && p.datarate == q.datarate && p.payload == q.payload
            && (((p.countUs as int) - q.countUs) % 0x1_0000_0000 <= 24
                || ((q.countUs as int) - p.countUs) % 0x1_0000_0000 <= 24)
  {
    WrapAround(p.countUs, q.countUs);
  }

  /** For true times less than 2^31 microseconds apart that is: at most 24 microseconds apart. */
  lemma CountsNearIff(s: int, t: int, a: uint32, b: uint32)
    requires a == U32(s) && b == U32(t) && -0x8000_0000 < s - t < 0x8000_0000
    ensures ((a as int) - b) % 0x1_0000_0000 <= 24 || ((b as int) - a) % 0x1_0000_0000 <= 24 <==> -24 <= s - t <= 24
  {
    var m := t / 0x1_0000_0000 - s / 0x1_0000_0000;
    assert (a as int) - b == s - t + m * 0x1_0000_0000;
    Residue(s - t, m);
    Residue(t - s, -m);
  }

  lemma Residue(d: int, m: int)
    requires -0x8000_0000 <= d < 0x8000_0000
    ensures (d + m * 0x1_0000_0000) % 0x1_0000_0000 == if d >= 0 then d else d + 0x1_0000_0000
  {
    if d >= 0 {
      DivisionIsUnique(d + m * 0x1_0000_0000, 0x1_0000_0000, m, d);
    } else {
      DivisionIsUnique(d + m * 0x1_0000_0000, 0x1_0000_0000, m - 1, d + 0x1_0000_0000);
    }
  }

  /** What a packet is worth keeping: a good CRC first, a fine timestamp second. */
  function Rank(p: Packet): nat {
    2 * FromBool(p.status == STAT_CRC_OK) + FromBool(p.ftimeReceived)
  }

  /** Whether the second of two same packets is the one to drop. */
  predicate DropsSecond(p: Packet, q: Packet) {
    if p.status == STAT_CRC_OK && q.status == STAT_CRC_BAD then true
    else if p.status == STAT_CRC_BAD && q.status == STAT_CRC_OK then false
    else p.ftimeReceived
  }

  function Dropped(p: Packet, q: Packet): Packet {
    if DropsSecond(p, q) then q else p
  }

  function Kept(p: Packet, q: Packet): Packet {
    if DropsSecond(p, q) then p else q
  }

  predicate CrcUnchecked(p: Packet) {
    p.status != STAT_CRC_OK && p.status != STAT_CRC_BAD
  }

  /** The better packet is dropped exactly when its CRC is good, that of the other was not checked, and
      the first packet has a fine timestamp just if it is not the good one. */
  lemma DropsBetterIff(p: Packet, q: Packet)
    ensures Rank(Dropped(p, q)) > Rank(Kept(p, q)) <==>
            || (p.status == STAT_CRC_OK && CrcUnchecked(q) && !p.ftimeReceived)
            || (q.status == STAT_CRC_OK && CrcUnchecked(p) && p.ftimeReceived)
  {
  }

  // ---------- Removing duplicates ----------

  /** The first index from `k` on of a packet that is the same as number `j`, or the length. */
  function FindSame(ps: seq<Packet>, j: nat, k: nat): (r: nat)
    requires j < k <= |ps|
    ensures k <= r <= |ps|
    ensures r < |ps| ==> Same(ps[j], ps[r])
    ensures forall i :: k <= i < r ==> !Same(ps[j], ps[i])
    decreases |ps| - k
  {
    if k == |ps| || Same(ps[j], ps[k]) then k else FindSame(ps, j, k + 1)
  }

  /** The first pair of same packets whose first index is at least `j`. */
  function FindPair(ps: seq<Packet>, j: nat): (r: Option<(nat, nat)>)
    requires j <= |ps|
    ensures r.Some? ==> j <= r.value.0 < r.value.1 < |ps| && Same(ps[r.value.0], ps[r.value.1])
    ensures r.Some? ==> forall a, b :: j <= a < r.value.0 && a < b < |ps| ==> !Same(ps[a], ps[b])
    ensures r.Some? ==> forall b :: r.value.0 < b < r.value.1 ==> !Same(ps[r.value.0], ps[b])
    ensures r == None ==> forall a, b :: j <= a < b < |ps| ==> !Same(ps[a], ps[b])
    decreases |ps| - j
  {
    if j == |ps| then None
    else
      var k := FindSame(ps, j, j + 1);
      if k < |ps| then Some((j, k)) else FindPair(ps, j + 1)
  }

  /** `remove_pkt`: the last packet takes the place of the one removed. */
  function Removed(ps: seq<Packet>, i: nat): (r: seq<Packet>)
    requires i < |ps|
    ensures |r| == |ps| - 1
  {
    ps[i := ps[|ps| - 1]][..|ps| - 1]
  }

  function DropIndex(ps: seq<Packet>, j: nat, k: nat): nat
    requires j < k < |ps|
  {
    if DropsSecond(ps[j], ps[k]) then k else j
  }

  /** Duplicates are removed one at a time, searching from the start after each. */
  function WithoutDuplicates(ps: seq<Packet>): seq<Packet>
    decreases |ps|
  {
    match FindPair(ps, 0)
    case None => ps
    case Some(pair) => WithoutDuplicates(Removed(ps, DropIndex(ps, pair.0, pair.1)))
  }

  predicate NoTwoSame(ps: seq<Packet>) {
    forall a, b :: 0 <= a < b < |ps| ==> !Same(ps[a], ps[b])
  }

  /** No two of the packets kept are the same. */
  lemma {:induction false} KeptAreDistinct(ps: seq<Packet>)
    ensures NoTwoSame(WithoutDuplicates(ps))
    decreases |ps|
  {
    match FindPair(ps, 0)
    case None =>
    case Some(pair) => KeptAreDistinct(Removed(ps, DropIndex(ps, pair.0, pair.1)));
  }

  lemma RemovedMultiset(ps: seq<Packet>, i: nat)
    requires i < |ps|
    ensures multiset(ps) == multiset(Removed(ps, i)) + multiset{ps[i]}
  {
    var n := |ps| - 1;
    assert ps == ps[..n] + [ps[n]];
    if i < n {
      assert Removed(ps, i) == ps[..n][i := ps[n]];
    } else {
      assert Removed(ps, i) == ps[..n];
    }
  }

  /** Nothing is invented: the packets kept are packets received, each at most as often. */
  lemma {:induction false} KeptWereReceived(ps: seq<Packet>)
    ensures multiset(WithoutDuplicates(ps)) <= multiset(ps)
    decreases |ps|
  {
    match FindPair(ps, 0)
    case None =>
    case Some(pair) =>
      var i := DropIndex(ps, pair.0, pair.1);
      RemovedMultiset(ps, i);
      KeptWereReceived(Removed(ps, i));
  }

  lemma InMultiset(ps: seq<Packet>, p: Packet)
    ensures p in ps <==> p in multiset(ps)
  {
  }

  // ---------- Survivors ----------

  /** A chain of same packets, none worth less than the one before. */
  predicate Climbs(chain: seq<Packet>) {
    forall i :: 0 < i < |chain| ==> Same(chain[i - 1], chain[i]) && Rank(chain[i - 1]) <= Rank(chain[i])
  }

  predicate Among(chain: seq<Packet>, ps: seq<Packet>) {
    forall i :: 0 <= i < |chain| ==> chain[i] in ps
  }

  predicate Leads(chain: seq<Packet>, p: Packet, q: Packet) {
    chain != [] && chain[0] == p && chain[|chain| - 1] == q && Climbs(chain)
  }

  /** A good packet may stand beside a same one whose CRC was not checked only with a fine timestamp that
      the other lacks. */
  predicate Favoured(p: Packet, q: Packet) {
    p.status == STAT_CRC_OK && CrcUnchecked(q) ==> p.ftimeReceived && !q.ftimeReceived
  }

  predicate CrcsComparable(ps: seq<Packet>) {
    forall p, q :: p in ps && q in ps && Same(p, q) ==> Favoured(p, q)
  }

  /** The condition is exact: of two packets, the better is kept in either order if and only if it holds. */
  lemma FavouredIff(p: Packet, q: Packet)
    ensures Favoured(p, q) && Favoured(q, p) <==>
            Rank(Dropped(p, q)) <= Rank(Kept(p, q)) && Rank(Dropped(q, p)) <= Rank(Kept(q, p))
  {
    DropsBetterIff(p, q);
    DropsBetterIff(q, p);
  }

  lemma PairIsMerged(p: Packet, q: Packet)
    requires Same(p, q)
    ensures WithoutDuplicates([p, q]) == [Kept(p, q)]
  {
    DropsFirstPair([p, q]);
    assert Removed([p, q], DropIndex([p, q], 0, 1)) == [Kept(p, q)];
    assert FindPair([Kept(p, q)], 0) == None;
  }

  lemma RemovedElements(ps: seq<Packet>, i: nat)
    requires i < |ps|
    ensures forall p :: p in Removed(ps, i) ==> p in ps
    ensures forall k :: 0 <= k < |ps| && k != i ==> ps[k] in Removed(ps, i)
  {
    var r, n := Removed(ps, i), |ps| - 1;
    forall k | 0 <= k < |ps| && k != i
      ensures ps[k] in r
    {
      assert if k < n then r[k] == ps[k] else r[i] == ps[n];
    }
  }

  /** Dropping one of two same packets keeps a better one, and everything else. */
  lemma DropKeepsBetter(ps: seq<Packet>, j: nat, k: nat)
    requires j < k < |ps| && Same(ps[j], ps[k]) && CrcsComparable(ps)
    ensures var rest, d, b := Removed(ps, DropIndex(ps, j, k)), Dropped(ps[j], ps[k]), Kept(ps[j], ps[k]);
      && b in rest && d in ps && Same(d, b) && Rank(d) <= Rank(b)
      && (forall p :: p in ps ==> p == d || p in rest)
      && (forall p :: p in rest ==> p in ps)
  {
    var i := DropIndex(ps, j, k);
    RemovedElements(ps, i);
    SameIsSymmetric(ps[j], ps[k]);
    DropsBetterIff(ps[j], ps[k]);
    assert ps[j] in ps && ps[k] in ps;
  }

  lemma ClimbsFrom(d: Packet, chain: seq<Packet>, q: Packet)
    requires chain != [] && Same(d, chain[0]) && Rank(d) <= Rank(chain[0]) && Leads(chain, chain[0], q)
    ensures Leads([d] + chain, d, q)
  {
    var c := [d] + chain;
    forall i | 0 < i < |c|
      ensures Same(c[i - 1], c[i]) && Rank(c[i - 1]) <= Rank(c[i])
    {
      assert i > 1 ==> c[i - 1] == chain[i - 2];
      assert c[i] == chain[i - 1];
    }
  }

  /** Every packet received leads, by a chain of received packets, to one that is kept and worth at
      least as much. */
  lemma {:induction false} SurvivorOf(ps: seq<Packet>, p: Packet) returns (q: Packet, chain: seq<Packet>)
    requires p in ps && CrcsComparable(ps)
    ensures q in WithoutDuplicates(ps) && Leads(chain, p, q) && Among(chain, ps)
    decreases |ps|
  {
    hide Same, Rank, DropsSecond, Removed;
    match FindPair(ps, 0)
    case None =>
      q, chain := p, [p];
    case Some(pair) =>
      var (j, k) := pair;
      var rest, d, b := Removed(ps, DropIndex(ps, j, k)), Dropped(ps[j], ps[k]), Kept(ps[j], ps[k]);
      DropKeepsBetter(ps, j, k);
      q, chain := SurvivorOf(rest, if p in rest then p else b);
      if p !in rest {
        ClimbsFrom(d, chain, q);
        chain := [d] + chain;
      }
  }

  lemma {:induction false} ClimbRanks(chain: seq<Packet>, p: Packet, q: Packet)
    requires Leads(chain, p, q)
    ensures Rank(p) <= Rank(q)
    decreases |chain|
  {
    hide Rank, Same;
    if |chain| > 1 {
      var n := |chain| - 1;
      ClimbRanks(chain[..n], p, chain[n - 1]);
    }
  }

  lemma DropsFirstPair(ps: seq<Packet>)
    requires |ps| > 1 && Same(ps[0], ps[1])
    ensures WithoutDuplicates(ps) == WithoutDuplicates(Removed(ps, DropIndex(ps, 0, 1)))
  {
    assert FindSame(ps, 0, 1) == 1;
    assert FindPair(ps, 0) == Some((0, 1));
  }

  /** Of two packets, which is kept, by their CRC status and fine timestamps. */
  lemma PairKeptIff(p: Packet, q: Packet)
    requires Same(p, q)
    ensures WithoutDuplicates([p, q]) == [p] || WithoutDuplicates([p, q]) == [q]
    ensures p != q ==>
            (WithoutDuplicates([p, q]) == [p] <==>
             (p.status == 0x10 && q.status == 0x11)
             || (p.ftimeReceived && !(p.status == 0x11 && q.status == 0x10)))
  {
    hide Same;
    PairIsMerged(p, q);
  }

  /** Some packet that is kept stands for `p`, at the end of a climbing chain of received packets. */
  ghost predicate HasSurvivor(ps: seq<Packet>, p: Packet) {
    exists q, chain :: q in WithoutDuplicates(ps) && Leads(chain, p, q) && Among(chain, ps)
  }

  lemma PairSurvivors(p: Packet, q: Packet)
    requires Same(p, q) && HasSurvivor([p, q], Dropped(p, q))
    ensures Rank(Dropped(p, q)) <= Rank(Kept(p, q))
  {
    hide Same, Rank, DropsSecond, WithoutDuplicates;
    PairIsMerged(p, q);
    var r, chain :| r in WithoutDuplicates([p, q]) && Leads(chain, Dropped(p, q), r) && Among(chain, [p, q]);
    ClimbRanks(chain, Dropped(p, q), r);
  }

  /** The condition is exact: it is what makes every packet of every list of these packets have a survivor. */
  lemma SurvivorsIff(ps: seq<Packet>)
    ensures CrcsComparable(ps) <==>
            forall qs, p :: Among(qs, ps) && p in qs ==> HasSurvivor(qs, p)
  {
    hide Rank, DropsSecond, Same, WithoutDuplicates, Favoured, Leads;
    if CrcsComparable(ps) {
      forall qs, p | Among(qs, ps) && p in qs
        ensures HasSurvivor(qs, p)
      {
        assert forall r :: r in qs ==> r in ps;
        var q, chain := SurvivorOf(qs, p);
      }
    }
    if forall qs, p :: Among(qs, ps) && p in qs ==> HasSurvivor(qs, p) {
      forall p, q | p in ps && q in ps && Same(p, q)
        ensures Favoured(p, q)
      {
        SameIsSymmetric(p, q);
        assert Among([p, q], ps) && Among([q, p], ps);
        assert Dropped(p, q) in [p, q] && Dropped(q, p) in [q, p];
        PairSurvivors(p, q);
        PairSurvivors(q, p);
        FavouredIff(p, q);
      }
    }
  }

  /** A survivor need not be the same as the packet it stands for: of three packets 24 microseconds
      apart, the last alone is kept. */
  lemma ChainsAreNeeded(payload: seq<byte>)
    ensures var p := Packet(0, 0, 7, payload, STAT_CRC_BAD, false, 0);
      var q := Packet(24, 0, 7, payload, STAT_CRC_OK, false, 0);
      var r := Packet(48, 0, 7, payload, STAT_CRC_OK, true, 0);
      WithoutDuplicates([p, q, r]) == [r] && !Same(p, r)
  {
    var p := Packet(0, 0, 7, payload, STAT_CRC_BAD, false, 0);
    var q := Packet(24, 0, 7, payload, STAT_CRC_OK, false, 0);
    var r := Packet(48, 0, 7, payload, STAT_CRC_OK, true, 0);
    DropsFirstPair([p, q, r]);
    assert Removed([p, q, r], 0) == [r, q];
    DropsFirstPair([r, q]);
    assert Removed([r, q], 1) == [r];
    assert FindPair([r], 0) == None;
  }

  /** With a packet whose CRC was not checked, the good packet can be the one dropped. */
  lemma GoodPacketCanBeDropped(payload: seq<byte>)
    ensures var p := Packet(0, 0, 7, payload, STAT_CRC_OK, false, 0);
      var q := Packet(0, 0, 7, payload, STAT_NO_CRC, false, 0);
      WithoutDuplicates([p, q]) == [q]
  {
    var p := Packet(0, 0, 7, payload, STAT_CRC_OK, false, 0);
    var q := Packet(0, 0, 7, payload, STAT_NO_CRC, false, 0);
    DropsFirstPair([p, q]);
    assert Removed([p, q], 0) == [q];
    assert FindPair([q], 0) == None;
  }

  // ---------- Transitive inputs ----------

  predicate SameIsTransitive(ps: seq<Packet>) {
    forall p, q, r :: p in ps && q in ps && r in ps && Same(p, q) && Same(q, r) ==> Same(p, r)
  }

  lemma {:induction false} ChainIsSame(ps: seq<Packet>, chain: seq<Packet>, p: Packet, q: Packet)
    requires SameIsTransitive(ps) && Among(chain, ps) && Leads(chain, p, q)
    ensures Same(p, q)
    decreases |chain|
  {
    var n := |chain| - 1;
    if n == 0 {
      SameIsSymmetric(p, q);
    } else {
      hide Same, Rank;
      ChainIsSame(ps, chain[..n], p, chain[n - 1]);
      assert p in ps && chain[n - 1] in ps && chain[n] in ps;
    }
  }

  /** Where sameness is transitive, exactly one packet is left of each class, of maximal rank. */
  lemma OneOfEachClass(ps: seq<Packet>, p: Packet) returns (i: nat)
    requires p in ps && CrcsComparable(ps) && SameIsTransitive(ps)
    ensures var out := WithoutDuplicates(ps);
      && i < |out| && Same(p, out[i])
      && (forall k :: 0 <= k < |out| && Same(p, out[k]) ==> k == i)
      && (forall r :: r in ps && Same(p, r) ==> Rank(r) <= Rank(out[i]))
  {
    hide Same, Rank, WithoutDuplicates, CrcsComparable;
    var out := WithoutDuplicates(ps);
    KeptAreDistinct(ps);
    forall k | 0 <= k < |out|
      ensures out[k] in ps
    {
      KeptWereReceived(ps);
      InMultiset(ps, out[k]);
      InMultiset(out, out[k]);
    }
    var q, chain := SurvivorOf(ps, p);
    ChainIsSame(ps, chain, p, q);
    i :| 0 <= i < |out| && out[i] == q;
    forall k | 0 <= k < |out| && Same(p, out[k])
      ensures k == i
    {
      SameIsSymmetric(p, q);
      SameIsSymmetric(out[k], q);
    }
    forall r | r in ps && Same(p, r)
      ensures Rank(r) <= Rank(q)
    {
      var q', chain' := SurvivorOf(ps, r);
      ChainIsSame(ps, chain', r, q');
      ClimbRanks(chain', r, q');
      var k :| 0 <= k < |out| && out[k] == q';
    }
  }

  // ---------- Sorting ----------

  /** The count as a 32-bit signed integer. */
  function Signed(count: uint32): int {
    if count < 0x8000_0000 then count else count - 0x1_0000_0000
  }

  /** `compare_pkt_tmst`: the signed difference of the counts, wrapped to 32 bits. */
  function Compare(p: Packet, q: Packet): int {
    Signed(U32(Signed(p.countUs) - Signed(q.countUs)))
  }

  predicate DifferenceFits(p: Packet, q: Packet) {
    -0x8000_0000 <= Signed(p.countUs) - Signed(q.countUs) < 0x8000_0000
  }

  /** The comparison has the right sign exactly when the difference fits in 32 bits. */
  lemma CompareIsRightIff(p: Packet, q: Packet)
    ensures (Compare(p, q) <= 0 <==> Signed(p.countUs) <= Signed(q.countUs)) <==> DifferenceFits(p, q)
  {
  }

  function Insert(p: Packet, ps: seq<Packet>): seq<Packet> {
    if ps == [] || Compare(p, ps[0]) <= 0 then [p] + ps else [ps[0]] + Insert(p, ps[1..])
  }

  /** Stands for `qsort_r` with `compare_pkt_tmst`. */
  function Sort(ps: seq<Packet>): seq<Packet> {
    if ps == [] then [] else Insert(ps[0], Sort(ps[1..]))
  }

  /** The packets are in ascending order of `key`. */
  predicate Ordered(ps: seq<Packet>, key: Packet -> int) {
    forall i, j :: 0 <= i < j < |ps| ==> key(ps[i]) <= key(ps[j])
  }

  /** The comparison agrees with `key`. */
  predicate ComparesBy(key: Packet -> int, p: Packet, q: Packet) {
    Compare(p, q) <= 0 <==> key(p) <= key(q)
  }

  predicate AllCompareBy(key: Packet -> int, ps: seq<Packet>) {
    forall p, q :: p in ps && q in ps ==> ComparesBy(key, p, q)
  }

  lemma {:induction false} InsertMultiset(p: Packet, ps: seq<Packet>)
    ensures multiset(Insert(p, ps)) == multiset(ps) + multiset{p}
    decreases |ps|
  {
    if ps != [] && Compare(p, ps[0]) > 0 {
      InsertMultiset(p, ps[1..]);
      assert ps == [ps[0]] + ps[1..];
    }
  }

  lemma {:induction false} SortIsPermutation(ps: seq<Packet>)
    ensures multiset(Sort(ps)) == multiset(ps)
    decreases |ps|
  {
    if ps != [] {
      SortIsPermutation(ps[1..]);
      InsertMultiset(ps[0], Sort(ps[1..]));
      assert ps == [ps[0]] + ps[1..];
    }
  }

  lemma SortElements(ps: seq<Packet>, p: Packet)
    ensures p in Sort(ps) <==> p in ps
  {
    SortIsPermutation(ps);
    InMultiset(Sort(ps), p);
    InMultiset(ps, p);
  }

  lemma InsertElements(p: Packet, ps: seq<Packet>, q: Packet)
    ensures q in Insert(p, ps) <==> q == p || q in ps
  {
    InsertMultiset(p, ps);
    InMultiset(Insert(p, ps), q);
    InMultiset(ps, q);
  }

  lemma OrderedCons(p: Packet, ps: seq<Packet>, key: Packet -> int)
    requires Ordered(ps, key) && forall q :: q in ps ==> key(p) <= key(q)
    ensures Ordered([p] + ps, key)
  {
  }

  lemma {:induction false} InsertIsOrdered(p: Packet, ps: seq<Packet>, key: Packet -> int)
    requires Ordered(ps, key) && forall q :: q in ps ==> ComparesBy(key, p, q)
    ensures Ordered(Insert(p, ps), key)
    decreases |ps|
  {
    hide Compare;
    if ps != [] {
      assert ps[0] in ps;
      if Compare(p, ps[0]) > 0 {
        InsertIsOrdered(p, ps[1..], key);
        forall q | q in Insert(p, ps[1..])
          ensures key(ps[0]) <= key(q)
        {
          InsertElements(p, ps[1..], q);
        }
        OrderedCons(ps[0], Insert(p, ps[1..]), key);
      } else {
        OrderedCons(p, ps, key);
      }
    }
  }

  /** The result is in the order of any key that the comparison agrees with. */
  lemma {:induction false} SortIsOrdered(ps: seq<Packet>, key: Packet -> int)
    requires AllCompareBy(key, ps)
    ensures Ordered(Sort(ps), key)
    decreases |ps|
  {
    hide ComparesBy;
    if ps != [] {
      SortIsOrdered(ps[1..], key);
      forall q | q in Sort(ps[1..])
        ensures ComparesBy(key, ps[0], q)
      {
        SortElements(ps[1..], q);
      }
      InsertIsOrdered(ps[0], Sort(ps[1..]), key);
    }
  }

  /** The signed count. */
  function SignedCount(): Packet -> int {
    (p: Packet) => Signed(p.countUs)
  }

  predicate DifferencesFit(ps: seq<Packet>) {
    forall p, q :: p in ps && q in ps ==> DifferenceFits(p, q)
  }

  /** Where the signed differences fit in 32 bits, that is the order of the signed counts. */
  lemma SortedBySignedCount(ps: seq<Packet>)
    requires DifferencesFit(ps)
    ensures Ordered(Sort(ps), SignedCount())
  {
    forall p, q | p in ps && q in ps
      ensures ComparesBy(SignedCount(), p, q)
    {
      CompareIsRightIff(p, q);
    }
    SortIsOrdered(ps, SignedCount());
  }

  /** The true time of a packet, which is known to lie in the 2^32 microseconds from `start` on. */
  function TrueTime(start: int): Packet -> int {
    (p: Packet) => start + U32((p.countUs as int) - start)
  }

  /** The true times all lie in the 2^31 microseconds from `start` on. */
  predicate InWindow(start: int, ps: seq<Packet>) {
    forall p :: p in ps ==> U32((p.countUs as int) - start) < 0x8000_0000
  }

  lemma TrueTimeIs(start: int, time: int, p: Packet)
    requires start <= time < start + 0x1_0000_0000 && p.countUs == U32(time)
    ensures TrueTime(start)(p) == time
  {
    var d := time - start;
    var q := time / 0x1_0000_0000;
    DivisionIsUnique((p.countUs as int) - start, 0x1_0000_0000, -q, d);
  }

  lemma CompareIsTimeDifference(start: int, p: Packet, q: Packet)
    requires U32((p.countUs as int) - start) < 0x8000_0000 && U32((q.countUs as int) - start) < 0x8000_0000
    ensures Compare(p, q) == TrueTime(start)(p) - TrueTime(start)(q)
  {
    var a, b: int := U32((p.countUs as int) - start), U32((q.countUs as int) - start);
    var m := ((p.countUs as int) - start) / 0x1_0000_0000 - ((q.countUs as int) - start) / 0x1_0000_0000;
    var n := (if p.countUs < 0x8000_0000 then 0 else 1) - (if q.countUs < 0x8000_0000 then 0 else 1);
    assert Signed(p.countUs) - Signed(q.countUs) == a - b + (m - n) * 0x1_0000_0000;
    SignedOfWrapped(a - b, m - n);
  }

  lemma SignedOfWrapped(d: int, m: int)
    requires -0x8000_0000 <= d < 0x8000_0000
    ensures Signed(U32(d + m * 0x1_0000_0000)) == d
  {
    Residue(d, m);
  }

  /** Within a window of 2^31 microseconds the sorted packets are in true time order, also when it takes
      in a wrap of the counter or the change of sign of the counts. */
  lemma SortedByTrueTime(start: int, ps: seq<Packet>)
    requires InWindow(start, ps)
    ensures Ordered(Sort(ps), TrueTime(start))
  {
    forall p, q | p in ps && q in ps
      ensures ComparesBy(TrueTime(start), p, q)
    {
      CompareIsTimeDifference(start, p, q);
    }
    SortIsOrdered(ps, TrueTime(start));
  }

  predicate SameAsNone(p: Packet, ps: seq<Packet>) {
    forall q :: q in ps ==> !Same(p, q)
  }

  lemma NoTwoSameCons(p: Packet, ps: seq<Packet>)
    requires NoTwoSame(ps) && SameAsNone(p, ps)
    ensures NoTwoSame([p] + ps)
  {
  }

  lemma {:induction false} InsertKeepsDistinct(p: Packet, ps: seq<Packet>)
    requires NoTwoSame(ps) && SameAsNone(p, ps)
    ensures NoTwoSame(Insert(p, ps))
    decreases |ps|
  {
    hide Same, Compare;
    if ps == [] || Compare(p, ps[0]) <= 0 {
      NoTwoSameCons(p, ps);
    } else {
      InsertKeepsDistinct(p, ps[1..]);
      forall q | q in Insert(p, ps[1..])
        ensures !Same(ps[0], q)
      {
        InsertElements(p, ps[1..], q);
        SameIsSymmetric(p, ps[0]);
      }
      NoTwoSameCons(ps[0], Insert(p, ps[1..]));
    }
  }

  lemma {:induction false} SortKeepsDistinct(ps: seq<Packet>)
    requires NoTwoSame(ps)
    ensures NoTwoSame(Sort(ps))
    decreases |ps|
  {
    hide Same;
    if ps != [] {
      SortKeepsDistinct(ps[1..]);
      forall q | q in Sort(ps[1..])
        ensures !Same(ps[0], q)
      {
        SortElements(ps[1..], q);
      }
      InsertKeepsDistinct(ps[0], Sort(ps[1..]));
    }
  }

  // ---------- The whole merge ----------

  /** What `merge_packets` leaves in the array. */
  function Merged(ps: seq<Packet>): seq<Packet> {
    Sort(WithoutDuplicates(ps))
  }

  /** No duplicates, nothing invented, and in order if the received counts are close enough. */
  lemma MergedIsClean(ps: seq<Packet>)
    ensures NoTwoSame(Merged(ps)) && multiset(Merged(ps)) <= multiset(ps)
    ensures DifferencesFit(ps) ==> Ordered(Merged(ps), SignedCount())
    ensures forall start :: InWindow(start, ps) ==> Ordered(Merged(ps), TrueTime(start))
  {
    hide Same, DifferenceFits;
    var out := WithoutDuplicates(ps);
    KeptAreDistinct(ps);
    SortKeepsDistinct(out);
    KeptWereReceived(ps);
    SortIsPermutation(out);
    forall p | p in out
      ensures p in ps
    {
      InMultiset(ps, p);
      InMultiset(out, p);
    }
    if DifferencesFit(ps) {
      SortedBySignedCount(out);
    }
    forall start | InWindow(start, ps)
      ensures Ordered(Merged(ps), TrueTime(start))
    {
      SortedByTrueTime(start, out);
    }
  }

  /** Nothing is lost: a merged packet stands for every packet received. */
  lemma MergedSurvivor(ps: seq<Packet>, p: Packet) returns (q: Packet, chain: seq<Packet>)
    requires p in ps && CrcsComparable(ps)
    ensures q in Merged(ps) && Leads(chain, p, q) && Among(chain, ps) && Rank(p) <= Rank(q)
  {
    hide CrcsComparable;
    q, chain := SurvivorOf(ps, p);
    ClimbRanks(chain, p, q);
    SortElements(WithoutDuplicates(ps), q);
  }

  // ---------- What is kept, without the notion of sameness ----------

  /** Nothing agrees with packet number `i` in chain, datarate and payload, and comes within 24 microseconds of it. */
  predicate Lonely(ps: seq<Packet>, i: nat) {
    i < |ps| && forall k :: 0 <= k < |ps| && k != i ==> Apart(ps[i], ps[k])
  }

  predicate Apart(p: Packet, q: Packet) {
    || p.ifChain != q.ifChain || p.datarate != q.datarate || p.payload != q.payload
    || 24 < ((p.countUs as int) - q.countUs) % 0x1_0000_0000 < 0x1_0000_0000 - 24
  }

  lemma ApartIff(p: Packet, q: Packet)
    ensures Apart(p, q) <==> !Same(p, q)
  {
    SameIff(p, q);
    WrapAround(p.countUs, q.countUs);
  }

  lemma LonelyStays(ps: seq<Packet>, i: nat, drop: nat) returns (i': nat)
    requires Lonely(ps, i) && drop < |ps| && drop != i
    ensures Lonely(Removed(ps, drop), i') && Removed(ps, drop)[i'] == ps[i]
  {
    hide Apart;
    var r, n := Removed(ps, drop), |ps| - 1;
    i' := if i == n then drop else i;
    forall k | 0 <= k < |r| && k != i'
      ensures Apart(ps[i], r[k])
    {
      assert r[k] == ps[if k == drop then n else k];
    }
  }

  lemma {:induction false} LonelyIsNotDropped(ps: seq<Packet>, i: nat)
    requires Lonely(ps, i)
    ensures ps[i] in WithoutDuplicates(ps)
    decreases |ps|
  {
    hide Apart, Same, Removed, DropsSecond;
    match FindPair(ps, 0)
    case None =>
    case Some(pair) =>
      var (j, k) := pair;
      ApartIff(ps[j], ps[k]);
      ApartIff(ps[k], ps[j]);
      SameIsSymmetric(ps[j], ps[k]);
      var i' := LonelyStays(ps, i, DropIndex(ps, j, k));
      LonelyIsNotDropped(Removed(ps, DropIndex(ps, j, k)), i');
  }

  /** A packet that no other one agrees with is never lost. */
  lemma LonelyIsKept(ps: seq<Packet>, i: nat)
    requires Lonely(ps, i)
    ensures ps[i] in Merged(ps)
  {
    LonelyIsNotDropped(ps, i);
    SortElements(WithoutDuplicates(ps), ps[i]);
  }

  /** Of two merged packets that agree in chain, datarate and payload, the true times are more than
      24 microseconds apart, if they are less than 2^31 apart. */
  lemma MergedAreApart(ps: seq<Packet>, a: nat, b: nat, s: int, t: int)
    requires a < b < |Merged(ps)| && Merged(ps)[a].countUs == U32(s) && Merged(ps)[b].countUs == U32(t)
    requires -0x8000_0000 < s - t < 0x8000_0000
    ensures var p, q := Merged(ps)[a], Merged(ps)[b];
      p.ifChain == q.ifChain && p.datarate == q.datarate && p.payload == q.payload ==> s - t > 24 || t - s > 24
  {
    hide WithoutDuplicates, Sort, Same;
    MergedIsClean(ps);
    SameIff(Merged(ps)[a], Merged(ps)[b]);
    CountsNearIff(s, t, Merged(ps)[a].countUs, Merged(ps)[b].countUs);
  }

  // ---------- In place ----------

  /** No two counts are exactly half the circle apart, where C leaves `abs` undefined. */
  predicate Comparable(ps: seq<Packet>) {
    forall i, j :: 0 <= i < |ps| && 0 <= j < |ps| ==> Distance(ps[i].countUs, ps[j].countUs) != 0x8000_0000
  }

  lemma RemovedComparable(ps: seq<Packet>, i: nat)
    requires i < |ps| && Comparable(ps)
    ensures Comparable(Removed(ps, i))
  {
    hide Distance;
    var r, n := Removed(ps, i), |ps| - 1;
    forall a, b | 0 <= a < n && 0 <= b < n
      ensures Distance(r[a].countUs, r[b].countUs) != 0x8000_0000
    {
      assert r[a] == ps[if a == i then n else a] && r[b] == ps[if b == i then n else b];
    }
  }

  method IsSame(p: Packet, q: Packet) returns (same: bool)
    requires Distance(p.countUs, q.countUs) != 0x8000_0000
    ensures same == Same(p, q)
  {
    var diff := Signed(U32((p.countUs as int) - q.countUs));
    var distance := if diff < 0 then -diff else diff;
    same := distance <= 24 && p.ifChain == q.ifChain && p.datarate == q.datarate
      && |p.payload| == |q.payload| && p.payload == q.payload;
  }

  method RemovePacket(p: array<Packet>, nbPkt: byte, index: byte) returns (ok: bool, left: byte)
    requires nbPkt <= p.Length
    modifies p
    ensures ok <==> index < nbPkt
    ensures ok ==> left == nbPkt - 1 && p[..left] == Removed(old(p[..nbPkt]), index)
    ensures !ok ==> left == nbPkt && p[..] == old(p[..])
    ensures forall i :: nbPkt <= i < p.Length ==> p[i] == old(p[i])
  {
    if index as int > nbPkt as int - 1 {
      return false, nbPkt;
    }
    if index != nbPkt - 1 {
      p[index] := p[nbPkt - 1];
    }
    return true, nbPkt - 1;
  }

  /** The inner loop of `merge_packets`. */
  method FirstSame(p: array<Packet>, cpt: nat, j: nat) returns (k: nat)
    requires j < cpt <= p.Length && Comparable(p[..cpt])
    ensures k == FindSame(p[..cpt], j, j + 1)
  {
    hide Same;
    k := j + 1;
    while k < cpt
      invariant j < k <= cpt
      invariant FindSame(p[..cpt], j, j + 1) == FindSame(p[..cpt], j, k)
    {
      assert p[..cpt][j] == p[j] && p[..cpt][k] == p[k];
      var same := IsSame(p[j], p[k]);
      if same {
        return;
      }
      k := k + 1;
    }
  }

  /** Which of two same packets `merge_packets` deletes. */
  method ChooseDuplicate(p: array<Packet>, j: nat, k: nat) returns (dup: nat)
    requires j < k < p.Length
    ensures dup == DropIndex(p[..], j, k)
  {
    if p[j].status == STAT_CRC_OK && p[k].status == STAT_CRC_BAD {
      dup := k;
    } else if p[j].status == STAT_CRC_BAD && p[k].status == STAT_CRC_OK {
      dup := j;
    } else if p[j].ftimeReceived {
      dup := k;
    } else {
      dup := j;
    }
  }

  /** The search from `j` either goes on after `j` or leads to a removal. */
  lemma SearchStep(ps: seq<Packet>, j: nat)
    requires j < |ps| && FindPair(ps, 0) == FindPair(ps, j)
    ensures var k := FindSame(ps, j, j + 1);
      if k < |ps| then WithoutDuplicates(ps) == WithoutDuplicates(Removed(ps, DropIndex(ps, j, k)))
      else FindPair(ps, 0) == FindPair(ps, j + 1)
  {
  }

  lemma SearchEnds(ps: seq<Packet>)
    requires FindPair(ps, 0) == FindPair(ps, |ps|)
    ensures WithoutDuplicates(ps) == ps
  {
  }

  /** The duplicate search of `merge_packets`, which starts over after each removal. */
  method RemoveDuplicates(p: array<Packet>, nbPkt: byte) returns (cpt: byte)
    requires nbPkt <= p.Length && Comparable(p[..nbPkt])
    modifies p
    ensures cpt <= nbPkt && p[..cpt] == WithoutDuplicates(old(p[..nbPkt]))
    ensures forall i :: nbPkt <= i < p.Length ==> p[i] == old(p[i])
  {
    hide Same, DropsSecond, Removed, Comparable, FindSame, FindPair, WithoutDuplicates;
    cpt := nbPkt;
    var j: nat := 0;
    while j < cpt
      invariant j <= cpt <= nbPkt && Comparable(p[..cpt])
      invariant WithoutDuplicates(p[..cpt]) == WithoutDuplicates(old(p[..nbPkt]))
      invariant FindPair(p[..cpt], 0) == FindPair(p[..cpt], j)
      invariant forall i :: nbPkt <= i < p.Length ==> p[i] == old(p[i])
      decreases cpt as int, cpt as int - j
    {
      ghost var ps := p[..cpt];
      var k := FirstSame(p, cpt, j);
      SearchStep(ps, j);
      if k < cpt {
        var dup := ChooseDuplicate(p, j, k);
        assert ps[j] == p[j] && ps[k] == p[k];
        RemovedComparable(ps, dup);
        var ok;
        ok, cpt := RemovePacket(p, cpt, dup);
        j := 0;
      } else {
        j := j + 1;
      }
    }
    SearchEnds(p[..cpt]);
  }

  /** `merge_packets` */
  method MergePackets(p: array<Packet>, nbPkt: byte) returns (cpt: byte)
    requires nbPkt <= p.Length && Comparable(p[..nbPkt])
    modifies p
    ensures cpt <= nbPkt && p[..cpt] == Merged(old(p[..nbPkt]))
    ensures forall i :: nbPkt <= i < p.Length ==> p[i] == old(p[i])
  {
    hide WithoutDuplicates, Sort;
    cpt := RemoveDuplicates(p, nbPkt);
    var sorted := Sort(p[..cpt]);
    SortIsPermutation(p[..cpt]);
    assert |multiset(sorted)| == cpt;
    for i := 0 to cpt
      invariant forall k :: 0 <= k < i ==> p[k] == sorted[k]
      invariant forall k :: nbPkt <= k < p.Length ==> p[k] == old(p[k])
    {
      p[i] := sorted[i];
    }
  }
}
