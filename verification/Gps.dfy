/** The GPS time reference: synchronisation with rejection of aberrant points, and the conversions
    between the concentrator counter and absolute time. Doubles are modelled as reals. */
module Gps {
  import opened Bits

  const NSEC := 1_000_000_000
  const PLUS_10PPM := 1.00001
  const MINUS_10PPM := 0.99999

  /** `struct timespec` */
  datatype Time = Time(sec: int, nsec: int)

  /** `struct tref` */
  datatype Ref = Ref(systime: int, countUs: uint32, utc: Time, gps: Time, xtalErr: real)

  predicate XtalInRange(x: real) {
    MINUS_10PPM <= x <= PLUS_10PPM
  }

  /** The references that the four conversions accept. */
  predicate Usable(ref: Ref) {
    ref.systime != 0 && XtalInRange(ref.xtalErr)
  }

  /** The time in nanoseconds. */
  function Nanos(t: Time): int {
    t.sec * NSEC + t.nsec
  }

  // ---------- Synchronisation ----------

  /** A synchronisation point, and the system time at the attempt. */
  datatype Attempt = Attempt(countUs: uint32, utc: Time, gps: Time, now: int)

  /** The reference, and whether the last attempt and the one before it were aberrant. */
  datatype Sync = Sync(ref: Ref, aberMin1: bool, aberMin2: bool)

  function CntDiff(ref: Ref, a: Attempt): real {
    U32((a.countUs as int) - ref.countUs) as real / 1_000_000.0
  }

  function UtcDiff(ref: Ref, a: Attempt): real {
    (a.utc.sec - ref.utc.sec) as real + 0.000_000_001 * (a.utc.nsec - ref.utc.nsec) as real
  }

  /** The point is not on a line within 10 ppm of the nominal rate through the reference. */
  predicate Aberrant(ref: Ref, a: Attempt) {
    UtcDiff(ref, a) == 0.0 || !XtalInRange(CntDiff(ref, a) / UtcDiff(ref, a))
  }

  function Slope(ref: Ref, a: Attempt): real {
    if UtcDiff(ref, a) == 0.0 then 0.0 else CntDiff(ref, a) / UtcDiff(ref, a)
  }

  /** `lgw_gps_sync`: the new state, and whether the attempt succeeds. */
  function Synced(s: Sync, a: Attempt): (Sync, bool) {
    if !Aberrant(s.ref, a) then
      (Sync(Ref(a.now, a.countUs, a.utc, a.gps, Slope(s.ref, a)), false, s.aberMin1), true)
    else if s.aberMin1 && s.aberMin2 then
      (Sync(Ref(a.now, a.countUs, a.utc, a.gps, if XtalInRange(s.ref.xtalErr) then s.ref.xtalErr else 1.0),
            true, s.aberMin1), true)
    else
      (Sync(s.ref, true, s.aberMin1), false)
  }

  /** A failed attempt changes nothing in the reference; a successful one sets all of it, with the crystal
      error in range. */
  lemma SyncedRef(s: Sync, a: Attempt)
    ensures !Synced(s, a).1 ==> Synced(s, a).0.ref == s.ref
    ensures Synced(s, a).1 ==> Synced(s, a).0.ref == Ref(a.now, a.countUs, a.utc, a.gps, Synced(s, a).0.ref.xtalErr)
    ensures Synced(s, a).1 ==> XtalInRange(Synced(s, a).0.ref.xtalErr)
  {
  }

  /** Which points are taken, in whole microseconds and nanoseconds: those that come after the reference and at
      which the counter has run between 99 999 and 100 001 to 100 000 of the time. */
  lemma AberrantIff(ref: Ref, a: Attempt)
    ensures var n, d := ((a.countUs as int) - ref.countUs) % 0x1_0000_0000, Nanos(a.utc) - Nanos(ref.utc);
      !Aberrant(ref, a) <==> d > 0 && 99_999 * d <= 100_000 * 1000 * n <= 100_001 * d
  {
    var n, d := ((a.countUs as int) - ref.countUs) % 0x1_0000_0000, Nanos(a.utc) - Nanos(ref.utc);
    assert UtcDiff(ref, a) * 1_000_000_000.0 == d as real;
    assert CntDiff(ref, a) * 1_000_000.0 == n as real;
    if d != 0 {
      RatioIs(CntDiff(ref, a), UtcDiff(ref, a));
    }
  }

  lemma RatioIs(a: real, b: real)
    requires b != 0.0 && a >= 0.0
    ensures XtalInRange(a / b) <==> b > 0.0 && 0.99999 * b <= a <= 1.00001 * b
  {
    if b > 0.0 {
      RatioIff(a, b, 0.99999);
      RatioIff(a, b, 1.00001);
    } else {
      var q := a / b;
      assert q * b == a;
      assert q * -b == -a;
      SameSign(q, -b);
    }
  }

  /** A successful attempt at an aberrant point keeps the crystal error if it is within 10 ppm, and takes it to be
      none otherwise. */
  lemma ResetKeepsXtal(s: Sync, a: Attempt)
    requires Aberrant(s.ref, a) && Synced(s, a).1
    ensures Synced(s, a).0.ref.xtalErr ==
            if 0.99999 <= s.ref.xtalErr <= 1.00001 then s.ref.xtalErr else 1.0
  {
  }

  function RunSync(s: Sync, attempts: seq<Attempt>): Sync
    decreases |attempts|
  {
    if attempts == [] then s else Synced(RunSync(s, attempts[..|attempts| - 1]), attempts[|attempts| - 1]).0
  }

  /** Attempt number `i` of a run succeeds. */
  predicate Succeeds(s: Sync, attempts: seq<Attempt>, i: nat)
    requires i < |attempts|
  {
    Synced(RunSync(s, attempts[..i]), attempts[i]).1
  }

  predicate AberrantAt(s: Sync, attempts: seq<Attempt>, i: nat)
    requires i < |attempts|
  {
    Aberrant(RunSync(s, attempts[..i]).ref, attempts[i])
  }

  lemma RunNext(s: Sync, attempts: seq<Attempt>, i: nat)
    requires i < |attempts|
    ensures RunSync(s, attempts[..i + 1]) == Synced(RunSync(s, attempts[..i]), attempts[i]).0
  {
    assert attempts[..i + 1][..i] == attempts[..i];
  }

  /** In any run, an attempt fails exactly when it is aberrant and not both attempts before it were;
      what was remembered at the start counts for the first two. */
  lemma FailsIff(s: Sync, attempts: seq<Attempt>, i: nat)
    requires i < |attempts|
    ensures !Succeeds(s, attempts, i) <==>
            && AberrantAt(s, attempts, i)
            && !(if i > 1 then AberrantAt(s, attempts, i - 1) && AberrantAt(s, attempts, i - 2)
                 else if i == 1 then AberrantAt(s, attempts, 0) && s.aberMin1
                 else s.aberMin1 && s.aberMin2)
  {
    hide Aberrant, Slope;
    if i > 0 {
      RunNext(s, attempts, i - 1);
    } else {
      assert attempts[..0] == [];
    }
    if i > 1 {
      RunNext(s, attempts, i - 2);
    } else {
      assert attempts[..0] == [];
    }
  }

  /** Three attempts in a row never all fail. */
  lemma NeverThreeFailures(s: Sync, attempts: seq<Attempt>, i: nat)
    requires i + 2 < |attempts|
    ensures Succeeds(s, attempts, i) || Succeeds(s, attempts, i + 1) || Succeeds(s, attempts, i + 2)
  {
    hide Succeeds, AberrantAt;
    FailsIff(s, attempts, i);
    FailsIff(s, attempts, i + 1);
    FailsIff(s, attempts, i + 2);
  }

  /** The reference is the last successful point, or the initial reference if there was none: failed
      attempts leave it alone. */
  lemma {:induction false} RefIsLastSuccess(s: Sync, attempts: seq<Attempt>, n: nat, last: nat)
    requires last < n <= |attempts| && Succeeds(s, attempts, last)
    requires forall i :: last < i < n ==> !Succeeds(s, attempts, i)
    ensures var r := RunSync(s, attempts[..n]).ref;
      && r == Ref(attempts[last].now, attempts[last].countUs, attempts[last].utc, attempts[last].gps, r.xtalErr)
      && XtalInRange(r.xtalErr)
    decreases n
  {
    hide Synced, XtalInRange;
    RunNext(s, attempts, n - 1);
    SyncedRef(RunSync(s, attempts[..n - 1]), attempts[n - 1]);
    assert last < n - 1 ==> !Succeeds(s, attempts, n - 1);
    if last < n - 1 {
      RefIsLastSuccess(s, attempts, n - 1, last);
    }
  }

  /** So after any success, and until the next, the reference is usable in all four conversions if the
      system clock was not at zero. */
  lemma UsableAfterSuccess(s: Sync, attempts: seq<Attempt>, n: nat, last: nat)
    requires last < n <= |attempts| && Succeeds(s, attempts, last) && attempts[last].now != 0
    requires forall i :: last < i < n ==> !Succeeds(s, attempts, i)
    ensures var ref := RunSync(s, attempts[..n]).ref;
      Usable(ref) && forall count, t :: Converts(ref, count, t)
  {
    RefIsLastSuccess(s, attempts, n, last);
  }

  /** An aberrant point that follows two aberrant ones is taken as it is, keeping a crystal error that is
      in range: a run of aberrant points fails twice and then resets every time. */
  lemma AberrantRunResets(s: Sync, attempts: seq<Attempt>, i: nat)
    requires 2 <= i < |attempts|
    requires AberrantAt(s, attempts, i) && AberrantAt(s, attempts, i - 1) && AberrantAt(s, attempts, i - 2)
    ensures Succeeds(s, attempts, i)
    ensures XtalInRange(RunSync(s, attempts[..i]).ref.xtalErr) ==>
            RunSync(s, attempts[..i + 1]).ref.xtalErr == RunSync(s, attempts[..i]).ref.xtalErr
  {
    hide Slope;
    FailsIff(s, attempts, i);
    RunNext(s, attempts, i);
  }

  // ---------- Conversions ----------

  /** Counter to time, from the reference time `base`: `lgw_cnt2utc` and `lgw_cnt2gps`. */
  function CntToTime(ref: Ref, base: Time, countUs: uint32): Option<Time> {
    if !Usable(ref) then None
    else
      var deltaSec := U32((countUs as int) - ref.countUs) as real / (1_000_000.0 * ref.xtalErr);
      var intPart := deltaSec.Floor;
      var tmp := base.nsec + ((deltaSec - intPart as real) * 1_000_000_000.0).Floor;
      if tmp < NSEC then Some(Time(base.sec + intPart, tmp)) else Some(Time(base.sec + intPart + 1, tmp - NSEC))
  }

  datatype Count = Count(countUs: uint32) | InvalidReference | CastUndefined

  /** C's conversion of a double to `uint32_t`, which truncates and is undefined outside the range. */
  function Cast(x: real): Count {
    if x <= -1.0 || x >= 4294967296.0 then CastUndefined
    else Count(if x < 0.0 then 0 else x.Floor)
  }

  /** The count `x` microseconds after the reference. */
  function FromReference(ref: Ref, x: real): Count {
    match Cast(x)
    case Count(c) => Count(U32(ref.countUs as int + c))
    case _ => CastUndefined
  }

  function DeltaSec(base: Time, t: Time): real {
    (t.sec - base.sec) as real + 0.000_000_001 * (t.nsec - base.nsec) as real
  }

  function Ticks(deltaSec: real, xtalErr: real): real {
    deltaSec * 1_000_000.0 * xtalErr
  }

  /** Time to counter, from the reference time `base`: `lgw_utc2cnt` and `lgw_gps2cnt`. */
  function TimeToCnt(ref: Ref, base: Time, t: Time): Count {
    if !Usable(ref) then InvalidReference
    else FromReference(ref, Ticks(DeltaSec(base, t), ref.xtalErr))
  }

  function CntToUtc(ref: Ref, countUs: uint32): Option<Time> { CntToTime(ref, ref.utc, countUs) }
  function CntToGps(ref: Ref, countUs: uint32): Option<Time> { CntToTime(ref, ref.gps, countUs) }
  function UtcToCnt(ref: Ref, t: Time): Count { TimeToCnt(ref, ref.utc, t) }
  function GpsToCnt(ref: Ref, t: Time): Count { TimeToCnt(ref, ref.gps, t) }

  /** The microseconds from the reference to a count. */
  function Elapsed(ref: Ref, countUs: uint32): uint32 {
    U32((countUs as int) - ref.countUs)
  }

  /** Those microseconds in true nanoseconds. */
  function TrueNanos(n: nat, xtalErr: real): real
    requires XtalInRange(xtalErr)
  {
    1000.0 * n as real / xtalErr
  }

  lemma FloorIs(r: real, k: int)
    requires k as real <= r < k as real + 1.0
    ensures r.Floor == k
  {
  }

  lemma SameSign(a: real, x: real)
    requires x > 0.0
    ensures (a * x > 0.0 <==> a > 0.0) && (a * x < 0.0 <==> a < 0.0)
  {
  }

  lemma Quotient(a: real, b: real, q: real)
    requires b > 0.0 && q * b == a
    ensures a / b == q
  {
  }

  lemma SecondsAndFraction(n: nat, x: real)
    requires XtalInRange(x)
    ensures var d := n as real / (1_000_000.0 * x);
      d >= 0.0 && d.Floor * NSEC + ((d - d.Floor as real) * 1_000_000_000.0).Floor == TrueNanos(n, x).Floor
    ensures var d := n as real / (1_000_000.0 * x);
      0 <= ((d - d.Floor as real) * 1_000_000_000.0).Floor < NSEC
  {
    var d := n as real / (1_000_000.0 * x);
    assert d * (1_000_000.0 * x) == n as real;
    Quotient(1000.0 * n as real, x, d * 1_000_000_000.0);
    var f := (d - d.Floor as real) * 1_000_000_000.0;
    assert TrueNanos(n, x) == (d.Floor * NSEC) as real + f;
    FloorIs(TrueNanos(n, x), d.Floor * NSEC + f.Floor);
    SameSign(d, 1_000_000.0 * x);
  }

  /** A usable reference converts every count, to the true time rounded down to a nanosecond, with the
      nanoseconds in [0, 1e9). */
  lemma CntToTimeIsTrue(ref: Ref, base: Time, countUs: uint32)
    requires Usable(ref) && 0 <= base.nsec < NSEC
    ensures CntToTime(ref, base, countUs).Some?
    ensures var t := CntToTime(ref, base, countUs).value;
      && 0 <= t.nsec < NSEC
      && Nanos(t) == Nanos(base) + TrueNanos(Elapsed(ref, countUs), ref.xtalErr).Floor
  {
    SecondsAndFraction(Elapsed(ref, countUs), ref.xtalErr);
  }

  /** The counts in `d` nanoseconds. */
  function Counts(d: int, xtalErr: real): real {
    d as real * xtalErr / 1000.0
  }

  lemma TimeToCntScales(ref: Ref, base: Time, t: Time)
    requires Usable(ref)
    ensures TimeToCnt(ref, base, t) == FromReference(ref, Counts(Nanos(t) - Nanos(base), ref.xtalErr))
  {
    hide Ticks, DeltaSec, Counts;
    TicksAreCounts(base, t, ref.xtalErr);
  }

  lemma TicksAreCounts(base: Time, t: Time, x: real)
    ensures Ticks(DeltaSec(base, t), x) == Counts(Nanos(t) - Nanos(base), x)
  {
    var d := (Nanos(t) - Nanos(base)) as real;
    assert DeltaSec(base, t) * 1_000_000.0 == d / 1000.0;
    hide DeltaSec, Nanos;
    Thousandth(d, DeltaSec(base, t) * 1_000_000.0, x);
  }

  lemma Thousandth(d: real, a: real, x: real)
    requires a == d / 1000.0
    ensures a * x == d * x / 1000.0
  {
  }

  /** The conversion is defined for exactly the times from less than a count before the reference to less
      than 2^32 counts after. */
  lemma TimeToCntDefinedIff(ref: Ref, base: Time, t: Time)
    requires Usable(ref)
    ensures TimeToCnt(ref, base, t).Count? <==> -1.0 < Counts(Nanos(t) - Nanos(base), ref.xtalErr) < 4294967296.0
  {
    hide Counts;
    TimeToCntScales(ref, base, t);
  }

  predicate WholeNanos(n: nat, xtalErr: real)
    requires XtalInRange(xtalErr)
  {
    TrueNanos(n, xtalErr) == TrueNanos(n, xtalErr).Floor as real
  }

  lemma FlooredBack(n: nat, x: real)
    requires XtalInRange(x)
    ensures var y := Counts(TrueNanos(n, x).Floor, x);
      n as real - 1.0 < y <= n as real && (y == n as real <==> WholeNanos(n, x))
      && (n == 0 ==> y == 0.0)
  {
    var t := TrueNanos(n, x);
    assert t * x == 1000.0 * n as real;
    var lost := t - t.Floor as real;
    assert t.Floor as real * x == 1000.0 * n as real - lost * x;
    SameSign(lost, x);
    SameSign(1.0 - lost, x);
    assert (1.0 - lost) * x == x - lost * x;
    if n == 0 {
      Quotient(0.0, x, 0.0);
    }
  }

  /** There and back: the same count when its true time is a whole number of nanoseconds, and one less
      otherwise, modulo 2^32. */
  lemma CntRoundTrip(ref: Ref, base: Time, countUs: uint32)
    requires Usable(ref) && 0 <= base.nsec < NSEC
    ensures CntToTime(ref, base, countUs).Some?
    ensures TimeToCnt(ref, base, CntToTime(ref, base, countUs).value) ==
            Count(if WholeNanos(Elapsed(ref, countUs), ref.xtalErr) then countUs else U32((countUs as int) - 1))
  {
    hide TrueNanos, WholeNanos, CntToTime, TimeToCnt, Elapsed, Counts, Cast, U32, Nanos;
    var n := Elapsed(ref, countUs);
    CntToTimeIsTrue(ref, base, countUs);
    TimeToCntScales(ref, base, CntToTime(ref, base, countUs).value);
    FlooredBack(n, ref.xtalErr);
    CastFloors(n, Counts(TrueNanos(n, ref.xtalErr).Floor, ref.xtalErr));
    BackFromElapsed(ref, countUs);
  }

  /** UTC and GPS time each go there and back on their own reference time, which is what the reference count
      stands for. */
  lemma UtcAndGpsRoundTrip(ref: Ref, countUs: uint32)
    requires Usable(ref) && 0 <= ref.utc.nsec < NSEC && 0 <= ref.gps.nsec < NSEC
    ensures CntToUtc(ref, ref.countUs) == Some(ref.utc) && CntToGps(ref, ref.countUs) == Some(ref.gps)
    ensures UtcToCnt(ref, ref.utc) == Count(ref.countUs) && GpsToCnt(ref, ref.gps) == Count(ref.countUs)
    ensures CntToUtc(ref, countUs).Some? && CntToGps(ref, countUs).Some?
    ensures UtcToCnt(ref, CntToUtc(ref, countUs).value) == GpsToCnt(ref, CntToGps(ref, countUs).value)
    ensures UtcToCnt(ref, CntToUtc(ref, countUs).value) ==
            Count(if WholeNanos(Elapsed(ref, countUs), ref.xtalErr) then countUs else U32((countUs as int) - 1))
  {
    hide CntToTime, TimeToCnt, WholeNanos;
    CntRoundTrip(ref, ref.utc, countUs);
    CntRoundTrip(ref, ref.gps, countUs);
    AtReference(ref, ref.utc);
    AtReference(ref, ref.gps);
  }

  lemma AtReference(ref: Ref, base: Time)
    requires Usable(ref) && 0 <= base.nsec < NSEC
    ensures CntToTime(ref, base, ref.countUs) == Some(base) && TimeToCnt(ref, base, base) == Count(ref.countUs)
  {
    hide CntToTime, TimeToCnt, WholeNanos, TrueNanos;
    CntToTimeIsTrue(ref, base, ref.countUs);
    NoNanos(ref.xtalErr);
    SameNanos(CntToTime(ref, base, ref.countUs).value, base);
    CntRoundTrip(ref, base, ref.countUs);
    WholeZero(ref.xtalErr);
  }

  lemma NoNanos(x: real)
    requires XtalInRange(x)
    ensures TrueNanos(0, x).Floor == 0
  {
    Quotient(0.0, x, 0.0);
  }

  lemma WholeZero(x: real)
    requires XtalInRange(x)
    ensures WholeNanos(0, x)
  {
    Quotient(0.0, x, 0.0);
  }

  lemma SameNanos(t: Time, u: Time)
    requires 0 <= t.nsec < NSEC && 0 <= u.nsec < NSEC && Nanos(t) == Nanos(u)
    ensures t == u
  {
  }

  /** The loss does happen: with a crystal 10 ppm fast, the count after the reference comes back as the
      reference itself. */
  lemma CountIsLost()
    ensures var ref := Ref(1, 0, Time(0, 0), Time(0, 0), PLUS_10PPM);
      !WholeNanos(1, PLUS_10PPM) && CntToUtc(ref, 1).Some? && UtcToCnt(ref, CntToUtc(ref, 1).value) == Count(0)
  {
    var t := TrueNanos(1, PLUS_10PPM);
    assert t * PLUS_10PPM == 1000.0;
    FloorIs(t, 999);
    CntRoundTrip(Ref(1, 0, Time(0, 0), Time(0, 0), PLUS_10PPM), Time(0, 0), 1);
  }

  lemma CastFloors(n: uint32, y: real)
    requires n as real - 1.0 < y <= n as real && (n == 0 ==> y == 0.0)
    ensures Cast(y) == Count(if y == n as real then n else n - 1)
  {
    FloorIs(y, if y == n as real then n else n - 1);
  }

  /** A point that is not aberrant lies on the line of the crystal error that is stored for it: with that error,
      the old reference converts the new time to exactly the new count. */
  lemma SlopeExplainsPoint(s: Sync, a: Attempt)
    requires !Aberrant(s.ref, a) && s.ref.systime != 0
    ensures Synced(s, a).1
    ensures UtcToCnt(s.ref.(xtalErr := Synced(s, a).0.ref.xtalErr), a.utc) == Count(a.countUs)
  {
    var ref := s.ref;
    var steered := ref.(xtalErr := Slope(ref, a));
    var n := Elapsed(ref, a.countUs);
    TimeToCntScales(steered, ref.utc, a.utc);
    SlopeCounts(ref, a, n);
    CastFloors(n, n as real);
    BackFromElapsed(ref, a.countUs);
  }

  lemma SlopeCounts(ref: Ref, a: Attempt, n: nat)
    requires UtcDiff(ref, a) != 0.0 && n == Elapsed(ref, a.countUs)
    ensures Counts(Nanos(a.utc) - Nanos(ref.utc), Slope(ref, a)) == n as real
  {
    var d, s := (Nanos(a.utc) - Nanos(ref.utc)) as real, Slope(ref, a);
    assert UtcDiff(ref, a) * 1_000_000_000.0 == d;
    hide UtcDiff, Elapsed, Nanos;
    assert s * UtcDiff(ref, a) == n as real / 1_000_000.0;
    assert d * s == s * UtcDiff(ref, a) * 1_000_000_000.0;
  }

  lemma BackFromElapsed(ref: Ref, countUs: uint32)
    ensures U32(ref.countUs as int + Elapsed(ref, countUs)) == countUs
    ensures U32(ref.countUs as int + Elapsed(ref, countUs) - 1) == U32((countUs as int) - 1)
  {
  }

  /** Conversions keep the order of counts after the reference. */
  lemma CntToTimeMonotone(ref: Ref, base: Time, earlier: uint32, later: uint32)
    requires Usable(ref) && 0 <= base.nsec < NSEC && Elapsed(ref, earlier) <= Elapsed(ref, later)
    ensures CntToTime(ref, base, earlier).Some? && CntToTime(ref, base, later).Some?
    ensures Nanos(CntToTime(ref, base, earlier).value) <= Nanos(CntToTime(ref, base, later).value)
  {
    hide CntToTime, Elapsed;
    CntToTimeIsTrue(ref, base, earlier);
    CntToTimeIsTrue(ref, base, later);
    TrueNanosMonotone(Elapsed(ref, earlier), Elapsed(ref, later), ref.xtalErr);
  }

  lemma TrueNanosMonotone(m: nat, n: nat, x: real)
    requires XtalInRange(x) && m <= n
    ensures TrueNanos(m, x).Floor <= TrueNanos(n, x).Floor
  {
    var a, b := TrueNanos(m, x), TrueNanos(n, x);
    assert a * x == 1000.0 * m as real && b * x == 1000.0 * n as real;
    SameSign(a - b, x);
    assert (a - b) * x == 1000.0 * (m - n) as real;
  }

  /** UTC and GPS time of a count differ as they do at the reference. */
  lemma GpsUtcOffset(ref: Ref, countUs: uint32)
    requires Usable(ref) && 0 <= ref.utc.nsec < NSEC && 0 <= ref.gps.nsec < NSEC
    ensures CntToGps(ref, countUs).Some? && CntToUtc(ref, countUs).Some?
    ensures Nanos(CntToGps(ref, countUs).value) - Nanos(CntToUtc(ref, countUs).value) == Nanos(ref.gps) - Nanos(ref.utc)
  {
    CntToTimeIsTrue(ref, ref.gps, countUs);
    CntToTimeIsTrue(ref, ref.utc, countUs);
  }

  /** A time from the reference on comes back at most 1001 nanoseconds earlier, and never later. */
  lemma TimeRoundTrip(ref: Ref, base: Time, t: Time)
    requires Usable(ref) && 0 <= base.nsec < NSEC
    requires Nanos(t) >= Nanos(base) && TimeToCnt(ref, base, t).Count?
    ensures CntToTime(ref, base, TimeToCnt(ref, base, t).countUs).Some?
    ensures 0 <= Nanos(t) - Nanos(CntToTime(ref, base, TimeToCnt(ref, base, t).countUs).value) <= 1001
  {
    hide CntToTime, TimeToCnt, TrueNanos, Counts, Elapsed, Nanos, U32;
    TimeToCntScales(ref, base, t);
    var d := Nanos(t) - Nanos(base);
    var c := TimeToCnt(ref, base, t).countUs;
    CntToTimeIsTrue(ref, base, c);
    CountsAreNotNegative(d, ref.xtalErr);
    ElapsedOfSum(ref, Counts(d, ref.xtalErr).Floor);
    CountedNanos(d, Counts(d, ref.xtalErr).Floor, ref.xtalErr);
  }

  lemma CountsAreNotNegative(d: nat, x: real)
    requires XtalInRange(x)
    ensures Counts(d, x) >= 0.0
  {
  }

  lemma ElapsedOfSum(ref: Ref, n: uint32)
    ensures Elapsed(ref, U32(ref.countUs as int + n)) == n
  {
  }

  lemma CountedNanos(d: nat, n: nat, x: real)
    requires XtalInRange(x) && n == Counts(d, x).Floor
    ensures 0 <= d - TrueNanos(n, x).Floor <= 1001
  {
    var t := TrueNanos(n, x);
    assert t * x == 1000.0 * n as real;
    assert n as real <= Counts(d, x) < n as real + 1.0;
    Within(d as real, t, x);
    assert d as real - t.Floor as real < 1001.5;
  }

  lemma Within(d: real, t: real, x: real)
    requires XtalInRange(x) && d * x - 1000.0 < t * x <= d * x
    ensures d - 1000.5 < t <= d
  {
    RealMonotone(t, d - 1000.5, x);
    RealMonotone(d, t, x);
    assert (d - 1000.5) * x == d * x - 1000.5 * x;
  }

  lemma RealMonotone(a: real, b: real, x: real)
    requires x > 0.0
    ensures a <= b ==> a * x <= b * x
    ensures a < b ==> a * x < b * x
  {
  }

  // ---------- Accepted references ----------

  /** The references that are accepted: synchronised, and a crystal within 10 ppm. */
  lemma UsableIff(ref: Ref, countUs: uint32, t: Time)
    ensures Usable(ref) <==> ref.systime != 0 && 0.99999 <= ref.xtalErr <= 1.00001
    ensures CntToUtc(ref, countUs).Some? <==> ref.systime != 0 && 0.99999 <= ref.xtalErr <= 1.00001
    ensures CntToGps(ref, countUs).Some? <==> ref.systime != 0 && 0.99999 <= ref.xtalErr <= 1.00001
    ensures UtcToCnt(ref, t) == InvalidReference <==> ref.systime == 0 || !(0.99999 <= ref.xtalErr <= 1.00001)
    ensures GpsToCnt(ref, t) == InvalidReference <==> ref.systime == 0 || !(0.99999 <= ref.xtalErr <= 1.00001)
  {
    hide Ticks, DeltaSec;
  }

  /** None of the four conversions refuses the reference. */
  predicate Converts(ref: Ref, countUs: uint32, t: Time) {
    && CntToUtc(ref, countUs).Some? && CntToGps(ref, countUs).Some?
    && UtcToCnt(ref, t) != InvalidReference && GpsToCnt(ref, t) != InvalidReference
  }

  // ---------- The class ----------

  class GpsSync {
    var ref: Ref
    var aberMin1: bool
    var aberMin2: bool

    function Value(): Sync
      reads this
    {
      Sync(ref, aberMin1, aberMin2)
    }

    constructor (ref: Ref)
      ensures Value() == Sync(ref, false, false)
    {
      this.ref := ref;
      aberMin1, aberMin2 := false, false;
    }

    /** `lgw_gps_sync` */
    method Synchronise(a: Attempt) returns (ok: bool)
      modifies this
      ensures (Value(), ok) == Synced(old(Value()), a)
      ensures !ok ==> ref == old(ref)
      ensures ok && a.now != 0 ==> Usable(ref)
    {
      var cntDiff, utcDiff := CntDiff(ref, a), UtcDiff(ref, a);
      var slope := 0.0;
      var aberN0 := true;
      if utcDiff != 0.0 {
        slope := cntDiff / utcDiff;
        aberN0 := slope > PLUS_10PPM || slope < MINUS_10PPM;
      }
      if !aberN0 {
        ref := Ref(a.now, a.countUs, a.utc, a.gps, slope);
        ok := true;
      } else if aberMin1 && aberMin2 {
        ref := Ref(a.now, a.countUs, a.utc, a.gps, ref.xtalErr);
        if ref.xtalErr > PLUS_10PPM || ref.xtalErr < MINUS_10PPM {
          ref := ref.(xtalErr := 1.0);
        }
        ok := true;
      } else {
        ok := false;
      }
      aberMin2 := aberMin1;
      aberMin1 := aberN0;
    }
  }
}
