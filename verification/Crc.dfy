/** The LoRa payload CRC of loragw_sx1302.c and what it computes: the remainder of
    the message polynomial modulo x^16 + x^12 + x^5 + 1, the generator of section 2
    of ITU-T V.41 (without that recommendation's multiplication by x^16).
 */
module Crc {
  import opened Bits

  predicate Xor2(a: bool, b: bool) { a != b }
  predicate Xor3(a: bool, b: bool, c: bool) { Xor2(Xor2(a, b), c) }
  predicate Xor4(a: bool, b: bool, c: bool, d: bool) { Xor2(Xor3(a, b, c), d) }

  /** The lines of the unrolled network of `lora_crc16`: line k is shifted by k. */
  predicate NetworkLine(data: seq<bool>, crc: seq<bool>, k: int) {
    match k
    case 0 => Xor3(Coef(data, 0), Coef(crc, 12), Coef(crc, 8))
    case 1 => Xor3(Coef(data, 1), Coef(crc, 13), Coef(crc, 9))
    case 2 => Xor3(Coef(data, 2), Coef(crc, 14), Coef(crc, 10))
    case 3 => Xor3(Coef(data, 3), Coef(crc, 15), Coef(crc, 11))
    case 4 => Xor2(Coef(data, 4), Coef(crc, 12))
    case 5 => Xor4(Coef(data, 5), Coef(crc, 13), Coef(crc, 12), Coef(crc, 8))
    case 6 => Xor4(Coef(data, 6), Coef(crc, 14), Coef(crc, 13), Coef(crc, 9))
    case 7 => Xor4(Coef(data, 7), Coef(crc, 15), Coef(crc, 14), Coef(crc, 10))
    case 8 => Xor3(Coef(crc, 0), Coef(crc, 15), Coef(crc, 11))
    case 9 => Xor2(Coef(crc, 1), Coef(crc, 12))
    case 10 => Xor2(Coef(crc, 2), Coef(crc, 13))
    case 11 => Xor2(Coef(crc, 3), Coef(crc, 14))
    case 12 => Xor4(Coef(crc, 4), Coef(crc, 15), Coef(crc, 12), Coef(crc, 8))
    case 13 => Xor3(Coef(crc, 5), Coef(crc, 13), Coef(crc, 9))
    case 14 => Xor3(Coef(crc, 6), Coef(crc, 14), Coef(crc, 10))
    case 15 => Xor3(Coef(crc, 7), Coef(crc, 15), Coef(crc, 11))
    case _ => false
  }

  function BitsOf(v: nat, n: nat): (s: seq<bool>)
    ensures |s| == n
  {
    seq(n, i requires 0 <= i < n => Bit(v, n - 1 - i))
  }

  function Network(data: seq<bool>, crc: seq<bool>): (s: seq<bool>)
    ensures |s| == 16
  {
    seq(16, i => NetworkLine(data, crc, 15 - i))
  }

  /** `lora_crc16`: the new value of `*crc`, the sum of the shifted lines. */
  function LoraCrc16(data: byte, crc: nat): nat {
    Value(Network(BitsOf(data, 8), BitsOf(crc, 16)))
  }

  /** The coefficient of x^k in the product of `q` and the generator. */
  predicate TimesGenerator(q: seq<bool>, k: int) {
    Xor4(Coef(q, k - 16), Coef(q, k - 12), Coef(q, k - 5), Coef(q, k))
  }

  /** What the division by the generator subtracts while one byte comes in. */
  predicate QuotientLine(c: seq<bool>, k: int) {
    if 4 <= k < 8 then Coef(c, k + 8)
    else if 0 <= k < 4 then Xor2(Coef(c, k + 8), Coef(c, k + 12))
    else false
  }

  function ByteQuotient(c: seq<bool>): (q: seq<bool>)
    ensures |q| == 8
  {
    seq(8, i => QuotientLine(c, 7 - i))
  }

  lemma NetworkDivides(d: seq<bool>, c: seq<bool>, k: int)
    requires |d| == 8 && |c| == 16
    ensures Xor2(Coef(c, k - 8), Coef(d, k)) == Xor2(TimesGenerator(ByteQuotient(c), k), Coef(Network(d, c), k))
  {
    var q, n := ByteQuotient(c), Network(d, c);
    assert forall j :: Coef(q, j) == QuotientLine(c, j);
    assert Coef(n, k) == NetworkLine(d, c, k);
  }

  /** The bits of a message, the highest bit of each byte first. */
  function MessageBits(data: seq<byte>): (s: seq<bool>)
    ensures |s| == 8 * |data|
  {
    if data == [] then [] else MessageBits(data[..|data| - 1]) + BitsOf(data[|data| - 1], 8)
  }

  function PayloadCrc(data: seq<byte>): nat {
    if data == [] then 0 else LoraCrc16(data[|data| - 1], PayloadCrc(data[..|data| - 1]))
  }

  /** `sx1302_lora_payload_crc` */
  method LoraPayloadCrc(data: seq<byte>) returns (crc: nat)
    ensures crc == PayloadCrc(data) && crc < 0x1_0000
  {
    crc := 0;
    for i := 0 to |data|
      invariant crc == PayloadCrc(data[..i]) && crc < 0x1_0000
    {
      assert data[..i + 1][..i] == data[..i];
      AccumulatorFits(data[..i + 1]);
      crc := LoraCrc16(data[i], crc);
    }
    assert data[..|data|] == data;
  }

  lemma AccumulatorFits(data: seq<byte>)
    ensures PayloadCrc(data) < 0x1_0000
  {
    WordSizes();
    if data != [] {
      ValueBound(Network(BitsOf(data[|data| - 1], 8), BitsOf(PayloadCrc(data[..|data| - 1]), 16)));
    }
  }

  // ---------- Division with remainder ----------

  /** `m` is `q` times the generator plus a remainder `r` of degree below 16. */
  ghost predicate Divides(m: seq<bool>, q: seq<bool>, r: seq<bool>) {
    |r| == 16 && forall k: int :: Coef(m, k) == Xor2(TimesGenerator(q, k), Coef(r, k))
  }

  function Quotient(data: seq<byte>): seq<bool> {
    if data == [] then []
    else
      var before := data[..|data| - 1];
      Quotient(before) + ByteQuotient(BitsOf(PayloadCrc(before), 16))
  }

  lemma CoefConcat(a: seq<bool>, b: seq<bool>, k: int)
    ensures Coef(a + b, k) == Xor2(Coef(a, k - |b|), Coef(b, k))
    ensures Coef(a + b, k) == if k < |b| then Coef(b, k) else Coef(a, k - |b|)
  {
  }

  lemma TimesConcat(a: seq<bool>, b: seq<bool>, k: int)
    ensures TimesGenerator(a + b, k) == Xor2(TimesGenerator(a, k - |b|), TimesGenerator(b, k))
  {
    CoefConcat(a, b, k - 16);
    CoefConcat(a, b, k - 12);
    CoefConcat(a, b, k - 5);
    CoefConcat(a, b, k);
  }

  /** The bits of the number assembled from the network are the network's lines. */
  lemma BitsOfValue(s: seq<bool>, k: int)
    ensures Coef(BitsOf(Value(s), |s|), k) == Coef(s, k)
  {
    if 0 <= k < |s| {
      ValueBit(s, k);
    }
  }

  /** Taking in one byte keeps the division identity at every degree. */
  lemma DivisionStep(m: seq<bool>, q: seq<bool>, c: seq<bool>, d: seq<bool>, r: seq<bool>, k: int)
    requires |d| == 8 && |r| == 16 && Divides(m, q, c)
    requires Coef(r, k) == Coef(Network(d, c), k)
    ensures Coef(m + d, k) == Xor2(TimesGenerator(q + ByteQuotient(c), k), Coef(r, k))
  {
    CoefConcat(m, d, k);
    TimesConcat(q, ByteQuotient(c), k);
    NetworkDivides(d, c, k);
    assert Coef(m, k - 8) == Xor2(TimesGenerator(q, k - 8), Coef(c, k - 8));
  }

  lemma ZeroBits(n: nat)
    ensures BitsOf(0, n) == seq(n, _ => false)
  {
    forall k: nat
      ensures !Bit(0, k)
    {
      DivisionIsUnique(0, Pow2(k), 0, 0);
    }
  }

  /** The accumulator is the remainder of the message by the generator. */
  lemma {:induction false} CrcDivides(data: seq<byte>)
    ensures Divides(MessageBits(data), Quotient(data), BitsOf(PayloadCrc(data), 16))
  {
    if data == [] {
      ZeroBits(16);
    } else {
      var before, d := data[..|data| - 1], BitsOf(data[|data| - 1], 8);
      var c := BitsOf(PayloadCrc(before), 16);
      CrcDivides(before);
      forall k: int
        ensures Coef(MessageBits(data), k) ==
                Xor2(TimesGenerator(Quotient(data), k), Coef(BitsOf(PayloadCrc(data), 16), k))
      {
        BitsOfValue(Network(d, c), k);
        DivisionStep(MessageBits(before), Quotient(before), c, d, BitsOf(PayloadCrc(data), 16), k);
      }
    }
  }

  /** Two quotients agree from degree `k` on, so by the leading term everywhere. */
  lemma {:induction false} QuotientsAgree(m: seq<bool>, q: seq<bool>, r: seq<bool>,
                                          q': seq<bool>, r': seq<bool>, k: int)
    requires Divides(m, q, r) && Divides(m, q', r')
    ensures Coef(q, k) == Coef(q', k)
    decreases |q| + |q'| - k
  {
    if k < |q| + |q'| {
      QuotientsAgree(m, q, r, q', r', k + 4);
      QuotientsAgree(m, q, r, q', r', k + 11);
      QuotientsAgree(m, q, r, q', r', k + 16);
      assert Coef(m, k + 16) == Xor2(TimesGenerator(q, k + 16), Coef(r, k + 16));
      assert Coef(m, k + 16) == Xor2(TimesGenerator(q', k + 16), Coef(r', k + 16));
      assert (k + 16) - 12 == k + 4 && (k + 16) - 5 == k + 11 && (k + 16) - 16 == k;
    }
  }

  lemma RemainderIsUnique(m: seq<bool>, q: seq<bool>, r: seq<bool>, q': seq<bool>, r': seq<bool>)
    requires Divides(m, q, r) && Divides(m, q', r')
    ensures r == r'
  {
    forall i | 0 <= i < 16
      ensures r[i] == r'[i]
    {
      var k := 15 - i;
      QuotientsAgree(m, q, r, q', r', k);
      QuotientsAgree(m, q, r, q', r', k - 5);
      QuotientsAgree(m, q, r, q', r', k - 12);
      QuotientsAgree(m, q, r, q', r', k - 16);
      assert Coef(m, k) == Xor2(TimesGenerator(q, k), Coef(r, k));
      assert Coef(m, k) == Xor2(TimesGenerator(q', k), Coef(r', k));
    }
  }

  ghost predicate IsRemainder(m: seq<bool>, r: seq<bool>) {
    exists q :: Divides(m, q, r)
  }

  /** The payload CRC is the one 16-bit number congruent to the message modulo the generator. */
  lemma CrcIsTheRemainder(data: seq<byte>, r: uint16)
    ensures IsRemainder(MessageBits(data), BitsOf(r, 16)) <==> r == PayloadCrc(data)
  {
    CrcDivides(data);
    if IsRemainder(MessageBits(data), BitsOf(r, 16)) {
      var q :| Divides(MessageBits(data), q, BitsOf(r, 16));
      RemainderIsUnique(MessageBits(data), q, BitsOf(r, 16), Quotient(data), BitsOf(PayloadCrc(data), 16));
      AccumulatorFits(data);
      SameBitsSameNumber(r, PayloadCrc(data));
    }
  }

  lemma SameBitsSameNumber(v: nat, w: nat)
    requires v < 0x1_0000 && w < 0x1_0000 && BitsOf(v, 16) == BitsOf(w, 16)
    ensures v == w
  {
    WordSizes();
    forall k | 0 <= k < 16
      ensures Bit(v, k) == Bit(w, k)
    {
      assert BitsOf(v, 16)[15 - k] == Bit(v, k);
      assert BitsOf(w, 16)[15 - k] == Bit(w, k);
    }
    BitsDetermine(v, w, 16);
  }

  // ---------- The same remainder, one message bit at a time ----------

  /** One step of long division: shift a message bit in and, when a term of degree 16
      comes out, subtract the generator. */
  function LongDivisionStep(r: seq<bool>, b: bool): (r': seq<bool>)
    requires |r| == 16
    ensures |r'| == 16
  {
    seq(16, i requires 0 <= i < 16 =>
      Xor2(if i == 15 then b else r[i + 1], r[0] && (i == 3 || i == 10 || i == 15)))
  }

  function LongDivision(m: seq<bool>): (r: seq<bool>)
    ensures |r| == 16
  {
    if m == [] then seq(16, _ => false)
    else LongDivisionStep(LongDivision(m[..|m| - 1]), m[|m| - 1])
  }

  function LongQuotient(m: seq<bool>): seq<bool> {
    if m == [] then [] else LongQuotient(m[..|m| - 1]) + [LongDivision(m[..|m| - 1])[0]]
  }

  lemma LongStep(m: seq<bool>, q: seq<bool>, r: seq<bool>, b: bool, k: int)
    requires Divides(m, q, r)
    ensures Coef(m + [b], k) == Xor2(TimesGenerator(q + [r[0]], k), Coef(LongDivisionStep(r, b), k))
  {
    CoefConcat(m, [b], k);
    TimesConcat(q, [r[0]], k);
    assert Coef(m, k - 1) == Xor2(TimesGenerator(q, k - 1), Coef(r, k - 1));
    assert forall j: int :: Coef([r[0]], j) == (j == 0 && r[0]);
    assert Coef(LongDivisionStep(r, b), k) ==
           (0 <= k < 16 && Xor2(if k == 0 then b else Coef(r, k - 1), r[0] && (k == 12 || k == 5 || k == 0)));
  }

  lemma {:induction false} LongDivisionDivides(m: seq<bool>)
    ensures Divides(m, LongQuotient(m), LongDivision(m))
  {
    if m != [] {
      var n := |m| - 1;
      LongDivisionDivides(m[..n]);
      assert m == m[..n] + [m[n]];
      forall k: int
        ensures Coef(m, k) == Xor2(TimesGenerator(LongQuotient(m), k), Coef(LongDivision(m), k))
      {
        LongStep(m[..n], LongQuotient(m[..n]), LongDivision(m[..n]), m[n], k);
      }
    }
  }

  /** The unrolled network refines bit-serial polynomial division, for a message of any length. */
  lemma NetworkRefinesLongDivision(data: seq<byte>)
    ensures BitsOf(PayloadCrc(data), 16) == LongDivision(MessageBits(data))
  {
    CrcDivides(data);
    LongDivisionDivides(MessageBits(data));
    RemainderIsUnique(MessageBits(data), Quotient(data), BitsOf(PayloadCrc(data), 16),
                      LongQuotient(MessageBits(data)), LongDivision(MessageBits(data)));
  }

  // ---------- Error detection ----------

  /** The polynomial of the bits in which two messages differ. */
  predicate Differ(a: seq<byte>, b: seq<byte>, k: int) {
    Xor2(Coef(MessageBits(a), k), Coef(MessageBits(b), k))
  }

  ghost predicate MultipleOfGenerator(a: seq<byte>, b: seq<byte>, q: seq<bool>) {
    forall k: int :: Differ(a, b, k) == TimesGenerator(q, k)
  }

  function XorPoly(p: seq<bool>, q: seq<bool>): seq<bool> {
    var n := if |p| > |q| then |p| else |q|;
    seq(n, i => Xor2(Coef(p, n - 1 - i), Coef(q, n - 1 - i)))
  }

  lemma XorPolyCoef(p: seq<bool>, q: seq<bool>, k: int)
    ensures Coef(XorPoly(p, q), k) == Xor2(Coef(p, k), Coef(q, k))
  {
  }

  lemma XorPolyTimes(p: seq<bool>, q: seq<bool>, k: int)
    ensures TimesGenerator(XorPoly(p, q), k) == Xor2(TimesGenerator(p, k), TimesGenerator(q, k))
  {
    XorPolyCoef(p, q, k - 16);
    XorPolyCoef(p, q, k - 12);
    XorPolyCoef(p, q, k - 5);
    XorPolyCoef(p, q, k);
  }

  /** An error goes unnoticed exactly when its polynomial is a multiple of the generator. */
  lemma ErrorIsMissedIff(a: seq<byte>, b: seq<byte>)
    ensures PayloadCrc(a) == PayloadCrc(b) <==> exists q :: MultipleOfGenerator(a, b, q)
  {
    var ra, rb := BitsOf(PayloadCrc(a), 16), BitsOf(PayloadCrc(b), 16);
    CrcDivides(a);
    CrcDivides(b);
    if PayloadCrc(a) == PayloadCrc(b) {
      var q := XorPoly(Quotient(a), Quotient(b));
      forall k: int
        ensures Differ(a, b, k) == TimesGenerator(q, k)
      {
        XorPolyTimes(Quotient(a), Quotient(b), k);
        assert Coef(MessageBits(a), k) == Xor2(TimesGenerator(Quotient(a), k), Coef(ra, k));
        assert Coef(MessageBits(b), k) == Xor2(TimesGenerator(Quotient(b), k), Coef(rb, k));
      }
      assert MultipleOfGenerator(a, b, q);
    }
    if q :| MultipleOfGenerator(a, b, q) {
      var qb := XorPoly(Quotient(a), q);
      forall k: int
        ensures Coef(MessageBits(b), k) == Xor2(TimesGenerator(qb, k), Coef(ra, k))
      {
        XorPolyTimes(Quotient(a), q, k);
        assert Differ(a, b, k) == TimesGenerator(q, k);
        assert Coef(MessageBits(a), k) == Xor2(TimesGenerator(Quotient(a), k), Coef(ra, k));
      }
      RemainderIsUnique(MessageBits(b), qb, ra, Quotient(b), rb);
      AccumulatorFits(a);
      AccumulatorFits(b);
      SameBitsSameNumber(PayloadCrc(a), PayloadCrc(b));
    }
  }

  /** Lowest and highest terms of a non-zero polynomial. */
  lemma LowestTerm(q: seq<bool>, e: int) returns (low: int)
    requires Coef(q, e)
    ensures Coef(q, low) && forall k :: k < low ==> !Coef(q, k)
  {
    low := 0;
    while !Coef(q, low)
      invariant 0 <= low <= e && forall k :: k < low ==> !Coef(q, k)
      decreases e - low
    {
      low := low + 1;
    }
  }

  lemma HighestTerm(q: seq<bool>, e: int) returns (high: int)
    requires Coef(q, e)
    ensures Coef(q, high) && high >= e && forall k :: k > high ==> !Coef(q, k)
  {
    high := |q|;
    while !Coef(q, high)
      invariant e <= high <= |q| && forall k :: k > high ==> !Coef(q, k)
      decreases high
    {
      high := high - 1;
    }
  }

  /** A non-zero multiple of the generator spans at least 17 positions. */
  lemma MultiplesSpan17(q: seq<bool>, e: int) returns (low: int, high: int)
    requires Coef(q, e)
    ensures TimesGenerator(q, low) && TimesGenerator(q, high) && high >= low + 16
  {
    low := LowestTerm(q, e);
    var h := HighestTerm(q, low);
    high := h + 16;
    assert TimesGenerator(q, low);
    assert !Coef(q, h + 16) && !Coef(q, h + 4) && !Coef(q, h + 11);
    assert (h + 16) - 12 == h + 4 && (h + 16) - 5 == h + 11;
  }

  lemma SomeTerm(q: seq<bool>, k: int) returns (e: int)
    requires TimesGenerator(q, k)
    ensures Coef(q, e)
  {
    e := if Coef(q, k) then k else if Coef(q, k - 5) then k - 5 else if Coef(q, k - 12) then k - 12 else k - 16;
  }

  /** An error that goes unnoticed touches two bits at least 16 positions apart. */
  lemma MissedErrorsSpan17(a: seq<byte>, b: seq<byte>, k0: int) returns (low: int, high: int)
    requires Differ(a, b, k0) && PayloadCrc(a) == PayloadCrc(b)
    ensures Differ(a, b, low) && Differ(a, b, high) && high >= low + 16
  {
    ErrorIsMissedIff(a, b);
    var q :| MultipleOfGenerator(a, b, q);
    assert TimesGenerator(q, k0);
    var e := SomeTerm(q, k0);
    low, high := MultiplesSpan17(q, e);
  }

  /** Two messages that differ, and only inside one window of 16 consecutive bits, never have
      the same CRC. */
  lemma BurstIsDetected(a: seq<byte>, b: seq<byte>, start: int, k0: int)
    requires Differ(a, b, k0)
    requires forall k :: Differ(a, b, k) ==> start <= k < start + 16
    ensures PayloadCrc(a) != PayloadCrc(b)
  {
    if PayloadCrc(a) == PayloadCrc(b) {
      var low, high := MissedErrorsSpan17(a, b, k0);
      assert false;
    }
  }

  /** The bound is tight: a burst of 17 bits with the generator's own pattern is missed. */
  lemma GeneratorBurstIsMissed(a: seq<byte>, b: seq<byte>, start: nat)
    requires forall k: int :: Differ(a, b, k) <==> (k == start || k == start + 5 || k == start + 12 || k == start + 16)
    ensures PayloadCrc(a) == PayloadCrc(b)
  {
    var q := [true] + seq(start, _ => false);
    assert forall k :: Coef(q, k) <==> k == start;
    assert MultipleOfGenerator(a, b, q);
    ErrorIsMissedIff(a, b);
  }

  function XorMessage(a: seq<byte>, b: seq<byte>): (c: seq<byte>)
    requires |a| == |b|
    ensures |c| == |a|
  {
    if a == [] then []
    else
      var n := |a| - 1;
      var x := XorPoly(BitsOf(a[n], 8), BitsOf(b[n], 8));
      ValueBound(x);
      WordSizes();
      XorMessage(a[..n], b[..n]) + [Value(x)]
  }

  lemma {:induction false} XorMessageBits(a: seq<byte>, b: seq<byte>, k: int)
    requires |a| == |b|
    ensures Coef(MessageBits(XorMessage(a, b)), k) == Differ(a, b, k)
  {
    if a != [] {
      var n := |a| - 1;
      var c := XorMessage(a, b);
      var x := XorPoly(BitsOf(a[n], 8), BitsOf(b[n], 8));
      XorMessageBits(a[..n], b[..n], k - 8);
      assert c[..n] == XorMessage(a[..n], b[..n]) && c[n] == Value(x);
      CoefConcat(MessageBits(c[..n]), BitsOf(c[n], 8), k);
      CoefConcat(MessageBits(a[..n]), BitsOf(a[n], 8), k);
      CoefConcat(MessageBits(b[..n]), BitsOf(b[n], 8), k);
      XorPolyCoef(BitsOf(a[n], 8), BitsOf(b[n], 8), k);
      BitsOfValue(x, k);
    }
  }

  /** The CRC is linear: the XOR of two messages of equal length has the XOR of their CRCs. */
  lemma CrcIsLinear(a: seq<byte>, b: seq<byte>, k: int)
    requires |a| == |b|
    ensures Coef(BitsOf(PayloadCrc(XorMessage(a, b)), 16), k) ==
            Xor2(Coef(BitsOf(PayloadCrc(a), 16), k), Coef(BitsOf(PayloadCrc(b), 16), k))
  {
    var c := XorMessage(a, b);
    var ra, rb := BitsOf(PayloadCrc(a), 16), BitsOf(PayloadCrc(b), 16);
    CrcDivides(a);
    CrcDivides(b);
    CrcDivides(c);
    var q, r := XorPoly(Quotient(a), Quotient(b)), XorPoly(ra, rb);
    forall j: int
      ensures Coef(MessageBits(c), j) == Xor2(TimesGenerator(q, j), Coef(r, j))
    {
      XorMessageBits(a, b, j);
      XorPolyTimes(Quotient(a), Quotient(b), j);
      XorPolyCoef(ra, rb, j);
      assert Coef(MessageBits(a), j) == Xor2(TimesGenerator(Quotient(a), j), Coef(ra, j));
      assert Coef(MessageBits(b), j) == Xor2(TimesGenerator(Quotient(b), j), Coef(rb, j));
    }
    RemainderIsUnique(MessageBits(c), q, r, Quotient(c), BitsOf(PayloadCrc(c), 16));
    XorPolyCoef(ra, rb, k);
  }

  // ---------- Errors in an odd number of bits ----------

  /** Whether x^shift * s has an odd number of terms below degree n. */
  predicate OddTerms(s: seq<bool>, shift: nat, n: nat) {
    n > 0 && Xor2(OddTerms(s, shift, n - 1), Coef(s, n - 1 - shift))
  }

  predicate OddErrors(a: seq<byte>, b: seq<byte>, n: nat) {
    n > 0 && Xor2(OddErrors(a, b, n - 1), Differ(a, b, n - 1))
  }

  lemma {:induction false} OddTermsShifted(s: seq<bool>, shift: nat, n: nat)
    ensures OddTerms(s, shift, n + shift) == OddTerms(s, 0, n)
  {
    if n > 0 {
      OddTermsShifted(s, shift, n - 1);
    } else if shift > 0 {
      NoTermsBelowShift(s, shift, shift);
    }
  }

  lemma {:induction false} NoTermsBelowShift(s: seq<bool>, shift: nat, n: nat)
    requires n <= shift
    ensures !OddTerms(s, shift, n)
  {
    if n > 0 {
      NoTermsBelowShift(s, shift, n - 1);
    }
  }

  lemma {:induction false} NoTermsAbove(s: seq<bool>, n: nat, m: nat)
    requires |s| <= n <= m
    ensures OddTerms(s, 0, n) == OddTerms(s, 0, m)
  {
    if n < m {
      NoTermsAbove(s, n, m - 1);
    }
  }

  lemma {:induction false} OddErrorsOfMultiple(a: seq<byte>, b: seq<byte>, q: seq<bool>, n: nat)
    requires MultipleOfGenerator(a, b, q)
    ensures OddErrors(a, b, n) ==
            Xor4(OddTerms(q, 16, n), OddTerms(q, 12, n), OddTerms(q, 5, n), OddTerms(q, 0, n))
  {
    if n > 0 {
      OddErrorsOfMultiple(a, b, q, n - 1);
      assert Differ(a, b, n - 1) == TimesGenerator(q, n - 1);
    }
  }

  lemma {:induction false} NoErrorsAbove(a: seq<byte>, b: seq<byte>, n: nat, m: nat)
    requires |MessageBits(a)| <= n <= m && |MessageBits(b)| <= n
    ensures OddErrors(a, b, n) == OddErrors(a, b, m)
  {
    if n < m {
      NoErrorsAbove(a, b, n, m - 1);
    }
  }

  /** The generator has four terms, so its multiples have an even number of them. */
  lemma MultiplesHaveEvenWeight(q: seq<bool>, n: nat)
    requires n >= |q| + 16
    ensures !Xor4(OddTerms(q, 16, n), OddTerms(q, 12, n), OddTerms(q, 5, n), OddTerms(q, 0, n))
  {
    OddTermsShifted(q, 16, n - 16);
    OddTermsShifted(q, 12, n - 12);
    OddTermsShifted(q, 5, n - 5);
    NoTermsAbove(q, n - 16, n - 12);
    NoTermsAbove(q, n - 16, n - 5);
    NoTermsAbove(q, n - 16, n);
  }

  /** Messages that differ in an odd number of bits never have the same CRC. */
  lemma OddErrorsAreDetected(a: seq<byte>, b: seq<byte>)
    requires |a| == |b| && OddErrors(a, b, 8 * |a|)
    ensures PayloadCrc(a) != PayloadCrc(b)
  {
    ErrorIsMissedIff(a, b);
    if q :| MultipleOfGenerator(a, b, q) {
      var n := 8 * |a| + |q| + 16;
      NoErrorsAbove(a, b, 8 * |a|, n);
      OddErrorsOfMultiple(a, b, q, n);
      MultiplesHaveEvenWeight(q, n);
      assert false;
    }
  }
}
