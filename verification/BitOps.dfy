/** C's operators on `uint8_t`, bit by bit. */
module BitOps {
  import opened Bits

  /** The byte whose bit `k` is `p(k)`. */
  function OfBits(p: nat -> bool): (r: byte)
  {
    ByteValue(seq(8, i requires 0 <= i < 8 => p(7 - i)))
  }

  function ByteValue(bits: seq<bool>): (r: byte)
    requires |bits| == 8
  {
    ValueBound(bits);
    WordSizes();
    Value(bits)
  }

  lemma OfBitsBit(p: nat -> bool, k: nat)
    ensures Bit(OfBits(p), k) == (k < 8 && p(k))
  {
    ValueBit(seq(8, i requires 0 <= i < 8 => p(7 - i)), k);
  }

  function And(a: nat, b: nat): byte {
    OfBits((k: nat) => Bit(a, k) && Bit(b, k))
  }

  function Or(a: nat, b: nat): byte {
    OfBits((k: nat) => Bit(a, k) || Bit(b, k))
  }

  function Not(a: nat): byte {
    OfBits((k: nat) => !Bit(a, k))
  }

  /** A left shift, stored in a byte. */
  function Shl(a: nat, s: nat): byte {
    OfBits((k: nat) => k >= s && Bit(a, k - s))
  }

  function Shr(a: byte, s: nat): byte {
    OfBits((k: nat) => Bit(a, k + s))
  }

  /** The right shift of an `int8_t`, which repeats the sign bit. */
  function Sar(a: byte, s: nat): byte {
    OfBits((k: nat) => Bit(a, if k + s < 8 then k + s else 7))
  }

  /** The byte read as an `int8_t`. */
  function AsSigned(a: byte): int {
    if a < 0x80 then a else a - 0x100
  }

  /** `2^n - 1` has its `n` low bits set. */
  lemma {:induction false} OnesBit(n: nat, k: nat)
    ensures Bit(Pow2(n) - 1, k) == (k < n)
    decreases n
  {
    hide Bit;
    if n == 0 {
      NoBits(k);
    } else {
      LowestBit(Pow2(n) - 1);
      if k > 0 {
        BitOfHalf(Pow2(n) - 1, k);
        OnesBit(n - 1, k - 1);
      }
    }
  }

  lemma HalfRemainder(v: nat, half: nat)
    requires half > 0
    ensures v % (2 * half) == 2 * (v / 2 % half) + v % 2
  {
    var q, r := v / 2 / half, v / 2 % half;
    assert v / 2 == q * half + r;
    DivisionIsUnique(v, 2 * half, q, 2 * r + v % 2);
  }

  lemma LowestBit(v: nat)
    ensures Bit(v, 0) == (v % 2 == 1)
  {
  }

  lemma NoBits(k: nat)
    ensures !Bit(0, k)
  {
    assert 0 / Pow2(k) == 0;
  }

  lemma RemainderStep(v: nat, half: nat, k: nat)
    requires half > 0
    ensures v % (2 * half) < 2 * half
    ensures Bit(v % (2 * half), k) == if k == 0 then Bit(v, 0) else Bit(v / 2 % half, k - 1)
  {
    hide Bit;
    var r := v / 2 % half;
    HalfRemainder(v, half);
    if k == 0 {
      LowestBit(v);
      LowestBit(2 * r + v % 2);
    } else {
      BitOfHalf(2 * r + v % 2, k);
    }
  }

  lemma DoublePow2(n: nat)
    ensures Pow2(n + 1) == 2 * Pow2(n)
  {
  }

  /** The bits of a remainder modulo 2^n are the low bits of the number. */
  lemma {:induction false} RemainderBit(v: nat, n: nat, k: nat)
    ensures v % Pow2(n) < Pow2(n) && Bit(v % Pow2(n), k) == (k < n && Bit(v, k))
    decreases n
  {
    if n == 0 {
      NoBits(k);
    } else {
      hide Bit, Pow2;
      DoublePow2(n - 1);
      RemainderStep(v, Pow2(n - 1), k);
      if k > 0 {
        BitOfHalf(v, k);
        RemainderBit(v / 2, n - 1, k - 1);
      }
    }
  }

  /** A byte with the bits of `u` is `u`. */
  lemma SameBits(b: byte, u: nat, n: nat)
    requires n <= 8 && u < Pow2(n)
    requires forall k: nat :: k < 8 ==> Bit(b, k) == (k < n && Bit(u, k))
    ensures b == u
  {
    hide Bit;
    WordSizes();
    Pow2Monotone(n, 8);
    forall k: nat | k < 8
      ensures Bit(b, k) == Bit(u, k)
    {
      if k >= n {
        NoHighBits(u, n, k);
      }
    }
    BitsDetermine(b, u, 8);
  }

  lemma NoHighBits(u: nat, n: nat, k: nat)
    requires u < Pow2(n) && n <= k
    ensures !Bit(u, k)
  {
    Pow2Monotone(n, k);
    DivisionIsUnique(u, Pow2(k), 0, u);
  }

  /** A byte with the low bits of `v` and nothing above them is the remainder of `v`. */
  lemma LowBitsAreRemainder(b: byte, v: nat, n: nat)
    requires n <= 8
    requires forall k: nat :: k < 8 ==> Bit(b, k) == (k < n && Bit(v, k))
    ensures b == v % Pow2(n)
  {
    hide Bit, Pow2;
    forall k: nat | k < 8
      ensures Bit(b, k) == (k < n && Bit(v % Pow2(n), k))
    {
      RemainderBit(v, n, k);
    }
    RemainderBit(v, n, 0);
    SameBits(b, v % Pow2(n), n);
  }

  lemma {:induction false} Pow2Monotone(m: nat, n: nat)
    requires m <= n
    ensures Pow2(m) <= Pow2(n)
    decreases n
  {
    if m < n {
      Pow2Monotone(m, n - 1);
    }
  }

  /** A number below 2^(n+1) is at least 2^n exactly when its bit `n` is set. */
  lemma TopBit(v: nat, n: nat)
    requires v < Pow2(n + 1)
    ensures Bit(v, n) <==> v >= Pow2(n)
  {
    var p := Pow2(n);
    if v >= p {
      DivisionIsUnique(v, p, 1, v - p);
    } else {
      DivisionIsUnique(v, p, 0, v);
    }
  }

  /** Below 2^n, `2^n - 1 - v` is the complement of `v`. */
  lemma {:induction false} ComplementBit(v: nat, n: nat, k: nat)
    requires v < Pow2(n)
    ensures Bit(Pow2(n) - 1 - v, k) == (k < n && !Bit(v, k))
    decreases n
  {
    if n == 0 {
      NoBits(k);
    } else {
      hide Bit, Pow2;
      DoublePow2(n - 1);
      var c := Pow2(n) - 1 - v;
      assert c / 2 == Pow2(n - 1) - 1 - v / 2 && c % 2 == 1 - v % 2;
      LowestBit(v);
      LowestBit(c);
      if k > 0 {
        BitOfHalf(c, k);
        BitOfHalf(v, k);
        ComplementBit(v / 2, n - 1, k - 1);
      }
    }
  }

  lemma SignExtendsBits(b: byte, u: nat, n: nat)
    requires 1 <= n <= 8 && u < Pow2(n)
    requires forall k: nat :: k < 8 ==> Bit(b, k) == Bit(u, if k < n then k else n - 1)
    ensures AsSigned(b) == if u >= Pow2(n - 1) then u - Pow2(n) else u
  {
    hide Bit, Pow2;
    WordSizes();
    DoublePow2(n - 1);
    DoublePow2(7);
    TopBit(u, n - 1);
    TopBit(b, 7);
    if u >= Pow2(n - 1) {
      var c, d := 0xFF - b, Pow2(n) - 1 - u;
      forall k: nat | k < 8
        ensures Bit(c, k) == (k < n && Bit(d, k))
      {
        ComplementBit(b, 8, k);
        ComplementBit(u, n, k);
      }
      SameBits(c, d, n);
    } else {
      SameBits(b, u, n);
    }
  }

  /** A byte with the `n` low bits of `v`, and bit `n - 1` of `v` above them, is the two's complement
      number with those `n` bits. */
  lemma SignExtends(b: byte, v: nat, n: nat)
    requires 1 <= n <= 8
    requires forall k: nat :: k < 8 ==> Bit(b, k) == Bit(v, if k < n then k else n - 1)
    ensures AsSigned(b) == if v % Pow2(n) >= Pow2(n - 1) then v % Pow2(n) - Pow2(n) else v % Pow2(n)
  {
    hide Bit, Pow2, AsSigned;
    forall k: nat | k < 8
      ensures Bit(b, k) == Bit(v % Pow2(n), if k < n then k else n - 1)
    {
      RemainderBit(v, n, if k < n then k else n - 1);
    }
    RemainderBit(v, n, 0);
    SignExtendsBits(b, v % Pow2(n), n);
  }
}
