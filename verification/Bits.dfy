/** Bytes and machine words as non-negative integers, and their bits. */
module Bits {

  type byte = x: int | 0 <= x < 0x100
  type uint16 = x: int | 0 <= x < 0x1_0000
  type uint32 = x: int | 0 <= x < 0x1_0000_0000

  datatype Option<T> = None | Some(value: T)

  /** Reduction of a C unsigned 32-bit computation. */
  function U32(x: int): uint32 {
    x % 0x1_0000_0000
  }

  lemma U32Small(x: int)
    requires 0 <= x < 0x1_0000_0000
    ensures U32(x) == x
  {
  }

  /** The `n` elements of `s` from `i` on. */
  function Sub<T>(s: seq<T>, i: nat, n: nat): (r: seq<T>)
    requires i + n <= |s|
    ensures |r| == n
  {
    seq(n, k requires 0 <= k < n => s[i + k])
  }

  function Pow2(k: nat): (p: nat)
    ensures p >= 1
  {
    if k == 0 then 1 else 2 * Pow2(k - 1)
  }

  /** `(v >> k) & 1` */
  predicate Bit(v: nat, k: nat) {
    (v / Pow2(k)) % 2 == 1
  }

  function FromBool(b: bool): nat {
    if b then 1 else 0
  }

  /** The number whose binary digits are `bits`, the highest first. */
  function Value(bits: seq<bool>): nat {
    if bits == [] then 0 else 2 * Value(bits[..|bits| - 1]) + FromBool(bits[|bits| - 1])
  }

  /** The coefficient of x^k in the polynomial `s`, written from its highest degree. */
  predicate Coef(s: seq<bool>, k: int) {
    0 <= k < |s| && s[|s| - 1 - k]
  }

  lemma {:induction false} BitOfHalf(v: nat, k: nat)
    requires k > 0
    ensures Bit(v, k) == Bit(v / 2, k - 1)
  {
    var p := Pow2(k - 1);
    DivisionComposes(v, p);
  }

  lemma DivisionComposes(v: nat, p: nat)
    requires p > 0
    ensures v / (2 * p) == (v / 2) / p
  {
    var q := (v / 2) / p;
    var r := (v / 2) % p;
    assert v / 2 == q * p + r;
    assert v == q * (2 * p) + (2 * r + v % 2);
    DivisionIsUnique(v, 2 * p, q, 2 * r + v % 2);
  }

  lemma DivisionIsUnique(v: int, d: int, q: int, r: int)
    requires d > 0 && v == q * d + r && 0 <= r < d
    ensures v / d == q && v % d == r
  {
    var e := v / d - q;
    assert e * d == r - v % d;
    assert e >= 1 ==> e * d >= d;
    assert e <= -1 ==> e * d <= -d;
  }

  lemma DivMonotone(a: nat, b: nat, d: nat)
    requires a <= b && d > 0
    ensures a / d <= b / d
  {
    var q := a / d - b / d;
    assert q * d == a - b + (b % d - a % d);
    assert q >= 1 ==> q * d >= d;
  }

  lemma ProductMonotone(a: nat, b: nat, x: nat, y: nat)
    requires a <= b && x <= y
    ensures a * x <= b * y
  {
  }

  lemma QuotientBound(x: nat, d: nat, k: nat)
    requires d > 0
    ensures x / d < k <==> x < k * d
  {
    if x / d < k {
      ProductMonotone(x / d + 1, k, d, d);
    } else {
      ProductMonotone(k, x / d, d, d);
    }
  }

  lemma RatioIff(a: real, b: real, q: real)
    requires b > 0.0
    ensures (a / b >= q <==> a >= q * b) && (a / b <= q <==> a <= q * b)
  {
    var r := a / b;
    assert r * b == a;
    if r >= q {
      assert (r - q) * b >= 0.0;
    } else {
      assert (q - r) * b > 0.0;
    }
  }

  function CeilDiv(x: nat, d: nat): nat
    requires d > 0
  {
    (x + d - 1) / d
  }

  /** `CeilDiv` is the least number of parts of size `d` that cover `x`. */
  lemma CeilDivIsLeast(x: nat, d: nat, q: nat)
    requires d > 0
    ensures CeilDiv(x, d) <= q <==> x <= q * d
  {
    QuotientBound(x + d - 1, d, q + 1);
  }

  lemma {:induction false} ValueBit(bits: seq<bool>, k: nat)
    ensures Bit(Value(bits), k) == Coef(bits, k)
  {
    if bits == [] {
      assert 0 / Pow2(k) == 0;
    } else {
      var n := |bits|;
      if k > 0 {
        BitOfHalf(Value(bits), k);
        ValueBit(bits[..n - 1], k - 1);
      }
    }
  }

  lemma {:induction false} ValueBound(bits: seq<bool>)
    ensures Value(bits) < Pow2(|bits|)
  {
    if bits != [] {
      ValueBound(bits[..|bits| - 1]);
    }
  }

  /** A number below 2^n is determined by its n low bits. */
  lemma {:induction false} BitsDetermine(v: nat, w: nat, n: nat)
    requires v < Pow2(n) && w < Pow2(n)
    requires forall k :: 0 <= k < n ==> Bit(v, k) == Bit(w, k)
    ensures v == w
  {
    if n > 0 {
      assert Bit(v, 0) == Bit(w, 0);
      forall k | 0 <= k < n - 1
        ensures Bit(v / 2, k) == Bit(w / 2, k)
      {
        BitOfHalf(v, k + 1);
        BitOfHalf(w, k + 1);
      }
      BitsDetermine(v / 2, w / 2, n - 1);
    }
  }

  lemma WordSizes()
    ensures Pow2(8) == 0x100 && Pow2(16) == 0x1_0000
  {
    assert Pow2(4) == 0x10;
    assert Pow2(8) == 0x100;
    assert Pow2(12) == 0x1000;
  }
}
