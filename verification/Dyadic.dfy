/** Powers of two, bit lengths and the real scale 2^k that gives a dyadic number its value. */
module Dyadic {

  function Pow(k: nat): (p: nat)
    ensures p >= 1
  {
    if k == 0 then 1 else 2 * Pow(k - 1)
  }

  /** Number of binary digits of n: zero has none. */
  function BitLength(n: nat): (b: nat)
    ensures n < Pow(b)
    ensures n > 0 ==> b > 0 && Pow(b - 1) <= n
    ensures n == 0 ==> b == 0
  {
    if n == 0 then 0 else 1 + BitLength(n / 2)
  }

  /** 2^k for every integer k. */
  function Scale(k: int): (s: real)
    ensures s > 0.0
    decreases if k < 0 then -k else k
  {
    if k == 0 then 1.0 else if k > 0 then 2.0 * Scale(k - 1) else Scale(k + 1) / 2.0
  }

  lemma ScaleZero()
    ensures Scale(0) == 1.0
  {
  }

  lemma ScaleStep(k: int)
    ensures Scale(k + 1) == 2.0 * Scale(k)
  {
  }

  lemma MulDouble(x: real, y: real)
    ensures x * (2.0 * y) == 2.0 * (x * y)
  {
  }

  /** One step of ScaleAdd, with the scales abstracted to plain numbers. */
  lemma DoubleProduct(x: real, y: real, y': real, z: real, z': real)
    requires y' == 2.0 * y && z' == 2.0 * z
    ensures z == x * y <==> z' == x * y'
  {
    MulDouble(x, y);
  }

  lemma {:induction false} ScaleAdd(a: int, b: int)
    ensures Scale(a + b) == Scale(a) * Scale(b)
    decreases if b < 0 then -b else b
  {
    hide Scale;
    if b > 0 {
      ScaleAdd(a, b - 1);
      ScaleStep(a + b - 1);
      ScaleStep(b - 1);
      DoubleProduct(Scale(a), Scale(b - 1), Scale(b), Scale(a + b - 1), Scale(a + b));
    } else if b < 0 {
      ScaleAdd(a, b + 1);
      ScaleStep(a + b);
      ScaleStep(b);
      DoubleProduct(Scale(a), Scale(b), Scale(b + 1), Scale(a + b), Scale(a + b + 1));
    } else {
      ScaleZero();
    }
  }

  lemma {:induction false} ScalePow(k: nat)
    ensures Scale(k) == Pow(k) as real
  {
    if k > 0 {
      ScalePow(k - 1);
    }
  }

  lemma {:induction false} ScaleMono(a: int, b: int)
    requires a <= b
    ensures Scale(a) <= Scale(b)
    ensures a < b ==> 2.0 * Scale(a) <= Scale(b)
    decreases b - a
  {
    if a < b {
      ScaleMono(a + 1, b);
      ScaleStep(a);
    }
  }

  lemma ScaleOrder(a: int, b: int)
    requires Scale(a) < Scale(b)
    ensures a < b
  {
    if b <= a {
      ScaleMono(b, a);
    }
  }

  lemma {:induction false} PowAdd(a: nat, b: nat)
    ensures Pow(a + b) == Pow(a) * Pow(b)
  {
    if b > 0 {
      PowAdd(a, b - 1);
      DoubledFactor(Pow(a), Pow(b - 1), Pow(a + (b - 1)));
    }
  }

  lemma DoubledFactor(x: int, y: int, xy: int)
    requires xy == x * y
    ensures x * (2 * y) == 2 * xy
  {
  }

  lemma SmallPowers()
    ensures Pow(1) == 2 && Pow(2) == 4 && Pow(4) == 16 && Pow(5) == 32 && Pow(6) == 64 && Pow(7) == 128 && Pow(10) == 1024
    ensures Pow(12) == 4096 && Pow(13) == 8192
  {
    assert Pow(4) == 16;
    assert Pow(7) == 128;
    assert Pow(10) == 1024;
  }

  lemma WordPowers()
    ensures Pow(15) == 0x8000 && Pow(17) == 0x2_0000 && Pow(31) == 0x8000_0000 && Pow(32) == 0x1_0000_0000
  {
    hide Pow;
    SmallPowers();
    PowAdd(10, 5);
    PowAdd(10, 7);
    PowAdd(15, 15);
    PowAdd(30, 1);
    PowAdd(15, 17);
  }

  /** The bit positions fields are packed at, above the low word. */
  lemma FieldPowers()
    ensures Pow(38) == 0x40_0000_0000 && Pow(40) == 0x100_0000_0000 && Pow(44) == 0x1000_0000_0000
    ensures Pow(48) == 0x1_0000_0000_0000 && Pow(49) == 0x2_0000_0000_0000 && Pow(50) == 0x4_0000_0000_0000
    ensures Pow(51) == 0x8_0000_0000_0000 && Pow(52) == 0x10_0000_0000_0000 && Pow(53) == 0x20_0000_0000_0000
    ensures Pow(54) == 0x40_0000_0000_0000 && Pow(55) == 0x80_0000_0000_0000 && Pow(56) == 0x100_0000_0000_0000
  {
    hide Pow;
    SmallPowers();
    WordPowers();
    PowAdd(32, 6);
    PowAdd(38, 2);
    PowAdd(40, 4);
    PowAdd(44, 4);
    PowAdd(48, 1);
    PowAdd(48, 2);
    PowAdd(50, 1);
    PowAdd(48, 4);
    PowAdd(52, 1);
    PowAdd(52, 2);
    PowAdd(54, 1);
    PowAdd(52, 4);
  }

  lemma {:induction false} PowMono(a: nat, b: nat)
    requires a <= b
    ensures Pow(a) <= Pow(b)
    ensures a < b ==> 2 * Pow(a) <= Pow(b)
    decreases b - a
  {
    if a < b {
      PowMono(a + 1, b);
    }
  }

  /** t is the exponent of the leading binary digit of x. */
  ghost predicate IsTop(x: real, t: int) {
    Scale(t) <= x < Scale(t + 1)
  }

  lemma TopUnique(x: real, s: int, t: int)
    requires IsTop(x, s) && IsTop(x, t)
    ensures s == t
  {
    ScaleOrder(s, t + 1);
    ScaleOrder(t, s + 1);
  }

  lemma {:induction false} NatBelowPow(n: nat)
    ensures n < Pow(n)
  {
    if n > 0 {
      NatBelowPow(n - 1);
    }
  }

  lemma {:induction false} TopSearch(x: real, lo: int, hi: int) returns (t: int)
    requires lo < hi && Scale(lo) <= x < Scale(hi)
    ensures IsTop(x, t)
    decreases hi - lo
  {
    if x < Scale(lo + 1) {
      t := lo;
    } else {
      t := TopSearch(x, lo + 1, hi);
    }
  }

  lemma MulCancelLess(a: real, x: real, y: real)
    requires a > 0.0
    ensures a * x < a * y <==> x < y
    ensures a * x == a * y <==> x == y
  {
  }

  lemma Reciprocal(x: real, a: real, b: real)
    requires x > 0.0 && a > 1.0 / x && a * b == 1.0
    ensures b <= x
  {
    assert (1.0 / x) * x == 1.0;
    MulCancelLess(x, 1.0 / x, a);
    MulCancelLess(a, b, x);
  }

  lemma TopExists(x: real) returns (t: int)
    requires x > 0.0
    ensures IsTop(x, t)
  {
    var hi := x.Floor + 1;
    NatBelowPow(hi);
    ScalePow(hi);
    var lo := (1.0 / x).Floor + 1;
    NatBelowPow(lo);
    ScalePow(lo);
    ScaleAdd(lo, -lo);
    Reciprocal(x, Scale(lo), Scale(-lo));
    ScaleOrder(-lo, hi);
    t := TopSearch(x, -lo, hi);
  }

  /** Exponent of the leading digit of a positive real. */
  ghost function Top(x: real): (t: int)
    requires x > 0.0
    ensures IsTop(x, t)
  {
    TopSome(x);
    var t :| IsTop(x, t);
    t
  }

  lemma TopSome(x: real)
    requires x > 0.0
    ensures exists t :: IsTop(x, t)
  {
    var t := TopExists(x);
  }

  /** The exact value n/d * 2^e of an integer ratio scaled by a power of two. */
  ghost function Val(n: nat, d: nat, e: int): real
    requires d > 0
  {
    n as real / d as real * Scale(e)
  }
}
