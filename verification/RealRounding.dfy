/** IEEE rounding stated on exact real values, and the proof that it is the correct rounding. */
module RealRounding {
  import opened Dyadic
  import opened FpReference

  /** Whether the fraction r in [0,1) above the integer m rounds the magnitude up. */
  ghost predicate RealRoundsUp(m: int, r: real, sign: bool, rn: nat) {
    && r != 0.0
    && (|| (rn == 0 && (r > 0.5 || (r == 0.5 && m % 2 == 1)))
        || (rn == 2 && !sign)
        || (rn == 3 && sign))
  }

  ghost function RoundInt(y: real, sign: bool, rn: nat): int {
    y.Floor + if RealRoundsUp(y.Floor, y - y.Floor as real, sign, rn) then 1 else 0
  }

  lemma WholeRounds(m: nat, sign: bool, rn: nat)
    ensures RoundInt(m as real, sign, rn) == m
  {
  }

  /** Spacing exponent of the format around a value whose leading digit is 2^t. */
  ghost function Quantum(t: int, f: Format): int {
    Max(t - f.fraction, f.MinQuantum())
  }

  /** The unrounded value measured in units of its quantum. */
  ghost function Units(x: real, f: Format): real
    requires x > 0.0
  {
    x / Scale(Quantum(Top(x), f))
  }

  lemma UnitsValue(x: real, f: Format)
    requires x > 0.0
    ensures Units(x, f) > 0.0
    ensures Units(x, f) * Scale(Quantum(Top(x), f)) == x
  {
    var s := Scale(Quantum(Top(x), f));
    assert x / s > 0.0;
  }

  ghost function Mantissa(x: real, sign: bool, rn: nat, f: Format): nat
    requires x > 0.0
  {
    UnitsValue(x, f);
    RoundInt(Units(x, f), sign, rn)
  }

  /** The rounded magnitude with an unbounded exponent range above. */
  ghost function Rounded(x: real, sign: bool, rn: nat, f: Format): real
    requires x > 0.0
  {
    Mantissa(x, sign, rn, f) as real * Scale(Quantum(Top(x), f))
  }

  /** What a packer must return for the exact magnitude x. */
  ghost function Round(x: real, sign: bool, rn: nat, f: Format): Packed
    requires x > 0.0 && f.Valid()
  {
    var y := Units(x, f);
    Assemble(Mantissa(x, sign, rn, f), Quantum(Top(x), f), y != y.Floor as real,
             RealRoundsUp(y.Floor, y - y.Floor as real, sign, rn), sign, rn, f)
  }

  // The integer packers compute Round of their exact value.

  lemma RoundedQuotientIsRoundInt(n: nat, d: nat, sign: bool, rn: nat)
    requires d > 0
    ensures var y := n as real / d as real;
            RoundedQuotient(n, d, sign, rn) ==
            (RoundInt(y, sign, rn), y != y.Floor as real, RealRoundsUp(y.Floor, y - y.Floor as real, sign, rn))
  {
    hide RoundInt;
    var q, r := n / d, n % d;
    var y, part := n as real / d as real, r as real / d as real;
    CastProduct(q, d);
    assert n as real == q as real * d as real + r as real;
    SplitQuotient(n as real, d as real, q as real, r as real, q as real * d as real, y, part);
    assert y.Floor == q && y - y.Floor as real == part;
    FractionOrder(r, d);
    RoundsAlike(q, r, d, y, part, sign, rn);
  }

  /** The integer test for rounding up is the real one on the fraction. */
  lemma RoundsAlike(q: nat, r: nat, d: nat, y: real, part: real, sign: bool, rn: nat)
    requires d > 0 && y.Floor == q && y - y.Floor as real == part
    requires (part == 0.0 <==> r == 0) && (part > 0.5 <==> 2 * r > d) && (part == 0.5 <==> 2 * r == d)
    ensures RoundsUp(q, r, d, sign, rn) == RealRoundsUp(y.Floor, y - y.Floor as real, sign, rn)
    ensures RoundInt(y, sign, rn) == q + if RoundsUp(q, r, d, sign, rn) then 1 else 0
    ensures r != 0 <==> y != y.Floor as real
  {
  }

  lemma QuotientTimes(n: real, d: real, y: real)
    requires d != 0.0 && y == n / d
    ensures y * d == n
    ensures n != 0.0 ==> y != 0.0
  {
  }

  lemma AddedProduct(a: real, b: real, d: real, ad: real, bd: real)
    requires ad == a * d && bd == b * d
    ensures (a + b) * d == ad + bd
  {
  }

  /** A quotient is its whole part plus the remainder's fraction. */
  lemma SplitQuotient(n: real, d: real, q: real, r: real, qd: real, y: real, part: real)
    requires d > 0.0 && qd == q * d && n == qd + r && 0.0 <= r < d && y == n / d && part == r / d
    ensures y == q + part && 0.0 <= part < 1.0
  {
    QuotientTimes(n, d, y);
    QuotientTimes(r, d, part);
    AddedProduct(q, part, d, qd, r);
    ScaledOrder(d, y, n, q + part, n);
    ScaledOrder(d, 0.0, 0.0, part, r);
    ScaledOrder(d, part, r, 1.0, d);
  }

  lemma FractionOrder(r: nat, d: nat)
    requires d > 0
    ensures var p := r as real / d as real;
            && (p == 0.0 <==> r == 0) && (p > 0.5 <==> 2 * r > d) && (p == 0.5 <==> 2 * r == d)
  {
    var p, w := r as real / d as real, d as real;
    QuotientTimes(r as real, w, p);
    ScaledOrder(w, p, r as real, 0.0, 0.0);
    ScaledOrder(w, p, r as real, 0.5, w / 2.0);
  }

  lemma RatioTopIsTop(n: nat, d: nat, e: int)
    requires n > 0 && d > 0
    ensures Val(n, d, e) > 0.0
    ensures RatioTop(n, d, e) == Top(Val(n, d, e))
  {
    hide Scale, RatioTop;
    var t := RatioTop(n, d, e) - e;
    RatioTopBounds(n, d, e);
    var x := Val(n, d, e);
    TopShift(n as real / d as real, t, e, x);
    TopUnique(x, t + e, Top(x));
  }

  lemma TopShift(y: real, t: int, e: int, x: real)
    requires IsTop(y, t) && x == y * Scale(e)
    ensures x > 0.0 && IsTop(x, t + e)
  {
    hide Scale;
    ScaleAdd(t, e);
    ScaleAdd(t + 1, e);
    ScaledOrder(Scale(e), Scale(t), Scale(t + e), y, x);
    ScaledOrder(Scale(e), y, x, Scale(t + 1), Scale(t + 1 + e));
    assert t + e + 1 == t + 1 + e;
  }

  lemma MulOrder(s: real, x: real, y: real)
    requires s > 0.0
    ensures x * s < y * s <==> x < y
    ensures x * s <= y * s <==> x <= y
  {
  }

  /** Multiples of s order as their multipliers. */
  lemma ScaledOrder(s: real, a: real, a': real, b: real, b': real)
    requires s > 0.0 && a' == a * s && b' == b * s
    ensures (a' < b' <==> a < b) && (a' <= b' <==> a <= b)
  {
    MulOrder(s, a, b);
  }

  lemma RatioTopBounds(n: nat, d: nat, e: int)
    requires n > 0 && d > 0
    ensures IsTop(n as real / d as real, RatioTop(n, d, e) - e)
  {
    hide Scale, Pow, BitLength;
    var g := BitLength(n) - BitLength(d);
    LengthBounds(n, d);
    GuessComparison(n, d, g);
    ScaleStep(g);
    ScaleStep(g - 1);
  }

  /** The difference of the bit lengths locates the leading digit of a ratio within one. */
  lemma LengthBounds(n: nat, d: nat)
    requires n > 0 && d > 0
    ensures var g := BitLength(n) - BitLength(d); Scale(g - 1) <= n as real / d as real < Scale(g + 1)
  {
    hide Scale, Pow, BitLength;
    var a: int, b: int := BitLength(n), BitLength(d);
    ScalePow(a - 1);
    ScalePow(a);
    ScalePow(b - 1);
    ScalePow(b);
    ScaleAdd(a - b - 1, b);
    ScaleAdd(a - b + 1, b - 1);
    RatioBounds(n as real, d as real, Scale(a - b - 1), Scale(b), Scale(a - b + 1), Scale(b - 1));
  }

  lemma RatioBounds(n: real, d: real, lo: real, dHi: real, hi: real, dLo: real)
    requires lo > 0.0 && hi > 0.0 && 0.0 < dLo <= d <= dHi
    requires lo * dHi <= n < hi * dLo
    ensures lo <= n / d < hi
  {
    var y := n / d;
    QuotientTimes(n, d, y);
    ScaledOrder(lo, d, lo * d, dHi, lo * dHi);
    ScaledOrder(hi, dLo, hi * dLo, d, hi * d);
    ScaledOrder(d, lo, lo * d, y, n);
    ScaledOrder(d, y, n, hi, hi * d);
  }

  lemma GuessComparison(n: nat, d: nat, g: int)
    requires d > 0
    ensures (if g >= 0 then n < d * Pow(g) else n * Pow(-g) < d) <==> n as real / d as real < Scale(g)
  {
    hide Scale, Pow;
    if g >= 0 {
      ScalePow(g);
      CastProduct(d, Pow(g));
      Quotient(n as real, d as real, Scale(g));
    } else {
      ScalePow(-g);
      ScaleAdd(g, -g);
      ScaleZero();
      CastProduct(n, Pow(-g));
      Quotient(n as real, d as real, Scale(g));
      ThreeFactors(Scale(-g), d as real, Scale(g), d as real * Scale(g));
      ScaledOrder(Scale(-g), n as real, n as real * Scale(-g), d as real * Scale(g), d as real);
    }
  }

  lemma CastProduct(a: int, b: int)
    ensures (a * b) as real == a as real * b as real
  {
  }

  lemma Quotient(n: real, d: real, y: real)
    requires d > 0.0
    ensures n / d < y <==> n < d * y
    ensures n / d == y <==> n == d * y
  {
    var z := n / d;
    QuotientTimes(n, d, z);
    ScaledOrder(d, z, n, y, d * y);
  }

  lemma ThreeFactors(a: real, b: real, c: real, bc: real)
    requires c * a == 1.0 && bc == b * c
    ensures bc * a == b
  {
    assert (b * c) * a == b * (c * a);
  }

  /** Scaling numerator or denominator by the power of two measures the value in units of 2^q. */
  lemma ScaledRatio(n: nat, d: nat, e: int, q: int)
    requires d > 0
    ensures ScaledNumerator(n, e - q) as real / ScaledDenominator(d, e - q) as real == Val(n, d, e) / Scale(q)
  {
    hide *;
    if e >= q {
      ScaledUp(n, d, e, q);
    } else {
      ScaledDown(n, d, e, q);
    }
  }

  lemma ScaledUp(n: nat, d: nat, e: int, q: int)
    requires d > 0 && e >= q
    ensures ScaledNumerator(n, e - q) as real / ScaledDenominator(d, e - q) as real == Val(n, d, e) / Scale(q)
  {
    hide Scale, Pow;
    var k := e - q;
    ScalePow(k);
    ScaleAdd(k, q);
    CastProduct(n, Pow(k));
    var n' := ScaledNumerator(n, k);
    assert n' == n * Pow(k) && ScaledDenominator(d, k) == d;
    RatioUp(n as real, d as real, Scale(k), Scale(q), Scale(e), n' as real, Val(n, d, e));
  }

  lemma ScaledDown(n: nat, d: nat, e: int, q: int)
    requires d > 0 && e < q
    ensures ScaledNumerator(n, e - q) as real / ScaledDenominator(d, e - q) as real == Val(n, d, e) / Scale(q)
  {
    hide Scale, Pow;
    var k := q - e;
    ScalePow(k);
    ScaleAdd(k, e);
    CastProduct(d, Pow(k));
    var d' := ScaledDenominator(d, e - q);
    assert d' == d * Pow(k) && ScaledNumerator(n, e - q) == n;
    RatioDown(n as real, d as real, Scale(k), Scale(q), Scale(e), d' as real, Val(n, d, e));
  }

  lemma RatioUp(n: real, d: real, k: real, q: real, e: real, n': real, v: real)
    requires d > 0.0 && q > 0.0 && e == k * q && n' == n * k && v == n / d * e
    ensures n' / d == v / q
  {
    var m, l := n / d, n' / d;
    QuotientTimes(n, d, m);
    QuotientTimes(n', d, l);
    Regrouped(m, k, d, n, n');
    ScaledOrder(d, l, n', m * k, n');
    Regrouped(m, k, q, m * q, v) by {
      SwapLast(m, k, q, e, v);
    }
    QuotientOf(v, q, m * k);
  }

  /** (m k) d == n' when m d == n and n k == n'. */
  lemma Regrouped(m: real, k: real, d: real, n: real, n': real)
    requires m * d == n && n' == n * k
    ensures (m * k) * d == n'
  {
    assert (m * k) * d == (m * d) * k;
  }

  lemma SwapLast(m: real, k: real, q: real, e: real, v: real)
    requires e == k * q && v == m * e
    ensures v == (m * q) * k
  {
    assert m * (k * q) == (m * q) * k;
  }

  lemma QuotientOf(v: real, q: real, y: real)
    requires q > 0.0 && y * q == v
    ensures v / q == y
  {
  }

  lemma RatioDown(n: real, d: real, k: real, q: real, e: real, d': real, v: real)
    requires d > 0.0 && q > 0.0 && k > 0.0 && e > 0.0 && q == k * e && d' == d * k && v == n / d * e
    ensures d' > 0.0
    ensures n / d' == v / q
  {
    var m := n / d;
    QuotientTimes(n, d, m);
    PositiveProduct(d, k);
    var r := m / k;
    QuotientTimes(m, k, r);
    Regrouped(r, d, k, m, n);
    SwapLast(r, d, k, d', r * d');
    QuotientOf(n, d', r);
    SwapLast(r, k, e, q, r * q);
    Regrouped(r, e, k, m, v);
    QuotientOf(v, q, r);
  }

  lemma PositiveProduct(a: real, b: real)
    requires a > 0.0 && b > 0.0
    ensures a * b > 0.0
  {
  }

  /** PackRatio returns the rounding of its exact value, whatever ratio denotes it. */
  lemma PackRatioRounds(n: nat, d: nat, e: int, sign: bool, rn: nat, f: Format)
    requires n > 0 && d > 0 && f.Valid()
    ensures Val(n, d, e) > 0.0
    ensures PackRatio(n, d, e, sign, rn, f) == Round(Val(n, d, e), sign, rn, f)
  {
    hide Pow, Scale;
    RatioTopIsTop(n, d, e);
    var q := Quantum(RatioTop(n, d, e), f);
    ScaledRatio(n, d, e, q);
    RoundedQuotientIsRoundInt(ScaledNumerator(n, e - q), ScaledDenominator(d, e - q), sign, rn);
  }

  /** Pack is PackRatio over one. */
  lemma PackIsPackRatio(n: nat, e: int, sign: bool, rn: nat, f: Format)
    requires f.Valid()
    ensures Pack(n, e, sign, rn, f) == PackRatio(n, 1, e, sign, rn, f)
  {
    hide Pow, BitLength, RatioTop, Assemble;
    if n > 0 {
      PackTop(n, e);
      var q := Quantum(RatioTop(n, 1, e), f);
      ShiftOrDivide(n, q - e, sign, rn);
    }
  }

  lemma ShiftOrDivide(n: nat, shift: int, sign: bool, rn: nat)
    ensures RoundedInteger(n, shift, sign, rn) ==
            RoundedQuotient(ScaledNumerator(n, -shift), ScaledDenominator(1, -shift), sign, rn)
  {
    hide Pow;
    var p := Pow(if shift < 0 then -shift else shift);
    assert 1 * p == p;
    assert Pow(0) == 1 by {
      PowZero();
    }
    assert n * 1 == n;
  }

  lemma PowZero()
    ensures Pow(0) == 1
  {
  }

  lemma PackTop(n: nat, e: int)
    requires n > 0
    ensures RatioTop(n, 1, e) == BitLength(n) - 1 + e
  {
    assert BitLength(1) == 1;
    var b := BitLength(n) - 1;
    assert RatioTop(n, 1, e) == (if n < 1 * Pow(b) then b - 1 else b) + e;
  }
}
