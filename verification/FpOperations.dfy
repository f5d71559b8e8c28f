/** Each finite operation is one rounding of the exact real result. */
module FpOperations {
  import opened Dyadic
  import opened FpReference
  import opened RealRounding
  import opened FpCorrectness
  import opened FpEncoding
  import opened FpPacking

  /** The real number a finite decoded value denotes. */
  ghost function Value(d: Decoded): real {
    (if d.sign then -1.0 else 1.0) * (d.significand as real * Scale(d.exponent))
  }

  /** One rounding of the exact real v; an exact zero takes the given sign. */
  ghost function RoundReal(v: real, zeroSign: bool, rn: nat, f: Format): Packed
    requires f.Valid()
  {
    if v == 0.0 then SignedZero(zeroSign, f)
    else if v < 0.0 then Round(-v, true, rn, f)
    else Round(v, false, rn, f)
  }

  lemma AlignedValue(d: Decoded, unit: int)
    requires unit <= d.exponent
    ensures Aligned(d, unit) as real * Scale(unit) == Value(d)
  {
    hide Scale, Pow;
    CoarsePoint(d.significand as real * Scale(d.exponent), d.significand, d.exponent, unit);
    var n := d.significand * Pow(d.exponent - unit);
    assert (-n) as real * Scale(unit) == -(n as real * Scale(unit));
  }

  lemma ValOne(n: nat, e: int)
    ensures Val(n, 1, e) == n as real * Scale(e)
  {
  }

  /** Packing an integer multiple of a power of two rounds that real. */
  lemma PackSigned(value: int, unit: int, v: real, sign: bool, rn: nat, f: Format)
    requires f.Valid() && v == value as real * Scale(unit) && (value != 0 ==> sign == (value < 0))
    ensures Pack(Magnitude(value), unit, sign, rn, f) == RoundReal(v, sign, rn, f)
  {
    hide Scale, Pow, Pack, PackRatio, Round;
    var n := Magnitude(value);
    PackIsPackRatio(n, unit, sign, rn, f);
    ValOne(n, unit);
    ValZero(n, 1, unit);
    if n == 0 {
      PackZero(1, unit, sign, rn, f);
    } else {
      PackRatioRounds(n, 1, unit, sign, rn, f);
      NegateProduct(n as real, Scale(unit));
    }
  }

  lemma NegateProduct(n: real, s: real)
    ensures (-n) * s == -(n * s)
  {
  }

  /** A packed sum is one rounding of the exact sum. */
  lemma PackSumRounds(a: Decoded, b: Decoded, v: real, rn: nat, f: Format)
    requires f.Valid() && v == Value(a) + Value(b)
    ensures PackSum(a, b, rn, f)
         == RoundReal(v, if a.sign == b.sign then a.sign else rn == 3, rn, f)
  {
    hide Scale, Pow, Pack, Aligned, Value, RoundReal;
    var e := Min(a.exponent, b.exponent);
    AlignedValue(a, e);
    AlignedValue(b, e);
    var va, vb := Aligned(a, e), Aligned(b, e);
    Distribute(va, vb, Scale(e));
    ZeroProduct(va + vb, Scale(e));
    var sign := SumSign(va + vb, a.sign, b.sign, rn);
    PackSigned(va + vb, e, v, sign, rn, f);
    var z := if a.sign == b.sign then a.sign else rn == 3;
    RoundRealSign(v, sign, z, rn, f);
  }

  lemma Distribute(a: int, b: int, s: real)
    ensures (a + b) as real * s == a as real * s + b as real * s
  {
  }

  lemma ZeroProduct(a: int, s: real)
    requires s > 0.0
    ensures a as real * s == 0.0 <==> a == 0
    ensures a as real * s < 0.0 <==> a < 0
  {
    ScaledOrder(s, a as real, a as real * s, 0.0, 0.0);
  }

  /** The zero sign matters only at zero. */
  lemma RoundRealSign(v: real, s: bool, t: bool, rn: nat, f: Format)
    requires f.Valid() && (v == 0.0 ==> s == t)
    ensures RoundReal(v, s, rn, f) == RoundReal(v, t, rn, f)
  {
  }

  lemma ProductValue(a: Decoded, b: Decoded)
    ensures Value(Product(a, b)) == Value(a) * Value(b)
  {
    hide Scale;
    ScaleAdd(a.exponent, b.exponent);
    var m, n, s, t := a.significand as real, b.significand as real, Scale(a.exponent), Scale(b.exponent);
    CastProduct(a.significand, b.significand);
    SwapFactors(m, n, s, t);
    SignProduct(if a.sign then -1.0 else 1.0, if b.sign then -1.0 else 1.0, m * s, n * t);
  }

  lemma SwapFactors(m: real, n: real, s: real, t: real)
    ensures (m * n) * (s * t) == (m * s) * (n * t)
  {
    assert (m * n) * (s * t) == m * (n * (s * t));
    assert n * (s * t) == s * (n * t);
    assert m * (s * (n * t)) == (m * s) * (n * t);
  }

  lemma SignProduct(g: real, h: real, x: real, y: real)
    requires (g == 1.0 || g == -1.0) && (h == 1.0 || h == -1.0)
    ensures (if g == h then 1.0 else -1.0) * (x * y) == (g * x) * (h * y)
  {
  }

  lemma NegatedValue(d: Decoded)
    ensures Value(Negated(d)) == -Value(d)
  {
    hide Scale;
  }

  /** A packed product is one rounding of the exact product. */
  lemma PackProductRounds(a: Decoded, b: Decoded, v: real, rn: nat, f: Format)
    requires f.Valid() && v == Value(a) * Value(b)
    ensures var p := Product(a, b);
            Pack(p.significand, p.exponent, p.sign, rn, f) == RoundReal(v, p.sign, rn, f)
  {
    hide Scale, Pow, Pack, RoundReal;
    var p := Product(a, b);
    ProductValue(a, b);
    DecodedRounds(p, rn, f);
  }

  lemma DecodedRounds(d: Decoded, rn: nat, f: Format)
    requires f.Valid()
    ensures Pack(d.significand, d.exponent, d.sign, rn, f) == RoundReal(Value(d), d.sign, rn, f)
  {
    hide Scale, Pow, Pack, RoundReal;
    NegateProduct(d.significand as real, Scale(d.exponent));
    PackSigned(Flip(d.sign, d.significand), d.exponent, Value(d), d.sign, rn, f);
  }

  /** A packed quotient is one rounding of the exact quotient. */
  lemma PackQuotientRounds(a: Decoded, b: Decoded, v: real, rn: nat, f: Format)
    requires f.Valid() && b.significand != 0
    requires Value(b) != 0.0 && v == Value(a) / Value(b)
    ensures PackRatio(a.significand, b.significand, a.exponent - b.exponent, a.sign != b.sign, rn, f)
         == RoundReal(v, a.sign != b.sign, rn, f)
  {
    hide Scale, Pow, PackRatio, Round;
    var n, d, e, sign := a.significand, b.significand, a.exponent - b.exponent, a.sign != b.sign;
    QuotientValue(a, b);
    ValZero(n, d, e);
    if n == 0 {
      PackZero(d, e, sign, rn, f);
    } else {
      PackRatioRounds(n, d, e, sign, rn, f);
    }
  }

  lemma QuotientValue(a: Decoded, b: Decoded)
    requires b.significand != 0
    ensures Value(b) != 0.0
    ensures Value(a) / Value(b)
         == (if a.sign != b.sign then -1.0 else 1.0) * Val(a.significand, b.significand, a.exponent - b.exponent)
  {
    hide Scale;
    var n, d, s, t := a.significand as real, b.significand as real, Scale(a.exponent), Scale(b.exponent);
    ScaleAdd(a.exponent - b.exponent, b.exponent);
    ZeroProduct(b.significand, t);
    RatioOfProducts(n, d, s, t, Scale(a.exponent - b.exponent), Val(a.significand, b.significand, a.exponent - b.exponent));
    SignQuotient(if a.sign then -1.0 else 1.0, if b.sign then -1.0 else 1.0, n * s, d * t);
  }

  lemma RatioOfProducts(n: real, d: real, s: real, t: real, u: real, v: real)
    requires d > 0.0 && t > 0.0 && d * t > 0.0 && s == u * t && v == n / d * u
    ensures n * s / (d * t) == v
  {
    var q := n / d;
    assert q * d == n;
    assert v * (d * t) == (q * d) * (u * t);
    var w := n * s / (d * t);
    assert w * (d * t) == n * s;
    MulCancelLess(d * t, w, v);
  }

  lemma SignQuotient(g: real, h: real, x: real, y: real)
    requires (g == 1.0 || g == -1.0) && (h == 1.0 || h == -1.0) && y > 0.0
    ensures h * y != 0.0
    ensures (g * x) / (h * y) == (if g == h then 1.0 else -1.0) * (x / y)
  {
    var q := x / y;
    assert q * y == x;
    var w := (g * x) / (h * y);
    if h == 1.0 {
      assert w == (g * x) / y;
    } else {
      assert h * y == -y;
      assert w * -y == g * x;
    }
    var r := (if g == h then 1.0 else -1.0) * q;
    assert r * (h * y) == g * x;
    assert w * (h * y) == g * x;
    Cancel(h * y, w, r);
  }

  lemma Cancel(a: real, x: real, y: real)
    requires a != 0.0 && x * a == y * a
    ensures x == y
  {
    assert (x - y) * a == 0.0;
  }
}
