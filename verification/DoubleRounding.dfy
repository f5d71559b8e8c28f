/** Innocuous double rounding: binary32 arithmetic may be done in binary64 and narrowed, in every mode. */
module DoubleRounding {
  import opened Dyadic
  import opened Integers
  import opened FpReference
  import opened RealRounding
  import opened FpCorrectness
  import opened FpEncoding
  import opened FpPacking
  import opened FpOperations
  import opened FpTheorems
  import opened FpConversions

  /** The point halfway between the binary32 neighbours of x. */
  ghost function Midpoint(x: real): real
    requires x > 0.0
  {
    (2 * Units(x, B32).Floor + 1) as real * Scale(Quantum(Top(x), B32) - 1)
  }

  /** x is a binary32 midpoint, or further from it than a binary64 rounding can move x. */
  ghost predicate Clear(x: real)
    requires x > 0.0
  {
    x == Midpoint(x) || Abs(x - Midpoint(x)) > Scale(Top(x) - 53)
  }

  /** Normal in binary64 with room above. */
  ghost predicate Central(x: real) {
    x > 0.0 && -1022 <= Top(x) <= 1022
  }

  /** A binary64 rounding never crosses a binary64 grid point. */
  lemma GridBarrier(g: real, x: real, sign: bool, rn: nat)
    requires x > 0.0 && OnGrid(g, B64)
    ensures g <= x ==> g <= Rounded(x, sign, rn, B64)
    ensures g >= x ==> g >= Rounded(x, sign, rn, B64)
  {
    hide OnGrid, Rounded, EvenPoint;
    RoundedIsCorrect(x, sign, rn, B64);
    assert SelectedOver(Rounded(x, sign, rn, B64), g, x, sign, rn, B64);
  }

  /** Nearest rounding moves a central value by at most half its binary64 spacing. */
  lemma HalfUlp(x: real, sign: bool)
    requires Central(x)
    ensures Abs(Rounded(x, sign, 0, B64) - x) <= Scale(Top(x) - 53)
  {
    hide Scale, Pow, Top;
    FormatConstants();
    var y, s := Units(x, B64), Scale(Top(x) - 52);
    UnitsValue(x, B64);
    ScaleStep(Top(x) - 53);
    HalfDistance(x, y, s, Mantissa(x, sign, 0, B64) as real, y.Floor as real);
  }

  lemma HalfDistance(x: real, y: real, s: real, m: real, n: real)
    requires s > 0.0 && x == y * s && n <= y < n + 1.0
    requires if m == n then y - n <= 0.5 else m == n + 1.0 && y - n >= 0.5
    ensures Abs(m * s - x) <= s / 2.0
  {
    Difference(m, y, s);
    ScaledOrder(s, m - y, m * s - x, 0.5, s / 2.0);
    ScaledOrder(s, -0.5, -s / 2.0, m - y, m * s - x);
  }

  /** Rounding at one spacing sees only the side of the whole and half units a value lies on. */
  lemma SameRoundInt(x: real, y: real, sign: bool, rn: nat)
    requires var n := x.Floor as real;
             && n <= y <= n + 1.0
             && (x == n ==> y == n)
             && (rn == 0 ==> (x < n + 0.5 <==> y < n + 0.5) && (x > n + 0.5 <==> y > n + 0.5))
             && (if rn == 0 then true else if (rn == 2 && !sign) || (rn == 3 && sign) then x <= y else y <= x)
    ensures RoundInt(x, sign, rn) == RoundInt(y, sign, rn)
  {
    var n := x.Floor;
    if y < n as real + 1.0 {
      assert y.Floor == n;
    } else {
      assert y.Floor == n + 1;
    }
  }

  lemma DirectedSide(x: real, sign: bool, rn: nat, f: Format)
    requires x > 0.0 && f.Valid() && rn != 0
    ensures if (rn == 2 && !sign) || (rn == 3 && sign) then x <= Rounded(x, sign, rn, f) else Rounded(x, sign, rn, f) <= x
  {
    hide OnGrid, Rounded, EvenPoint;
    RoundedIsCorrect(x, sign, rn, f);
    RoundedOnGrid(x, sign, rn, f);
    assert SelectedOver(Rounded(x, sign, rn, f), Rounded(x, sign, rn, f), x, sign, rn, f);
  }

  lemma PointOnGrid(g: real, m: nat, k: int, f: Format)
    requires GridPair(g, m, k, f)
    ensures OnGrid(g, f)
  {
  }

  /** The whole and half units around x, and its binade ends, are binary64 grid points. */
  lemma Barriers(x: real, n: int, lo: real, hi: real)
    requires Central(x) && n == Units(x, B32).Floor
    requires lo == n as real * Scale(Quantum(Top(x), B32)) && hi == (n + 1) as real * Scale(Quantum(Top(x), B32))
    ensures OnGrid(lo, B64) && OnGrid(hi, B64) && OnGrid(Midpoint(x), B64)
    ensures OnGrid(Scale(Top(x)), B64) && OnGrid(Scale(Top(x) + 1), B64)
  {
    hide Scale, Pow, Top, Units, OnGrid;
    FormatConstants();
    UnitsRange(x, B32);
    UnitsValue(x, B32);
    PowMono(26, 53);
    PowStep(24);
    PowStep(25);
    var q := Quantum(Top(x), B32);
    assert 0 <= n < Pow(24) && 2 * n + 1 <= Pow(53);
    PointOnGrid(lo, n, q, B64);
    PointOnGrid(hi, n + 1, q, B64);
    PointOnGrid(Midpoint(x), 2 * n + 1, q - 1, B64);
    PointOnGrid(Scale(Top(x)), 1, Top(x), B64);
    PointOnGrid(Scale(Top(x) + 1), 1, Top(x) + 1, B64);
  }

  /** The binary64 rounding of x stays between the points around x, and on its side of a clear midpoint. */
  lemma StaysBetween(x: real, y: real, sign: bool, rn: nat, n: int, lo: real, hi: real)
    requires Central(x) && (rn == 0 ==> Clear(x)) && y == Rounded(x, sign, rn, B64) && n == Units(x, B32).Floor
    requires lo == n as real * Scale(Quantum(Top(x), B32)) && hi == (n + 1) as real * Scale(Quantum(Top(x), B32))
    ensures Scale(Top(x)) <= y <= Scale(Top(x) + 1)
    ensures (lo <= x ==> lo <= y) && (hi >= x ==> hi >= y) && (lo >= x ==> lo >= y)
    ensures rn == 0 ==> (x < Midpoint(x) <==> y < Midpoint(x)) && (x > Midpoint(x) <==> y > Midpoint(x))
    ensures if rn == 0 then true else if (rn == 2 && !sign) || (rn == 3 && sign) then x <= y else y <= x
  {
    hide Scale, Pow, Top, Units, OnGrid, Rounded, Quantum, Midpoint;
    Barriers(x, n, lo, hi);
    GridBarrier(lo, x, sign, rn);
    GridBarrier(hi, x, sign, rn);
    GridBarrier(Midpoint(x), x, sign, rn);
    GridBarrier(Scale(Top(x)), x, sign, rn);
    GridBarrier(Scale(Top(x) + 1), x, sign, rn);
    if rn == 0 {
      HalfUlp(x, sign);
    } else {
      DirectedSide(x, sign, rn, B64);
    }
  }

  /** Hence it rounds to the same whole number of binary32 units. */
  lemma RoundsOnSameSide(x: real, y: real, sign: bool, rn: nat)
    requires Central(x) && (rn == 0 ==> Clear(x)) && y == Rounded(x, sign, rn, B64)
    ensures Scale(Top(x)) <= y <= Scale(Top(x) + 1)
    ensures RoundInt(Units(x, B32), sign, rn) == RoundInt(y / Scale(Quantum(Top(x), B32)), sign, rn)
  {
    hide Scale, Pow, Top, Units, Rounded, RoundInt, Clear, Quantum;
    var u, n, q := Units(x, B32), Units(x, B32).Floor, Quantum(Top(x), B32);
    var s := Scale(q);
    var lo, hi := n as real * s, (n + 1) as real * s;
    UnitsValue(x, B32);
    StaysBetween(x, y, sign, rn, n, lo, hi);
    ScaleStep(q - 1);
    InUnits(x, y, u, y / s, s, n as real, (n + 1) as real, lo, hi, Midpoint(x), (2 * n + 1) as real, Scale(q - 1));
    SameRoundInt(u, y / s, sign, rn);
  }

  /** Comparisons with the lower unit lo, the upper unit hi and the midpoint, restated in units of s. */
  lemma InUnits(x: real, y: real, u: real, v: real, s: real, n: real, n': real, lo: real, hi: real,
                mid: real, h: real, half: real)
    requires s > 0.0 && s == 2.0 * half && x == u * s && v == y / s && n <= u < n'
    requires n' == n + 1.0 && lo == n * s && hi == n' * s && mid == h * half && h == 2.0 * n + 1.0
    requires (lo <= x ==> lo <= y) && (hi >= x ==> hi >= y) && (lo >= x ==> lo >= y)
    ensures n <= v <= n'
    ensures u == n ==> v == n
    ensures (x < mid <==> u < n + 0.5) && (y < mid <==> v < n + 0.5)
    ensures (x > mid <==> u > n + 0.5) && (y > mid <==> v > n + 0.5)
    ensures (x <= y <==> u <= v) && (y <= x <==> v <= u)
  {
    assert y == v * s;
    HalfScale(n + 0.5, h, half, s);
    ScaledOrder(s, n, lo, u, x);
    ScaledOrder(s, u, x, n, lo);
    ScaledOrder(s, n, lo, v, y);
    ScaledOrder(s, v, y, n, lo);
    ScaledOrder(s, u, x, n', hi);
    ScaledOrder(s, v, y, n', hi);
    ScaledOrder(s, u, x, n + 0.5, mid);
    ScaledOrder(s, n + 0.5, mid, u, x);
    ScaledOrder(s, v, y, n + 0.5, mid);
    ScaledOrder(s, n + 0.5, mid, v, y);
    ScaledOrder(s, u, x, v, y);
    ScaledOrder(s, v, y, u, x);
  }

  /** Rounding to binary64 first does not change the binary32 rounding. */
  lemma RoundedTwice(x: real, sign: bool, rn: nat)
    requires Central(x) && (rn == 0 ==> Clear(x))
    ensures var y := Rounded(x, sign, rn, B64);
            Scale(Top(x)) <= y <= Scale(Top(x) + 1) && Rounded(y, sign, rn, B32) == Rounded(x, sign, rn, B32)
  {
    hide Scale, Pow, Top, Units, RoundInt, Clear, Quantum;
    var y := Rounded(x, sign, rn, B64);
    RoundsOnSameSide(x, y, sign, rn);
    NextTop(x, y);
    if Quantum(Top(y), B32) == Quantum(Top(x), B32) {
      UnitsDefinition(y, B32);
    } else {
      NextPower(x, y, sign, rn, Quantum(Top(x), B32));
    }
  }

  /** The power of two above x is a whole number of units and a grid point. */
  lemma NextPower(x: real, y: real, sign: bool, rn: nat, q: int)
    requires x > 0.0 && q == Quantum(Top(x), B32) && y == Scale(Top(x) + 1) && Top(y) == Top(x) + 1 && Quantum(Top(y), B32) != q
    ensures Rounded(y, sign, rn, B32) == y && RoundInt(y / Scale(q), sign, rn) as real * Scale(q) == y
  {
    hide Scale, Pow, Top, Units, RoundInt, Rounded;
    FormatConstants();
    var t := Top(x);
    ScaleAdd(t + 1 - q, q);
    ScalePow(t + 1 - q);
    WholeUnitsRound(y / Scale(q), Pow(t + 1 - q), sign, rn, y, Scale(q));
    PowMono(0, 24);
    PointOnGrid(y, 1, t + 1, B32);
    RoundedIsItself(y, sign, rn, B32);
  }

  lemma UnitsDefinition(y: real, f: Format)
    requires y > 0.0
    ensures Units(y, f) == y / Scale(Quantum(Top(y), f))
  {
  }

  lemma NextTop(x: real, y: real)
    requires x > 0.0 && Scale(Top(x)) <= y <= Scale(Top(x) + 1)
    ensures Top(y) == Top(x) || (Top(y) == Top(x) + 1 && y == Scale(Top(x) + 1))
  {
    hide Scale, Top;
    ScaleStep(Top(x) + 1);
    if y == Scale(Top(x) + 1) {
      TopUnique(y, Top(y), Top(x) + 1);
    } else {
      TopUnique(y, Top(y), Top(x));
    }
  }

  lemma WholeUnitsRound(v: real, n: nat, sign: bool, rn: nat, y: real, s: real)
    requires s > 0.0 && v == y / s && y == n as real * s
    ensures RoundInt(v, sign, rn) as real * s == y
  {
    QuotientTimes(y, s, v);
    ScaledOrder(s, v, y, n as real, y);
    WholeRounds(n, sign, rn);
  }

  // Sums and quotients of binary32 values are clear of midpoints.

  /** A nonzero multiple of s that is short of S in absolute value is impossible below s. */
  lemma NonzeroMultiple(n: int, s: real, v: real)
    requires s > 0.0 && v == n as real * s && v != 0.0
    ensures Abs(v) >= s
  {
    ScaledOrder(s, 1.0, s, n as real, v);
    ScaledOrder(s, n as real, v, -1.0, -s);
    assert n != 0;
  }

  lemma MidpointExponent(x: real)
    requires x > 0.0
    ensures Quantum(Top(x), B32) - 1 >= Top(x) - 24
  {
  }

  /** The midpoint as an odd number of half units. */
  lemma MidpointUnits(x: real) returns (h: nat)
    requires x > 0.0
    ensures h % 2 == 1 && Midpoint(x) == h as real * Scale(Quantum(Top(x), B32) - 1)
  {
    hide Scale, Pow, Top, Units, Quantum;
    UnitsValue(x, B32);
    h := 2 * Units(x, B32).Floor + 1;
  }

  /** A quotient of 24-bit integers misses a midpoint by more than a binary64 rounding can move it. */
  lemma QuotientClear(n: nat, d: nat, e: int, x: real)
    requires 0 < n < Pow(24) && 0 < d < Pow(24) && x > 0.0 && x == Val(n, d, e)
    ensures Clear(x)
  {
    hide Scale, Pow, Top, Units, Val, Midpoint;
    if x != Midpoint(x) {
      RatioClear(n, d, e, x, Midpoint(x), Min(e, Quantum(Top(x), B32) - 1));
      MidpointExponent(x);
      QuotientTop(n, d, e, x);
      ScaleMono(Top(x) - 53, Min(e, Quantum(Top(x), B32) - 1) - 24);
    }
  }

  lemma RatioClear(n: nat, d: nat, e: int, x: real, mid: real, g: int)
    requires 0 < d < Pow(24) && x > 0.0 && x == Val(n, d, e) && mid == Midpoint(x) && x != mid
    requires g == Min(e, Quantum(Top(x), B32) - 1)
    ensures Abs(x - mid) > Scale(g - 24)
  {
    hide Scale, Pow, Top, Units, Val, Midpoint, Quantum, Abs;
    var h := MidpointUnits(x);
    var w := d as real;
    var xd, md := x * w, mid * w;
    ValTimes(n, d, e, x);
    RatioGap(x, n, d, e, mid, h, Quantum(Top(x), B32) - 1, g, xd, md);
    ScalePow(24);
    ScaleAdd(g - 24, 24);
    DivideBound(Abs(x - mid), w, Abs(xd - md), Scale(24), Scale(g - 24), Scale(g));
  }

  lemma CoarseMultiple(u: real, n: nat, e: int, g: int) returns (a: nat)
    requires g <= e && u == n as real * Scale(e)
    ensures u == a as real * Scale(g)
  {
    hide Scale, Pow;
    CoarsePoint(u, n, e, g);
    ProductSign(n, Pow(e - g));
    a := n * Pow(e - g);
  }

  lemma IntGap(u: real, a: int, v: real, b: int, s: real)
    requires s > 0.0 && u == a as real * s && v == b as real * s && u != v
    ensures Abs(u - v) >= s
  {
    Difference(a as real, b as real, s);
    NonzeroMultiple(a - b, s, u - v);
  }

  /** Two different multiples of 2^g are at least 2^g apart. */
  lemma MultiplesGap(u: real, n: nat, e: int, v: real, m: nat, k: int, g: int)
    requires g <= e && g <= k && u == n as real * Scale(e) && v == m as real * Scale(k) && u != v
    ensures Abs(u - v) >= Scale(g)
  {
    hide Scale, Pow;
    var a := CoarseMultiple(u, n, e, g);
    var b := CoarseMultiple(v, m, k, g);
    IntGap(u, a, v, b, Scale(g));
  }

  /** Scaled by d, the gap from a midpoint is at least 2^g. */
  lemma RatioGap(x: real, n: nat, d: nat, e: int, mid: real, h: nat, k: int, g: int, xd: real, md: real)
    requires d > 0 && g <= e && g <= k && x != mid && xd == x * d as real && md == mid * d as real
    requires xd == n as real * Scale(e) && mid == h as real * Scale(k)
    ensures Abs(xd - md) >= Scale(g) && Abs(xd - md) == Abs(x - mid) * d as real
  {
    hide *;
    var hd := ScaledMidpoint(mid, h, k, d, md);
    DistinctProducts(x, mid, d as real, xd, md);
    MultiplesGap(xd, n, e, md, hd, k, g);
  }

  lemma ScaledMidpoint(mid: real, h: nat, k: int, d: nat, md: real) returns (hd: nat)
    requires mid == h as real * Scale(k) && md == mid * d as real
    ensures md == hd as real * Scale(k)
  {
    hide Scale;
    ProductNonNegative(h, d);
    hd := h * d;
    CastProduct(h, d);
    ThreeProduct(h as real, Scale(k), d as real, hd as real, mid);
  }

  lemma ProductNonNegative(a: nat, b: nat)
    ensures a * b >= 0
  {
  }

  lemma DistinctProducts(x: real, y: real, w: real, xw: real, yw: real)
    requires w > 0.0 && x != y && xw == x * w && yw == y * w
    ensures xw != yw && Abs(xw - yw) == Abs(x - y) * w
  {
    Difference(x, y, w);
    NonzeroFactor(x - y, w);
    AbsTimes(x - y, w, xw - yw);
  }

  lemma ValTimes(n: nat, d: nat, e: int, x: real)
    requires d > 0 && x == Val(n, d, e)
    ensures x * d as real == n as real * Scale(e)
  {
    hide Scale;
    var y := n as real / d as real;
    assert y * d as real == n as real;
    assert (y * Scale(e)) * d as real == (y * d as real) * Scale(e);
  }

  lemma ThreeProduct(h: real, s: real, d: real, hd: real, mid: real)
    requires mid == h * s && hd == h * d
    ensures mid * d == hd * s
  {
    assert (h * s) * d == (h * d) * s;
  }

  lemma NonzeroFactor(a: real, b: real)
    requires a != 0.0 && b > 0.0
    ensures a * b != 0.0
  {
  }

  lemma AbsTimes(a: real, d: real, v: real)
    requires d > 0.0 && v == a * d
    ensures Abs(v) == Abs(a) * d
  {
    NegateProduct(a, d);
    ScaledOrder(d, a, v, 0.0, 0.0);
    ScaledOrder(d, 0.0, 0.0, a, v);
  }

  /** From a*d >= r*b and d < b follows a > r. */
  lemma DivideBound(a: real, d: real, ad: real, b: real, r: real, rb: real)
    requires 0.0 < d < b && r > 0.0 && rb == r * b && ad == a * d && ad >= rb
    ensures a > r
  {
    ScaledOrder(r, d, r * d, b, rb);
    ScaledOrder(d, r, r * d, a, ad);
  }

  lemma QuotientTop(n: nat, d: nat, e: int, x: real)
    requires 0 < n < Pow(24) && d > 0 && x > 0.0 && x == Val(n, d, e)
    ensures e >= Top(x) - 23
  {
    hide *;
    var xd := n as real * Scale(e);
    ValTimes(n, d, e, x);
    ScalePow(24);
    ScaleAdd(24, e);
    ScaledOrder(x, 1.0, x, d as real, xd);
    ScaledOrder(Scale(e), n as real, xd, Scale(24), Scale(24 + e));
    assert Scale(Top(x)) < Scale(24 + e) by {
      calc {
        Scale(Top(x));
      <=  { TopEnds(x); }
        x;
      <=
        xd;
      <
        Scale(24 + e);
      }
    }
    ScaleOrder(Top(x), 24 + e);
  }

  /** A binary32 value is never halfway between the binary32 neighbours of another. */
  lemma NotMidpoint(u: real, m: nat, e: int, x: real)
    requires x > 0.0 && m < Pow(24) && e >= -149 && u == m as real * Scale(e)
    ensures u != Midpoint(x)
  {
    hide Scale, Pow, Top, Units;
    UnitsValue(x, B32);
    UnitsRange(x, B32);
    var k := Quantum(Top(x), B32) - 1;
    var h: nat := 2 * Units(x, B32).Floor + 1;
    if e >= k + 1 {
      OddMultiple(u, m, e, Midpoint(x), h, k);
    } else {
      PowStep(23);
      assert Units(x, B32).Floor >= Pow(23);
      ScaleMono(e, k);
      SmallerProduct(m as real, h as real, Scale(e), Scale(k));
    }
  }

  lemma OddMultiple(u: real, m: nat, e: int, v: real, h: nat, k: int)
    requires e >= k + 1 && u == m as real * Scale(e) && v == h as real * Scale(k) && h % 2 == 1
    ensures u != v
  {
    hide Scale;
    var a := CoarseMultiple(u, m, e, k + 1);
    ScaleStep(k);
    HalfScale(a as real, (2 * a) as real, Scale(k), Scale(k + 1));
    MulCancelLess(Scale(k), (2 * a) as real, h as real);
  }

  lemma SmallerProduct(m: real, h: real, s: real, t: real)
    requires 0.0 <= m < h && 0.0 < s <= t
    ensures m * s < h * t
  {
    ScaledOrder(s, m, m * s, h, h * s);
    ScaledOrder(h, s, h * s, t, h * t);
  }

  /** The larger operand dominates a sum that binary64 cannot hold. */
  lemma SumDominated(ea: int, eb: int, x: real, u: real, v: real, n: nat)
    requires 0.0 <= u < Scale(24 + ea) && 0.0 <= v < Scale(24 + eb) && Abs(x - u) <= v && ea >= eb
    requires x == n as real * Scale(eb) && n > Pow(53) && x > 0.0
    ensures Top(x) >= eb + 53 && ea >= eb + 29 && Top(x) <= ea + 24
  {
    hide Scale, Pow, Top;
    ScalePow(53);
    ScaleAdd(53, eb);
    ScaledOrder(Scale(eb), Scale(53), Scale(53 + eb), n as real, x);
    ScaleOrder(53 + eb, Top(x) + 1);
    ScaleMono(24 + eb, 52 + eb);
    ScaleStep(52 + eb);
    ScaleOrder(52 + eb, 24 + ea);
    ScaleMono(24 + eb, 24 + ea);
    ScaleStep(24 + ea);
    ScaleOrder(Top(x), 25 + ea);
  }

  lemma OperandBound(d: Decoded)
    requires Canonical(d.significand, d.exponent, B32)
    ensures d.significand < Pow(24) && d.exponent >= -149
    ensures Abs(Value(d)) == d.significand as real * Scale(d.exponent) < Scale(24 + d.exponent)
  {
    hide Scale, Pow;
    ScalePow(24);
    ScaleAdd(24, d.exponent);
    MagnitudeScaled(Flip(d.sign, d.significand), Scale(d.exponent), Value(d)) by {
      NegateProduct(d.significand as real, Scale(d.exponent));
    }
    ScaledOrder(Scale(d.exponent), d.significand as real, Abs(Value(d)), Scale(24), Scale(24 + d.exponent));
  }

  lemma BeyondB64(x: real, n: nat, e: int)
    requires x == n as real * Scale(e) && e >= -149 && !OnGrid(x, B64)
    ensures n > Pow(53)
  {
    hide Scale, Pow;
    if n <= Pow(53) {
      PointOnGrid(x, n, e, B64);
    }
  }

  lemma SumShape(a: Decoded, b: Decoded, x: real)
    requires Canonical(a.significand, a.exponent, B32) && Canonical(b.significand, b.exponent, B32)
    requires a.exponent >= b.exponent && x == Abs(Value(a) + Value(b)) > 0.0 && !OnGrid(x, B64)
    ensures Top(x) >= b.exponent + 53 && a.exponent >= b.exponent + 29 && Top(x) <= a.exponent + 24
    ensures Abs(x - Abs(Value(a))) <= Abs(Value(b)) < Scale(24 + b.exponent)
  {
    hide Scale, Pow, Top, Value, OnGrid, Canonical;
    OperandBound(a);
    OperandBound(b);
    var n := SumMultiple(a, b, x);
    BeyondB64(x, n, b.exponent);
    SumDominated(a.exponent, b.exponent, x, Abs(Value(a)), Abs(Value(b)), n);
  }

  /** A sum of binary32 values that binary64 cannot hold is clear of midpoints. */
  lemma SumClear(a: Decoded, b: Decoded, x: real)
    requires Canonical(a.significand, a.exponent, B32) && Canonical(b.significand, b.exponent, B32)
    requires a.exponent >= b.exponent && x == Abs(Value(a) + Value(b)) > 0.0 && !OnGrid(x, B64)
    ensures Clear(x)
  {
    hide Scale, Pow, Top, Value, OnGrid, Midpoint;
    var u := Abs(Value(a));
    SumShape(a, b, x);
    OperandBound(a);
    NotMidpoint(u, a.significand, a.exponent, x);
    MidpointExponent(x);
    var g := Min(a.exponent, Quantum(Top(x), B32) - 1);
    MidpointGap(u, a.significand, a.exponent, x, g);
    ScaleMono(24 + b.exponent, g - 1);
    ScaleStep(g - 1);
    FarFromMidpoint(x, u, Abs(Value(b)), Midpoint(x), Scale(g - 1));
    ScaleMono(Top(x) - 53, g - 1);
  }

  lemma MidpointGap(u: real, m: nat, e: int, x: real, g: int)
    requires x > 0.0 && u == m as real * Scale(e) && u != Midpoint(x) && g <= e && g <= Quantum(Top(x), B32) - 1
    ensures Abs(u - Midpoint(x)) >= Scale(g)
  {
    hide Scale, Pow, Top, Units;
    UnitsValue(x, B32);
    MultiplesGap(u, m, e, Midpoint(x), 2 * Units(x, B32).Floor + 1, Quantum(Top(x), B32) - 1, g);
  }

  lemma FarFromMidpoint(x: real, u: real, v: real, mid: real, half: real)
    requires Abs(x - u) <= v < half && Abs(u - mid) >= 2.0 * half
    ensures Abs(x - mid) > half
  {
  }

  lemma SumMultiple(a: Decoded, b: Decoded, x: real) returns (n: nat)
    requires a.exponent >= b.exponent && x == Abs(Value(a) + Value(b))
    ensures x == n as real * Scale(b.exponent)
  {
    hide Scale, Pow, Value, Aligned;
    var e := b.exponent;
    AlignedValue(a, e);
    AlignedValue(b, e);
    var i := Aligned(a, e) + Aligned(b, e);
    Distribute(Aligned(a, e), Aligned(b, e), Scale(e));
    MagnitudeScaled(i, Scale(e), Value(a) + Value(b));
    n := Magnitude(i);
  }
}
