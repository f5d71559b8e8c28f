/** The exact real each finite PowerPC operation rounds, and the range it can take. */
module PpcExact {
  import opened Dyadic
  import opened FpReference
  import opened RealRounding
  import opened FpCorrectness
  import opened FpEncoding
  import opened FpPacking
  import opened FpOperations
  import opened FpTheorems
  import opened FpConversions
  import opened DoubleRounding
  import opened PpcReference
  import opened PpcRounding

  /** The exact result before rounding; the negated forms negate afterwards. */
  ghost function ExactFinite(op: PpcOp, a: Decoded, b: Decoded, c: Decoded): real
    requires op.Fdiv? ==> Value(b) != 0.0
  {
    if op.Frsp? then Value(b)
    else if op.Fmul? then Value(a) * Value(c)
    else if op.Fdiv? then Value(a) / Value(b)
    else if op.Fadd? then Value(a) + Value(b)
    else if op.Fsub? then Value(a) - Value(b)
    else if op.SubtractsB() then Value(a) * Value(c) - Value(b)
    else Value(a) * Value(c) + Value(b)
  }

  /** The sign of the rounded result: that of a nonzero exact value, else the zero rule. */
  ghost function ExactSign(op: PpcOp, a: Decoded, b: Decoded, c: Decoded, rn: nat): bool
    requires op.Fdiv? ==> Value(b) != 0.0
  {
    var v := ExactFinite(op, a, b, c);
    var addend := b.sign != (op.Fsub? || op.SubtractsB());
    var other := if op.IsFused() then a.sign != c.sign else a.sign;
    if v != 0.0 then v < 0.0
    else if op.Frsp? then b.sign
    else if op.Fmul? then a.sign != c.sign
    else if op.Fdiv? then a.sign != b.sign
    else if other == addend then other else rn == 3
  }

  lemma SumPartsExact(a: Decoded, b: Decoded, v: real, rn: nat)
    requires v == Value(a) + Value(b)
    ensures var (n, e, sign) := SumParts(a, b, rn);
            && Val(n, 1, e) == Abs(v)
            && sign == (if v != 0.0 then v < 0.0 else if a.sign == b.sign then a.sign else rn == 3)
  {
    hide Scale, Pow, Aligned, Value;
    var e := Min(a.exponent, b.exponent);
    AlignedValue(a, e);
    AlignedValue(b, e);
    var n := Aligned(a, e) + Aligned(b, e);
    Distribute(Aligned(a, e), Aligned(b, e), Scale(e));
    MagnitudeScaled(n, Scale(e), v);
    ZeroProduct(n, Scale(e));
    ValOne(Magnitude(n), e);
  }

  lemma ProductPartsExact(a: Decoded, b: Decoded, v: real)
    requires v == Value(a) * Value(b)
    ensures Val(a.significand * b.significand, 1, a.exponent + b.exponent) == Abs(v)
    ensures v != 0.0 ==> (a.sign != b.sign) == (v < 0.0)
  {
    hide Scale, Value;
    ProductValue(a, b);
    MagnitudeValue(Product(a, b));
  }

  lemma MagnitudeValue(d: Decoded)
    ensures Val(d.significand, 1, d.exponent) == Abs(Value(d))
    ensures Value(d) != 0.0 ==> d.sign == (Value(d) < 0.0)
  {
    hide Scale;
    NonzeroValue(d);
    ValOne(d.significand, d.exponent);
    ZeroProduct(d.significand, Scale(d.exponent));
  }

  /** The parts of a finite operation denote its exact value. */
  lemma FinitePartsExact(op: PpcOp, a: Decoded, b: Decoded, c: Decoded, rn: nat)
    requires !op.IsCompare() && !op.IsToInteger() && (op.Fdiv? ==> b.significand > 0)
    ensures op.Fdiv? ==> Value(b) != 0.0
    ensures var (n, d, e, sign) := FiniteParts(op, a, b, c, rn);
            d > 0 && Val(n, d, e) == Abs(ExactFinite(op, a, b, c)) && sign == ExactSign(op, a, b, c, rn)
  {
    hide Scale, Pow, Value, SumParts, Val;
    NonzeroValue(b);
    if op.Frsp? {
      MagnitudeValue(b);
      PromotedOperand(b);
    } else if op.Fmul? {
      ProductPartsExact(a, c, ExactFinite(op, a, b, c));
    } else if op.Fdiv? {
      QuotientPartsExact(a, b, ExactFinite(op, a, b, c));
    } else {
      NegatedValue(b);
      ProductValue(a, c);
      var x := if op.IsFused() then Product(a, c) else a;
      SumPartsExact(x, if op.Fsub? || op.SubtractsB() then Negated(b) else b, ExactFinite(op, a, b, c), rn);
    }
  }

  lemma PromotedOperand(b: Decoded)
    ensures b.significand * Pow(52) >= 0
    ensures Val(b.significand * Pow(52), 1, b.exponent - 52) == Val(b.significand, 1, b.exponent)
  {
    hide Scale, Pow;
    ProductNonNegative(b.significand, Pow(52));
    ValOne(b.significand * Pow(52), b.exponent - 52);
    ValOne(b.significand, b.exponent);
    CoarsePoint(b.significand as real * Scale(b.exponent), b.significand, b.exponent, b.exponent - 52);
  }

  lemma QuotientPartsExact(a: Decoded, b: Decoded, v: real)
    requires b.significand > 0 && Value(b) != 0.0 && v == Value(a) / Value(b)
    ensures Val(a.significand, b.significand, a.exponent - b.exponent) == Abs(v)
    ensures v != 0.0 ==> (a.sign != b.sign) == (v < 0.0)
  {
    hide Scale, Value, Val;
    QuotientValue(a, b);
    ValZero(a.significand, b.significand, a.exponent - b.exponent);
  }

  // The range of exact results.

  ghost predicate MultipleOf(v: real, n: int, k: int) {
    v == n as real * Scale(-k)
  }

  /** v is a multiple of 2^-k below 2^k in magnitude. */
  ghost predicate Spans(v: real, k: int) {
    Abs(v) < Scale(k) && exists n: int :: MultipleOf(v, n, k)
  }

  lemma SpansTop(v: real, k: int)
    requires Spans(v, k) && v != 0.0
    ensures -k <= Top(Abs(v)) < k && Scale(-k) <= Abs(v) < Scale(k)
  {
    hide Scale, Top;
    var n: int :| MultipleOf(v, n, k);
    NonzeroMultiple(n, Scale(-k), v);
    ScaleOrder(-k, Top(Abs(v)) + 1);
    ScaleOrder(Top(Abs(v)), k);
  }

  lemma SpansWider(v: real, k: int, l: int)
    requires Spans(v, k) && k <= l
    ensures Spans(v, l)
  {
    hide Scale;
    var n: int :| MultipleOf(v, n, k);
    ScaleMono(k, l);
    ScaleAdd(l - k, -l);
    ScalePow(l - k);
    var m := n * Pow(l - k);
    CastProduct(n, Pow(l - k));
    TripleProduct(n as real, Pow(l - k) as real, Scale(-l), Scale(-k), m as real);
    assert MultipleOf(v, m, l);
  }

  lemma TripleProduct(n: real, p: real, s: real, t: real, m: real)
    requires t == p * s && m == n * p
    ensures n * t == m * s
  {
    assert n * (p * s) == (n * p) * s;
  }

  lemma SpansSum(v: real, w: real, u: real, k: int)
    requires Spans(v, k) && Spans(w, k) && (u == v + w || u == v - w)
    ensures Spans(u, k + 1)
  {
    hide Scale;
    var n: int :| MultipleOf(v, n, k);
    var m: int :| MultipleOf(w, m, k);
    Distribute(n, m, Scale(-k));
    Distribute(n, -m, Scale(-k));
    NegateProduct(m as real, Scale(-k));
    var i := if u == v + w then n + m else n - m;
    ScaleStep(-k - 1);
    HalfScale(i as real, (2 * i) as real, Scale(-k - 1), Scale(-k));
    assert MultipleOf(u, 2 * i, k + 1);
    ScaleStep(k);
  }

  lemma SpansProduct(v: real, w: real, u: real, k: int)
    requires Spans(v, k) && Spans(w, k) && u == v * w
    ensures Spans(u, 2 * k)
  {
    hide Scale;
    var n: int :| MultipleOf(v, n, k);
    var m: int :| MultipleOf(w, m, k);
    ScaleAdd(-k, -k);
    ScaleAdd(k, k);
    CastProduct(n, m);
    SwapFactors(n as real, m as real, Scale(-k), Scale(-k));
    assert MultipleOf(u, n * m, 2 * k);
    AbsProduct(v, w, u, Scale(k), Scale(2 * k));
  }

  lemma AbsProduct(v: real, w: real, p: real, b: real, bb: real)
    requires Abs(v) < b && Abs(w) < b && p == v * w && bb == b * b
    ensures Abs(p) < bb
  {
    AbsOfProduct(v, w, p);
    SmallProduct(Abs(v), Abs(w), Abs(p), b, bb);
  }

  lemma SmallProduct(x: real, y: real, p: real, b: real, bb: real)
    requires 0.0 <= x < b && 0.0 <= y < b && p == x * y && bb == b * b
    ensures p < bb
  {
    ScaledOrder(b, x, x * b, b, bb);
    assert p <= x * b by {
      MulLeft(x, y, b);
    }
  }

  /** A quotient of spanning values is bounded both ways, though not a multiple. */
  lemma QuotientTopBound(v: real, w: real, u: real, k: int)
    requires Spans(v, k) && Spans(w, k) && v != 0.0 && w != 0.0 && u == v / w
    ensures u != 0.0 && -2 * k - 1 <= Top(Abs(u)) <= 2 * k
  {
    hide Scale, Top, Spans;
    SpansTop(v, k);
    SpansTop(w, k);
    QuotientTimes(v, w, u);
    assert u != 0.0;
    AbsOfProduct(u, w, v);
    QuotientBounds(Abs(u), Abs(w), Abs(v), k);
    ScaleOrder(-2 * k, Top(Abs(u)) + 1);
    ScaleOrder(Top(Abs(u)), 2 * k);
  }

  lemma QuotientBounds(z: real, y: real, x: real, k: int)
    requires z >= 0.0 && z * y == x && Scale(-k) <= y < Scale(k) && Scale(-k) <= x < Scale(k)
    ensures Scale(-2 * k) < z < Scale(2 * k)
  {
    hide Scale;
    ScaleAdd(-2 * k, k);
    ScaleAdd(2 * k, -k);
    LowerQuotient(z, y, x, Scale(k), Scale(-k), Scale(-2 * k));
    UpperQuotient(z, y, x, Scale(-k), Scale(k), Scale(2 * k));
  }

  lemma AbsOfProduct(u: real, w: real, v: real)
    requires u * w == v
    ensures Abs(u) * Abs(w) == Abs(v)
  {
  }

  lemma LowerQuotient(z: real, y: real, x: real, hi: real, lo: real, q: real)
    requires z * y == x && 0.0 < y < hi && x >= lo > 0.0 && z >= 0.0 && lo == q * hi && q > 0.0
    ensures z > q
  {
    ScaledOrder(q, y, q * y, hi, lo);
    ScaledOrder(y, q, q * y, z, x);
  }

  lemma UpperQuotient(z: real, y: real, x: real, lo: real, hi: real, q: real)
    requires z * y == x && y >= lo > 0.0 && x < hi && z >= 0.0 && hi == q * lo
    ensures z < q
  {
    assert z * lo <= x by {
      MulLeft(z, lo, y);
    }
    ScaledOrder(lo, z, z * lo, q, hi);
  }

  /** Every finite binary64 operand spans 2^1074; a binary32-exact one spans 2^149. */
  lemma OperandSpans(bits: nat)
    requires bits < B64.Size() && D64(bits).kind == Finite
    ensures Spans(Value(D64(bits)), 1074)
  {
    hide Scale, Pow, Decode, OnGrid;
    FormatConstants();
    FiniteInRange(bits, B64);
    ScaleMono(1024, 1074);
    GridSpans(Value(D64(bits)), B64, 1074);
  }

  lemma GridSpans(v: real, f: Format, k: int)
    requires OnGrid(Abs(v), f) && Abs(v) < Scale(k) && f.MinQuantum() >= -k
    ensures Spans(v, k)
  {
    hide Scale, Pow;
    var m: nat, q: int :| GridPair(Abs(v), m, q, f);
    var n: int := CoarseMultiple(Abs(v), m, q, -k);
    NegateProduct(n as real, Scale(-k));
    assert MultipleOf(v, if v < 0.0 then -n else n, k);
  }

  /** A single operand must be a binary32 value held in a binary64 register. */
  ghost predicate SingleExact(d: Decoded) {
    d.kind == Finite ==> OnGrid(Abs(Value(d)), B32) && Abs(Value(d)) < Scale(128)
  }

  lemma SingleSpans(d: Decoded)
    requires d.kind == Finite && SingleExact(d)
    ensures Spans(Value(d), 149)
  {
    hide Scale, Pow, OnGrid;
    FormatConstants();
    ScaleMono(128, 149);
    GridSpans(Value(d), B32, 149);
  }

  /** Exact results of operands spanning 2^k lie within 2^(2k+2) of one, either way. */
  lemma ExactTopBound(op: PpcOp, a: Decoded, b: Decoded, c: Decoded, k: int)
    requires !op.IsCompare() && !op.IsToInteger() && k >= 0 && (op.Fdiv? ==> Value(b) != 0.0)
    requires (!op.Frsp? ==> Spans(Value(a), k)) && (!op.Fmul? ==> Spans(Value(b), k))
    requires op.Fmul? || op.IsFused() ==> Spans(Value(c), k)
    ensures var v := ExactFinite(op, a, b, c); v != 0.0 ==> -2 * k - 1 <= Top(Abs(v)) <= 2 * k + 1
  {
    hide Scale, Top, Value, Spans;
    var v := ExactFinite(op, a, b, c);
    if v != 0.0 {
      if op.Fdiv? {
        NonzeroQuotient(Value(a), Value(b), v);
        QuotientTopBound(Value(a), Value(b), v, k);
      } else if op.Frsp? {
        SpansTop(v, k);
      } else if op.Fmul? {
        SpansProduct(Value(a), Value(c), v, k);
        SpansTop(v, 2 * k);
      } else if op.IsFused() {
        FusedSpans(op, a, b, c, k);
        SpansTop(v, 2 * k + 1);
      } else {
        SpansSum(Value(a), Value(b), v, k);
        SpansTop(v, k + 1);
      }
    }
  }

  lemma NonzeroQuotient(v: real, w: real, u: real)
    requires w != 0.0 && u == v / w && u != 0.0
    ensures v != 0.0
  {
  }

  lemma FusedSpans(op: PpcOp, a: Decoded, b: Decoded, c: Decoded, k: int)
    requires op.IsFused() && k >= 0 && Spans(Value(a), k) && Spans(Value(b), k) && Spans(Value(c), k)
    ensures Spans(ExactFinite(op, a, b, c), 2 * k + 1)
  {
    hide Scale, Value, Spans;
    var p := Value(a) * Value(c);
    SpansProduct(Value(a), Value(c), p, k);
    SpansWider(Value(b), k, 2 * k);
    SpansSum(p, Value(b), ExactFinite(op, a, b, c), 2 * k);
  }

  /** Enabled overflow and underflow always land in the binary64 range, for double results of any operands,
      single results of binary32-exact operands, and any rounding to single. */
  lemma EnabledInRange(op: PpcOp, a: Decoded, b: Decoded, c: Decoded, rn: nat, sign: bool, f: Format, k: int)
    requires !op.IsCompare() && !op.IsToInteger() && (op.Fdiv? ==> Value(b) != 0.0)
    requires (!op.Frsp? ==> Spans(Value(a), k)) && (!op.Fmul? ==> Spans(Value(b), k))
    requires op.Fmul? || op.IsFused() ==> Spans(Value(c), k)
    requires (f == B64 && k == 1074) || (f == B32 && k == 149) || (f == B32 && k == 1074 && op.Frsp?)
    ensures var v := ExactFinite(op, a, b, c);
            v != 0.0 && (Overflows(Abs(v), sign, rn, f) || Tiny(Abs(v), f)) ==>
              AdjustedInRange(Abs(v), f, Adjustment(f, Overflows(Abs(v), sign, rn, f)))
  {
    hide Scale, Pow, Top, Value, Spans, Overflows, Tiny, ExactFinite;
    FormatConstants();
    var v := ExactFinite(op, a, b, c);
    if v != 0.0 {
      if op.Frsp? {
        RoundSource(a, b, c, v);
        SpansTop(v, k);
      } else {
        ExactTopBound(op, a, b, c, k);
      }
      TinyTop(Abs(v), f);
      if Overflows(Abs(v), sign, rn, f) {
        OverflowTop(Abs(v), sign, rn, f);
      }
    }
  }

  lemma RoundSource(a: Decoded, b: Decoded, c: Decoded, v: real)
    requires v == ExactFinite(Frsp, a, b, c)
    ensures v == Value(b)
  {
  }

  /** Overflow needs the leading digit next to the top of the range. */
  lemma OverflowTop(x: real, sign: bool, rn: nat, f: Format)
    requires x > 0.0 && f.Valid() && Overflows(x, sign, rn, f)
    ensures Top(x) >= OverflowExponent(f) - 1
  {
    hide Scale, Pow, Top, Rounded;
    var t := OverflowExponent(f) - 1;
    if x < Scale(t) {
      PowMono(2, f.exponent);
      PowTwo();
      PowMono(0, f.fraction + 1);
      PointOnGrid(Scale(t), 1, t, f);
      RoundedMonotone(x, Scale(t), sign, rn, f);
      RoundedIsItself(Scale(t), sign, rn, f);
      ScaleMono(t, t + 1);
    }
    ScaleOrder(t, Top(x) + 1);
  }
}
