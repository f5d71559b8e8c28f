/** Laws of the operations: exact-real meaning, fused agreement, Sterbenz, no underflow in sums, conversions. */
module FpTheorems {
  import opened Dyadic
  import opened FpReference
  import opened RealRounding
  import opened FpCorrectness
  import opened FpEncoding
  import opened FpPacking
  import opened FpOperations

  predicate IsArithmetic(op: Op) {
    op == Add || op == Sub || op == Mul || op == Div
  }

  /** The exact real result of an operation on finite operands. */
  ghost function Exact(op: Op, a: Decoded, b: Decoded): real
    requires IsArithmetic(op) && (op == Div ==> Value(b) != 0.0)
  {
    match op
    case Add => Value(a) + Value(b)
    case Sub => Value(a) - Value(b)
    case Mul => Value(a) * Value(b)
    case Div => Value(a) / Value(b)
  }

  /** The sign an exact zero result takes. */
  function ZeroSign(op: Op, a: Decoded, b: Decoded, rn: nat): bool {
    var sb := if op == Sub then !b.sign else b.sign;
    if op == Add || op == Sub then if a.sign == sb then a.sign else rn == 3
    else a.sign != b.sign
  }

  lemma NonzeroValue(d: Decoded)
    ensures Value(d) == 0.0 <==> d.significand == 0
    ensures d.significand != 0 ==> (Value(d) < 0.0 <==> d.sign)
  {
    hide Scale;
    ZeroProduct(d.significand, Scale(d.exponent));
  }

  /** Every arithmetic operation on finite operands is a single rounding of its exact real result. */
  lemma CalculateRounds(op: Op, a: nat, b: nat, rn: nat, f: Format)
    requires f.Valid() && IsArithmetic(op)
    requires Decode(a, f).kind == Finite && Decode(b, f).kind == Finite
    requires op == Div ==> Decode(b, f).significand != 0
    ensures var da, db := Decode(a, f), Decode(b, f);
            && (op == Div ==> Value(db) != 0.0)
            && Calculate(op, a, b, rn, f)
               == FromPacked(RoundReal(Exact(op, da, db), ZeroSign(op, da, db, rn), rn, f))
  {
    hide Scale, Pow, Decode, Pack, PackRatio, PackSum, RoundReal, Value;
    var da, db := Decode(a, f), Decode(b, f);
    match op
    case Add => PackSumRounds(da, db, Exact(op, da, db), rn, f);
    case Sub =>
      NegatedValue(db);
      PackSumRounds(da, Negated(db), Exact(op, da, db), rn, f);
    case Mul => PackProductRounds(da, db, Exact(op, da, db), rn, f);
    case Div =>
      NonzeroValue(db);
      PackQuotientRounds(da, db, Exact(op, da, db), rn, f);
  }

  /** The exact real a fused operation rounds. */
  ghost function FmaExact(a: Decoded, b: Decoded, c: Decoded, negateProduct: bool, negateAddend: bool): real {
    (if negateProduct then -(Value(a) * Value(b)) else Value(a) * Value(b))
    + (if negateAddend then -Value(c) else Value(c))
  }

  /** The fused operation rounds the exact product plus addend once. */
  lemma FmaRounds(a: nat, b: nat, c: nat, rn: nat, f: Format, negateProduct: bool, negateAddend: bool)
    requires f.Valid()
    requires Decode(a, f).kind == Finite && Decode(b, f).kind == Finite && Decode(c, f).kind == Finite
    ensures var da, db, dc := Decode(a, f), Decode(b, f), Decode(c, f);
            var sp, sc := (da.sign != db.sign) != negateProduct, dc.sign != negateAddend;
            CalculateFma(a, b, c, rn, f, negateProduct, negateAddend)
            == FromPacked(RoundReal(FmaExact(da, db, dc, negateProduct, negateAddend),
                                    if sp == sc then sp else rn == 3, rn, f))
  {
    hide Scale, Pow, Decode, PackSum, RoundReal, Value;
    var da, db, dc := Decode(a, f), Decode(b, f), Decode(c, f);
    var p := if negateProduct then Negated(Product(da, db)) else Product(da, db);
    var addend := if negateAddend then Negated(dc) else dc;
    ProductValue(da, db);
    NegatedValue(Product(da, db));
    NegatedValue(dc);
    PackSumRounds(p, addend, FmaExact(da, db, dc, negateProduct, negateAddend), rn, f);
  }

  /** The encoding of 1.0. */
  function One(f: Format): nat {
    f.Encode(false, f.bias, 0)
  }

  lemma DecodeOne(f: Format)
    requires f.Valid() && 1 <= f.bias < Pow(f.exponent) - 1
    ensures Decode(One(f), f) == Decoded(Finite, false, Pow(f.fraction), 0 - f.fraction as int)
    ensures Value(Decode(One(f), f)) == 1.0
  {
    hide Scale, Pow;
    Fields(false, f.bias, 0, f);
    ScalePow(f.fraction);
    ScaleAdd(f.fraction, 0 - f.fraction as int);
    ScaleZero();
  }

  /** Fusing with the factor 1.0 is addition, for every operand and mode, in bits and in every flag. */
  lemma FmaByOneIsAdd(a: nat, c: nat, rn: nat, f: Format)
    requires f.Valid() && 1 <= f.bias < Pow(f.exponent) - 1
    ensures CalculateFma(a, One(f), c, rn, f, false, false) == Calculate(Add, a, c, rn, f)
  {
    hide Scale, Pow, Decode, PackSum, RoundReal, Value, One;
    DecodeOne(f);
    var da, dc, one := Decode(a, f), Decode(c, f), Decode(One(f), f);
    if da.kind == Finite && dc.kind == Finite {
      FmaRounds(a, One(f), c, rn, f, false, false);
      CalculateRounds(Add, a, c, rn, f);
      assert Value(da) * Value(one) == Value(da);
    }
  }

  lemma DenotedValue(bits: nat, sign: bool, r: real, f: Format)
    requires f.Valid() && Denotes(bits, sign, r, f)
    ensures Value(Decode(bits, f)) == if sign then -r else r
  {
    hide Scale;
  }

  lemma ZeroDenotes(sign: bool, f: Format)
    requires f.Valid()
    ensures var bits := f.Signed(sign, 0);
            bits < f.Size() && Decode(bits, f).kind == Finite && Decode(bits, f).sign == sign && Value(Decode(bits, f)) == 0.0
  {
    hide Scale, Pow;
    PowMono(2, f.exponent);
    PowTwo();
    Fields(sign, 0, 0, f);
    NonzeroValue(Decode(f.Signed(sign, 0), f));
  }

  /** A real whose magnitude the format holds is delivered unchanged with no flags. */
  lemma RoundRealExact(v: real, zeroSign: bool, rn: nat, f: Format)
    requires f.Valid() && (v != 0.0 ==> OnGrid(Abs(v), f)) && Abs(v) < Scale(OverflowExponent(f))
    ensures var p := RoundReal(v, zeroSign, rn, f);
            && !p.nx && !p.uf && !p.of && !p.increment
            && p.bits < f.Size()
            && Decode(p.bits, f).kind == Finite
            && Value(Decode(p.bits, f)) == v
            && Decode(p.bits, f).sign == (if v == 0.0 then zeroSign else v < 0.0)
  {
    hide Scale, Pow, Decode, Round, CorrectlyRounded, Rounded, Value;
    if v == 0.0 {
      ZeroDenotes(zeroSign, f);
    } else {
      RoundDelivers(Abs(v), v < 0.0, rn, f);
      RoundedIsItself(Abs(v), v < 0.0, rn, f);
      DenotedValue(Round(Abs(v), v < 0.0, rn, f).bits, v < 0.0, Abs(v), f);
    }
  }

  /** Every finite encoding is on the grid and within range. */
  lemma FiniteInRange(bits: nat, f: Format)
    requires f.Valid() && bits < f.Size() && Decode(bits, f).kind == Finite
    ensures var v := Value(Decode(bits, f)); Abs(v) < Scale(OverflowExponent(f)) && OnGrid(Abs(v), f)
  {
    hide Scale, Pow, Decode;
    var d := Decode(bits, f);
    DecodeCanonical(bits, f);
    var r := d.significand as real * Scale(d.exponent);
    CanonicalThresholds(r, d.significand, d.exponent, f);
    NonzeroValue(d);
    ZeroProduct(d.significand, Scale(d.exponent));
    assert GridPair(r, d.significand, d.exponent, f);
    assert Abs(Value(d)) == r;
  }

  /** Sterbenz: nearby operands subtract exactly. */
  lemma Sterbenz(a: nat, b: nat, rn: nat, f: Format)
    requires f.Valid() && a < f.Size() && b < f.Size()
    requires Decode(a, f).kind == Finite && Decode(b, f).kind == Finite
    requires Value(Decode(b, f)) / 2.0 <= Value(Decode(a, f)) <= 2.0 * Value(Decode(b, f))
    ensures var out := Calculate(Sub, a, b, rn, f);
            && !out.nx && !out.uf && !out.of && !out.invalid && !out.dz
            && out.bits < f.Size()
            && Decode(out.bits, f).kind == Finite
            && Value(Decode(out.bits, f)) == Value(Decode(a, f)) - Value(Decode(b, f))
  {
    hide Scale, Pow, Decode, Value, Calculate, RoundReal;
    var da, db := Decode(a, f), Decode(b, f);
    CalculateRounds(Sub, a, b, rn, f);
    FiniteInRange(a, f);
    FiniteInRange(b, f);
    var v := Value(da) - Value(db);
    if v != 0.0 {
      DecodeCanonical(a, f);
      DecodeCanonical(b, f);
      DifferenceOnGrid(da, db, v, f);
    }
    RoundRealExact(v, ZeroSign(Sub, da, db, rn), rn, f);
  }

  /** A difference no larger than either operand fits the finer operand's significand. */
  lemma DifferenceOnGrid(a: Decoded, b: Decoded, v: real, f: Format)
    requires Canonical(a.significand, a.exponent, f) && Canonical(b.significand, b.exponent, f)
    requires v == Value(a) - Value(b) && Abs(v) <= Abs(Value(a)) && Abs(v) <= Abs(Value(b))
    ensures OnGrid(Abs(v), f)
  {
    hide Scale, Pow, Aligned, Value;
    var e := Min(a.exponent, b.exponent);
    AlignedValue(a, e);
    AlignedValue(b, e);
    var n := Aligned(a, e) - Aligned(b, e);
    Difference(Aligned(a, e) as real, Aligned(b, e) as real, Scale(e));
    MagnitudeScaled(n, Scale(e), v);
    if a.exponent == e {
      WithinOperand(a, Magnitude(n), Abs(v), f);
    } else {
      WithinOperand(b, Magnitude(n), Abs(v), f);
    }
  }

  lemma Difference(a: real, b: real, s: real)
    ensures (a - b) * s == a * s - b * s
  {
  }

  lemma MagnitudeScaled(n: int, s: real, v: real)
    requires s > 0.0 && v == n as real * s
    ensures Abs(v) == Magnitude(n) as real * s
  {
    ZeroProduct(n, s);
    NegateProduct(n as real, s);
  }

  lemma WithinOperand(d: Decoded, n: nat, v: real, f: Format)
    requires Canonical(d.significand, d.exponent, f)
    requires v == n as real * Scale(d.exponent) && v <= Abs(Value(d))
    ensures OnGrid(v, f)
  {
    hide Scale, Pow;
    var s := Scale(d.exponent);
    MagnitudeScaled(Flip(d.sign, d.significand), s, Value(d));
    ScaledOrder(s, n as real, v, d.significand as real, d.significand as real * s);
    assert GridPair(v, n, d.exponent, f);
  }

  /** A multiple of the subnormal spacing is never both inexact and subnormal. */
  lemma MultipleNeverUnderflows(x: real, n: nat, e: int, sign: bool, rn: nat, f: Format)
    requires x > 0.0 && f.Valid() && e >= f.MinQuantum() && x == n as real * Scale(e)
    ensures !Round(x, sign, rn, f).uf
  {
    hide Scale, Pow, Round, Rounded, CorrectlyRounded, Decode, OnGrid, Denotes;
    RoundDelivers(x, sign, rn, f);
    SmallestNormal(f);
    if x >= Scale(1 - f.bias) {
      RoundedMonotone(Scale(1 - f.bias), x, sign, rn, f);
      RoundedIsItself(Scale(1 - f.bias), sign, rn, f);
    } else {
      SmallMultipleOnGrid(x, n, e, f);
    }
  }

  lemma SmallMultipleOnGrid(x: real, n: nat, e: int, f: Format)
    requires e >= f.MinQuantum() && x == n as real * Scale(e) && x < Scale(1 - f.bias)
    ensures OnGrid(x, f)
  {
    hide Scale, Pow, OnGrid;
    SmallestNormal(f);
    PowStep(f.fraction);
    ScaleMono(f.MinQuantum(), e);
    SmallMultiplier(n as real, Scale(f.MinQuantum()), Scale(e), x, Pow(f.fraction) as real, Scale(1 - f.bias));
    PointOfPair(x, n, e, f);
  }

  lemma PointOfPair(x: real, n: nat, e: int, f: Format)
    requires GridPair(x, n, e, f)
    ensures OnGrid(x, f)
  {
    hide Scale, Pow;
  }

  lemma SmallMultiplier(n: real, s: real, t: real, x: real, p: real, limit: real)
    requires n >= 0.0 && 0.0 < s <= t && x == n * t && x < limit && limit == p * s
    ensures n < p
  {
    var y := n * s;
    assert y <= x by {
      MulLeft(n, s, t);
    }
    ScaledOrder(s, n, y, p, limit);
  }

  lemma SmallestNormal(f: Format)
    ensures Scale(1 - f.bias) == Pow(f.fraction) as real * Scale(f.MinQuantum())
    ensures OnGrid(Scale(1 - f.bias), f)
  {
    hide Scale, Pow;
    ScalePow(f.fraction);
    ScaleAdd(f.fraction, f.MinQuantum());
    PowStep(f.fraction);
    assert GridPair(Scale(1 - f.bias), Pow(f.fraction), f.MinQuantum(), f);
  }

  /** Addition and subtraction never report underflow, whatever the operands and mode. */
  lemma SumNeverUnderflows(a: nat, b: nat, rn: nat, f: Format)
    requires f.Valid()
    ensures !Calculate(Add, a, b, rn, f).uf && !Calculate(Sub, a, b, rn, f).uf
  {
    hide Scale, Pow, PackSum, Decode;
    var da, db := Decode(a, f), Decode(b, f);
    if da.kind == Finite && db.kind == Finite {
      DecodedExponent(a, f);
      DecodedExponent(b, f);
      PackSumNoUnderflow(da, db, rn, f);
      PackSumNoUnderflow(da, Negated(db), rn, f);
    }
  }

  lemma DecodedExponent(bits: nat, f: Format)
    requires f.Valid() && Decode(bits, f).kind == Finite
    ensures Decode(bits, f).exponent >= f.MinQuantum()
  {
    hide Pow;
  }

  lemma PackSumNoUnderflow(a: Decoded, b: Decoded, rn: nat, f: Format)
    requires f.Valid() && a.exponent >= f.MinQuantum() && b.exponent >= f.MinQuantum()
    ensures !PackSum(a, b, rn, f).uf
  {
    hide Scale, Pow, Pack, Aligned, Round, Value;
    var v := Value(a) + Value(b);
    PackSumRounds(a, b, v, rn, f);
    var e := Min(a.exponent, b.exponent);
    AlignedValue(a, e);
    AlignedValue(b, e);
    var n := Aligned(a, e) + Aligned(b, e);
    Distribute(Aligned(a, e), Aligned(b, e), Scale(e));
    MagnitudeScaled(n, Scale(e), v);
    if v != 0.0 {
      MultipleNeverUnderflows(Abs(v), Magnitude(n), e, v < 0.0, rn, f);
    }
  }
}
