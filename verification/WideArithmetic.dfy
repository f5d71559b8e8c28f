/** Binary32 add, subtract, multiply and divide may be computed in binary64 and narrowed: the law the
    host cross-check relies on, for all non-NaN operands and every rounding mode. */
module WideArithmetic {
  import opened Dyadic
  import opened Integers
  import opened FpReference
  import opened RealRounding
  import opened FpCorrectness
  import opened FpEncoding
  import opened FpPacking
  import opened FpOperations
  import opened FpTheorems
  import opened FpConversions
  import opened DoubleRounding

  /** y is the narrowed result and wide the binary64 one that direct binary32 arithmetic agrees with, in bits and every flag:
      inexact if either rounding was, the increment that of the last rounding that moved the value. */
  predicate Agrees(direct: Outcome, wide: Outcome, y: Outcome) {
    && y.bits == direct.bits
    && direct.nx == (wide.nx || y.nx)
    && direct.of == y.of && direct.uf == y.uf
    && direct.increment == (if y.nx then y.increment else wide.increment)
    && direct.invalid == wide.invalid && !y.invalid
    && direct.dz == wide.dz && !y.dz
  }

  lemma CentralBetween(x: real, lo: int, hi: int)
    requires Scale(lo) <= x < Scale(hi) && -1022 <= lo && hi <= 1023
    ensures Central(x)
  {
    hide Scale, Top;
    ScaleOrder(lo, Top(x) + 1);
    ScaleOrder(Top(x), hi);
  }

  /** Further from every binary32 value than any binary64 rounding can move x. */
  ghost predicate Apart(x: real)
    requires x > 0.0
  {
    forall u | OnGrid(u, B32) :: Abs(x - u) > Scale(Top(x) - 52)
  }

  /** Not tiny in binary32, or no binary64 rounding of x is a binary32 value. */
  ghost predicate Settled(x: real)
    requires x > 0.0
  {
    x >= Scale(-126) || Apart(x)
  }

  /** Held exactly by binary64, or rounded there without disturbing the binary32 rounding or its flags. */
  ghost predicate Undisturbed(x: real, rn: nat) {
    Central(x) && (OnGrid(x, B64) || ((rn == 0 ==> Clear(x)) && Settled(x)))
  }

  /** Any rounding moves a central value by less than its binary64 spacing. */
  lemma OneUlp(x: real, sign: bool, rn: nat)
    requires Central(x)
    ensures Abs(Rounded(x, sign, rn, B64) - x) < Scale(Top(x) - 52)
  {
    hide Scale, Pow, Top, Units, RoundInt;
    FormatConstants();
    var y, s := Units(x, B64), Scale(Top(x) - 52);
    UnitsValue(x, B64);
    RoundIntNear(y, sign, rn);
    WithinUnit(x, y, s, Mantissa(x, sign, rn, B64) as real, Rounded(x, sign, rn, B64));
  }

  lemma RoundIntNear(y: real, sign: bool, rn: nat)
    ensures y - 1.0 < RoundInt(y, sign, rn) as real < y + 1.0
  {
  }

  lemma WithinUnit(x: real, y: real, s: real, m: real, r: real)
    requires s > 0.0 && x == y * s && r == m * s && y - 1.0 < m < y + 1.0
    ensures Abs(r - x) < s
  {
    ScaledOrder(s, m, r, y + 1.0, x + s) by {
      AddedProduct(y, 1.0, s, x, s);
    }
    ScaledOrder(s, y - 1.0, x - s, m, r) by {
      AddedProduct(y, -1.0, s, x, -s);
    }
  }

  /** A tiny binary32 result of an inexact binary64 rounding is inexact again. */
  lemma TinyStaysInexact(x: real, sign: bool, rn: nat)
    requires Undisturbed(x, rn) && Rounded(x, sign, rn, B32) < Scale(-126) && OnGrid(Rounded(x, sign, rn, B64), B32)
    ensures OnGrid(x, B64)
  {
    hide Scale, Pow, Top, Rounded, OnGrid, Clear;
    OneUlp(x, sign, rn);
    SmallestNormal(B32);
    if x >= Scale(-126) {
      RoundedMonotone(Scale(-126), x, sign, rn, B32);
      RoundedIsItself(Scale(-126), sign, rn, B32);
    }
  }

  /** The increments compare: past a first rounding r the binary32 result s lies on the side it lies of x. */
  lemma SameSideOfResult(x: real, sign: bool, rn: nat, s: real)
    requires x > 0.0 && OnGrid(s, B32) && s != Rounded(x, sign, rn, B64)
    ensures s > x <==> s > Rounded(x, sign, rn, B64)
  {
    hide OnGrid, Rounded;
    GridWidens(s);
    GridBarrier(s, x, sign, rn);
  }

  /** A binary64 result that stands for the rounding of x narrows to the binary32 rounding of x. */
  lemma NarrowRounded(x: real, sign: bool, rn: nat)
    requires Undisturbed(x, rn)
    ensures var w := Round(x, sign, rn, B64); var y := Narrow(w.bits, rn);
            Agrees(FromPacked(Round(x, sign, rn, B32)), FromPacked(w), y)
  {
    hide Scale, Pow, Top, Clear, OnGrid, Decode, Pack, Round, Rounded, CorrectlyRounded, Value, Settled, Agrees, Undisturbed;
    UndisturbedCentral(x, rn);
    FormatConstants();
    var w, r := Round(x, sign, rn, B64), Rounded(x, sign, rn, B64);
    RoundDelivers(x, sign, rn, B64);
    RoundedInBinade(x, sign, rn);
    DenotedValue(w.bits, sign, r, B64);
    DecodedRounds(Decode(w.bits, B64), rn, B32);
    SameRoundingSameBits(x, r, sign, rn, B32);
    NarrowFlags(x, sign, rn, r);
  }

  lemma UndisturbedCentral(x: real, rn: nat)
    requires Undisturbed(x, rn)
    ensures Central(x)
  {
    hide Scale, Top, Clear, OnGrid, Settled;
  }

  /** Rounding the binary64 result again reports what rounding x reports. */
  lemma NarrowFlags(x: real, sign: bool, rn: nat, r: real)
    requires Undisturbed(x, rn) && r == Rounded(x, sign, rn, B64) > 0.0 && Rounded(r, sign, rn, B32) == Rounded(x, sign, rn, B32)
    requires Round(x, sign, rn, B32).bits == Round(r, sign, rn, B32).bits && !Round(x, sign, rn, B64).of
    ensures Agrees(FromPacked(Round(x, sign, rn, B32)), FromPacked(Round(x, sign, rn, B64)), FromPacked(Round(r, sign, rn, B32)))
  {
    hide Scale, Pow, Top, Clear, OnGrid, Decode, Round, Rounded, CorrectlyRounded, Settled, Denotes, Undisturbed;
    FormatConstants();
    UndisturbedCentral(x, rn);
    RoundDelivers(x, sign, rn, B64);
    RoundDelivers(x, sign, rn, B32);
    RoundDelivers(r, sign, rn, B32);
    GridAgreement(x, sign, rn);
    var s := Rounded(x, sign, rn, B32);
    RoundedOnGrid(x, sign, rn, B32);
    if OnGrid(r, B32) {
      RoundedIsItself(r, sign, rn, B32);
      if s < Scale(-126) {
        TinyStaysInexact(x, sign, rn);
      }
    } else {
      SameSideOfResult(x, sign, rn, s);
    }
  }

  /** The binary64 rounding stays in range and rounds on to the same binary32 value. */
  lemma RoundedInBinade(x: real, sign: bool, rn: nat)
    requires Undisturbed(x, rn)
    ensures var r := Rounded(x, sign, rn, B64);
            0.0 < r < Scale(1024) && Rounded(r, sign, rn, B32) == Rounded(x, sign, rn, B32)
  {
    hide Scale, Pow, Top, Clear, OnGrid, Rounded, Settled;
    ScaleMono(Top(x) + 1, 1023);
    ScaleMono(1023, 1024);
    if OnGrid(x, B64) {
      RoundedIsItself(x, sign, rn, B64);
    } else {
      RoundedTwice(x, sign, rn);
    }
  }

  /** x is a binary32 value exactly when neither rounding changes it. */
  lemma GridAgreement(x: real, sign: bool, rn: nat)
    requires x > 0.0
    ensures OnGrid(x, B32) <==> OnGrid(x, B64) && OnGrid(Rounded(x, sign, rn, B64), B32)
  {
    hide OnGrid, Rounded;
    if OnGrid(x, B32) {
      GridWidens(x);
    }
    if OnGrid(x, B64) {
      RoundedIsItself(x, sign, rn, B64);
    }
  }

  lemma NarrowZero(sign: bool, rn: nat)
    ensures Narrow(B64.Signed(sign, 0), rn) == Quietly(B32.Signed(sign, 0), false)
  {
    hide Scale, Pow, Decode, Pack, Value;
    ZeroDenotes(sign, B64);
    DecodedRounds(Decode(B64.Signed(sign, 0), B64), rn, B32);
  }

  lemma NarrowDefaultNan(rn: nat)
    ensures Narrow(B64.DefaultNan(), rn) == Quietly(B32.DefaultNan(), false)
  {
    hide Scale, Pow, Decode, Pack;
    PowStep(22);
    PowAdd(22, 29);
    NarrowNan(false, Pow(22), rn);
  }

  /** One rounding of an exact real, done twice. */
  lemma NarrowReal(v: real, zeroSign: bool, rn: nat)
    requires v != 0.0 ==> Undisturbed(Abs(v), rn)
    ensures var w := RoundReal(v, zeroSign, rn, B64);
            Agrees(FromPacked(RoundReal(v, zeroSign, rn, B32)), FromPacked(w), Narrow(w.bits, rn))
  {
    hide Scale, Pow, Top, OnGrid, Decode, Pack, Round, Undisturbed;
    if v == 0.0 {
      NarrowZero(zeroSign, rn);
    } else {
      NarrowRounded(Abs(v), v < 0.0, rn);
    }
  }

  /** The exact results of binary32 operands are zero or undisturbed by binary64 in every mode. */
  ghost predicate Innocuous(v: real) {
    v != 0.0 ==> Undisturbed(Abs(v), 0)
  }

  lemma OperandRange(a: nat)
    requires a < B32.Size() && Decode(a, B32).kind == Finite
    ensures var d := Decode(a, B32);
            Canonical(d.significand, d.exponent, B32) && -149 <= d.exponent <= 104 && d.significand < Pow(24)
  {
    hide Pow, Decode;
    FormatConstants();
    DecodeCanonical(a, B32);
  }

  lemma SumInnocuous(a: Decoded, b: Decoded)
    requires Canonical(a.significand, a.exponent, B32) && Canonical(b.significand, b.exponent, B32)
    requires a.exponent <= 104 && b.exponent <= 104
    ensures Innocuous(Value(a) + Value(b))
  {
    hide Scale, Pow, Top, Value, Innocuous, Canonical;
    if a.exponent < b.exponent {
      OrderedSumInnocuous(b, a);
      assert Value(a) + Value(b) == Value(b) + Value(a);
    } else {
      OrderedSumInnocuous(a, b);
    }
  }

  lemma OrderedSumInnocuous(a: Decoded, b: Decoded)
    requires Canonical(a.significand, a.exponent, B32) && Canonical(b.significand, b.exponent, B32)
    requires b.exponent <= a.exponent <= 104
    ensures Innocuous(Value(a) + Value(b))
  {
    hide Scale, Pow, Top, Value, OnGrid, Clear, Apart, Canonical;
    var x := Abs(Value(a) + Value(b));
    if x != 0.0 {
      OperandBound(a);
      OperandBound(b);
      var n := SumMultiple(a, b, x);
      NonzeroMultiple(n, Scale(b.exponent), x);
      ScaleMono(-149, b.exponent);
      ScaleMono(24 + a.exponent, 128);
      ScaleMono(24 + b.exponent, 128);
      ScaleStep(128);
      CentralBetween(x, -149, 129);
      if !OnGrid(x, B64) {
        SumClear(a, b, x);
        SumShape(a, b, x);
        TopEnds(x);
        ScaleMono(-126, Top(x));
      }
    }
  }

  lemma ProductInnocuous(a: Decoded, b: Decoded, v: real)
    requires v == Value(a) * Value(b)
    requires Canonical(a.significand, a.exponent, B32) && Canonical(b.significand, b.exponent, B32)
    requires a.exponent <= 104 && b.exponent <= 104
    ensures Innocuous(v)
  {
    hide Scale, Pow, Top, Value, OnGrid, Clear, Apart, Canonical;
    var p := Product(a, b);
    ProductValue(a, b);
    var x := Abs(Value(p));
    ProductMagnitude(a, b, x);
    if x != 0.0 {
      var n, e := p.significand, p.exponent;
      NonzeroMultiple(n, Scale(e), x);
      ScaleMono(-298, e);
      ScalePow(48);
      ScaleAdd(48, e);
      ScaledOrder(Scale(e), n as real, x, Scale(48), Scale(48 + e));
      ScaleMono(48 + e, 256);
      CentralBetween(x, -298, 256);
      PowMono(48, 53);
      PointOnGrid(x, n, e, B64);
    }
  }

  lemma ProductMagnitude(a: Decoded, b: Decoded, x: real)
    requires Canonical(a.significand, a.exponent, B32) && Canonical(b.significand, b.exponent, B32)
    requires x == Abs(Value(Product(a, b)))
    ensures x == Product(a, b).significand as real * Scale(Product(a, b).exponent)
    ensures Product(a, b).significand < Pow(48) && Product(a, b).exponent >= -298
  {
    hide Scale, Pow;
    var p := Product(a, b);
    NegateProduct(p.significand as real, Scale(p.exponent));
    ZeroProduct(p.significand, Scale(p.exponent));
    PowAdd(24, 24);
    ProductBelow(a.significand, b.significand, Pow(24));
  }

  lemma ProductBelow(m: nat, n: nat, p: nat)
    requires m < p && n < p
    ensures m * n < p * p
  {
    ProductSign(p - m, p);
    ProductNonNegative(m, p - n);
    assert m * (p - n) == m * p - m * n;
    assert (p - m) * p == p * p - m * p;
  }

  lemma QuotientInnocuous(a: Decoded, b: Decoded)
    requires Canonical(a.significand, a.exponent, B32) && Canonical(b.significand, b.exponent, B32)
    requires a.exponent <= 104 && b.exponent <= 104 && b.significand != 0
    ensures Value(b) != 0.0 && Innocuous(Value(a) / Value(b))
  {
    hide Scale, Pow, Top, Value, OnGrid, Clear, Apart;
    var n, d, e := a.significand, b.significand, a.exponent - b.exponent;
    QuotientValue(a, b);
    ValZero(n, d, e);
    if n != 0 {
      var x := Val(n, d, e);
      QuotientRange(n, d, e, x);
      QuotientClear(n, d, e, x);
      if !OnGrid(x, B64) && x < Scale(-126) {
        TinyQuotientApart(n, d, e, x);
      }
    }
  }

  /** A tiny quotient that binary64 cannot hold is apart from every binary32 value. */
  lemma TinyQuotientApart(n: nat, d: nat, e: int, x: real)
    requires 0 < n < Pow(24) && 0 < d < Pow(24) && x == Val(n, d, e) && 0.0 < x < Scale(-126) && !OnGrid(x, B64)
    ensures Apart(x)
  {
    hide Scale, Pow, Top, Val, OnGrid;
    QuotientTop(n, d, e, x);
    TopEnds(x);
    ScaleOrder(Top(x), -126);
    forall u | OnGrid(u, B32) ensures Abs(x - u) > Scale(Top(x) - 52) {
      GridWidens(u);
      ApartFrom(n, d, e, x, u);
    }
  }

  lemma ApartFrom(n: nat, d: nat, e: int, x: real, u: real)
    requires 0 < d < Pow(24) && x > 0.0 && x == Val(n, d, e) && e >= Top(x) - 23 && Top(x) < -126 && OnGrid(u, B32) && x != u
    ensures Abs(x - u) > Scale(Top(x) - 52)
  {
    hide Scale, Pow, Top, Val, Abs;
    FormatConstants();
    var m: nat, k: int :| GridPair(u, m, k, B32);
    var g, w := Min(e, -149), d as real;
    var xd, ud := x * w, u * w;
    ValTimes(n, d, e, x);
    RatioGap(x, n, d, e, u, m, k, g, xd, ud);
    ScalePow(24);
    ScaleAdd(g - 24, 24);
    DivideBound(Abs(x - u), w, Abs(xd - ud), Scale(24), Scale(g - 24), Scale(g));
    ScaleMono(Top(x) - 52, g - 24);
  }

  lemma QuotientRange(n: nat, d: nat, e: int, x: real)
    requires 0 < n < Pow(24) && 0 < d < Pow(24) && -253 <= e <= 253 && x == Val(n, d, e)
    ensures Central(x)
  {
    hide Scale, Pow, Top;
    ValZero(n, d, e);
    QuotientTop(n, d, e, x);
    ValTimes(n, d, e, x);
    ScalePow(24);
    ScaleAdd(e - 24, 24);
    var xd := n as real * Scale(e);
    ScaledOrder(Scale(e), 1.0, Scale(e), n as real, xd);
    DivideBound(x, d as real, xd, Scale(24), Scale(e - 24), Scale(e));
    ScaleOrder(e - 24, Top(x) + 1);
  }

  /** Widening keeps everything an operation looks at. */
  lemma WidenOperand(a: nat, rn: nat)
    requires a < B32.Size() && !Decode(a, B32).IsNan()
    ensures var w := Widen(a, rn); var d, e := Decode(a, B32), Decode(w.bits, B64);
            && w == Quietly(w.bits, false)
            && e.kind == d.kind && e.sign == d.sign && (e.IsZero() <==> d.IsZero())
            && (d.kind == Finite ==> Value(e) == Value(d))
  {
    hide Scale, Pow, Decode, Pack, Value;
    var d := Decode(a, B32);
    if d.kind == Finite {
      WidenFinite(a, rn);
      NonzeroValue(d);
      NonzeroValue(Decode(Widen(a, rn).bits, B64));
    } else {
      SpecialShape(a, B32);
      DecodeSpecial(d.sign, d.significand, B32);
      InfinityConverts(d.sign, rn, rn);
    }
  }

  lemma InnocuousFinite(op: Op, a: nat, b: nat, wa: nat, wb: nat, rn: nat)
    requires IsArithmetic(op) && a < B32.Size() && b < B32.Size()
    requires Decode(a, B32).kind == Finite && Decode(b, B32).kind == Finite
    requires Decode(wa, B64).kind == Finite && Decode(wb, B64).kind == Finite
    requires Value(Decode(wa, B64)) == Value(Decode(a, B32)) && Decode(wa, B64).sign == Decode(a, B32).sign
    requires Value(Decode(wb, B64)) == Value(Decode(b, B32)) && Decode(wb, B64).sign == Decode(b, B32).sign
    requires op == Div ==> Decode(b, B32).significand != 0
    ensures var w := Calculate(op, wa, wb, rn, B64);
            Agrees(Calculate(op, a, b, rn, B32), w, Narrow(w.bits, rn))
  {
    hide Scale, Pow, Decode, Calculate, RoundReal, Value, Agrees, Innocuous, Canonical;
    var da, db := Decode(a, B32), Decode(b, B32);
    NonzeroValue(db);
    NonzeroValue(Decode(wb, B64));
    CalculateRounds(op, a, b, rn, B32);
    CalculateRounds(op, wa, wb, rn, B64);
    var v := Exact(op, da, db);
    ExactCongruent(op, da, db, Decode(wa, B64), Decode(wb, B64));
    ExactInnocuous(op, a, b);
    InnocuousNarrow(v, ZeroSign(op, da, db, rn), rn);
  }

  lemma ExactCongruent(op: Op, a: Decoded, b: Decoded, a': Decoded, b': Decoded)
    requires IsArithmetic(op) && Value(a) == Value(a') && Value(b) == Value(b')
    requires op == Div ==> Value(b) != 0.0
    ensures Exact(op, a, b) == Exact(op, a', b')
  {
    hide Value;
  }

  lemma InnocuousNarrow(v: real, zeroSign: bool, rn: nat)
    requires Innocuous(v)
    ensures var w := RoundReal(v, zeroSign, rn, B64);
            Agrees(FromPacked(RoundReal(v, zeroSign, rn, B32)), FromPacked(w), Narrow(w.bits, rn))
  {
    hide Clear, OnGrid, Central, RoundReal, Calculate, Settled;
    NarrowReal(v, zeroSign, rn);
  }

  lemma ExactInnocuous(op: Op, a: nat, b: nat)
    requires IsArithmetic(op) && a < B32.Size() && b < B32.Size()
    requires Decode(a, B32).kind == Finite && Decode(b, B32).kind == Finite
    requires op == Div ==> Decode(b, B32).significand != 0 && Value(Decode(b, B32)) != 0.0
    ensures Innocuous(Exact(op, Decode(a, B32), Decode(b, B32)))
  {
    hide Scale, Pow, Decode, Value, Innocuous, Canonical;
    OperandRange(a);
    OperandRange(b);
    var da, db := Decode(a, B32), Decode(b, B32);
    match op
    case Add => SumInnocuous(da, db);
    case Sub =>
      NegatedValue(db);
      SumInnocuous(da, Negated(db));
      assert Value(da) + Value(Negated(db)) == Exact(op, da, db);
    case Mul => ProductInnocuous(da, db, Exact(op, da, db));
    case Div => QuotientInnocuous(da, db);
  }

  /** Same kind, sign and zeroness, whatever the format. */
  predicate Alike(a: Decoded, w: Decoded) {
    w.kind == a.kind && w.sign == a.sign && (w.IsZero() <==> a.IsZero())
  }

  lemma SpecialSum(a: Decoded, b: Decoded, wa: Decoded, wb: Decoded, rn: nat)
    requires Alike(a, wa) && Alike(b, wb) && (a.kind == Inf || b.kind == Inf)
    ensures var w := AddDecoded(wa, wb, rn, B64); Agrees(AddDecoded(a, b, rn, B32), w, Narrow(w.bits, rn))
  {
    hide Pow, PackSum, Narrow;
    NarrowDefaultNan(rn);
    InfinityConverts(false, rn, rn);
    InfinityConverts(true, rn, rn);
  }

  lemma SpecialProduct(a: Decoded, b: Decoded, wa: Decoded, wb: Decoded, rn: nat)
    requires Alike(a, wa) && Alike(b, wb) && (a.kind == Inf || b.kind == Inf)
    ensures var w := MulDecoded(wa, wb, rn, B64); Agrees(MulDecoded(a, b, rn, B32), w, Narrow(w.bits, rn))
  {
    hide Pow, Pack, Narrow;
    NarrowDefaultNan(rn);
    InfinityConverts(false, rn, rn);
    InfinityConverts(true, rn, rn);
  }

  lemma SpecialQuotient(a: Decoded, b: Decoded, wa: Decoded, wb: Decoded, rn: nat)
    requires Alike(a, wa) && Alike(b, wb) && !a.IsNan() && !b.IsNan() && (a.kind == Inf || b.kind == Inf || b.IsZero())
    ensures var w := DivDecoded(wa, wb, rn, B64); Agrees(DivDecoded(a, b, rn, B32), w, Narrow(w.bits, rn))
  {
    hide Pow, PackRatio, Narrow;
    NarrowDefaultNan(rn);
    NarrowZero(false, rn);
    NarrowZero(true, rn);
    InfinityConverts(false, rn, rn);
    InfinityConverts(true, rn, rn);
  }

  /** Infinities, zero divisors and invalid operations deliver corresponding specials in both formats. */
  lemma InnocuousSpecial(op: Op, a: nat, b: nat, wa: nat, wb: nat, rn: nat)
    requires IsArithmetic(op) && !Decode(a, B32).IsNan() && !Decode(b, B32).IsNan()
    requires Alike(Decode(a, B32), Decode(wa, B64)) && Alike(Decode(b, B32), Decode(wb, B64))
    requires Decode(a, B32).kind == Inf || Decode(b, B32).kind == Inf || (op == Div && Decode(b, B32).IsZero())
    ensures var w := Calculate(op, wa, wb, rn, B64);
            Agrees(Calculate(op, a, b, rn, B32), w, Narrow(w.bits, rn))
  {
    hide Scale, Pow, Decode, AddDecoded, MulDecoded, DivDecoded, Narrow, Agrees;
    var da, db, ea, eb := Decode(a, B32), Decode(b, B32), Decode(wa, B64), Decode(wb, B64);
    match op
    case Add => SpecialSum(da, db, ea, eb, rn);
    case Sub => SpecialSum(da, Negated(db), ea, Negated(eb), rn);
    case Mul => SpecialProduct(da, db, ea, eb, rn);
    case Div => SpecialQuotient(da, db, ea, eb, rn);
  }

  /** Main theorem: computing in binary64 and narrowing in the same mode gives the binary32 result. */
  lemma InnocuousDoubleRounding(op: Op, a: nat, b: nat, rn: nat)
    requires IsArithmetic(op) && a < B32.Size() && b < B32.Size()
    requires !Decode(a, B32).IsNan() && !Decode(b, B32).IsNan()
    ensures var w := Calculate(op, Widen(a, rn).bits, Widen(b, rn).bits, rn, B64);
            Agrees(Calculate(op, a, b, rn, B32), w, Narrow(w.bits, rn))
  {
    hide Scale, Pow, Decode, Calculate, Agrees, Value;
    WidenOperand(a, rn);
    WidenOperand(b, rn);
    var wa, wb := Widen(a, rn).bits, Widen(b, rn).bits;
    if Decode(a, B32).kind == Finite && Decode(b, B32).kind == Finite && !(op == Div && Decode(b, B32).IsZero()) {
      InnocuousFinite(op, a, b, wa, wb, rn);
    } else {
      InnocuousSpecial(op, a, b, wa, wb, rn);
    }
  }
}
