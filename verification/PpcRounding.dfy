/** What the finite path of the PowerPC model delivers, stated on the exact real result. */
module PpcRounding {
  import opened Dyadic
  import opened Integers
  import opened FpReference
  import opened RealRounding
  import opened FpCorrectness
  import opened FpEncoding
  import opened FpPacking
  import opened FpOperations
  import opened FpTheorems
  import opened FpConversions
  import opened DoubleRounding
  import opened PpcReference

  /** The format's precision with the exponent range opened far enough below x. */
  ghost function Unlimited(x: real, f: Format): Format
    requires x > 0.0
  {
    f.(bias := if 2 - Top(x) > f.bias then 2 - Top(x) else f.bias)
  }

  /** x rounded once to the format's precision with unbounded exponent range. */
  ghost function UnboundedRounded(x: real, sign: bool, rn: nat, f: Format): real
    requires x > 0.0
  {
    Rounded(x, sign, rn, Unlimited(x, f))
  }

  /** It is the correct rounding in every format of that precision that reaches below x. */
  lemma UnboundedIsCorrect(x: real, sign: bool, rn: nat, f: Format, bias: nat)
    requires x > 0.0 && f.Valid() && bias >= 2 - Top(x)
    ensures CorrectlyRounded(UnboundedRounded(x, sign, rn, f), x, sign, rn, f.(bias := bias))
  {
    hide Scale, Top, CorrectlyRounded, Rounded;
    RoundedIsCorrect(x, sign, rn, f.(bias := bias));
    SameQuantumSameRounded(x, sign, rn, f.(bias := bias), Unlimited(x, f));
  }

  lemma SameQuantumSameRounded(x: real, sign: bool, rn: nat, f: Format, g: Format)
    requires x > 0.0 && Quantum(Top(x), f) == Quantum(Top(x), g)
    ensures Rounded(x, sign, rn, f) == Rounded(x, sign, rn, g)
  {
    hide Scale, Top, Quantum;
    assert Units(x, f) == Units(x, g);
  }

  lemma UnboundedRounds(n: nat, d: nat, e: int, sign: bool, rn: nat, f: Format)
    requires n > 0 && d > 0 && f.Valid()
    ensures Val(n, d, e) > 0.0
    ensures var (m, q, nx, up) := UnboundedRound(n, d, e, sign, rn, f.fraction + 1);
            var x := Val(n, d, e); var r := UnboundedRounded(x, sign, rn, f);
            && r == m as real * Scale(q) && Pow(f.fraction) <= m < Pow(f.fraction + 1)
            && nx == (r != x) && up == (r > x)
            && Top(x) - f.fraction <= q <= Top(x) - f.fraction + 1
  {
    hide Scale, Pow, Top, UnboundedRound, Val, Mantissa, Rounded;
    UnboundedDigits(n, d, e, sign, rn, f);
    var x := Val(n, d, e);
    var g := Unlimited(x, f);
    RoundedCanonical(x, sign, rn, g);
    MantissaNormal(x, sign, rn, g);
    IncrementGrows(x, sign, rn, g);
    ExactWhenWhole(x, sign, rn, g);
  }

  lemma MantissaNormal(x: real, sign: bool, rn: nat, f: Format)
    requires x > 0.0 && Quantum(Top(x), f) > f.MinQuantum()
    ensures Mantissa(x, sign, rn, f) >= Pow(f.fraction)
    ensures CarryMantissa(Mantissa(x, sign, rn, f), f) >= Pow(f.fraction)
  {
    hide Scale, Pow, Top, Units;
    UnitsRange(x, f);
    PowStep(f.fraction);
  }

  /** The unbounded rounder computes the mantissa of the unlimited format, carried. */
  lemma UnboundedDigits(n: nat, d: nat, e: int, sign: bool, rn: nat, f: Format)
    requires n > 0 && d > 0 && f.Valid()
    ensures Val(n, d, e) > 0.0
    ensures var x := Val(n, d, e); var g := Unlimited(x, f); var y := Units(x, g);
            var m := Mantissa(x, sign, rn, g);
            && m <= Pow(f.fraction + 1)
            && Quantum(Top(x), g) == Top(x) - f.fraction > g.MinQuantum()
            && UnboundedRound(n, d, e, sign, rn, f.fraction + 1)
               == (CarryMantissa(m, g), CarryQuantum(m, Top(x) - f.fraction, g), y != y.Floor as real,
                   RealRoundsUp(y.Floor, y - y.Floor as real, sign, rn))
  {
    hide Scale, Pow, Top, BitLength, RoundInt, Units, Val, RealRoundsUp, RatioTop, ScaledNumerator, ScaledDenominator;
    RatioTopIsTop(n, d, e);
    var x := Val(n, d, e);
    var g := Unlimited(x, f);
    var q := Top(x) - f.fraction;
    ScaledRatio(n, d, e, q);
    UnitsDefinition(x, g);
    RoundedQuotientIsRoundInt(ScaledNumerator(n, e - q), ScaledDenominator(d, e - q), sign, rn);
    RoundedCanonical(x, sign, rn, g);
    CarryLength(Mantissa(x, sign, rn, g), g);
  }

  lemma ExactWhenWhole(x: real, sign: bool, rn: nat, f: Format)
    requires x > 0.0
    ensures Units(x, f) != Units(x, f).Floor as real <==> Rounded(x, sign, rn, f) != x
    ensures !OnGrid(x, f) <==> Rounded(x, sign, rn, f) != x
  {
    hide OnGrid, Rounded, Units;
    InexactIffOffGrid(x, f);
    RoundedOnGrid(x, sign, rn, f);
    if OnGrid(x, f) {
      RoundedIsItself(x, sign, rn, f);
    }
  }

  lemma DecodeFlip(bits: nat, f: Format)
    requires f.Valid() && bits < f.Size()
    ensures FlipSign(bits, f) < f.Size()
    ensures Decode(FlipSign(bits, f), f) == Decode(bits, f).(sign := !Decode(bits, f).sign)
  {
    hide Pow;
    FieldsBack(bits, f);
    PowStep(f.SignBit());
    SignIsBit(bits, Pow(f.SignBit()), bits / Pow(f.SignBit()));
    var ef, ff := bits / Pow(f.fraction) % Pow(f.exponent), bits % Pow(f.fraction);
    Fields(bits / Pow(f.SignBit()) != 0, ef, ff, f);
    Fields(!(bits / Pow(f.SignBit()) != 0), ef, ff, f);
  }

  /** A scaled mantissa within the binary64 range packs exactly. */
  lemma AdjustedExact(m: nat, k: int, sign: bool, y: real)
    requires 0 < m < Pow(53) && k >= -1074 && y == m as real * Scale(k) && y < Scale(1024)
    ensures Denotes(PackRatio(m, 1, k, sign, 0, B64).bits, sign, y, B64)
  {
    hide Scale, Pow, PackRatio, Round, Rounded, CorrectlyRounded, Decode, OnGrid;
    FormatConstants();
    ValOne(m, k);
    PackRatioRounds(m, 1, k, sign, 0, B64);
    PointOnGrid(y, m, k, B64);
    RoundDelivers(y, sign, 0, B64);
    RoundedIsItself(y, sign, 0, B64);
  }

  /** The shifted result has a normal binary64 home. */
  ghost predicate AdjustedInRange(x: real, f: Format, adjustment: int)
    requires x > 0.0
  {
    -1074 <= Top(x) - f.fraction + adjustment && Top(x) + 2 + adjustment <= 1024
  }

  /** The encoding is finite with this sign and magnitude. */
  ghost predicate Delivered(bits: nat, sign: bool, r: real) {
    bits < B64.Size() && D64(bits).kind == Finite && D64(bits).sign == sign && Abs(Value(D64(bits))) == r
  }

  ghost predicate Overflows(x: real, sign: bool, rn: nat, f: Format)
    requires x > 0.0
  {
    Rounded(x, sign, rn, f) >= Scale(OverflowExponent(f))
  }

  ghost predicate Tiny(x: real, f: Format) {
    x < Scale(1 - f.bias)
  }

  /** The unbounded rounding moved by the adjustment. */
  ghost function AdjustedMagnitude(x: real, sign: bool, rn: nat, f: Format): real
    requires x > 0.0
  {
    UnboundedRounded(x, sign, rn, f) * Scale(Adjustment(f, Overflows(x, sign, rn, f)))
  }

  /** The exponent-adjusted delivery: rounded once to precision, the second packing exact. */
  ghost predicate ScaledOutcome(out: PpcResult, x: real, sign: bool, negate: bool, rn: nat, f: Format)
    requires x > 0.0
  {
    var u := UnboundedRounded(x, sign, rn, f);
    && out.xx == (u != x) && out.fi == out.xx && out.fr == (u > x)
    && (AdjustedInRange(x, f, Adjustment(f, Overflows(x, sign, rn, f))) ==>
          Delivered(out.result, sign != negate, AdjustedMagnitude(x, sign, rn, f)))
  }

  /** The ordinary delivery: rounded into the format, overflow by mode, subnormals flushed under NI. */
  ghost predicate OrdinaryOutcome(out: PpcResult, x: real, sign: bool, negate: bool, rn: nat, f: Format, ni: bool)
    requires x > 0.0 && f.Valid()
  {
    var r := Rounded(x, sign, rn, f);
    var toInf := OverflowsToInfinity(sign, rn);
    && out.xx == (Overflows(x, sign, rn, f) || !OnGrid(x, f)) && out.fi == out.xx
    && (if Overflows(x, sign, rn, f) then
          && out.fr == toInf
          && out.result == InFpr(f.Signed(sign != negate, if toInf then f.Infinity() else f.Infinity() - 1), f)
        else
          && out.fr == (r > x)
          && Delivered(out.result, sign != negate, if ni && Tiny(r, f) then 0.0 else r))
  }

  /** Everything the finite path promises for a nonzero exact magnitude x. */
  ghost predicate NonzeroOutcome(out: PpcResult, x: real, sign: bool, negate: bool, rn: nat, f: Format,
                                 ni: bool, oe: bool, ue: bool)
    requires x > 0.0 && f.Valid()
  {
    var over := Overflows(x, sign, rn, f);
    && out.ox == over
    && out.tinyBeforeRound == Tiny(x, f)
    && out.ux == (Tiny(x, f) && (ue || !OnGrid(x, f)))
    && (if (over && oe) || (Tiny(x, f) && ue) then ScaledOutcome(out, x, sign, negate, rn, f)
        else OrdinaryOutcome(out, x, sign, negate, rn, f, ni))
  }

  ghost predicate ZeroOutcome(out: PpcResult, sign: bool, negate: bool) {
    && !out.ox && !out.ux && !out.xx && !out.fi && !out.fr && !out.tinyBeforeRound
    && Delivered(out.result, sign != negate, 0.0)
  }

  lemma TinyTop(x: real, f: Format)
    requires x > 0.0
    ensures Tiny(x, f) <==> Top(x) < 1 - f.bias
  {
    hide Scale, Top;
    if Top(x) < 1 - f.bias {
      ScaleMono(Top(x) + 1, 1 - f.bias);
    } else {
      ScaleMono(1 - f.bias, Top(x));
    }
  }

  lemma ScaledDelivers(n: nat, d: nat, e: int, sign: bool, negate: bool, rn: nat, f: Format, out: PpcResult)
    requires n > 0 && d > 0 && f.Valid() && f.fraction <= 52
    ensures var x := Val(n, d, e);
            x > 0.0 && ScaledOutcome(ScaledResult(n, d, e, sign, negate, rn, f, Overflows(x, sign, rn, f), out), x, sign, negate, rn, f)
  {
    hide Scale, Pow, Top, PackRatio, UnboundedRound, FlipSign, Overflows, Val, UnboundedRounded, Delivered, Adjustment,
         AdjustedMagnitude, ScaledResult, AdjustedInRange;
    UnboundedRounds(n, d, e, sign, rn, f);
    var x := Val(n, d, e);
    var over := Overflows(x, sign, rn, f);
    var (m, q, nx, up) := UnboundedRound(n, d, e, sign, rn, f.fraction + 1);
    ScaledFields(n, d, e, sign, negate, rn, f, over, out, m, q, nx, up);
    if AdjustedInRange(x, f, Adjustment(f, over)) {
      MagnitudeDelivers(m, q, x, sign, negate, rn, f);
    }
  }

  lemma ScaledFields(n: nat, d: nat, e: int, sign: bool, negate: bool, rn: nat, f: Format, overflow: bool, out: PpcResult,
                     m: nat, q: int, nx: bool, up: bool)
    requires d > 0 && UnboundedRound(n, d, e, sign, rn, f.fraction + 1) == (m, q, nx, up)
    ensures var s := ScaledResult(n, d, e, sign, negate, rn, f, overflow, out);
            var packed := PackRatio(m, 1, q + Adjustment(f, overflow), sign, 0, B64).bits;
            && s.result == (if negate then FlipSign(packed, B64) else packed)
            && s.xx == nx && s.fi == nx && s.fr == up
            && s.ox == out.ox && s.ux == out.ux && s.tinyBeforeRound == out.tinyBeforeRound
  {
    hide Pow, UnboundedRound, PackRatio, Adjustment, FlipSign, Classify;
  }

  lemma MagnitudeDelivers(m: nat, q: int, x: real, sign: bool, negate: bool, rn: nat, f: Format)
    requires x > 0.0 && 0 < m < Pow(f.fraction + 1) && f.fraction <= 52
    requires UnboundedRounded(x, sign, rn, f) == m as real * Scale(q) && Top(x) - f.fraction <= q <= Top(x) - f.fraction + 1
    requires AdjustedInRange(x, f, Adjustment(f, Overflows(x, sign, rn, f)))
    ensures var packed := PackRatio(m, 1, q + Adjustment(f, Overflows(x, sign, rn, f)), sign, 0, B64).bits;
            Delivered(if negate then FlipSign(packed, B64) else packed, sign != negate, AdjustedMagnitude(x, sign, rn, f))
  {
    hide Scale, Pow, Top, PackRatio, Decode, FlipSign, Overflows, UnboundedRounded, Delivered, Adjustment;
    AdjustedDelivers(m, q, Adjustment(f, Overflows(x, sign, rn, f)), UnboundedRounded(x, sign, rn, f), sign, negate, f,
                     AdjustedMagnitude(x, sign, rn, f));
  }

  lemma AdjustedDelivers(m: nat, q: int, adjustment: int, u: real, sign: bool, negate: bool, f: Format, y: real)
    requires y == u * Scale(adjustment) && 0 < m < Pow(f.fraction + 1) && f.fraction <= 52 && u == m as real * Scale(q)
    requires q + adjustment >= -1074 && q + adjustment + f.fraction + 1 <= 1024
    ensures var packed := PackRatio(m, 1, q + adjustment, sign, 0, B64).bits;
            Delivered(if negate then FlipSign(packed, B64) else packed, sign != negate, y)
  {
    hide Scale, Pow, PackRatio, Decode, FlipSign;
    ScaledValue(m, q, adjustment, u, f.fraction, y);
    PowMono(f.fraction + 1, 53);
    ScaleMono(q + adjustment + f.fraction + 1, 1024);
    AdjustedExact(m, q + adjustment, sign, y);
    DeliversDenoted(PackRatio(m, 1, q + adjustment, sign, 0, B64).bits, sign, negate, y);
  }

  lemma ScaledValue(m: nat, q: int, adjustment: int, u: real, fraction: nat, y: real)
    requires u == m as real * Scale(q) && m < Pow(fraction + 1) && y == u * Scale(adjustment)
    ensures 0.0 <= y == m as real * Scale(q + adjustment) < Scale(q + adjustment + fraction + 1)
  {
    hide Scale, Pow;
    ScaleAdd(q, adjustment);
    ScalePow(fraction + 1);
    ScaleAdd(fraction + 1, q + adjustment);
    assert (m as real * Scale(q)) * Scale(adjustment) == m as real * (Scale(q) * Scale(adjustment));
    ScaledOrder(Scale(q + adjustment), m as real, m as real * Scale(q + adjustment), Scale(fraction + 1), Scale(fraction + 1 + (q + adjustment)));
  }

  lemma DeliversDenoted(bits: nat, sign: bool, negate: bool, y: real)
    requires Denotes(bits, sign, y, B64) && y >= 0.0
    ensures Delivered(if negate then FlipSign(bits, B64) else bits, sign != negate, y)
  {
    hide Scale, Pow, FlipSign, Decode;
    DenotedValue(bits, sign, y, B64);
    if negate {
      DecodeFlip(bits, B64);
      NegatedValue(D64(bits));
    }
  }

  /** The two formats the unit delivers. */
  predicate Supported(f: Format) {
    f == B32 || f == B64
  }

  /** A finite encoding of this sign and magnitude in either format. */
  ghost predicate Holds(bits: nat, sign: bool, r: real, f: Format)
    requires f.Valid()
  {
    bits < f.Size() && Decode(bits, f).kind == Finite && Decode(bits, f).sign == sign && Abs(Value(Decode(bits, f))) == r
  }

  lemma FlipHolds(bits: nat, sign: bool, r: real, negate: bool, f: Format)
    requires f.Valid() && Holds(bits, sign, r, f)
    ensures Holds(if negate then FlipSign(bits, f) else bits, sign != negate, r, f)
  {
    hide Scale, Pow, FlipSign, Decode;
    if negate {
      DecodeFlip(bits, f);
      NegatedValue(Decode(bits, f));
    }
  }

  lemma InFprDelivered(bits: nat, sign: bool, r: real, f: Format)
    requires Supported(f) && f.Valid() && Holds(bits, sign, r, f)
    ensures Delivered(InFpr(bits, f), sign, r)
  {
    hide Scale, Pow, Decode, Calculate, Value;
    if f == B32 {
      WidenFinite(bits, 0);
    }
  }

  /** Flushing under NI clears exactly the nonzero subnormals, keeping the sign. */
  lemma FlushHolds(bits: nat, sign: bool, r: real, ni: bool, f: Format)
    requires f.Valid() && Denotes(bits, sign, r, f)
    ensures Holds(FlushSubnormal(bits, ni, f), sign, if ni && Tiny(r, f) then 0.0 else r, f)
  {
    hide Scale, Pow, Decode, FlushSubnormal;
    var d := Decode(bits, f);
    DenotedValue(bits, sign, r, f);
    CanonicalThresholds(r, d.significand, d.exponent, f);
    ZeroProduct(d.significand, Scale(d.exponent));
    FlushField(bits, ni, f);
    ZeroDenotes(sign, f);
  }

  lemma FlushField(bits: nat, ni: bool, f: Format)
    requires f.Valid() && bits < f.Size() && Decode(bits, f).kind == Finite
    ensures var d := Decode(bits, f);
            FlushSubnormal(bits, ni, f)
            == if ni && 0 < d.significand < Pow(f.fraction) then f.Signed(d.sign, 0) else bits
  {
    hide Pow;
    FieldsBack(bits, f);
  }

  lemma FlipSigned(sign: bool, m: nat, f: Format)
    requires m < Pow(f.SignBit())
    ensures FlipSign(f.Signed(sign, m), f) == f.Signed(!sign, m)
  {
    hide Pow;
    DivModUnique(f.Signed(sign, m), Pow(f.SignBit()), if sign then 1 else 0, m);
  }

  lemma MagnitudeBelowSign(f: Format)
    requires f.Valid()
    ensures f.Infinity() < Pow(f.SignBit())
  {
    hide Pow;
    PowAdd(f.exponent, f.fraction);
    assert f.exponent + f.fraction == f.SignBit();
    SumTimes(Pow(f.exponent) - 1, 1, Pow(f.fraction));
  }

  lemma OverflowDelivers(p: Packed, toInf: bool, sign: bool, negate: bool, ni: bool, f: Format, out: PpcResult)
    requires f.Valid() && p.bits == f.Signed(sign, if toInf then f.Infinity() else f.Infinity() - 1)
    ensures OrdinaryResult(p, negate, ni, f, out).result
         == InFpr(f.Signed(sign != negate, if toInf then f.Infinity() else f.Infinity() - 1), f)
  {
    hide Scale, Pow, Decode, Calculate, FlipSign, Classify, InFpr, FlushSubnormal;
    MagnitudeBelowSign(f);
    FlipSigned(sign, f.Infinity(), f);
    FlipSigned(sign, f.Infinity() - 1, f);
    if toInf {
      NoFlushInfinity(sign, ni, f);
    } else {
      DecodeMaxFinite(sign, f);
      PowStep(f.fraction);
      FlushField(p.bits, ni, f);
    }
  }

  lemma NoFlushInfinity(sign: bool, ni: bool, f: Format)
    requires f.Valid()
    ensures FlushSubnormal(f.Signed(sign, f.Infinity()), ni, f) == f.Signed(sign, f.Infinity())
  {
    hide Pow;
    PowMono(2, f.exponent);
    PowTwo();
    Fields(sign, Pow(f.exponent) - 1, 0, f);
  }

  lemma RepresentableDelivers(p: Packed, r: real, sign: bool, negate: bool, ni: bool, f: Format, out: PpcResult)
    requires Supported(f) && f.Valid() && Denotes(p.bits, sign, r, f)
    ensures Delivered(OrdinaryResult(p, negate, ni, f, out).result, sign != negate, if ni && Tiny(r, f) then 0.0 else r)
  {
    hide *;
    var r' := if ni && Tiny(r, f) then 0.0 else r;
    FlushHolds(p.bits, sign, r, ni, f);
    var flushed := FlushSubnormal(p.bits, ni, f);
    FlipHolds(flushed, sign, r', negate, f);
    InFprDelivered(if negate then FlipSign(flushed, f) else flushed, sign != negate, r', f);
    OrdinaryBits(p, negate, ni, f, out);
  }

  lemma OrdinaryBits(p: Packed, negate: bool, ni: bool, f: Format, out: PpcResult)
    requires f.Valid()
    ensures var flushed := FlushSubnormal(p.bits, ni, f);
            OrdinaryResult(p, negate, ni, f, out).result == InFpr(if negate then FlipSign(flushed, f) else flushed, f)
  {
    hide Pow, FlipSign, Classify, InFpr, FlushSubnormal;
  }

  lemma SupportedFraction(f: Format)
    requires Supported(f)
    ensures f.fraction <= 52
  {
  }

  lemma OrdinaryDelivers(x: real, sign: bool, negate: bool, rn: nat, f: Format, ni: bool, out: PpcResult)
    requires Supported(f) && f.Valid() && x > 0.0
    requires var p := Round(x, sign, rn, f); out.xx == p.nx && out.fi == p.nx && out.fr == p.increment
    ensures OrdinaryOutcome(OrdinaryResult(Round(x, sign, rn, f), negate, ni, f, out), x, sign, negate, rn, f, ni)
  {
    hide Scale, Pow, Decode, Calculate, FlipSign, Classify, InFpr, FlushSubnormal, Tiny, Delivered, Denotes, Round, Rounded,
         OnGrid, CorrectlyRounded, Supported, OrdinaryResult;
    RoundDelivers(x, sign, rn, f);
    var p := Round(x, sign, rn, f);
    OrdinaryKeepsStatus(p, negate, ni, f, out);
    if p.of {
      OverflowDelivers(p, OverflowsToInfinity(sign, rn), sign, negate, ni, f, out);
    } else {
      RepresentableDelivers(p, Rounded(x, sign, rn, f), sign, negate, ni, f, out);
    }
  }

  /** Main lemma of the finite path. */
  lemma FiniteDelivers(n: nat, d: nat, e: int, sign: bool, negate: bool, rn: nat, f: Format,
                       ni: bool, oe: bool, ue: bool, out: PpcResult)
    requires n > 0 && d > 0 && Supported(f) && f.Valid()
    ensures Val(n, d, e) > 0.0
    ensures NonzeroOutcome(FiniteResult(n, d, e, sign, negate, rn, f, ni, oe, ue, out), Val(n, d, e), sign, negate, rn, f, ni, oe, ue)
  {
    hide Scale, Pow, Decode, PackRatio, Round, Rounded, OnGrid, CorrectlyRounded, Tiny, ScaledResult, OrdinaryResult,
         RatioTop, Top, Val, ScaledOutcome, OrdinaryOutcome, Supported, FiniteResult, Denotes;
    PackRatioRounds(n, d, e, sign, rn, f);
    RatioTopIsTop(n, d, e);
    var x := Val(n, d, e);
    var p := Round(x, sign, rn, f);
    RoundDelivers(x, sign, rn, f);
    TinyTop(x, f);
    if Tiny(x, f) {
      TinyNoOverflow(x, sign, rn, f);
    }
    var status := FiniteStatus(p, Tiny(x, f), oe, ue, out);
    FiniteResultIs(n, d, e, sign, negate, rn, f, ni, oe, ue, out, p, Tiny(x, f));
    ScaledKeepsStatus(n, d, e, sign, negate, rn, f, p.of, status);
    OrdinaryKeepsStatus(p, negate, ni, f, status);
    if (p.of && oe) || (Tiny(x, f) && ue) {
      SupportedFraction(f);
      ScaledDelivers(n, d, e, sign, negate, rn, f, status);
    } else {
      OrdinaryDelivers(x, sign, negate, rn, f, ni, status);
    }
  }

  lemma FiniteResultIs(n: nat, d: nat, e: int, sign: bool, negate: bool, rn: nat, f: Format,
                       ni: bool, oe: bool, ue: bool, out: PpcResult, p: Packed, tiny: bool)
    requires n > 0 && d > 0 && f.Valid()
    requires p == PackRatio(n, d, e, sign, rn, f) && tiny == (RatioTop(n, d, e) < 1 - f.bias)
    ensures var status := FiniteStatus(p, tiny, oe, ue, out);
            FiniteResult(n, d, e, sign, negate, rn, f, ni, oe, ue, out)
            == if (p.of && oe) || (tiny && ue) then ScaledResult(n, d, e, sign, negate, rn, f, p.of, status)
               else OrdinaryResult(p, negate, ni, f, status)
  {
    hide Pow, PackRatio, RatioTop, ScaledResult, OrdinaryResult;
  }

  lemma ScaledKeepsStatus(n: nat, d: nat, e: int, sign: bool, negate: bool, rn: nat, f: Format, overflow: bool, out: PpcResult)
    requires d > 0
    ensures var s := ScaledResult(n, d, e, sign, negate, rn, f, overflow, out);
            s.ox == out.ox && s.ux == out.ux && s.tinyBeforeRound == out.tinyBeforeRound
  {
    hide Pow, UnboundedRound, PackRatio, Adjustment, FlipSign, Classify;
  }

  lemma OrdinaryKeepsStatus(p: Packed, negate: bool, ni: bool, f: Format, out: PpcResult)
    requires f.Valid()
    ensures var s := OrdinaryResult(p, negate, ni, f, out);
            && s.ox == out.ox && s.ux == out.ux && s.tinyBeforeRound == out.tinyBeforeRound
            && s.xx == out.xx && s.fi == out.fi && s.fr == out.fr
  {
    hide Pow, FlipSign, Classify, InFpr, FlushSubnormal;
  }

  /** A tiny value never overflows. */
  lemma TinyNoOverflow(x: real, sign: bool, rn: nat, f: Format)
    requires x > 0.0 && f.Valid() && Tiny(x, f)
    ensures !Overflows(x, sign, rn, f)
  {
    hide Scale, Pow, Top, Rounded;
    SmallestNormal(f);
    RoundedMonotone(x, Scale(1 - f.bias), sign, rn, f);
    RoundedIsItself(Scale(1 - f.bias), sign, rn, f);
    PowMono(2, f.exponent);
    PowTwo();
    ScaleMono(1 - f.bias, OverflowExponent(f));
  }

  /** What a packer returns is a number of its format. */
  lemma PackedFacts(n: nat, d: nat, e: int, sign: bool, rn: nat, f: Format)
    requires d > 0 && f.Valid()
    ensures var p := PackRatio(n, d, e, sign, rn, f);
            p.bits < f.Size() && !Decode(p.bits, f).IsNan() && (p.of ==> p.nx)
  {
    hide Scale, Pow, PackRatio, Decode, CorrectlyRounded, OnGrid;
    if n == 0 {
      PackZero(d, e, sign, rn, f);
      ZeroDenotes(sign, f);
    } else {
      PackRatioCorrect(n, d, e, sign, rn, f);
      DecodeInfinity(sign, f);
      DecodeMaxFinite(sign, f);
    }
  }
}
