/** What the packers promise: the correctly rounded encoding and flags of an exact value, a function of the value
    alone, monotone in it, and the identity on values already encoded. */
module FpPacking {
  import opened Dyadic
  import opened Integers
  import opened FpReference
  import opened RealRounding
  import opened FpCorrectness
  import opened FpEncoding

  /** 2 to this power is the first magnitude past the format's range. */
  function OverflowExponent(f: Format): int {
    Pow(f.exponent) - 1 - f.bias
  }

  /** The encoding, finite and of the given sign, denotes the magnitude r. */
  ghost predicate Denotes(bits: nat, sign: bool, r: real, f: Format)
    requires f.Valid()
  {
    var d := Decode(bits, f);
    bits < f.Size() && d.kind == Finite && d.sign == sign && CanonicalPair(r, d.significand, d.exponent, f)
  }

  /** p is the IEEE result for the exact magnitude x: value, overflow and flags. */
  ghost predicate Delivers(p: Packed, x: real, sign: bool, rn: nat, f: Format)
    requires f.Valid()
  {
    exists r :: DeliversValue(p, r, x, sign, rn, f)
  }

  ghost predicate DeliversValue(p: Packed, r: real, x: real, sign: bool, rn: nat, f: Format)
    requires f.Valid()
  {
    && CorrectlyRounded(r, x, sign, rn, f)
    && p.of == (r >= Scale(OverflowExponent(f)))
    && (!p.of ==>
          && Denotes(p.bits, sign, r, f)
          && p.nx == !OnGrid(x, f)
          && p.uf == (p.nx && r < Scale(1 - f.bias))
          && p.increment == (r > x))
    && (p.of ==>
          && p.nx && !p.uf
          && p.increment == OverflowsToInfinity(sign, rn)
          && p.bits == f.Signed(sign, if OverflowsToInfinity(sign, rn) then f.Infinity() else f.Infinity() - 1))
  }

  /** Where a canonical pair stands against the overflow and subnormal thresholds. */
  lemma CanonicalThresholds(r: real, m: nat, k: int, f: Format)
    requires f.Valid() && CanonicalPair(r, m, k, f)
    ensures r >= Scale(OverflowExponent(f)) <==> k + f.fraction + f.bias >= Pow(f.exponent) - 1
    ensures r < Scale(1 - f.bias) <==> m < Pow(f.fraction)
  {
    hide Scale, Pow;
    PowMono(2, f.exponent);
    PowTwo();
    CanonicalRange(r, m, k, f);
    var t := k + f.fraction;
    if t >= OverflowExponent(f) {
      ScaleMono(OverflowExponent(f), t);
    } else {
      ScaleMono(t + 1, OverflowExponent(f));
    }
    if m >= Pow(f.fraction) {
      ScaleMono(1 - f.bias, t);
    }
  }

  lemma CanonicalRange(r: real, m: nat, k: int, f: Format)
    requires CanonicalPair(r, m, k, f)
    ensures r < Scale(k + f.fraction + 1)
    ensures m >= Pow(f.fraction) <==> r >= Scale(k + f.fraction)
  {
    hide Scale, Pow;
    PowStep(f.fraction);
    ScalePow(f.fraction);
    ScalePow(f.fraction + 1);
    ScaleAdd(f.fraction, k);
    ScaleAdd(f.fraction + 1, k);
    ScaledOrder(Scale(k), m as real, r, Scale(f.fraction), Scale(f.fraction + k));
    ScaledOrder(Scale(k), m as real, r, Scale(f.fraction + 1), Scale(f.fraction + 1 + k));
    assert f.fraction + 1 + k == k + f.fraction + 1 && f.fraction + k == k + f.fraction;
  }

  lemma CarryLength(m: nat, f: Format)
    requires m <= Pow(f.fraction + 1)
    ensures BitLength(m) > f.fraction + 1 <==> m == Pow(f.fraction + 1)
    ensures m == Pow(f.fraction + 1) ==> m / 2 == Pow(f.fraction)
  {
    hide Pow, BitLength;
    PowStep(f.fraction);
    var b := BitLength(m);
    if b > f.fraction + 1 {
      PowMono(f.fraction + 1, b - 1);
    } else {
      PowMono(b, f.fraction + 1);
    }
  }

  /** The shared tail encodes the canonical form of what it is given, or overflows. */
  lemma AssembleEncodes(m: nat, q: int, nx: bool, increment: bool, sign: bool, rn: nat, f: Format)
    requires f.Valid() && q >= f.MinQuantum() && m <= Pow(f.fraction + 1)
    requires Canonical(CarryMantissa(m, f), CarryQuantum(m, q, f), f)
    ensures var p := Assemble(m, q, nx, increment, sign, rn, f);
            var m', q' := CarryMantissa(m, f), CarryQuantum(m, q, f);
            && p.of == (q' + f.fraction + f.bias >= Pow(f.exponent) - 1)
            && (!p.of ==> p == Packed(EncodeCanonical(sign, m', q', f), nx, nx && m' < Pow(f.fraction), false, increment))
  {
    hide Pow, BitLength;
    CarryLength(m, f);
    PowStep(f.fraction);
    var m' := CarryMantissa(m, f);
    if m' < Pow(f.fraction) {
      DivModUnique(m', Pow(f.fraction), 0, m');
    } else {
      DivModUnique(m', Pow(f.fraction), 1, m' - Pow(f.fraction));
    }
  }

  /** The increment flag says the magnitude grew. */
  lemma IncrementGrows(x: real, sign: bool, rn: nat, f: Format)
    requires x > 0.0
    ensures var y := Units(x, f);
            RealRoundsUp(y.Floor, y - y.Floor as real, sign, rn) <==> Rounded(x, sign, rn, f) > x
  {
    hide Scale, Top;
    var y, s := Units(x, f), Scale(Quantum(Top(x), f));
    UnitsValue(x, f);
    ScaledOrder(s, y, x, Mantissa(x, sign, rn, f) as real, Rounded(x, sign, rn, f));
  }

  lemma RoundDelivers(x: real, sign: bool, rn: nat, f: Format)
    requires x > 0.0 && f.Valid()
    ensures DeliversValue(Round(x, sign, rn, f), Rounded(x, sign, rn, f), x, sign, rn, f)
    ensures Delivers(Round(x, sign, rn, f), x, sign, rn, f)
  {
    hide Scale, Pow, BitLength, Decode, CorrectlyRounded, OnGrid, Units, Quantum, Mantissa, Rounded, RealRoundsUp;
    var m, q, y := Mantissa(x, sign, rn, f), Quantum(Top(x), f), Units(x, f);
    var m', q' := CarryMantissa(m, f), CarryQuantum(m, q, f);
    RoundedIsCorrect(x, sign, rn, f);
    RoundedCanonical(x, sign, rn, f);
    QuantumFloor(x, f);
    AssembleEncodes(m, q, y != y.Floor as real, RealRoundsUp(y.Floor, y - y.Floor as real, sign, rn), sign, rn, f);
    CanonicalThresholds(Rounded(x, sign, rn, f), m', q', f);
    InexactIffOffGrid(x, f);
    IncrementGrows(x, sign, rn, f);
    if q' + f.fraction + f.bias < Pow(f.exponent) - 1 {
      DecodeEncode(sign, m', q', f);
    }
    assert DeliversValue(Round(x, sign, rn, f), Rounded(x, sign, rn, f), x, sign, rn, f);
  }

  lemma QuantumFloor(x: real, f: Format)
    requires x > 0.0
    ensures Quantum(Top(x), f) >= f.MinQuantum()
  {
  }

  /** Main theorem: for every ratio, sign, mode and format the packed result is the IEEE result. */
  lemma PackRatioCorrect(n: nat, d: nat, e: int, sign: bool, rn: nat, f: Format)
    requires n > 0 && d > 0 && f.Valid()
    ensures Val(n, d, e) > 0.0
    ensures Delivers(PackRatio(n, d, e, sign, rn, f), Val(n, d, e), sign, rn, f)
  {
    PackRatioRounds(n, d, e, sign, rn, f);
    RoundDelivers(Val(n, d, e), sign, rn, f);
  }

  /** Rounding sees the value, not the ratio that denotes it. */
  lemma PackRatioValueOnly(n: nat, d: nat, e: int, n': nat, d': nat, e': int, sign: bool, rn: nat, f: Format)
    requires d > 0 && d' > 0 && f.Valid() && Val(n, d, e) == Val(n', d', e')
    ensures PackRatio(n, d, e, sign, rn, f) == PackRatio(n', d', e', sign, rn, f)
  {
    hide Scale, Pow, PackRatio, Round;
    ValZero(n, d, e);
    ValZero(n', d', e');
    if n == 0 {
      PackZero(d, e, sign, rn, f);
      PackZero(d', e', sign, rn, f);
    } else {
      PackRatioRounds(n, d, e, sign, rn, f);
      PackRatioRounds(n', d', e', sign, rn, f);
    }
  }

  lemma PackZero(d: nat, e: int, sign: bool, rn: nat, f: Format)
    requires d > 0 && f.Valid()
    ensures PackRatio(0, d, e, sign, rn, f) == SignedZero(sign, f)
  {
  }

  lemma ValZero(n: nat, d: nat, e: int)
    requires d > 0
    ensures Val(n, d, e) == 0.0 <==> n == 0
    ensures Val(n, d, e) >= 0.0
  {
    hide Scale;
    var y := n as real / d as real;
    QuotientTimes(n as real, d as real, y);
    ScaledOrder(d as real, 0.0, 0.0, y, n as real);
    ScaledOrder(Scale(e), 0.0, 0.0, y, Val(n, d, e));
    ScaledOrder(Scale(e), y, Val(n, d, e), 0.0, 0.0);
  }

  /** A grid value is returned as it stands: same encoding, no flags, unless it is past the range. */
  lemma RoundExact(x: real, m: nat, k: int, sign: bool, rn: nat, f: Format)
    requires x > 0.0 && f.Valid() && CanonicalPair(x, m, k, f)
    ensures Rounded(x, sign, rn, f) == x
    ensures k + f.fraction + f.bias < Pow(f.exponent) - 1 ==>
              Round(x, sign, rn, f) == Packed(EncodeCanonical(sign, m, k, f), false, false, false, false)
  {
    hide Scale, Pow, Decode, Units, Mantissa, CorrectlyRounded, EncodeCanonical;
    PowStep(f.fraction);
    assert GridPair(x, m, k, f);
    assert OnGrid(x, f);
    RoundedIsItself(x, sign, rn, f);
    RoundDelivers(x, sign, rn, f);
    CanonicalThresholds(x, m, k, f);
    var p := Round(x, sign, rn, f);
    if !p.of {
      var d := Decode(p.bits, f);
      CanonicalUnique(x, m, k, d.significand, d.exponent, f);
      DecodeCanonical(p.bits, f);
    }
  }

  lemma RoundedIsItself(x: real, sign: bool, rn: nat, f: Format)
    requires x > 0.0 && OnGrid(x, f)
    ensures Rounded(x, sign, rn, f) == x
  {
    hide Scale, Top, OnGrid;
    InexactIffOffGrid(x, f);
    UnitsValue(x, f);
  }

  /** Packing the decoded value of any finite encoding gives the encoding back, in every mode, with no flags. */
  lemma PackDecodeRoundTrip(bits: nat, rn: nat, f: Format)
    requires f.Valid() && bits < f.Size() && Decode(bits, f).kind == Finite
    ensures var d := Decode(bits, f);
            Pack(d.significand, d.exponent, d.sign, rn, f) == Packed(bits, false, false, false, false)
  {
    hide Scale, Pow, Decode, Pack, PackRatio, Round;
    var d := Decode(bits, f);
    DecodeCanonical(bits, f);
    PackIsPackRatio(d.significand, d.exponent, d.sign, rn, f);
    if d.significand == 0 {
      PackZero(1, d.exponent, d.sign, rn, f);
      EncodeZero(d.sign, d.exponent, f);
    } else {
      PackRatioRounds(d.significand, 1, d.exponent, d.sign, rn, f);
      RoundExact(Val(d.significand, 1, d.exponent), d.significand, d.exponent, d.sign, rn, f);
    }
  }

  lemma EncodeZero(sign: bool, k: int, f: Format)
    requires Canonical(0, k, f)
    ensures EncodeCanonical(sign, 0, k, f) == f.Signed(sign, 0)
  {
    hide Pow;
  }

  /** Two magnitudes that round alike are packed alike, except for the inexact flags. */
  lemma SameRoundingSameBits(x: real, y: real, sign: bool, rn: nat, f: Format)
    requires x > 0.0 && y > 0.0 && f.Valid()
    requires Rounded(x, sign, rn, f) == Rounded(y, sign, rn, f)
    ensures Round(x, sign, rn, f).bits == Round(y, sign, rn, f).bits
    ensures Round(x, sign, rn, f).of == Round(y, sign, rn, f).of
  {
    hide Scale, Pow, Decode, CorrectlyRounded, Rounded, Round;
    RoundDelivers(x, sign, rn, f);
    RoundDelivers(y, sign, rn, f);
    var p, q := Round(x, sign, rn, f), Round(y, sign, rn, f);
    if !p.of {
      var d, e := Decode(p.bits, f), Decode(q.bits, f);
      CanonicalUnique(Rounded(x, sign, rn, f), d.significand, d.exponent, e.significand, e.exponent, f);
      DecodeCanonical(p.bits, f);
      DecodeCanonical(q.bits, f);
    }
  }

  // Monotonicity.

  lemma RoundedMonotone(x: real, y: real, sign: bool, rn: nat, f: Format)
    requires 0.0 < x <= y && f.Valid()
    ensures Rounded(x, sign, rn, f) <= Rounded(y, sign, rn, f)
  {
    hide OnGrid, Rounded, EvenPoint;
    var r, s := Rounded(x, sign, rn, f), Rounded(y, sign, rn, f);
    RoundedIsCorrect(x, sign, rn, f);
    RoundedIsCorrect(y, sign, rn, f);
    assert SelectedOver(r, s, x, sign, rn, f) && SelectedOver(s, r, y, sign, rn, f);
  }

  /** Encodings order as their magnitudes: fields read as one integer. */
  lemma EncodeLinear(m: nat, k: int, f: Format)
    requires f.Valid() && Canonical(m, k, f)
    ensures EncodeCanonical(false, m, k, f) == (k - f.MinQuantum()) * Pow(f.fraction) + m
  {
    hide Pow;
    assert (k + f.fraction + f.bias) * Pow(f.fraction) - Pow(f.fraction) == (k - f.MinQuantum()) * Pow(f.fraction);
  }

  lemma EncodeMonotone(r: real, m: nat, k: int, s: real, m': nat, k': int, f: Format)
    requires f.Valid() && CanonicalPair(r, m, k, f) && CanonicalPair(s, m', k', f) && r <= s
    ensures EncodeCanonical(false, m, k, f) <= EncodeCanonical(false, m', k', f)
  {
    hide Scale, Pow, EncodeCanonical;
    EncodeLinear(m, k, f);
    EncodeLinear(m', k', f);
    PowStep(f.fraction);
    var F := Pow(f.fraction);
    if k == k' {
      ScaledOrder(Scale(k), m' as real, s, m as real, r);
    } else {
      CanonicalOrder(r, m, k, s, m', k', f);
      ProductSign(k' - k - 1, F);
      assert (k' - f.MinQuantum()) * F == (k - f.MinQuantum()) * F + (k' - k - 1) * F + F;
    }
  }

  lemma CanonicalOrder(r: real, m: nat, k: int, s: real, m': nat, k': int, f: Format)
    requires CanonicalPair(r, m, k, f) && CanonicalPair(s, m', k', f) && r <= s
    ensures k <= k'
  {
    hide Scale, Pow;
    if k > k' {
      ScaleMono(k', k - 1);
      ScaleStep(k - 1);
      PowStep(f.fraction);
      FinerBelow(m' as real, Pow(f.fraction) as real, Pow(f.fraction + 1) as real, Scale(k'), Scale(k - 1), Scale(k), m as real);
      assert false;
    }
  }

  /** A larger magnitude never packs to a smaller encoding. */
  lemma RoundMonotone(x: real, y: real, sign: bool, rn: nat, f: Format)
    requires 0.0 < x <= y && f.Valid()
    ensures Round(x, sign, rn, f).bits <= Round(y, sign, rn, f).bits
  {
    hide Scale, Pow, Decode, CorrectlyRounded, Rounded, Round, EncodeCanonical;
    var p, q := Round(x, sign, rn, f), Round(y, sign, rn, f);
    var r, s := Rounded(x, sign, rn, f), Rounded(y, sign, rn, f);
    RoundDelivers(x, sign, rn, f);
    RoundDelivers(y, sign, rn, f);
    RoundedMonotone(x, y, sign, rn, f);
    if !p.of {
      var d := Decode(p.bits, f);
      DecodeCanonical(p.bits, f);
      SignedEncode(sign, d.significand, d.exponent, f);
      if !q.of {
        var e := Decode(q.bits, f);
        DecodeCanonical(q.bits, f);
        SignedEncode(sign, e.significand, e.exponent, f);
        EncodeMonotone(r, d.significand, d.exponent, s, e.significand, e.exponent, f);
      } else {
        FiniteBelowInfinity(d.significand, d.exponent, f);
      }
    }
  }

  lemma SignedEncode(sign: bool, m: nat, k: int, f: Format)
    requires Canonical(m, k, f)
    ensures EncodeCanonical(sign, m, k, f) == f.Signed(sign, EncodeCanonical(false, m, k, f))
  {
    hide Pow;
  }

  lemma FiniteBelowInfinity(m: nat, k: int, f: Format)
    requires f.Valid() && Canonical(m, k, f) && k + f.fraction + f.bias < Pow(f.exponent) - 1
    ensures EncodeCanonical(false, m, k, f) < f.Infinity()
  {
    hide Pow, EncodeCanonical;
    EncodeLinear(m, k, f);
    PowStep(f.fraction);
    var a, F := k - f.MinQuantum(), Pow(f.fraction);
    ProductSign(Pow(f.exponent) - 1 - a - 2, F);
    assert (Pow(f.exponent) - 1) * F == a * F + 2 * F + (Pow(f.exponent) - 1 - a - 2) * F;
  }

  /** Monotone over ratios, for fixed sign and mode. */
  lemma PackRatioMonotone(n: nat, d: nat, e: int, n': nat, d': nat, e': int, sign: bool, rn: nat, f: Format)
    requires d > 0 && d' > 0 && f.Valid() && Val(n, d, e) <= Val(n', d', e')
    ensures PackRatio(n, d, e, sign, rn, f).bits <= PackRatio(n', d', e', sign, rn, f).bits
  {
    hide Scale, Pow, PackRatio, Round;
    ValZero(n, d, e);
    ValZero(n', d', e');
    if n == 0 {
      PackZero(d, e, sign, rn, f);
      if n' == 0 {
        PackZero(d', e', sign, rn, f);
      } else {
        PackRatioRounds(n', d', e', sign, rn, f);
        RoundSigned(Val(n', d', e'), sign, rn, f);
      }
    } else {
      PackRatioRounds(n, d, e, sign, rn, f);
      PackRatioRounds(n', d', e', sign, rn, f);
      RoundMonotone(Val(n, d, e), Val(n', d', e'), sign, rn, f);
    }
  }

  /** The sign of the result is the sign that was passed. */
  lemma RoundSigned(x: real, sign: bool, rn: nat, f: Format)
    requires x > 0.0 && f.Valid()
    ensures f.Signed(sign, 0) <= Round(x, sign, rn, f).bits < f.Size()
  {
    hide Scale, Pow, CorrectlyRounded, Rounded, Round, EncodeCanonical, Decode;
    var p := Round(x, sign, rn, f);
    RoundDelivers(x, sign, rn, f);
    if p.of {
      DecodeInfinity(sign, f);
      DecodeMaxFinite(sign, f);
    } else {
      var d := Decode(p.bits, f);
      DecodeCanonical(p.bits, f);
      SignedEncode(sign, d.significand, d.exponent, f);
    }
  }
}
