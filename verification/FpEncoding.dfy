/** Encodings and the magnitudes they denote: what a packed result decodes to, and back. */
module FpEncoding {
  import opened Dyadic
  import opened Integers
  import opened FpReference
  import opened RealRounding
  import opened FpCorrectness

  /** The significand and exponent a finite encoding stands for, put back into its fields. */
  function EncodeCanonical(sign: bool, m: nat, k: int, f: Format): nat
    requires Canonical(m, k, f)
  {
    hide Pow;
    if m < Pow(f.fraction) then f.Encode(sign, 0, m)
    else f.Encode(sign, k + f.fraction + f.bias, m - Pow(f.fraction))
  }

  /** The fields of an encoding are what was put in. */
  lemma Fields(sign: bool, ef: nat, ff: nat, f: Format)
    requires f.Valid() && ef < Pow(f.exponent) && ff < Pow(f.fraction)
    ensures var bits := f.Encode(sign, ef, ff);
            && bits < f.Size()
            && (bits / Pow(f.SignBit()) != 0 <==> sign)
            && bits / Pow(f.fraction) % Pow(f.exponent) == ef
            && bits % Pow(f.fraction) == ff
  {
    hide Pow;
    var s := if sign then 1 else 0;
    var F, E := Pow(f.fraction), Pow(f.exponent);
    PowAdd(f.fraction, f.exponent);
    PowStep(f.SignBit());
    var low := ef * F + ff;
    FieldBound(ef, ff, F, E);
    var bits := f.Encode(sign, ef, ff);
    DivModUnique(bits, Pow(f.SignBit()), s, low);
    assert s * (F * E) == (s * E) * F;
    assert (s * E + ef) * F == (s * E) * F + ef * F;
    DivModUnique(bits, F, s * E + ef, ff);
    DivModUnique(s * E + ef, E, s, ef);
  }

  lemma FieldBound(ef: nat, ff: nat, F: nat, E: nat)
    requires ff < F && ef < E
    ensures 0 <= ef * F + ff < F * E
  {
    ProductSign(E - 1 - ef, F);
    ProductSign(ef, F);
    assert (E - 1 - ef) * F == F * E - F - ef * F;
  }

  /** Every encoding is made of its fields. */
  lemma FieldsBack(bits: nat, f: Format)
    requires f.Valid() && bits < f.Size()
    ensures var ef := bits / Pow(f.fraction) % Pow(f.exponent); var ff := bits % Pow(f.fraction);
            && ef < Pow(f.exponent) && ff < Pow(f.fraction)
            && bits == f.Encode(bits / Pow(f.SignBit()) != 0, ef, ff)
  {
    hide Pow;
    var F, E := Pow(f.fraction), Pow(f.exponent);
    PowAdd(f.fraction, f.exponent);
    PowStep(f.SignBit());
    JoinFields(bits, F, E, Pow(f.SignBit()));
    SignIsBit(bits, Pow(f.SignBit()), bits / Pow(f.SignBit()));
  }

  /** A number split at F, and again at F * E. */
  lemma JoinFields(bits: nat, F: nat, E: nat, P: nat)
    requires F > 0 && E > 0 && P == F * E
    ensures var ef, ff := bits / F % E, bits % F;
            ef < E && ff < F && bits == bits / P * P + (ef * F + ff)
  {
    var high, ff := bits / F, bits % F;
    var s, ef := high / E, high % E;
    assert bits == high * F + ff;
    assert high == s * E + ef;
    Regroup(s, E, ef, F, P, high);
    FieldBound(ef, ff, F, E);
    DivModUnique(bits, P, s, ef * F + ff);
  }

  lemma Regroup(s: int, E: int, ef: int, F: int, P: int, high: int)
    requires P == F * E && high == s * E + ef
    ensures high * F == s * P + ef * F
  {
    assert (s * E + ef) * F == s * (F * E) + ef * F;
  }

  lemma SignIsBit(bits: nat, p: nat, s: int)
    requires p > 0 && bits < 2 * p && s == bits / p
    ensures s == if s != 0 then 1 else 0
  {
    if s >= 2 {
      ProductSign(s - 2, p);
    }
  }

  /** A finite encoding decodes to canonical form below the overflow exponent, and re-encodes to itself. */
  lemma DecodeCanonical(bits: nat, f: Format)
    requires f.Valid() && bits < f.Size() && Decode(bits, f).kind == Finite
    ensures var d := Decode(bits, f);
            && Canonical(d.significand, d.exponent, f)
            && d.exponent + f.fraction + f.bias < Pow(f.exponent) - 1
            && bits == EncodeCanonical(d.sign, d.significand, d.exponent, f)
  {
    hide Pow;
    PowStep(f.fraction);
    PowMono(2, f.exponent);
    PowTwo();
    FieldsBack(bits, f);
  }

  lemma PowTwo()
    ensures Pow(2) == 4 && Pow(1) == 2 && Pow(0) == 1
  {
  }

  lemma DecodeEncode(sign: bool, m: nat, k: int, f: Format)
    requires f.Valid() && Canonical(m, k, f) && k + f.fraction + f.bias < Pow(f.exponent) - 1
    ensures EncodeCanonical(sign, m, k, f) < f.Size()
    ensures Decode(EncodeCanonical(sign, m, k, f), f) == Decoded(Finite, sign, m, k)
  {
    hide Pow;
    PowStep(f.fraction);
    PowMono(2, f.exponent);
    PowTwo();
    if m < Pow(f.fraction) {
      Fields(sign, 0, m, f);
    } else {
      Fields(sign, k + f.fraction + f.bias, m - Pow(f.fraction), f);
    }
  }

  lemma DecodeInfinity(sign: bool, f: Format)
    requires f.Valid()
    ensures f.Signed(sign, f.Infinity()) < f.Size()
    ensures Decode(f.Signed(sign, f.Infinity()), f) == Decoded(Inf, sign, 0, 0)
  {
    hide Pow;
    Fields(sign, Pow(f.exponent) - 1, 0, f);
  }

  /** The largest finite magnitude sits just below infinity. */
  lemma DecodeMaxFinite(sign: bool, f: Format)
    requires f.Valid()
    ensures f.Signed(sign, f.Infinity() - 1) < f.Size()
    ensures Decode(f.Signed(sign, f.Infinity() - 1), f)
         == Decoded(Finite, sign, Pow(f.fraction + 1) - 1, Pow(f.exponent) - 2 - f.bias - f.fraction)
  {
    hide Pow;
    PowMono(2, f.exponent);
    PowTwo();
    PowStep(f.fraction);
    var E, F := Pow(f.exponent), Pow(f.fraction);
    BelowProduct(E - 1, F);
    Fields(sign, E - 2, F - 1, f);
  }

  lemma BelowProduct(a: int, b: int)
    ensures a * b - 1 == (a - 1) * b + (b - 1)
  {
  }

  /** One real has one canonical form. */
  lemma CanonicalUnique(g: real, m: nat, k: int, m': nat, k': int, f: Format)
    requires CanonicalPair(g, m, k, f) && CanonicalPair(g, m', k', f)
    ensures m == m' && k == k'
  {
    hide Scale, Pow;
    CanonicalNotFiner(g, m, k, m', k', f);
    CanonicalNotFiner(g, m', k', m, k, f);
    MulCancelLess(Scale(k), m as real, m' as real);
  }

  lemma CanonicalNotFiner(g: real, m: nat, k: int, m': nat, k': int, f: Format)
    requires CanonicalPair(g, m, k, f) && CanonicalPair(g, m', k', f)
    ensures k >= k'
  {
    hide Scale, Pow;
    if k < k' {
      ScaleMono(k, k' - 1);
      ScaleStep(k' - 1);
      PowStep(f.fraction);
      FinerBelow(m as real, Pow(f.fraction) as real, Pow(f.fraction + 1) as real,
                 Scale(k), Scale(k' - 1), Scale(k'), m' as real);
      assert false;
    }
  }

  lemma FinerBelow(m: real, p: real, p': real, s: real, t: real, t': real, m': real)
    requires 0.0 <= m < p' && p' == 2.0 * p && 0.0 < s <= t && t' == 2.0 * t && m' >= p
    ensures m * s < m' * t'
  {
    FineChain(p', p, p', s, t, t');
    ScaledOrder(s, m, m * s, p', p' * s);
    ScaledOrder(t', p, p * t', m', m' * t');
  }
}
