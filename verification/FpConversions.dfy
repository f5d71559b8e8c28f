/** Widening binary32 to binary64 is exact, and narrowing back is the identity on everything but signalling NaNs. */
module FpConversions {
  import opened Dyadic
  import opened Integers
  import opened FpReference
  import opened RealRounding
  import opened FpCorrectness
  import opened FpEncoding
  import opened FpPacking
  import opened FpOperations
  import opened FpTheorems

  function Widen(x: nat, rn: nat): Outcome {
    Calculate(To64, x, 0, rn, B32)
  }

  function Narrow(w: nat, rn: nat): Outcome {
    Calculate(To32, w, 0, rn, B64)
  }

  lemma FormatConstants()
    ensures Pow(8) == 256 && Pow(11) == 2048
    ensures B32.Valid() && B64.Valid()
    ensures OverflowExponent(B32) == 128 && OverflowExponent(B64) == 1024
    ensures B32.MinQuantum() == -149 && B64.MinQuantum() == -1074
  {
    assert Pow(8) == 256;
    assert Pow(11) == 2048 by {
      PowAdd(8, 3);
      assert Pow(3) == 8;
    }
  }

  /** Every binary32 grid point is a binary64 grid point. */
  lemma GridWidens(g: real)
    requires OnGrid(g, B32)
    ensures OnGrid(g, B64)
  {
    hide Pow, Scale;
    var m: nat, k: int :| GridPair(g, m, k, B32);
    PowMono(24, 53);
    assert GridPair(g, m, k, B64);
  }

  lemma WidenFinite(x: nat, rn: nat)
    requires x < B32.Size() && Decode(x, B32).kind == Finite
    ensures var w, d := Widen(x, rn), Decode(x, B32);
            && w == Quietly(w.bits, false) && w.bits < B64.Size()
            && Decode(w.bits, B64).kind == Finite
            && Decode(w.bits, B64).sign == d.sign
            && Value(Decode(w.bits, B64)) == Value(d)
  {
    hide Scale, Pow, Decode, Pack, RoundReal, Value;
    var d := Decode(x, B32);
    FormatConstants();
    FiniteInRange(x, B32);
    GridWidens(Abs(Value(d)));
    ScaleMono(128, 1024);
    NonzeroValue(d);
    DecodedRounds(d, rn, B64);
    RoundRealExact(Value(d), d.sign, rn, B64);
  }

  lemma NarrowFinite(w: nat, x: nat, rn: nat)
    requires x < B32.Size() && Decode(x, B32).kind == Finite && Decode(w, B64).kind == Finite
    requires Decode(w, B64).sign == Decode(x, B32).sign && Value(Decode(w, B64)) == Value(Decode(x, B32))
    ensures Narrow(w, rn) == Quietly(x, false)
  {
    hide Scale, Pow, Decode, Pack, RoundReal, Value;
    FormatConstants();
    DecodedRounds(Decode(x, B32), rn, B32);
    PackDecodeRoundTrip(x, rn, B32);
    DecodedRounds(Decode(w, B64), rn, B32);
  }

  // NaNs and infinities: all-ones exponent field.

  lemma DecodeSpecial(sign: bool, ff: nat, f: Format)
    requires f.Valid() && ff < Pow(f.fraction)
    ensures var bits := f.Signed(sign, f.Infinity() + ff);
            && bits < f.Size() && bits == f.Encode(sign, Pow(f.exponent) - 1, ff)
            && Decode(bits, f) == Decoded(if ff == 0 then Inf else if ff < Pow(f.fraction - 1) then SNan else QNan, sign, ff, 0)
  {
    hide Pow;
    Fields(sign, Pow(f.exponent) - 1, ff, f);
    HalfField(ff, Pow(f.fraction - 1));
  }

  lemma HalfField(ff: nat, h: nat)
    requires h > 0
    ensures ff / h == 0 <==> ff < h
  {
  }

  /** An encoding with an all-ones exponent is its kind, sign and fraction. */
  lemma SpecialShape(bits: nat, f: Format)
    requires f.Valid() && bits < f.Size() && Decode(bits, f).kind != Finite
    ensures var d := Decode(bits, f);
            d.significand < Pow(f.fraction) && bits == f.Signed(d.sign, f.Infinity() + d.significand)
  {
    hide Pow;
    FieldsBack(bits, f);
  }

  lemma QuietSpecial(sign: bool, ff: nat, f: Format)
    requires f.Valid() && ff < Pow(f.fraction)
    ensures f.Quiet(f.Signed(sign, f.Infinity() + ff))
         == f.Signed(sign, f.Infinity() + if ff >= Pow(f.fraction - 1) then ff else ff + Pow(f.fraction - 1))
  {
    hide Pow;
    PowStep(f.fraction - 1);
    SpecialMultiple(sign, ff, f);
    HalfBit(f.Signed(sign, f.Infinity() + ff), Pow(f.fraction - 1), (if sign then Pow(f.exponent) else 0) + Pow(f.exponent) - 1, ff);
  }

  lemma SpecialMultiple(sign: bool, ff: nat, f: Format)
    ensures f.Signed(sign, f.Infinity() + ff)
         == ((if sign then Pow(f.exponent) else 0) + Pow(f.exponent) - 1) * Pow(f.fraction) + ff
  {
    hide Pow;
    PowAdd(f.exponent, f.fraction);
    assert f.exponent + f.fraction == f.SignBit();
    SumTimes(Pow(f.exponent), Pow(f.exponent) - 1, Pow(f.fraction));
  }

  lemma SumTimes(a: int, b: int, c: int)
    ensures (a + b) * c == a * c + b * c
  {
  }

  lemma HalfBit(bits: nat, h: nat, x: nat, ff: nat)
    requires h > 0 && ff < 2 * h && bits == x * (2 * h) + ff
    ensures bits / h % 2 == if ff >= h then 1 else 0
  {
    var top := if ff >= h then 1 else 0;
    assert x * (2 * h) == (2 * x) * h;
    SumTimes(2 * x, top, h);
    DivModUnique(bits, h, 2 * x + top, ff - top * h);
    DivModUnique(2 * x + top, 2, x, top);
  }

  lemma PayloadShift(ff: nat, a: nat, b: nat)
    requires ff < Pow(a)
    ensures ff * Pow(b) < Pow(a + b) && ff * Pow(b) / Pow(b) == ff
    ensures ff * Pow(b) == 0 <==> ff == 0
    ensures a >= 1 ==> (ff >= Pow(a - 1) <==> ff * Pow(b) >= Pow(a - 1 + b))
  {
    hide Pow;
    PowAdd(a, b);
    ProductSign(Pow(a) - ff, Pow(b));
    ProductSign(ff, Pow(b));
    assert (Pow(a) - ff) * Pow(b) == Pow(a) * Pow(b) - ff * Pow(b);
    DivModUnique(ff * Pow(b), Pow(b), ff, 0);
    if a >= 1 {
      PowAdd(a - 1, b);
      var d := ff - Pow(a - 1);
      assert d * Pow(b) == ff * Pow(b) - Pow(a - 1) * Pow(b);
      if d >= 0 {
        ProductSign(d, Pow(b));
      } else {
        ProductSign(-d, Pow(b));
        assert (-d) * Pow(b) == -(d * Pow(b));
      }
    }
  }

  /** Narrowing a widened binary32 value gives it back exactly, except that a signalling NaN comes back quiet. */
  lemma NarrowOfWiden(x: nat, rn: nat, rn': nat)
    requires x < B32.Size()
    ensures var w := Widen(x, rn); var y := Narrow(w.bits, rn');
            && (Decode(x, B32).kind != SNan ==> w == Quietly(w.bits, false) && y == Quietly(x, false))
            && (Decode(x, B32).kind == SNan ==> w == Quietly(w.bits, true) && y == Quietly(B32.Quiet(x), false) && y.bits != x)
            && w.bits < B64.Size()
  {
    hide Scale, Pow, Decode, Pack, RoundReal, Value;
    FormatConstants();
    var d := Decode(x, B32);
    if d.kind == Finite {
      WidenFinite(x, rn);
      NarrowFinite(Widen(x, rn).bits, x, rn');
    } else {
      SpecialShape(x, B32);
      DecodeSpecial(d.sign, d.significand, B32);
      if d.kind == Inf {
        InfinityConverts(d.sign, rn, rn');
      } else {
        NanConverts(d.sign, d.significand, rn, rn');
      }
    }
  }

  lemma InfinityConverts(sign: bool, rn: nat, rn': nat)
    ensures Decode(B32.Signed(sign, B32.Infinity()), B32) == Decoded(Inf, sign, 0, 0)
    ensures Decode(B64.Signed(sign, B64.Infinity()), B64) == Decoded(Inf, sign, 0, 0)
    ensures Widen(B32.Signed(sign, B32.Infinity()), rn) == Quietly(B64.Signed(sign, B64.Infinity()), false)
    ensures Narrow(B64.Signed(sign, B64.Infinity()), rn') == Quietly(B32.Signed(sign, B32.Infinity()), false)
    ensures B64.Signed(sign, B64.Infinity()) < B64.Size()
  {
    hide Scale, Pow, Decode, Pack;
    DecodeInfinity(sign, B32);
    DecodeInfinity(sign, B64);
  }

  /** A binary32 fraction field moved to the top of a binary64 one. */
  function Payload64(ff: nat): nat {
    hide Pow;
    ff * Pow(29)
  }

  function QuietField(ff: nat, f: Format): nat
    requires f.fraction >= 1
  {
    if ff >= Pow(f.fraction - 1) then ff else ff + Pow(f.fraction - 1)
  }

  lemma NanConverts(sign: bool, ff: nat, rn: nat, rn': nat)
    requires 0 < ff < Pow(23)
    ensures var x := B32.Signed(sign, B32.Infinity() + ff);
            var w := Widen(x, rn); var y := Narrow(w.bits, rn');
            && w == Quietly(w.bits, ff < Pow(22)) && w.bits < B64.Size()
            && y == Quietly(B32.Quiet(x), false)
            && (ff >= Pow(22) <==> B32.Quiet(x) == x)
  {
    hide Scale, Pow, Decode, Pack;
    QuietSpecial(sign, ff, B32);
    WidenNan(sign, ff, rn);
    PowStep(22);
    NarrowNan(sign, QuietField(ff, B32), rn');
  }

  lemma WidenNan(sign: bool, ff: nat, rn: nat)
    requires 0 < ff < Pow(23)
    ensures Widen(B32.Signed(sign, B32.Infinity() + ff), rn)
         == Quietly(B64.Signed(sign, B64.Infinity() + Payload64(QuietField(ff, B32))), ff < Pow(22))
  {
    hide Scale, Pow, Decode, Pack;
    DecodeSpecial(sign, ff, B32);
    PayloadField(ff);
    QuietSpecial(sign, Payload64(ff), B64);
  }

  /** Shifting commutes with setting the quiet bit. */
  lemma PayloadField(ff: nat)
    requires ff < Pow(23)
    ensures Payload64(ff) < Pow(52) && QuietField(Payload64(ff), B64) == Payload64(QuietField(ff, B32))
  {
    hide Pow;
    PayloadShift(ff, 23, 29);
    PowAdd(22, 29);
    SumTimes(ff, Pow(22), Pow(29));
  }

  lemma NarrowNan(sign: bool, ff: nat, rn: nat)
    requires Pow(22) <= ff < Pow(23)
    ensures B64.Signed(sign, B64.Infinity() + Payload64(ff)) < B64.Size()
    ensures Narrow(B64.Signed(sign, B64.Infinity() + Payload64(ff)), rn)
         == Quietly(B32.Signed(sign, B32.Infinity() + ff), false)
  {
    hide Scale, Pow, Decode, Pack;
    PayloadShift(ff, 23, 29);
    DecodeSpecial(sign, Payload64(ff), B64);
    QuietSpecial(sign, ff, B32);
  }
}
