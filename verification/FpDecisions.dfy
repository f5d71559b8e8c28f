/** What the comparison and integer-conversion operations decide, on the extended reals. */
module FpDecisions {
  import opened Dyadic
  import opened FpReference
  import opened RealRounding
  import opened FpCorrectness
  import opened FpPacking
  import opened FpOperations
  import opened FpTheorems
  import opened FpConversions

  /** The order of the extended reals; neither operand is a NaN. */
  ghost predicate Below(a: Decoded, b: Decoded) {
    if a.kind == Inf then a.sign && !(b.kind == Inf && b.sign)
    else if b.kind == Inf then !b.sign
    else Value(a) < Value(b)
  }

  lemma CompareCorrect(a: nat, b: nat, rn: nat, f: Format)
    requires f.Valid()
    ensures var da, db, r := Decode(a, f), Decode(b, f), Calculate(Cmp, a, b, rn, f);
            if da.IsNan() || db.IsNan() then r.bits == 3 && r.invalid == (da.kind == SNan || db.kind == SNan)
            else
              && !r.invalid && (r.bits == 1 <==> Below(da, db)) && (r.bits == 2 <==> Below(db, da))
              && (r.bits == 0 <==> !Below(da, db) && !Below(db, da))
  {
    hide Pow, Scale, Decode, Value, Aligned;
    var da, db := Decode(a, f), Decode(b, f);
    if da.kind == Finite && db.kind == Finite {
      var unit := Min(da.exponent, db.exponent);
      AlignedValue(da, unit);
      AlignedValue(db, unit);
      MulCancelLess(Scale(unit), Aligned(da, unit) as real, Aligned(db, unit) as real);
      MulCancelLess(Scale(unit), Aligned(db, unit) as real, Aligned(da, unit) as real);
    }
  }

  /** m is the integer the mode selects for the magnitude y over any other integer g. */
  ghost predicate SelectsInteger(m: int, g: int, y: real, sign: bool, rn: nat) {
    if rn == 0 then
      Abs(y - m as real) <= Abs(y - g as real) && (Abs(y - m as real) == Abs(y - g as real) && g != m ==> m % 2 == 0)
    else if (rn == 2 && !sign) || (rn == 3 && sign) then m as real >= y && (g as real >= y ==> g >= m)
    else m as real <= y && (g as real <= y ==> g <= m)
  }

  lemma RoundIntSelects(y: real, sign: bool, rn: nat, g: int)
    ensures SelectsInteger(RoundInt(y, sign, rn), g, y, sign, rn)
  {
    var m := y.Floor;
    if g <= m {
      assert y - g as real >= y - m as real;
    } else {
      assert g as real >= m as real + 1.0;
    }
  }

  /** Conversion rounds the operand's own value, and is invalid exactly when the rounded value leaves the 32-bit range. */
  lemma ToIntegerCorrect(a: nat, b: nat, rn: nat, f: Format)
    requires f.Valid() && Decode(a, f).kind == Finite
    ensures var d, r := Decode(a, f), Calculate(FToI32, a, b, rn, f);
            var y := Abs(Value(d));
            var m := RoundInt(y, d.sign, rn);
            var word := if d.sign then -m else m;
            if -0x8000_0000 <= word < 0x8000_0000 then
              !r.invalid && r.bits == word % 0x1_0000_0000 && r.nx == (m as real != y) && r.increment == (m as real > y)
            else r.invalid && r.bits == 0x8000_0000 && !r.nx && !r.increment
  {
    hide Pow, Scale, Decode, Value, RoundedInteger, RoundInt;
    var d := Decode(a, f);
    RoundedValue(d, rn);
  }

  lemma RoundedValue(d: Decoded, rn: nat)
    ensures var y := Abs(Value(d)); var m := RoundInt(y, d.sign, rn);
            RoundedInteger(d.significand, -d.exponent, d.sign, rn) == (m, m as real != y, m as real > y)
  {
    hide Pow, Scale, RoundInt, Value, RoundedQuotient;
    var y := Abs(Value(d));
    MagnitudeIs(d);
    if d.exponent >= 0 {
      ScalePow(d.exponent);
      CastProduct(d.significand, Pow(d.exponent));
      var m := d.significand * Pow(d.exponent);
      assert m as real == y;
      WholeRounds(m, d.sign, rn);
      assert RoundedInteger(d.significand, -d.exponent, d.sign, rn) == (m, false, false);
    } else {
      var p := Pow(-d.exponent);
      ScalePow(-d.exponent);
      ScaleAdd(-d.exponent, d.exponent);
      ScaleZero();
      QuotientScale(d.significand as real, p as real, Scale(d.exponent), y);
      RoundedQuotientIsRoundInt(d.significand, p, d.sign, rn);
      RoundIntStep(y, d.sign, rn);
    }
  }

  lemma MagnitudeIs(d: Decoded)
    ensures Abs(Value(d)) == d.significand as real * Scale(d.exponent)
  {
    hide Scale;
    ZeroProduct(d.significand, Scale(d.exponent));
  }

  lemma QuotientScale(n: real, p: real, s: real, y: real)
    requires p > 0.0 && p * s == 1.0 && y == n * s
    ensures n / p == y
  {
    assert y * p == n * (p * s);
  }

  lemma RoundIntStep(y: real, sign: bool, rn: nat)
    ensures var m := RoundInt(y, sign, rn);
            && (y != y.Floor as real <==> m as real != y)
            && (RealRoundsUp(y.Floor, y - y.Floor as real, sign, rn) <==> m as real > y)
  {
  }

  /** The signed 32-bit integer the low word of the operand denotes. */
  function SignedWord(a: nat): int {
    if a % 0x1_0000_0000 >= 0x8000_0000 then a % 0x1_0000_0000 - 0x1_0000_0000 else a % 0x1_0000_0000
  }

  /** Conversion from an integer is one rounding of the signed word, and exact in binary64. */
  lemma FromIntegerRounds(a: nat, b: nat, rn: nat, f: Format)
    requires f.Valid()
    ensures Calculate(I32ToF, a, b, rn, f) == FromPacked(RoundReal(SignedWord(a) as real, false, rn, f))
    ensures f == B64 ==>
              var r := Calculate(I32ToF, a, b, rn, f);
              && !r.nx && !r.of && !r.uf && !r.invalid && !r.increment
              && Decode(r.bits, f).kind == Finite && Value(Decode(r.bits, f)) == SignedWord(a) as real
  {
    hide Pow, Scale, Pack, RoundReal, Decode, Value, SignedWord, Round, OnGrid;
    var w := SignedWord(a);
    ScaleZero();
    SignedWordIs(a, b, rn, f);
    PackSigned(w, 0, w as real, w < 0, rn, f);
    RoundRealSignless(w as real, w < 0, rn, f);
    if f == B64 {
      FormatConstants();
      WordOnGrid(Magnitude(w));
      RoundRealExact(w as real, false, rn, f);
    }
  }

  lemma SignedWordIs(a: nat, b: nat, rn: nat, f: Format)
    requires f.Valid()
    ensures Calculate(I32ToF, a, b, rn, f) == FromPacked(Pack(Magnitude(SignedWord(a)), 0, SignedWord(a) < 0, rn, f))
    ensures -0x8000_0000 <= SignedWord(a) < 0x8000_0000
  {
    hide Pow, Pack, Decode;
  }

  lemma RoundRealSignless(v: real, sign: bool, rn: nat, f: Format)
    requires f.Valid() && sign == (v < 0.0)
    ensures RoundReal(v, sign, rn, f) == RoundReal(v, false, rn, f)
  {
    hide Round;
  }

  lemma WordOnGrid(n: nat)
    requires n <= 0x8000_0000
    ensures OnGrid(n as real, B64) && n as real < Scale(1024)
  {
    hide Scale, Pow;
    FormatConstants();
    ScaleZero();
    ScalePow(31);
    WordPowers();
    ScaleMono(31, 1024);
    PowMono(31, 53);
    assert GridPair(n as real, n, 0, B64);
  }

  /** A NaN operand is returned quiet, the first one first, with its sign and payload, and invalid exactly for a signalling one. */
  lemma NanResults(op: Op, a: nat, b: nat, rn: nat, f: Format)
    requires f.Valid() && IsArithmetic(op) && a < f.Size() && b < f.Size()
    requires Decode(a, f).IsNan() || Decode(b, f).IsNan()
    ensures var da, db, r := Decode(a, f), Decode(b, f), Calculate(op, a, b, rn, f);
            var first := if da.IsNan() then da else db;
            && Decode(r.bits, f).kind == QNan && Decode(r.bits, f).sign == first.sign
            && Decode(r.bits, f).significand
               == first.significand + (if first.kind == QNan then 0 else Pow(f.fraction - 1))
            && r.invalid == (da.kind == SNan || db.kind == SNan) && !r.nx && !r.uf && !r.of && !r.dz
  {
    hide Pow, Decode;
    QuietDecodes(if Decode(a, f).IsNan() then a else b, f);
  }

  lemma QuietDecodes(bits: nat, f: Format)
    requires f.Valid() && bits < f.Size() && Decode(bits, f).IsNan()
    ensures var d, q := Decode(bits, f), Decode(f.Quiet(bits), f);
            q.kind == QNan && q.sign == d.sign
            && q.significand == d.significand + (if d.kind == QNan then 0 else Pow(f.fraction - 1))
  {
    hide Pow, Decode;
    var d := Decode(bits, f);
    SpecialShape(bits, f);
    DecodeSpecial(d.sign, d.significand, f);
    QuietSpecial(d.sign, d.significand, f);
    PowStep(f.fraction - 1);
    var ff := if d.significand >= Pow(f.fraction - 1) then d.significand else d.significand + Pow(f.fraction - 1);
    DecodeSpecial(d.sign, ff, f);
  }
}
