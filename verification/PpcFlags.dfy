/** Tininess before and after rounding, and the result class flags, on real magnitudes. */
module PpcFlags {
  import opened Dyadic
  import opened FpReference
  import opened RealRounding
  import opened FpCorrectness
  import opened FpEncoding
  import opened FpPacking
  import opened FpOperations
  import opened FpTheorems
  import opened PpcReference
  import opened PpcRounding
  import opened PpcArithmetic
  import opened WideArithmetic

  /** The packer judges underflow after rounding, the status before: they part exactly when a tiny value rounds up to the
      smallest normal. */
  lemma TininessCompared(n: nat, d: nat, e: int, sign: bool, rn: nat, f: Format)
    requires n > 0 && d > 0 && f.Valid()
    ensures Val(n, d, e) > 0.0
    ensures var x, p := Val(n, d, e), PackRatio(n, d, e, sign, rn, f);
            && (p.uf ==> Tiny(x, f) && p.nx)
            && ((Tiny(x, f) && p.nx && !p.uf) <==> x < Rounded(x, sign, rn, f) == Scale(1 - f.bias))
  {
    hide Scale, Pow, Rounded, Round, CorrectlyRounded, OnGrid, PackRatio, Val, Denotes;
    PackRatioRounds(n, d, e, sign, rn, f);
    var x := Val(n, d, e);
    var least := Scale(1 - f.bias);
    RoundDelivers(x, sign, rn, f);
    SmallestNormal(f);
    RoundedIsItself(least, sign, rn, f);
    ExactWhenWhole(x, sign, rn, f);
    if x >= least {
      RoundedMonotone(least, x, sign, rn, f);
    } else {
      RoundedMonotone(x, least, sign, rn, f);
      TinyNoOverflow(x, sign, rn, f);
    }
  }

  /** The FPRF class names kind, sign and normality of the encoded value. */
  lemma ClassifyMeaning(bits: nat, f: Format)
    requires f.Valid() && bits < f.Size()
    ensures var d, c := Decode(bits, f), Classify(bits, f);
            && (c == 0x11 <==> d.IsNan())
            && (c == 0x05 <==> d.kind == Inf && !d.sign) && (c == 0x09 <==> d.kind == Inf && d.sign)
            && (c == 0x02 <==> d.IsZero() && !d.sign) && (c == 0x12 <==> d.IsZero() && d.sign)
            && (c == 0x14 <==> d.kind == Finite && 0.0 < Value(d) < Scale(1 - f.bias))
            && (c == 0x18 <==> d.kind == Finite && -Scale(1 - f.bias) < Value(d) < 0.0)
            && (c == 0x04 <==> d.kind == Finite && Value(d) >= Scale(1 - f.bias))
            && (c == 0x08 <==> d.kind == Finite && Value(d) <= -Scale(1 - f.bias))
  {
    hide Scale, Pow, Decode;
    var d := Decode(bits, f);
    if d.kind == Finite {
      DecodeCanonical(bits, f);
      NonzeroValue(d);
      var r := d.significand as real * Scale(d.exponent);
      CanonicalThresholds(r, d.significand, d.exponent, f);
      assert Value(d) == if d.sign then -r else r;
    }
  }

  /** The FPRF class of a finite result not exponent-adjusted compares the value delivered with the thresholds of the format it
      was rounded for: a single result is normal or not as a binary32 number. */
  lemma ResultClass(out: PpcResult, bits: nat, f: Format)
    requires Supported(f) && f.Valid() && ClassOfResult(out, bits, f) && D64(out.result).kind == Finite
    ensures var d, least := D64(out.result), Scale(1 - f.bias);
            && (out.fprf == 0x02 <==> d.IsZero() && !d.sign) && (out.fprf == 0x12 <==> d.IsZero() && d.sign)
            && (out.fprf == 0x14 <==> 0.0 < Value(d) < least) && (out.fprf == 0x18 <==> -least < Value(d) < 0.0)
            && (out.fprf == 0x04 <==> Value(d) >= least) && (out.fprf == 0x08 <==> Value(d) <= -least)
  {
    hide Scale, Pow, Decode, Classify, Value, Calculate;
    ClassifyMeaning(bits, f);
    if f == B32 {
      WidenOperand(bits, 0);
      NonzeroValue(Decode(bits, f));
      NonzeroValue(D64(out.result));
    }
  }
}
