/** The PowerPC operation itself, proved against the exact-real promises and against the unrounded oracle. */
module PpcOperation {
  import opened Dyadic
  import opened FpReference
  import opened RealRounding
  import opened FpCorrectness
  import opened FpEncoding
  import opened FpPacking
  import opened FpOperations
  import opened FpTheorems
  import opened FpConversions
  import opened PpcReference
  import opened PpcRounding
  import opened PpcExact
  import opened PpcArithmetic

  /** Sign of an infinite result, or of the zero an infinite divisor leaves. */
  function InfinitySign(op: PpcOp, a: Decoded, b: Decoded, c: Decoded): bool {
    if op.Frsp? then b.sign
    else if op.Fmul? then a.sign != c.sign
    else if op.Fdiv? then a.sign != b.sign
    else if op.IsFused() && (a.kind == Inf || c.kind == Inf) then a.sign != c.sign
    else if !op.IsFused() && a.kind == Inf then a.sign
    else b.sign != (op.Fsub? || op.SubtractsB())
  }

  function InfinityResult(op: PpcOp, a: Decoded, b: Decoded, c: Decoded): nat {
    B64.Signed(InfinitySign(op, a, b, c), if op.Fdiv? && b.kind == Inf then 0 else B64.Infinity())
  }

  function Causes(op: PpcOp, a: nat, b: nat, c: nat): set<Cause> {
    OperandCauses(op, D64(a), D64(b), D64(c))
  }

  /** No flag but an invalid cause or ZX. */
  predicate NoRounding(out: PpcResult) {
    !out.ox && !out.ux && !out.xx && !out.fr && !out.fi && !out.tinyBeforeRound && out.frfiValid && !out.compareValid
  }

  /** NaNs, invalid operations, division by zero and infinities, in that priority. */
  ghost predicate SpecialPromise(out: PpcResult, op: PpcOp, a: nat, b: nat, c: nat, ve: bool, ze: bool) {
    var operands, causes := Relevant(op, a, b, c), Causes(op, a, b, c);
    && NoRounding(out) && out.fprf == Classify(out.result, B64) && out.fprfValid == out.writeResult
    && (if HasNan(operands) then NanPromise(out, op, a, b, c, ve) && !out.zx
        else if causes != {} then
          out.invalid == causes && out.result == B64.DefaultNan() && out.writeResult == !ve && !out.zx
        else if DividesByZero(op, a, b) then
          && out.zx && out.invalid == {} && out.writeResult == !ze
          && out.result == B64.Signed(D64(a).sign != D64(b).sign, B64.Infinity())
        else
          && out.invalid == {} && !out.zx && out.writeResult
          && out.result == B64.Signed(InfinitySign(op, D64(a), D64(b), D64(c)) != op.Negates(),
                                      if op.Fdiv? && D64(b).kind == Inf then 0 else B64.Infinity()))
  }

  /** The operands leave no exact finite result to round. */
  predicate IsSpecial(op: PpcOp, a: nat, b: nat, c: nat) {
    var operands := Relevant(op, a, b, c);
    HasNan(operands) || Causes(op, a, b, c) != {} || DividesByZero(op, a, b) || HasInfinity(operands)
  }

  /** Without NaN, cause, zero divisor or infinity the operands are the finite path's. */
  lemma NotSpecialIsFinite(op: PpcOp, a: nat, b: nat, c: nat)
    requires !op.IsCompare() && !op.IsToInteger() && !IsSpecial(op, a, b, c)
    ensures FiniteOperands(op, D64(a), D64(b), D64(c))
  {
    hide Pow, Decode;
    var operands := Relevant(op, a, b, c);
    assert forall i | 0 <= i < |operands| :: D64(operands[i]).kind == Finite;
    assert operands[0] == if op.Frsp? then b else a;
    if !op.Frsp? {
      assert operands[1] == if op.Fmul? then c else b;
    }
    if op.IsFused() {
      assert operands[2] == c;
    }
  }

  // Agreement with the unrounded oracle.

  /** The operand the oracle pairs with a, under the name the oracle gives it. */
  lemma OracleFinite(op: PpcOp, a: nat, b: nat, c: nat, rn: nat)
    requires !op.IsCompare() && !op.IsToInteger() && !op.Frsp? && FiniteOperands(op, D64(a), D64(b), D64(c))
    ensures var (n, d, e, sign) := FiniteParts(op, D64(a), D64(b), D64(c), rn);
            Oracle(op, a, b, c, rn) == FromPacked(PackRatio(n, d, e, sign, rn, B64))
  {
    hide Pow, PackRatio, Pack, Decode, SumParts;
    var (n, d, e, sign) := FiniteParts(op, D64(a), D64(b), D64(c), rn);
    PackIsPackRatio(n, e, sign, rn, B64);
  }

  lemma FiniteAgrees(op: PpcOp, a: nat, b: nat, c: nat, rn: nat, out: PpcResult)
    requires !op.IsCompare() && !op.IsToInteger() && !op.Frsp? && FiniteOperands(op, D64(a), D64(b), D64(c))
    requires out.invalid == {} && !out.zx
    ensures var (n, d, e, sign) := FiniteParts(op, D64(a), D64(b), D64(c), rn);
            AgreesWith(FiniteResult(n, d, e, sign, op.Negates(), rn, B64, false, false, false, out),
                       Oracle(op, a, b, c, rn), op.Negates())
  {
    hide Pow, PackRatio, Decode, FiniteParts, FlipSign, Oracle, Classify, RatioTop;
    var (n, d, e, sign) := FiniteParts(op, D64(a), D64(b), D64(c), rn);
    OracleFinite(op, a, b, c, rn);
    PackedFacts(n, d, e, sign, rn, B64);
  }

  lemma NoNanAt(operands: seq<nat>, i: nat)
    requires !HasNan(operands) && i < |operands|
    ensures !D64(operands[i]).IsNan()
  {
  }

  /** The oracle's special results are the promised ones. */
  lemma OracleSpecial(op: PpcOp, a: nat, b: nat, c: nat, rn: nat)
    requires !op.IsCompare() && !op.IsToInteger() && !op.Frsp?
    requires IsSpecial(op, a, b, c) && !HasNan(Relevant(op, a, b, c))
    ensures OracleKeeps(op, a, b, c, Oracle(op, a, b, c, rn))
  {
    hide Decode, OracleKeeps, Oracle, Causes, HasNan, HasInfinity, IsSpecial, Relevant, DividesByZero;
    OperandsUsed(op, a, b, c);
    if op.IsFused() {
      OracleFused(op, a, b, c, rn);
    } else if op.Fmul? {
      OracleProduct(op, a, b, c, rn);
    } else if op.Fdiv? {
      OracleQuotient(op, a, b, c, rn);
    } else {
      OracleSum(op, a, b, c, rn);
    }
  }

  /** The oracle delivers what is promised for special operands that are no NaN. */
  ghost predicate OracleKeeps(op: PpcOp, a: nat, b: nat, c: nat, r: Outcome) {
    var causes := Causes(op, a, b, c);
    && !r.nx && !r.of && r.invalid == (causes != {}) && r.dz == (causes == {} && DividesByZero(op, a, b))
    && r.bits == (if causes != {} then B64.DefaultNan()
                  else if DividesByZero(op, a, b) then B64.Signed(D64(a).sign != D64(b).sign, B64.Infinity())
                  else InfinityResult(op, D64(a), D64(b), D64(c)))
  }

  /** Special operands in terms of the ones the operation reads. */
  lemma OperandsUsed(op: PpcOp, a: nat, b: nat, c: nat)
    requires !op.IsCompare() && !op.IsToInteger() && !op.Frsp?
    requires IsSpecial(op, a, b, c) && !HasNan(Relevant(op, a, b, c))
    ensures !D64(a).IsNan() && (!op.Fmul? ==> !D64(b).IsNan()) && (op.Fmul? || op.IsFused() ==> !D64(c).IsNan())
    ensures D64(a).kind == Inf || (!op.Fmul? && D64(b).kind == Inf) || ((op.Fmul? || op.IsFused()) && D64(c).kind == Inf)
            || (op.Fdiv? && D64(b).IsZero())
  {
    hide Pow, Decode, HasNan;
    var operands := Relevant(op, a, b, c);
    NoNanAt(operands, 0);
    NoNanAt(operands, 1);
    if op.IsFused() {
      NoNanAt(operands, 2);
    }
    if HasInfinity(operands) {
      var i :| 0 <= i < |operands| && D64(operands[i]).kind == Inf;
    }
  }

  lemma OracleFused(op: PpcOp, a: nat, b: nat, c: nat, rn: nat)
    requires op.IsFused() && !D64(a).IsNan() && !D64(b).IsNan() && !D64(c).IsNan()
    requires D64(a).kind == Inf || D64(b).kind == Inf || D64(c).kind == Inf
    ensures OracleKeeps(op, a, b, c, Oracle(op, a, b, c, rn))
  {
    hide Pow, Decode, PackSum;
  }

  lemma OracleProduct(op: PpcOp, a: nat, b: nat, c: nat, rn: nat)
    requires op.Fmul? && !D64(a).IsNan() && !D64(c).IsNan() && (D64(a).kind == Inf || D64(c).kind == Inf)
    ensures OracleKeeps(op, a, b, c, Oracle(op, a, b, c, rn))
  {
    hide Pow, Decode, Pack;
  }

  lemma OracleQuotient(op: PpcOp, a: nat, b: nat, c: nat, rn: nat)
    requires op.Fdiv? && !D64(a).IsNan() && !D64(b).IsNan() && (D64(a).kind == Inf || D64(b).kind == Inf || D64(b).IsZero())
    ensures OracleKeeps(op, a, b, c, Oracle(op, a, b, c, rn))
  {
    hide Pow, Decode, PackRatio;
  }

  lemma OracleSum(op: PpcOp, a: nat, b: nat, c: nat, rn: nat)
    requires (op.Fadd? || op.Fsub?) && !D64(a).IsNan() && !D64(b).IsNan() && (D64(a).kind == Inf || D64(b).kind == Inf)
    ensures OracleKeeps(op, a, b, c, Oracle(op, a, b, c, rn))
  {
    hide Pow, Decode, PackSum;
  }

  lemma SpecialAgrees(op: PpcOp, a: nat, b: nat, c: nat, rn: nat, ve: bool, ze: bool, out: PpcResult)
    requires !op.IsCompare() && !op.IsToInteger() && !op.Frsp?
    requires IsSpecial(op, a, b, c) && !HasNan(Relevant(op, a, b, c)) && SpecialPromise(out, op, a, b, c, ve, ze)
    ensures AgreesWith(out, Oracle(op, a, b, c, rn), op.Negates())
  {
    hide Pow, Decode, HasNan, NanPromise, FlipSign, Oracle, Causes, InfinitySign, Classify, DividesByZero, HasInfinity, Relevant;
    OracleSpecial(op, a, b, c, rn);
    DefaultIsNan();
    var sign := InfinitySign(op, D64(a), D64(b), D64(c));
    DecodeInfinity(sign, B64);
    ZeroDenotes(sign, B64);
    MagnitudeBelowSign(B64);
    FlipSigned(sign, B64.Infinity(), B64);
    FlipSigned(sign, 0, B64);
    DivideOnly(op, a, b);
    DecodeInfinity(D64(a).sign != D64(b).sign, B64);
  }

  lemma DivideOnly(op: PpcOp, a: nat, b: nat)
    ensures DividesByZero(op, a, b) ==> !op.Negates()
  {
    hide Pow, Decode;
  }

  lemma DefaultIsNan()
    ensures D64(B64.DefaultNan()).IsNan()
  {
    hide Pow;
    PowMono(0, 51);
    PowStep(51);
    PowTwo();
    DecodeSpecial(false, Pow(51), B64);
  }

  lemma InfinityBits(bits: nat)
    requires bits < B64.Size() && D64(bits).kind == Inf
    ensures bits == B64.Signed(D64(bits).sign, B64.Infinity())
  {
    hide Pow;
    FieldsBack(bits, B64);
  }

  lemma OneInfinity(op: PpcOp, a: nat, b: nat, c: nat)
    requires op.Frsp?
    ensures HasNan(Relevant(op, a, b, c)) == D64(b).IsNan() && HasInfinity(Relevant(op, a, b, c)) == (D64(b).kind == Inf)
    ensures Causes(op, a, b, c) == {} && !DividesByZero(op, a, b)
  {
    hide Pow, Decode;
    assert Relevant(op, a, b, c)[0] == b;
  }

  // The operation.

  method SignallingCause(operands: seq<nat>) returns (invalid: set<Cause>)
    ensures invalid == SnanCause(operands)
  {
    hide Pow, Decode;
    invalid := {};
    for i := 0 to |operands|
      invariant invalid == SnanCause(operands[..i])
    {
      if D64(operands[i]).kind == SNan {
        invalid := invalid + {VxSnan};
      }
      PrefixSnan(operands, i);
    }
    assert operands[..|operands|] == operands;
  }

  lemma PrefixSnan(operands: seq<nat>, i: nat)
    requires i < |operands|
    ensures HasSnan(operands[..i + 1]) == (HasSnan(operands[..i]) || D64(operands[i]).kind == SNan)
  {
    hide Pow, Decode;
    var next := operands[..i + 1];
    assert next[i] == operands[i];
    assert forall j | 0 <= j < i :: next[j] == operands[..i][j];
  }

  method SearchNan(operands: seq<nat>) returns (i: nat)
    ensures i <= |operands| && (i < |operands| <==> HasNan(operands)) && (i < |operands| ==> FirstNan(operands, i))
  {
    hide Pow, Decode;
    i := 0;
    while i < |operands| && !D64(operands[i]).IsNan()
      invariant i <= |operands| && forall j | 0 <= j < i :: !D64(operands[j]).IsNan()
    {
      i := i + 1;
    }
  }

  method AnyInfinity(operands: seq<nat>) returns (any: bool)
    ensures any == HasInfinity(operands)
  {
    hide Pow, Decode;
    var i := 0;
    while i < |operands| && D64(operands[i]).kind != Inf
      invariant 0 <= i <= |operands| && forall j | 0 <= j < i :: D64(operands[j]).kind != Inf
    {
      i := i + 1;
    }
    any := i < |operands|;
  }

  method InvalidCauses(op: PpcOp, a: Decoded, b: Decoded, c: Decoded) returns (invalid: set<Cause>)
    ensures invalid == OperandCauses(op, a, b, c)
  {
    invalid := {};
    if op.Fmul? || op.IsFused() {
      if (a.kind == Inf && c.IsZero()) || (c.kind == Inf && a.IsZero()) {
        invalid := invalid + {VxImz};
      }
    }
    if (op.Fadd? || op.Fsub?) && a.kind == Inf && b.kind == Inf
       && (if op.Fadd? then a.sign != b.sign else a.sign == b.sign) {
      invalid := invalid + {VxIsi};
    }
    if op.IsFused() && (a.kind == Inf || c.kind == Inf) && b.kind == Inf && !a.IsNan() && !c.IsNan() && !(VxImz in invalid) {
      var productSign := a.sign != c.sign;
      var addendSign := b.sign != op.SubtractsB();
      if productSign != addendSign {
        invalid := invalid + {VxIsi};
      }
    }
    if op.Fdiv? && a.kind == Inf && b.kind == Inf {
      invalid := invalid + {VxIdi};
    }
    if op.Fdiv? && a.IsZero() && b.IsZero() {
      invalid := invalid + {VxZdz};
    }
  }

  method CompareOperands(op: PpcOp, a: nat, b: nat, ve: bool) returns (out: PpcResult)
    requires op.IsCompare()
    ensures ComparePromise(out, op, a, b, ve)
  {
    hide Pow, Decode;
    var da, db := D64(a), D64(b);
    out := INITIAL;
    if da.IsNan() || db.IsNan() {
      var hasSnan := da.kind == SNan || db.kind == SNan;
      out := out.(fpcc := 1, invalid := if hasSnan then {VxSnan} else {});
      if op.Fcmpo? && (!hasSnan || !ve) {
        out := out.(invalid := out.invalid + {VxVc});
      }
    } else {
      var cmp := Calculate(Cmp, a, b, 0, B64);
      out := out.(fpcc := if cmp.bits == 0 then 2 else if cmp.bits == 1 then 8 else 4);
    }
    out := out.(compareValid := true, writeResult := false, frfiValid := false);
  }

  method ConvertToWord(op: PpcOp, b: nat, rn: nat, ve: bool, causes: set<Cause>) returns (out: PpcResult)
    requires op.IsToInteger() && causes == SnanCause([b])
    ensures IntegerPromise(out, op, b, rn, ve)
  {
    hide Pow, Decode, Calculate;
    var rounded := Calculate(FToI32, b, 0, if op.Fctiwz? then 1 else rn, B64);
    out := INITIAL.(invalid := causes);
    if rounded.invalid {
      out := out.(invalid := out.invalid + {VxCvi},
                  result := if D64(b).IsNan() || D64(b).sign then 0x8000_0000 else 0x7fff_ffff);
    } else {
      out := out.(result := rounded.bits, xx := rounded.nx, fi := rounded.nx, fr := rounded.increment);
    }
    out := out.(writeResult := !(ve && out.invalid != {}));
  }

  method DeliverNan(op: PpcOp, a: nat, b: nat, c: nat, ve: bool, causes: set<Cause>, i: nat, ghost ze: bool) returns (out: PpcResult)
    requires !op.IsCompare() && !op.IsToInteger()
    requires causes == SnanCause(Relevant(op, a, b, c)) + Causes(op, a, b, c)
    requires i < |Relevant(op, a, b, c)| && FirstNan(Relevant(op, a, b, c), i)
    ensures SpecialPromise(out, op, a, b, c, ve, ze)
  {
    hide Pow, D64, Classify, SnanCause, OperandCauses, Relevant, FirstNan, HasNan, ClearLow;
    FirstHas(Relevant(op, a, b, c), i);
    var q := B64.Quiet(Relevant(op, a, b, c)[i]);
    out := INITIAL.(invalid := causes, result := if op.Frsp? then ClearLow(q) else q,
                    writeResult := !(ve && causes != {}));
    out := out.(fprf := Classify(out.result, B64), fprfValid := out.writeResult);
  }

  lemma FirstHas(operands: seq<nat>, i: nat)
    requires FirstNan(operands, i)
    ensures i < |operands| && HasNan(operands)
  {
    hide D64;
  }

  /** A masked invalid operation, a zero divisor, or an infinity, when no operand is a NaN. */
  method DeliverSpecial(op: PpcOp, a: nat, b: nat, c: nat, rn: nat, ve: bool, ze: bool, causes: set<Cause>) returns (out: PpcResult)
    requires !op.IsCompare() && !op.IsToInteger() && !op.Frsp?
    requires causes == Causes(op, a, b, c) && !HasNan(Relevant(op, a, b, c)) && IsSpecial(op, a, b, c)
    ensures SpecialPromise(out, op, a, b, c, ve, ze)
  {
    hide Pow, Decode, Classify, Causes, HasNan, HasInfinity, InfinityResult, NanPromise, Relevant, Oracle, FlipSign;
    if op.Fdiv? && causes == {} && D64(a).kind == Finite && D64(a).significand != 0 && D64(b).IsZero() {
      out := INITIAL.(zx := true, result := B64.Signed(D64(a).sign != D64(b).sign, B64.Infinity()), writeResult := !ze);
      out := out.(fprf := Classify(out.result, B64), fprfValid := out.writeResult);
    } else if causes != {} {
      out := INITIAL.(invalid := causes, result := B64.DefaultNan(), writeResult := !ve);
      out := out.(fprf := Classify(out.result, B64), fprfValid := out.writeResult);
    } else {
      var bits := Oracle(op, a, b, c, rn).bits;
      SpecialBits(op, a, b, c, rn);
      out := INITIAL.(result := if op.Negates() && !D64(bits).IsNan() then FlipSign(bits, B64) else bits);
      out := out.(fprf := Classify(out.result, B64), fprfValid := true);
    }
  }

  lemma SpecialBits(op: PpcOp, a: nat, b: nat, c: nat, rn: nat)
    requires !op.IsCompare() && !op.IsToInteger() && !op.Frsp?
    requires Causes(op, a, b, c) == {} && !HasNan(Relevant(op, a, b, c)) && HasInfinity(Relevant(op, a, b, c)) && !DividesByZero(op, a, b)
    ensures var bits, sign := Oracle(op, a, b, c, rn).bits, InfinitySign(op, D64(a), D64(b), D64(c));
            (if op.Negates() && !D64(bits).IsNan() then FlipSign(bits, B64) else bits)
            == B64.Signed(sign != op.Negates(), if op.Fdiv? && D64(b).kind == Inf then 0 else B64.Infinity())
  {
    hide Pow, Decode, HasNan, FlipSign, Oracle, Causes, InfinitySign, DividesByZero, HasInfinity, Relevant;
    OracleSpecial(op, a, b, c, rn);
    var sign := InfinitySign(op, D64(a), D64(b), D64(c));
    DecodeInfinity(sign, B64);
    ZeroDenotes(sign, B64);
    MagnitudeBelowSign(B64);
    FlipSigned(sign, B64.Infinity(), B64);
    FlipSigned(sign, 0, B64);
  }

  method RoundToSingle(b: nat, rn: nat, ni: bool, ve: bool, oe: bool, ue: bool, ghost a: nat, ghost c: nat, ghost ze: bool,
                       single: bool) returns (out: PpcResult)
    requires a < B64.Size() && b < B64.Size() && c < B64.Size() && !D64(b).IsNan()
    ensures if D64(b).kind == Inf then SpecialPromise(out, Frsp, a, b, c, ve, ze)
            else FinitePromise(out, Frsp, D64(a), D64(b), D64(c), rn, single, ni, oe, ue)
  {
    hide Pow, Decode, Classify, FiniteParts, FiniteResult, FinitePromise, HasNan, HasInfinity, Causes, DividesByZero, NanPromise, Relevant;
    OneInfinity(Frsp, a, b, c);
    if D64(b).kind == Inf {
      InfinityBits(b);
      out := INITIAL.(result := b, fprf := Classify(b, B64), fprfValid := true);
    } else {
      var zero := Decoded(Finite, false, 0, 0);
      var (n, d, exponent, sign) := FiniteParts(Frsp, zero, D64(b), zero, rn);
      FormatConstants();
      FrspParts(zero, D64(a), D64(b), zero, D64(c), rn);
      FiniteKeepsPromise(Frsp, a, b, c, rn, single, ni, oe, ue, INITIAL);
      out := FiniteResult(n, d, exponent, sign, false, rn, B32, ni, oe, ue, INITIAL);
    }
  }

  lemma FrspParts(a: Decoded, a': Decoded, b: Decoded, c: Decoded, c': Decoded, rn: nat)
    ensures FiniteParts(Frsp, a, b, c, rn) == FiniteParts(Frsp, a', b, c', rn)
  {
    hide Pow;
  }

  /** Main theorem: every operation, operand, mode and enable keeps its promise. */
  method Arithmetic(op: PpcOp, a: nat, b: nat, c: nat, rn: nat, single: bool, ni: bool,
                    ve: bool, oe: bool, ue: bool, ze: bool) returns (out: PpcResult)
    requires a < B64.Size() && b < B64.Size() && c < B64.Size()
    ensures op.IsCompare() ==> ComparePromise(out, op, a, b, ve)
    ensures op.IsToInteger() ==> IntegerPromise(out, op, b, rn, ve)
    ensures !op.IsCompare() && !op.IsToInteger() && IsSpecial(op, a, b, c) ==> SpecialPromise(out, op, a, b, c, ve, ze)
    ensures !op.IsCompare() && !op.IsToInteger() && !IsSpecial(op, a, b, c) ==>
              && (op.Fdiv? ==> Value(D64(b)) != 0.0)
              && FinitePromise(out, op, D64(a), D64(b), D64(c), rn, single, ni, oe, ue)
    ensures !op.IsCompare() && !op.IsToInteger() && !op.Frsp? && !HasNan(Relevant(op, a, b, c)) && !single && !ni && !oe && !ue ==>
              AgreesWith(out, Oracle(op, a, b, c, rn), op.Negates())
  {
    hide Pow, Decode, Classify, Causes, OperandCauses, HasNan, HasInfinity, DividesByZero, Oracle, AgreesWith, SpecialPromise, FinitePromise, FiniteParts, FiniteResult,
         ComparePromise, IntegerPromise, SnanCause, Scale, FirstNan, FiniteOperands, Value;
    if op.IsCompare() {
      out := CompareOperands(op, a, b, ve);
      return;
    }
    var operands := Relevant(op, a, b, c);
    var invalid := SignallingCause(operands);
    if op.IsToInteger() {
      out := ConvertToWord(op, b, rn, ve, invalid);
      return;
    }
    var causes := InvalidCauses(op, D64(a), D64(b), D64(c));
    assert causes == Causes(op, a, b, c) by {
      hide *;
      CausesDefinition(op, a, b, c);
    }
    var i := SearchNan(operands);
    if i < |operands| {
      out := DeliverNan(op, a, b, c, ve, invalid + causes, i, ze);
      return;
    }
    if op.Frsp? {
      FrspSpecial(op, a, b, c);
      out := RoundToSingle(b, rn, ni, ve, oe, ue, a, c, ze, single);
      return;
    }
    var infinite := AnyInfinity(operands);
    DivisorTest(op, a, b);
    if causes != {} || infinite || (op.Fdiv? && D64(a).kind == Finite && D64(a).significand != 0 && D64(b).IsZero()) {
      out := DeliverSpecial(op, a, b, c, rn, ve, ze, causes);
      SpecialAgrees(op, a, b, c, rn, ve, ze, out);
    } else {
      FiniteTail(op, a, b, c, rn, single, ni, oe, ue);
      var (n, d, exponent, sign) := FiniteParts(op, D64(a), D64(b), D64(c), rn);
      out := FiniteResult(n, d, exponent, sign, op.Negates(), rn, ResultFormat(op, single), ni, oe, ue, INITIAL);
    }
  }

  lemma CausesDefinition(op: PpcOp, a: nat, b: nat, c: nat)
    ensures Causes(op, a, b, c) == OperandCauses(op, D64(a), D64(b), D64(c))
  {
    hide OperandCauses, D64;
  }

  lemma FrspSpecial(op: PpcOp, a: nat, b: nat, c: nat)
    requires op.Frsp? && !HasNan(Relevant(op, a, b, c))
    ensures !D64(b).IsNan() && IsSpecial(op, a, b, c) == (D64(b).kind == Inf)
  {
    hide Pow, Decode, HasNan, HasInfinity, Causes, DividesByZero;
    OneInfinity(op, a, b, c);
  }

  lemma DivisorTest(op: PpcOp, a: nat, b: nat)
    ensures DividesByZero(op, a, b) == (op.Fdiv? && D64(a).kind == Finite && D64(a).significand != 0 && D64(b).IsZero())
  {
    hide Pow, Decode;
  }

  lemma FiniteTail(op: PpcOp, a: nat, b: nat, c: nat, rn: nat, single: bool, ni: bool, oe: bool, ue: bool)
    requires !op.IsCompare() && !op.IsToInteger() && !op.Frsp? && !IsSpecial(op, a, b, c)
    requires a < B64.Size() && b < B64.Size() && c < B64.Size()
    ensures op.Fdiv? ==> Value(D64(b)) != 0.0 && D64(b).significand != 0
    ensures var (n, d, e, sign) := FiniteParts(op, D64(a), D64(b), D64(c), rn);
            var f := ResultFormat(op, single);
            var out := FiniteResult(n, d, e, sign, op.Negates(), rn, f, ni, oe, ue, INITIAL);
            && f.Valid() && FinitePromise(out, op, D64(a), D64(b), D64(c), rn, single, ni, oe, ue)
            && (!single && !ni && !oe && !ue ==> AgreesWith(out, Oracle(op, a, b, c, rn), op.Negates()))
  {
    hide Pow, Decode, IsSpecial, Oracle, AgreesWith, FinitePromise, FiniteParts, FiniteResult, Value, Scale;
    NotSpecialIsFinite(op, a, b, c);
    FiniteKeepsPromise(op, a, b, c, rn, single, ni, oe, ue, INITIAL);
    FiniteAgrees(op, a, b, c, rn, INITIAL);
  }
}
