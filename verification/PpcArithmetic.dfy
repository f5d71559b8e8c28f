/** One PowerPC floating-point operation end to end. */
module PpcArithmetic {
  import opened Dyadic
  import opened FpReference
  import opened RealRounding
  import opened FpCorrectness
  import opened FpEncoding
  import opened FpPacking
  import opened FpOperations
  import opened FpTheorems
  import opened FpConversions
  import opened PpcReference
  import opened PpcRounding
  import opened PpcExact

  function ResultFormat(op: PpcOp, single: bool): Format {
    if single || op.Frsp? then B32 else B64
  }

  predicate HasNan(operands: seq<nat>) {
    exists i | 0 <= i < |operands| :: D64(operands[i]).IsNan()
  }

  predicate HasSnan(operands: seq<nat>) {
    exists i | 0 <= i < |operands| :: D64(operands[i]).kind == SNan
  }

  predicate HasInfinity(operands: seq<nat>) {
    exists i | 0 <= i < |operands| :: D64(operands[i]).kind == Inf
  }

  function SnanCause(operands: seq<nat>): set<Cause> {
    if HasSnan(operands) then {VxSnan} else {}
  }

  predicate DividesByZero(op: PpcOp, a: nat, b: nat) {
    op.Fdiv? && D64(a).kind == Finite && D64(a).significand != 0 && D64(b).IsZero()
  }

  /** The unrounded oracle of a double-precision operation. */
  function Oracle(op: PpcOp, a: nat, b: nat, c: nat, rn: nat): Outcome
    requires !op.IsCompare() && !op.IsToInteger() && !op.Frsp?
  {
    if op.IsFused() then CalculateFma(a, c, b, rn, B64, false, op.SubtractsB())
    else Calculate(if op.Fadd? then Add else if op.Fsub? then Sub else if op.Fmul? then Mul else Div,
                   a, if op.Fmul? then c else b, rn, B64)
  }

  /** Result bits, XX, OX, ZX and some invalid cause as the oracle reports them; negated forms flip all but NaNs. */
  ghost predicate AgreesWith(out: PpcResult, r: Outcome, negate: bool) {
    && out.result == (if negate && !D64(r.bits).IsNan() then FlipSign(r.bits, B64) else r.bits)
    && out.xx == r.nx && out.ox == r.of && out.zx == r.dz && (out.invalid != {}) == r.invalid
  }

  ghost predicate ComparePromise(out: PpcResult, op: PpcOp, a: nat, b: nat, ve: bool) {
    var unordered, snan := D64(a).IsNan() || D64(b).IsNan(), D64(a).kind == SNan || D64(b).kind == SNan;
    var code := Calculate(Cmp, a, b, 0, B64).bits;
    && out.compareValid && !out.writeResult && !out.frfiValid
    && out.fpcc == (if unordered then 1 else if code == 1 then 8 else if code == 2 then 4 else 2)
    && (VxSnan in out.invalid <==> snan)
    && (VxVc in out.invalid <==> unordered && op.Fcmpo? && (!snan || !ve))
    && out.invalid <= {VxSnan, VxVc}
    && !out.ox && !out.ux && !out.zx && !out.xx && !out.fr && !out.fi && !out.fprfValid
  }

  ghost predicate IntegerPromise(out: PpcResult, op: PpcOp, b: nat, rn: nat, ve: bool) {
    var d := D64(b);
    var r := Calculate(FToI32, b, 0, if op.Fctiwz? then 1 else rn, B64);
    && out.invalid == SnanCause([b]) + (if r.invalid then {VxCvi} else {})
    && !out.ox && !out.ux && !out.zx && out.frfiValid && !out.compareValid && !out.fprfValid
    && out.writeResult == !(ve && out.invalid != {})
    && (if r.invalid then out.result == (if d.IsNan() || d.sign then 0x8000_0000 else 0x7fff_ffff) && !out.xx && !out.fi && !out.fr
        else out.result == r.bits && out.xx == r.nx && out.fi == r.nx && out.fr == r.increment)
  }

  /** Drops the fraction bits binary32 cannot hold. */
  function ClearLow(bits: nat): nat {
    hide Pow;
    bits - bits % Pow(29)
  }

  /** The first NaN operand, made quiet; a rounding to single clears what binary32 cannot hold. */
  ghost predicate NanPromise(out: PpcResult, op: PpcOp, a: nat, b: nat, c: nat, ve: bool) {
    var operands := Relevant(op, a, b, c);
    && out.invalid == SnanCause(operands) + OperandCauses(op, D64(a), D64(b), D64(c))
    && out.writeResult == !(ve && out.invalid != {})
    && (exists i | 0 <= i < |operands| :: FirstNan(operands, i) &&
          out.result == (var q := B64.Quiet(operands[i]); if op.Frsp? then ClearLow(q) else q))
  }

  predicate FirstNan(operands: seq<nat>, i: nat) {
    i < |operands| && D64(operands[i]).IsNan() && forall j | 0 <= j < i :: !D64(operands[j]).IsNan()
  }

  /** A single operation is promised binary32-exact operands. */
  ghost predicate AllowedOperands(op: PpcOp, a: Decoded, b: Decoded, c: Decoded, single: bool) {
    single && !op.Frsp? ==> SingleExact(a) && SingleExact(b) && SingleExact(c)
  }

  predicate FiniteOperands(op: PpcOp, a: Decoded, b: Decoded, c: Decoded) {
    && (!op.Frsp? ==> a.kind == Finite)
    && (!op.Fmul? ==> b.kind == Finite)
    && (op.Fmul? || op.IsFused() ==> c.kind == Finite)
    && (op.Fdiv? ==> b.significand != 0)
  }

  /** Finite operands: one rounding of the exact real, delivered and flagged by the enables. */
  ghost predicate FinitePromise(out: PpcResult, op: PpcOp, a: Decoded, b: Decoded, c: Decoded, rn: nat,
                                single: bool, ni: bool, oe: bool, ue: bool)
    requires ResultFormat(op, single).Valid()
    requires op.Fdiv? ==> Value(b) != 0.0
  {
    var f := ResultFormat(op, single);
    var v, sign := ExactFinite(op, a, b, c), ExactSign(op, a, b, c, rn);
    && out.writeResult && out.invalid == {} && !out.zx && out.frfiValid && out.fprfValid && !out.compareValid
    && Classified(out, f, oe, ue)
    && (if v == 0.0 then ZeroOutcome(out, sign, op.Negates())
        else (
          && NonzeroOutcome(out, Abs(v), sign, op.Negates(), rn, f, ni, oe, ue)
          && (AllowedOperands(op, a, b, c, single) ==> RoundsOnce(out, Abs(v), sign, op.Negates(), rn, f, oe, ue))))
  }

  /** Enabled overflow or underflow delivers exactly the adjusted single rounding. */
  ghost predicate RoundsOnce(out: PpcResult, x: real, sign: bool, negate: bool, rn: nat, f: Format, oe: bool, ue: bool)
    requires x > 0.0
  {
    (Overflows(x, sign, rn, f) && oe) || (Tiny(x, f) && ue) ==>
      Delivered(out.result, sign != negate, AdjustedMagnitude(x, sign, rn, f))
  }

  lemma ZeroDelivers(d: nat, e: int, sign: bool, negate: bool, rn: nat, f: Format, ni: bool, oe: bool, ue: bool, out: PpcResult)
    requires d > 0 && Supported(f) && f.Valid()
    ensures ZeroOutcome(FiniteResult(0, d, e, sign, negate, rn, f, ni, oe, ue, out), sign, negate)
  {
    hide Scale, Pow, Decode, Classify, InFpr, FlushSubnormal, Holds, Delivered, OrdinaryResult, FlipSign, Value, Supported, RatioTop;
    PackZero(d, e, sign, rn, f);
    var p := SignedZero(sign, f);
    var status := FiniteStatus(p, false, oe, ue, out);
    ZeroFlush(sign, ni, f);
    FlipHolds(p.bits, sign, 0.0, negate, f);
    InFprDelivered(if negate then FlipSign(p.bits, f) else p.bits, sign != negate, 0.0, f);
    OrdinaryBits(p, negate, ni, f, status);
    OrdinaryKeepsStatus(p, negate, ni, f, status);
  }

  lemma ZeroFlush(sign: bool, ni: bool, f: Format)
    requires f.Valid()
    ensures FlushSubnormal(f.Signed(sign, 0), ni, f) == f.Signed(sign, 0)
    ensures Holds(f.Signed(sign, 0), sign, 0.0, f)
  {
    hide Scale, Pow, Decode, FlushSubnormal;
    ZeroDenotes(sign, f);
    NonzeroValue(Decode(f.Signed(sign, 0), f));
    FlushField(f.Signed(sign, 0), ni, f);
  }

  /** The finite path keeps its promise. */
  lemma FiniteKeepsPromise(op: PpcOp, a: nat, b: nat, c: nat, rn: nat, single: bool, ni: bool, oe: bool, ue: bool, out: PpcResult)
    requires !op.IsCompare() && !op.IsToInteger() && a < B64.Size() && b < B64.Size() && c < B64.Size()
    requires FiniteOperands(op, D64(a), D64(b), D64(c))
    requires out.writeResult && out.invalid == {} && !out.zx && !out.compareValid
    ensures op.Fdiv? ==> Value(D64(b)) != 0.0
    ensures var (n, d, e, sign) := FiniteParts(op, D64(a), D64(b), D64(c), rn);
            var f := ResultFormat(op, single);
            f.Valid() && FinitePromise(FiniteResult(n, d, e, sign, op.Negates(), rn, f, ni, oe, ue, out),
                                       op, D64(a), D64(b), D64(c), rn, single, ni, oe, ue)
  {
    hide Scale, Pow, Decode, FiniteParts, FiniteResult, NonzeroOutcome, ZeroOutcome, ExactFinite, ExactSign, Val, Value,
         RoundsOnce, AllowedOperands, Classified;
    FormatConstants();
    FinitePartsExact(op, D64(a), D64(b), D64(c), rn);
    var (n, d, e, sign) := FiniteParts(op, D64(a), D64(b), D64(c), rn);
    var f := ResultFormat(op, single);
    var v := ExactFinite(op, D64(a), D64(b), D64(c));
    ValZero(n, d, e);
    var r := FiniteResult(n, d, e, sign, op.Negates(), rn, f, ni, oe, ue, out);
    FiniteKeepsRest(n, d, e, sign, op.Negates(), rn, f, ni, oe, ue, out);
    if n == 0 {
      ZeroDelivers(d, e, sign, op.Negates(), rn, f, ni, oe, ue, out);
    } else {
      FiniteDelivers(n, d, e, sign, op.Negates(), rn, f, ni, oe, ue, out);
      if AllowedOperands(op, D64(a), D64(b), D64(c), single) {
        PromisedRange(op, a, b, c, rn, sign, single);
        OutcomeRoundsOnce(r, Abs(v), sign, op.Negates(), rn, f, ni, oe, ue);
      }
    }
  }

  lemma OutcomeRoundsOnce(out: PpcResult, x: real, sign: bool, negate: bool, rn: nat, f: Format, ni: bool, oe: bool, ue: bool)
    requires x > 0.0 && f.Valid() && NonzeroOutcome(out, x, sign, negate, rn, f, ni, oe, ue)
    requires Overflows(x, sign, rn, f) || Tiny(x, f) ==> AdjustedInRange(x, f, Adjustment(f, Overflows(x, sign, rn, f)))
    ensures RoundsOnce(out, x, sign, negate, rn, f, oe, ue)
  {
    hide Overflows, Tiny, AdjustedInRange, Adjustment, UnboundedRounded, AdjustedMagnitude, Delivered, OrdinaryOutcome, OnGrid;
  }

  lemma PromisedRange(op: PpcOp, a: nat, b: nat, c: nat, rn: nat, sign: bool, single: bool)
    requires !op.IsCompare() && !op.IsToInteger() && a < B64.Size() && b < B64.Size() && c < B64.Size()
    requires FiniteOperands(op, D64(a), D64(b), D64(c)) && (op.Fdiv? ==> Value(D64(b)) != 0.0)
    requires AllowedOperands(op, D64(a), D64(b), D64(c), single)
    ensures var v, f := ExactFinite(op, D64(a), D64(b), D64(c)), ResultFormat(op, single);
            v != 0.0 && (Overflows(Abs(v), sign, rn, f) || Tiny(Abs(v), f)) ==>
              AdjustedInRange(Abs(v), f, Adjustment(f, Overflows(Abs(v), sign, rn, f)))
  {
    hide Scale, Pow, Decode, Spans, SingleExact, ExactFinite, Overflows, Tiny, AdjustedInRange, Value;
    var f := ResultFormat(op, single);
    var k := if f == B64 || op.Frsp? then 1074 else 149;
    OperandSpan(op, a, k);
    OperandSpan(op, b, k);
    OperandSpan(op, c, k);
    EnabledInRange(op, D64(a), D64(b), D64(c), rn, sign, f, k);
  }

  lemma OperandSpan(op: PpcOp, bits: nat, k: int)
    requires bits < B64.Size() && (k == 1074 || (k == 149 && SingleExact(D64(bits))))
    ensures D64(bits).kind == Finite ==> Spans(Value(D64(bits)), k)
  {
    hide Scale, Pow, Decode, Spans, SingleExact;
    if D64(bits).kind == Finite {
      if k == 1074 {
        OperandSpans(bits);
      } else {
        SingleSpans(D64(bits));
      }
    }
  }

  /** The fields the finite path leaves to its caller. */
  predicate SameRest(r: PpcResult, out: PpcResult) {
    && r.writeResult == out.writeResult && r.invalid == out.invalid && r.zx == out.zx
    && r.frfiValid && r.fprfValid && r.compareValid == out.compareValid
  }

  /** The class flags are those of an encoding in the format, delivered widened; it is no NaN. */
  ghost predicate ClassOfResult(out: PpcResult, bits: nat, f: Format)
    requires f.Valid()
  {
    bits < f.Size() && !Decode(bits, f).IsNan() && out.result == InFpr(bits, f) && out.fprf == Classify(bits, f)
  }

  /** An exponent-adjusted result is classed as the binary64 value delivered, any other as the encoding rounded in its format. */
  ghost predicate Classified(out: PpcResult, f: Format, oe: bool, ue: bool)
    requires f.Valid()
  {
    if (out.ox && oe) || (out.tinyBeforeRound && ue) then out.fprf == Classify(out.result, B64)
    else exists bits :: ClassOfResult(out, bits, f)
  }

  lemma FiniteKeepsRest(n: nat, d: nat, e: int, sign: bool, negate: bool, rn: nat, f: Format,
                        ni: bool, oe: bool, ue: bool, out: PpcResult)
    requires d > 0 && f.Valid()
    ensures SameRest(FiniteResult(n, d, e, sign, negate, rn, f, ni, oe, ue, out), out)
    ensures Classified(FiniteResult(n, d, e, sign, negate, rn, f, ni, oe, ue, out), f, oe, ue)
  {
    hide Pow, Decode, ScaledResult, OrdinaryResult, PackRatio, RatioTop, Classify, InFpr;
    var p := PackRatio(n, d, e, sign, rn, f);
    var tiny := n != 0 && RatioTop(n, d, e) < 1 - f.bias;
    var status := FiniteStatus(p, tiny, oe, ue, out);
    PackedFacts(n, d, e, sign, rn, f);
    ScaledKeepsRest(n, d, e, sign, negate, rn, f, p.of, status);
    ScaledKeepsStatus(n, d, e, sign, negate, rn, f, p.of, status);
    OrdinaryKeepsRest(p, negate, ni, f, status);
    OrdinaryKeepsStatus(p, negate, ni, f, status);
  }

  lemma ScaledKeepsRest(n: nat, d: nat, e: int, sign: bool, negate: bool, rn: nat, f: Format, over: bool, out: PpcResult)
    requires d > 0 && f.Valid()
    ensures var r := ScaledResult(n, d, e, sign, negate, rn, f, over, out);
            r.fprf == Classify(r.result, B64) && (out.frfiValid ==> SameRest(r, out))
  {
    hide Pow, UnboundedRound, PackRatio, Adjustment, FlipSign, Classify;
  }

  lemma OrdinaryKeepsRest(p: Packed, negate: bool, ni: bool, f: Format, out: PpcResult)
    requires f.Valid() && p.bits < f.Size() && !Decode(p.bits, f).IsNan()
    ensures exists bits :: ClassOfResult(OrdinaryResult(p, negate, ni, f, out), bits, f)
    ensures out.frfiValid ==> SameRest(OrdinaryResult(p, negate, ni, f, out), out)
  {
    hide Pow, Decode, FlipSign, Classify, InFpr, FlushSubnormal;
    var flushed := FlushSubnormal(p.bits, ni, f);
    FlushKeepsKind(p.bits, ni, f);
    DecodeFlip(flushed, f);
    var bits := if negate then FlipSign(flushed, f) else flushed;
    OrdinaryClass(p, negate, ni, f, out, bits);
  }

  lemma OrdinaryClass(p: Packed, negate: bool, ni: bool, f: Format, out: PpcResult, bits: nat)
    requires f.Valid() && bits < f.Size() && !Decode(bits, f).IsNan()
    requires var flushed := FlushSubnormal(p.bits, ni, f); bits == if negate then FlipSign(flushed, f) else flushed
    ensures ClassOfResult(OrdinaryResult(p, negate, ni, f, out), bits, f)
  {
    hide Pow, Decode, FlipSign, Classify, InFpr, FlushSubnormal;
  }

  lemma FlushKeepsKind(bits: nat, ni: bool, f: Format)
    requires f.Valid() && bits < f.Size() && !Decode(bits, f).IsNan()
    ensures FlushSubnormal(bits, ni, f) < f.Size() && !Decode(FlushSubnormal(bits, ni, f), f).IsNan()
  {
    hide Pow, Decode;
    ZeroDenotes(bits / Pow(f.SignBit()) != 0, f);
  }
}
