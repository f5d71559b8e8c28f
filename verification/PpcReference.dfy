/** The PowerPC result model over the exact oracle: status flags, enabled overflow and underflow, fused forms. */
module PpcReference {
  import opened Dyadic
  import opened FpReference

  datatype PpcOp =
    | Fadd | Fsub | Fmul | Fdiv | Fmadd | Fmsub | Fnmadd | Fnmsub
    | Frsp | Fctiw | Fctiwz | Fcmpu | Fcmpo
  {
    predicate IsFused() {
      Fmadd? || Fmsub? || Fnmadd? || Fnmsub?
    }

    predicate SubtractsB() {
      Fmsub? || Fnmsub?
    }

    predicate Negates() {
      Fnmadd? || Fnmsub?
    }

    predicate IsCompare() {
      Fcmpu? || Fcmpo?
    }

    predicate IsToInteger() {
      Fctiw? || Fctiwz?
    }
  }

  datatype Cause = VxSnan | VxIsi | VxIdi | VxZdz | VxImz | VxVc | VxCvi

  /** Raw FPR result and exception metadata of one operation. */
  datatype PpcResult = PpcResult(
    result: nat, writeResult: bool, invalid: set<Cause>,
    ox: bool, ux: bool, zx: bool, xx: bool, fr: bool, fi: bool, frfiValid: bool,
    fprf: nat, fprfValid: bool, fpcc: nat, compareValid: bool, tinyBeforeRound: bool)

  const INITIAL := PpcResult(0, true, {}, false, false, false, false, false, false, true, 0, false, 0, false, false)

  /** The five-bit FPRF class of an encoding. */
  function Classify(bits: nat, f: Format): nat
    requires f.Valid()
  {
    var d := Decode(bits, f);
    if d.IsNan() then 0x11
    else if d.kind == Inf then if d.sign then 0x09 else 0x05
    else if d.significand == 0 then if d.sign then 0x12 else 0x02
    else if d.significand < Pow(f.fraction) then if d.sign then 0x18 else 0x14
    else if d.sign then 0x08 else 0x04
  }

  /** Rounds to the given precision with no bound on the exponent: mantissa, quantum, inexact, incremented. */
  function UnboundedRound(n: nat, d: nat, exponent: int, sign: bool, rn: nat, precision: nat): (nat, int, bool, bool)
    requires d > 0
  {
    hide Pow;
    var quantum := RatioTop(n, d, exponent) - precision + 1;
    var sn := ScaledNumerator(n, exponent - quantum);
    var sd := ScaledDenominator(d, exponent - quantum);
    var (mantissa, inexact, increment) := RoundedQuotient(sn, sd, sign, rn);
    if BitLength(mantissa) > precision then (mantissa / 2, quantum + 1, inexact, increment)
    else (mantissa, quantum, inexact, increment)
  }

  function D64(bits: nat): Decoded {
    Decode(bits, B64)
  }

  /** Exact magnitude n/d * 2^exponent and sign of a finite operation before rounding. */
  function FiniteParts(op: PpcOp, a: Decoded, b: Decoded, c: Decoded, rn: nat): (nat, nat, int, bool)
    requires !op.IsCompare() && !op.IsToInteger()
    requires op.Fdiv? ==> b.significand > 0
    ensures FiniteParts(op, a, b, c, rn).1 > 0
  {
    hide Pow;
    if op.Frsp? then (b.significand * Pow(52), 1, b.exponent - 52, b.sign)
    else if op.Fmul? then (a.significand * c.significand, 1, a.exponent + c.exponent, a.sign != c.sign)
    else if op.Fdiv? then (a.significand, b.significand, a.exponent - b.exponent, a.sign != b.sign)
    else
      var x := if op.IsFused() then Product(a, c) else a;
      var (n, e, sign) := SumParts(x, if op.Fsub? || op.SubtractsB() then Negated(b) else b, rn);
      (n, 1, e, sign)
  }

  function FlipSign(bits: nat, f: Format): nat {
    if bits / Pow(f.SignBit()) % 2 == 1 then
      SignBitBound(bits, Pow(f.SignBit()));
      bits - Pow(f.SignBit())
    else bits + Pow(f.SignBit())
  }

  lemma SignBitBound(bits: nat, p: nat)
    requires p > 0 && bits / p % 2 == 1
    ensures bits >= p
  {
  }

  /** The operands an operation reads, in NaN priority order. */
  function Relevant(op: PpcOp, a: nat, b: nat, c: nat): seq<nat> {
    if op.IsFused() then [a, b, c]
    else if op.Fmul? then [a, c]
    else if op.Frsp? || op.IsToInteger() then [b]
    else [a, b]
  }

  /** Invalid-operation causes other than a signalling NaN. */
  function OperandCauses(op: PpcOp, a: Decoded, b: Decoded, c: Decoded): set<Cause> {
    var imz := (op.Fmul? || op.IsFused()) && ((a.kind == Inf && c.IsZero()) || (c.kind == Inf && a.IsZero()));
    var sum := (op.Fadd? || op.Fsub?) && a.kind == Inf && b.kind == Inf && (a.sign != b.sign) == op.Fadd?;
    var fused := op.IsFused() && (a.kind == Inf || c.kind == Inf) && b.kind == Inf && !a.IsNan() && !c.IsNan() && !imz
                 && (a.sign != c.sign) != (b.sign != op.SubtractsB());
    (if imz then {VxImz} else {})
    + (if sum || fused then {VxIsi} else {})
    + (if op.Fdiv? && a.kind == Inf && b.kind == Inf then {VxIdi} else {})
    + (if op.Fdiv? && a.IsZero() && b.IsZero() then {VxZdz} else {})
  }

  /** The enabled exceptions shift the exponent by this much. */
  function Adjustment(f: Format, overflow: bool): int {
    (if f == B32 then 192 else 1536) * (if overflow then -1 else 1)
  }

  /** Overflow under OE or tininess under UE delivers an exponent-adjusted binary64 result. */
  function ScaledResult(n: nat, d: nat, exponent: int, sign: bool, negate: bool, rn: nat, f: Format,
                        overflow: bool, out: PpcResult): PpcResult
    requires d > 0
  {
    hide Pow;
    var (mantissa, quantum, inexact, increment) := UnboundedRound(n, d, exponent, sign, rn, f.fraction + 1);
    var packed := PackRatio(mantissa, 1, quantum + Adjustment(f, overflow), sign, 0, B64).bits;
    var adjusted := if negate then FlipSign(packed, B64) else packed;
    out.(xx := inexact, fi := inexact, fr := increment, result := adjusted,
         fprf := Classify(adjusted, B64), fprfValid := true)
  }

  function FlushSubnormal(bits: nat, ni: bool, f: Format): nat {
    if ni && bits / Pow(f.fraction) % Pow(f.exponent) == 0 && bits % Pow(f.fraction) != 0
    then f.Signed(bits / Pow(f.SignBit()) != 0, 0)
    else bits
  }

  /** A single result is delivered widened. */
  function InFpr(bits: nat, f: Format): nat
    requires f.Valid()
  {
    if f == B32 then Calculate(To64, bits, 0, 0, B32).bits else bits
  }

  function OrdinaryResult(p: Packed, negate: bool, ni: bool, f: Format, out: PpcResult): PpcResult
    requires f.Valid()
  {
    var flushed := FlushSubnormal(p.bits, ni, f);
    var bits := if negate then FlipSign(flushed, f) else flushed;
    out.(fprf := Classify(bits, f), result := InFpr(bits, f), fprfValid := true)
  }

  function FiniteStatus(p: Packed, tiny: bool, oe: bool, ue: bool, out: PpcResult): PpcResult {
    out.(tinyBeforeRound := tiny, ux := tiny && (ue || p.nx), ox := p.of,
         xx := p.nx || (p.of && !oe), fi := p.nx || (p.of && !oe), fr := p.increment, frfiValid := true)
  }

  /** Rounds a finite operation's exact result and sets its status. */
  function FiniteResult(n: nat, d: nat, exponent: int, sign: bool, negate: bool, rn: nat, f: Format,
                        ni: bool, oe: bool, ue: bool, out: PpcResult): PpcResult
    requires d > 0 && f.Valid()
  {
    hide Pow;
    var p := PackRatio(n, d, exponent, sign, rn, f);
    var tiny := n != 0 && RatioTop(n, d, exponent) < 1 - f.bias;
    var status := FiniteStatus(p, tiny, oe, ue, out);
    if (p.of && oe) || (tiny && ue)
    then ScaledResult(n, d, exponent, sign, negate, rn, f, p.of, status)
    else OrdinaryResult(p, negate, ni, f, status)
  }
}
