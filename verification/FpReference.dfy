/** The exact integer oracle for IEEE binary formats: decode, round, pack, and the operations over them. */
module FpReference {
  import opened Dyadic
  import opened Integers

  lemma LargeInfinity(e: nat, f: nat)
    ensures (Pow(e) - 1) * Pow(f) >= 0
    ensures e >= 2 ==> (Pow(e) - 1) * Pow(f) > 0
  {
    hide Pow;
    ProductSign(Pow(e) - 1, Pow(f));
    if e >= 2 {
      PowMono(1, e);
    }
  }

  datatype Format = Format(fraction: nat, exponent: nat, bias: nat) {
    ghost predicate Valid() {
      fraction >= 1 && exponent >= 2
    }

    function SignBit(): nat {
      fraction + exponent
    }

    function Infinity(): (n: nat)
      ensures Valid() ==> n > 0
    {
      hide Pow;
      LargeInfinity(exponent, fraction);
      (Pow(exponent) - 1) * Pow(fraction)
    }

    /** Exponent of the spacing between subnormals. */
    function MinQuantum(): int {
      1 - bias - fraction
    }

    /** All encodings of the format are below this bound. */
    function Size(): nat {
      Pow(SignBit() + 1)
    }

    function Signed(sign: bool, magnitude: nat): nat {
      (if sign then Pow(SignBit()) else 0) + magnitude
    }

    function Encode(sign: bool, exponentField: nat, fractionField: nat): nat {
      Signed(sign, exponentField * Pow(fraction) + fractionField)
    }

    /** Setting the top fraction bit makes any NaN quiet. */
    function Quiet(bits: nat): nat
      requires fraction >= 1
    {
      if bits / Pow(fraction - 1) % 2 == 1 then bits else bits + Pow(fraction - 1)
    }

    /** The NaN delivered for an invalid operation. */
    function DefaultNan(): nat
      requires fraction >= 1
    {
      Infinity() + Pow(fraction - 1)
    }
  }

  const B32 := Format(23, 8, 127)
  const B64 := Format(52, 11, 1023)

  datatype Kind = SNan | QNan | Inf | Finite

  /** significand * 2^exponent for a finite kind; a NaN keeps its fraction field. */
  datatype Decoded = Decoded(kind: Kind, sign: bool, significand: nat, exponent: int) {
    predicate IsNan() {
      kind == SNan || kind == QNan
    }

    predicate IsZero() {
      kind == Finite && significand == 0
    }
  }

  function Decode(bits: nat, f: Format): Decoded
    requires f.Valid()
  {
    var sign := bits / Pow(f.SignBit()) != 0;
    var exponent := bits / Pow(f.fraction) % Pow(f.exponent);
    var fraction := bits % Pow(f.fraction);
    if exponent == Pow(f.exponent) - 1 then
      var kind :=
        if fraction != 0 && fraction / Pow(f.fraction - 1) == 0 then SNan
        else if fraction != 0 then QNan
        else Inf;
      Decoded(kind, sign, fraction, 0)
    else
      var significand := fraction + if exponent != 0 then Pow(f.fraction) else 0;
      Decoded(Finite, sign, significand, (if exponent == 0 then 1 else exponent) - f.bias - f.fraction)
  }

  /** Raw bits, NX, UF, OF and rounded-away-from-zero. */
  datatype Packed = Packed(bits: nat, nx: bool, uf: bool, of: bool, increment: bool)

  /** Whether the discarded part remainder/divisor, after the integer quotient, rounds the magnitude up.
      Modes: 0 nearest even, 1 toward zero, 2 toward +infinity, 3 toward -infinity. */
  predicate RoundsUp(quotient: nat, remainder: nat, divisor: nat, sign: bool, rn: nat) {
    && remainder != 0
    && (|| (rn == 0 && (2 * remainder > divisor || (2 * remainder == divisor && quotient % 2 == 1)))
        || (rn == 2 && !sign)
        || (rn == 3 && sign))
  }

  /** n/d rounded to an integer: the rounded value, whether it is inexact, whether it was incremented. */
  function RoundedQuotient(n: nat, d: nat, sign: bool, rn: nat): (nat, bool, bool)
    requires d > 0
  {
    var increment := RoundsUp(n / d, n % d, d, sign, rn);
    (n / d + if increment then 1 else 0, n % d != 0, increment)
  }

  function RoundedInteger(n: nat, shift: int, sign: bool, rn: nat): (nat, bool, bool) {
    hide Pow;
    if shift <= 0 then (n * Pow(-shift), false, false) else RoundedQuotient(n, Pow(shift), sign, rn)
  }

  predicate OverflowsToInfinity(sign: bool, rn: nat) {
    rn == 0 || (rn == 2 && !sign) || (rn == 3 && sign)
  }

  /** The tail both packers share: renormalise a carry, then encode or overflow. */
  function Assemble(mantissa: nat, quantum: int, nx: bool, increment: bool, sign: bool, rn: nat, f: Format): Packed
    requires f.Valid() && quantum >= f.MinQuantum()
  {
    var carried := BitLength(mantissa) > f.fraction + 1;
    var m := if carried then mantissa / 2 else mantissa;
    var q := if carried then quantum + 1 else quantum;
    var resultExp := q + f.fraction + f.bias;
    if resultExp >= Pow(f.exponent) - 1 then
      var toInf := OverflowsToInfinity(sign, rn);
      Packed(f.Signed(sign, if toInf then f.Infinity() else f.Infinity() - 1), true, false, true, toInf)
    else
      var subnormal := m < Pow(f.fraction);
      Packed(f.Encode(sign, if subnormal then 0 else resultExp, m % Pow(f.fraction)), nx, nx && subnormal, false, increment)
  }

  function Max(a: int, b: int): int {
    if a >= b then a else b
  }

  function SignedZero(sign: bool, f: Format): Packed {
    Packed(f.Signed(sign, 0), false, false, false, false)
  }

  /** Rounds n * 2^exponent once at the destination. */
  function Pack(n: nat, exponent: int, sign: bool, rn: nat, f: Format): Packed
    requires f.Valid()
  {
    if n == 0 then
      SignedZero(sign, f)
    else
      var top := BitLength(n) - 1 + exponent;
      var quantum := Max(top - f.fraction, f.MinQuantum());
      var (mantissa, nx, increment) := RoundedInteger(n, quantum - exponent, sign, rn);
      Assemble(mantissa, quantum, nx, increment, sign, rn, f)
  }

  /** Exponent of the leading digit of n/d * 2^exponent. */
  function RatioTop(n: nat, d: nat, exponent: int): int {
    var guess := BitLength(n) - BitLength(d);
    var below := if guess >= 0 then n < d * Pow(guess) else n * Pow(-guess) < d;
    (if below then guess - 1 else guess) + exponent
  }

  /** n/d scaled so that its integer part counts units of 2^-shift. */
  function ScaledNumerator(n: nat, shift: int): nat {
    if shift >= 0 then n * Pow(shift) else n
  }

  function ScaledDenominator(d: nat, shift: int): (s: nat)
    ensures d > 0 ==> s > 0
  {
    hide Pow;
    if shift >= 0 then d else d * Pow(-shift)
  }

  /** Rounds n/d * 2^exponent once at the destination. */
  function PackRatio(n: nat, d: nat, exponent: int, sign: bool, rn: nat, f: Format): Packed
    requires d > 0 && f.Valid()
  {
    hide Pow;
    if n == 0 then
      SignedZero(sign, f)
    else
      var quantum := Max(RatioTop(n, d, exponent) - f.fraction, f.MinQuantum());
      var sn := ScaledNumerator(n, exponent - quantum);
      var sd := ScaledDenominator(d, exponent - quantum);
      var (mantissa, nx, increment) := RoundedQuotient(sn, sd, sign, rn);
      Assemble(mantissa, quantum, nx, increment, sign, rn, f)
  }

  datatype Op = Add | Sub | Mul | Div | Cmp | To32 | To64 | I32ToF | FToI32

  /** Raw result and independent IEEE exception flags. */
  datatype Outcome = Outcome(bits: nat, nx: bool, uf: bool, of: bool, dz: bool, invalid: bool, increment: bool)

  function Quietly(bits: nat, invalid: bool): Outcome {
    Outcome(bits, false, false, false, false, invalid, false)
  }

  function FromPacked(p: Packed): Outcome {
    Outcome(p.bits, p.nx, p.uf, p.of, false, false, p.increment)
  }

  function Flip(sign: bool, value: int): int {
    if sign then -value else value
  }

  function Magnitude(value: int): nat {
    if value < 0 then -value else value
  }

  function Min(a: int, b: int): int {
    if a <= b then a else b
  }

  /** significand * 2^exponent as an integer multiple of 2^unit. */
  function Aligned(d: Decoded, unit: int): int
    requires unit <= d.exponent
  {
    Flip(d.sign, d.significand * Pow(d.exponent - unit))
  }

  /** The sign of a sum: that of the exact value, or the rule for zero. */
  function SumSign(value: int, sa: bool, sb: bool, rn: nat): bool {
    if value != 0 then value < 0 else if sa == sb then sa else rn == 3
  }

  /** Magnitude, exponent and sign of the exact sum. */
  function SumParts(a: Decoded, b: Decoded, rn: nat): (nat, int, bool) {
    var exponent := Min(a.exponent, b.exponent);
    var value := Aligned(a, exponent) + Aligned(b, exponent);
    (Magnitude(value), exponent, SumSign(value, a.sign, b.sign, rn))
  }

  function PackSum(a: Decoded, b: Decoded, rn: nat, f: Format): Packed
    requires f.Valid()
  {
    var (n, exponent, sign) := SumParts(a, b, rn);
    Pack(n, exponent, sign, rn, f)
  }

  function Product(a: Decoded, b: Decoded): Decoded {
    Decoded(Finite, a.sign != b.sign, a.significand * b.significand, a.exponent + b.exponent)
  }

  /** Order codes: 0 equal, 1 less, 2 greater, 3 unordered. */
  function Compare(a: Decoded, b: Decoded): Outcome {
    if a.IsNan() || b.IsNan() then
      Quietly(3, a.kind == SNan || b.kind == SNan)
    else
      var (va, vb) :=
        if a.kind == Inf || b.kind == Inf then
          (CompareKey(a), CompareKey(b))
        else
          var exponent := Min(a.exponent, b.exponent);
          (Aligned(a, exponent), Aligned(b, exponent));
      Quietly(if va < vb then 1 else if va > vb then 2 else 0, false)
  }

  function CompareKey(d: Decoded): int {
    if d.kind == Inf then Flip(d.sign, 2) else if d.significand != 0 then Flip(d.sign, 1) else 0
  }

  /** Rounds to a signed 32-bit integer; invalid returns 0x80000000. */
  function ToInteger(a: Decoded, rn: nat): Outcome {
    if a.kind != Finite then
      Quietly(0x8000_0000, true)
    else
      var (magnitude, nx, increment) := RoundedInteger(a.significand, -a.exponent, a.sign, rn);
      var value := Flip(a.sign, magnitude);
      if !(-0x8000_0000 <= value < 0x8000_0000) then Quietly(0x8000_0000, true)
      else Outcome(value % 0x1_0000_0000, nx, false, false, false, false, increment)
  }

  /** Converts a decoded value of format f to the destination format. */
  function Convert(a: Decoded, rn: nat, f: Format, dest: Format): Outcome
    requires dest.Valid()
  {
    hide Pow;
    if a.IsNan() then
      var payload :=
        if f.fraction >= dest.fraction then a.significand / Pow(f.fraction - dest.fraction)
        else a.significand * Pow(dest.fraction - f.fraction);
      Quietly(dest.Quiet(dest.Signed(a.sign, dest.Infinity() + payload)), a.kind == SNan)
    else if a.kind == Inf then
      Quietly(dest.Signed(a.sign, dest.Infinity()), false)
    else
      FromPacked(Pack(a.significand, a.exponent, a.sign, rn, dest))
  }

  function AddDecoded(a: Decoded, b: Decoded, rn: nat, f: Format): Outcome
    requires f.Valid()
  {
    if a.kind == Inf && b.kind == Inf && a.sign != b.sign then Quietly(f.DefaultNan(), true)
    else if a.kind == Inf || b.kind == Inf then
      Quietly(f.Signed(if a.kind == Inf then a.sign else b.sign, f.Infinity()), false)
    else FromPacked(PackSum(a, b, rn, f))
  }

  function DivDecoded(a: Decoded, b: Decoded, rn: nat, f: Format): Outcome
    requires f.Valid() && !a.IsNan() && !b.IsNan()
  {
    var sign := a.sign != b.sign;
    if (a.kind == Inf && b.kind == Inf) || (a.IsZero() && b.IsZero()) then Quietly(f.DefaultNan(), true)
    else if a.kind == Finite && b.IsZero() then
      Outcome(f.Signed(sign, f.Infinity()), false, false, false, true, false, false)
    else if a.kind == Inf || b.kind == Inf then
      Quietly(f.Signed(sign, if a.kind == Inf then f.Infinity() else 0), false)
    else FromPacked(PackRatio(a.significand, b.significand, a.exponent - b.exponent, sign, rn, f))
  }

  function MulDecoded(a: Decoded, b: Decoded, rn: nat, f: Format): Outcome
    requires f.Valid()
  {
    var p := Product(a, b);
    if (a.kind == Inf && b.IsZero()) || (b.kind == Inf && a.IsZero()) then Quietly(f.DefaultNan(), true)
    else if a.kind == Inf || b.kind == Inf then Quietly(f.Signed(p.sign, f.Infinity()), false)
    else FromPacked(Pack(p.significand, p.exponent, p.sign, rn, f))
  }

  function Negated(d: Decoded): Decoded {
    d.(sign := !d.sign)
  }

  /** One operation over raw encodings of format f. */
  function Calculate(op: Op, a: nat, b: nat, rn: nat, f: Format): Outcome
    requires f.Valid()
  {
    hide Pow;
    var da, db := Decode(a, f), Decode(b, f);
    match op
    case I32ToF =>
      var word := a % 0x1_0000_0000;
      var value := if word >= 0x8000_0000 then word - 0x1_0000_0000 else word;
      FromPacked(Pack(Magnitude(value), 0, value < 0, rn, f))
    case Cmp => Compare(da, db)
    case FToI32 => ToInteger(da, rn)
    case To32 => Convert(da, rn, f, B32)
    case To64 => Convert(da, rn, f, B64)
    case _ =>
      if da.IsNan() || db.IsNan() then
        Quietly(f.Quiet(if da.IsNan() then a else b), da.kind == SNan || db.kind == SNan)
      else if op.Add? then AddDecoded(da, db, rn, f)
      else if op.Sub? then AddDecoded(da, Negated(db), rn, f)
      else if op.Div? then DivDecoded(da, db, rn, f)
      else MulDecoded(da, db, rn, f)
  }

  /** a*b + c with one rounding, either factor product or addend negated first. */
  function CalculateFma(a: nat, b: nat, c: nat, rn: nat, f: Format, negateProduct: bool, negateAddend: bool): Outcome
    requires f.Valid()
  {
    hide Pow;
    var da, db, dc := Decode(a, f), Decode(b, f), Decode(c, f);
    if da.IsNan() || db.IsNan() || dc.IsNan() then
      Quietly(f.Quiet(if da.IsNan() then a else if db.IsNan() then b else c),
              da.kind == SNan || db.kind == SNan || dc.kind == SNan)
    else
      var p := if negateProduct then Negated(Product(da, db)) else Product(da, db);
      var addend := if negateAddend then Negated(dc) else dc;
      if (da.kind == Inf && db.IsZero()) || (db.kind == Inf && da.IsZero()) then Quietly(f.DefaultNan(), true)
      else if da.kind == Inf || db.kind == Inf then
        if dc.kind == Inf && p.sign != addend.sign then Quietly(f.DefaultNan(), true)
        else Quietly(f.Signed(p.sign, f.Infinity()), false)
      else if dc.kind == Inf then Quietly(f.Signed(addend.sign, f.Infinity()), false)
      else FromPacked(PackSum(p, addend, rn, f))
  }
}
