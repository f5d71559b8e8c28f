/** The packers deliver the correctly rounded value: an independent specification over the whole grid. */
module FpCorrectness {
  import opened Dyadic
  import opened FpReference
  import opened RealRounding

  /** g = m * 2^k is a multiple of the subnormal spacing with at most fraction+1 significant bits. */
  ghost predicate GridPair(g: real, m: nat, k: int, f: Format) {
    k >= f.MinQuantum() && m <= Pow(f.fraction + 1) && g == m as real * Scale(k)
  }

  /** The magnitudes of the format, its exponent range unbounded above. */
  ghost predicate OnGrid(g: real, f: Format) {
    exists m: nat, k: int :: GridPair(g, m, k, f)
  }

  /** (m, k) is the encoding's own significand and exponent: normalised, or at the subnormal spacing. */
  predicate Canonical(m: nat, k: int, f: Format) {
    k >= f.MinQuantum() && m < Pow(f.fraction + 1) && (m >= Pow(f.fraction) || k == f.MinQuantum())
  }

  ghost predicate CanonicalPair(g: real, m: nat, k: int, f: Format) {
    Canonical(m, k, f) && g == m as real * Scale(k)
  }

  /** g has an even significand in its encoding. */
  ghost predicate EvenPoint(g: real, f: Format) {
    exists m: nat, k: int :: CanonicalPair(g, m, k, f) && m % 2 == 0
  }

  ghost function Abs(x: real): real {
    if x < 0.0 then -x else x
  }

  /** Section 4.3 of IEEE 754-2008: r is the magnitude the mode selects for x among all grid points. */
  ghost predicate CorrectlyRounded(r: real, x: real, sign: bool, rn: nat, f: Format) {
    && OnGrid(r, f)
    && (forall g | OnGrid(g, f) :: SelectedOver(r, g, x, sign, rn, f))
  }

  ghost predicate SelectedOver(r: real, g: real, x: real, sign: bool, rn: nat, f: Format) {
    if rn == 0 then
      Abs(x - r) <= Abs(x - g) && (Abs(x - r) == Abs(x - g) && g != r ==> EvenPoint(r, f))
    else if (rn == 2 && !sign) || (rn == 3 && sign) then
      r >= x && (g >= x ==> g >= r)
    else
      r <= x && (g <= x ==> g <= r)
  }

  lemma MulIntReal(m: int, a: nat)
    ensures (m * Pow(a)) as real == m as real * Scale(a)
  {
    ScalePow(a);
  }

  lemma TopEnds(x: real)
    requires x > 0.0
    ensures Scale(Top(x)) <= x < Scale(Top(x) + 1)
  {
    hide Scale;
  }

  /** The measured value lies in the format's significand range. */
  lemma UnitsRange(x: real, f: Format)
    requires x > 0.0
    ensures Units(x, f) < Pow(f.fraction + 1) as real
    ensures Quantum(Top(x), f) > f.MinQuantum() ==> Units(x, f) >= Pow(f.fraction) as real
  {
    hide Scale, Pow, Units, Top;
    var t := Top(x);
    var q := Quantum(t, f);
    UnitsValue(x, f);
    ScalePow(f.fraction);
    ScalePow(f.fraction + 1);
    ScaleAdd(f.fraction + 1, q);
    ScaleAdd(f.fraction, q);
    ScaleMono(t + 1, f.fraction + 1 + q);
    TopEnds(x);
    ScaledOrder(Scale(q), Units(x, f), x, Scale(f.fraction + 1), Scale(f.fraction + 1 + q));
    ScaledOrder(Scale(q), Scale(f.fraction), Scale(f.fraction + q), Units(x, f), x);
  }

  /** Coarser grid points are whole numbers of units. */
  lemma CoarsePoint(g: real, m: nat, k: int, q: int)
    requires k >= q && g == m as real * Scale(k)
    ensures g == (m * Pow(k - q)) as real * Scale(q)
  {
    hide Scale, Pow;
    ScaleAdd(k - q, q);
    MulIntReal(m, k - q);
    assert m as real * (Scale(k - q) * Scale(q)) == (m as real * Scale(k - q)) * Scale(q);
  }

  /** Finer grid points lie at or below the leading power of two of x. */
  lemma FinePoint(g: real, m: nat, k: int, x: real, f: Format)
    requires x > 0.0 && GridPair(g, m, k, f) && k < Quantum(Top(x), f)
    ensures g <= Pow(f.fraction) as real * Scale(Quantum(Top(x), f)) <= x
  {
    hide Scale, Pow, Top, Units;
    var q := Quantum(Top(x), f);
    UnitsRange(x, f);
    UnitsValue(x, f);
    PowStep(f.fraction);
    ScaleMono(k, q - 1);
    ScaleStep(q - 1);
    ScaledOrder(Scale(q), Pow(f.fraction) as real, Pow(f.fraction) as real * Scale(q), Units(x, f), x);
    FineChain(m as real, Pow(f.fraction) as real, Pow(f.fraction + 1) as real, Scale(k), Scale(q - 1), Scale(q));
  }

  lemma FineChain(m: real, p: real, p': real, s: real, t: real, t': real)
    requires 0.0 <= m <= p' && p' == 2.0 * p && 0.0 < s <= t && t' == 2.0 * t
    ensures m * s <= p * t'
  {
    ScaledOrder(s, m, m * s, p', p' * s);
    MulLeft(p', s, t);
    HalfScale(p, p', t, t');
  }

  lemma HalfScale(a: real, a2: real, s: real, s2: real)
    requires a2 == 2.0 * a && s2 == 2.0 * s
    ensures a2 * s == a * s2
  {
  }

  lemma MulLeft(a: real, x: real, y: real)
    requires a >= 0.0 && x <= y
    ensures a * x <= a * y
  {
  }

  lemma PowStep(k: nat)
    ensures Pow(k + 1) == 2 * Pow(k)
  {
  }

  /** g is no closer to x = y*s than the whole units n, n' around y. */
  ghost predicate Beyond(g: real, x: real, s: real, n: real, n': real) {
    && (g <= x ==> g <= n * s)
    && (g >= x ==> g >= n' * s || (g == x && x == n * s))
  }

  /** No grid point lies strictly between the whole numbers of units around x. */
  lemma GridNeighbours(g: real, x: real, f: Format)
    requires x > 0.0 && OnGrid(g, f)
    ensures var n := Units(x, f).Floor;
            Beyond(g, x, Scale(Quantum(Top(x), f)), n as real, (n + 1) as real)
  {
    hide Scale, Pow;
    var q := Quantum(Top(x), f);
    var y := Units(x, f);
    UnitsValue(x, f);
    var m: nat, k: int :| GridPair(g, m, k, f);
    if k >= q {
      CoarsePoint(g, m, k, q);
      WholeUnits(m * Pow(k - q), y, Scale(q), g, x);
    } else {
      FinePoint(g, m, k, x, f);
      WholeUnits(Pow(f.fraction), y, Scale(q), Pow(f.fraction) as real * Scale(q), x);
    }
  }

  lemma WholeUnits(i: int, y: real, s: real, g: real, x: real)
    requires s > 0.0 && g == i as real * s && x == y * s
    ensures Beyond(g, x, s, y.Floor as real, (y.Floor + 1) as real)
  {
    var n := y.Floor;
    ScaledOrder(s, i as real, g, y, x);
    ScaledOrder(s, y, x, i as real, g);
    if g <= x {
      assert i <= n;
      ScaledOrder(s, i as real, g, n as real, n as real * s);
    }
    if g >= x {
      if i == n {
        assert y == n as real;
      } else {
        ScaledOrder(s, (n + 1) as real, (n + 1) as real * s, i as real, g);
      }
    }
  }

  /** The canonical form of a rounded significand: a carry past the top moves up one binade. */
  function CarryMantissa(m: nat, f: Format): nat {
    if m == Pow(f.fraction + 1) then Pow(f.fraction) else m
  }

  function CarryQuantum(m: nat, q: int, f: Format): int {
    if m == Pow(f.fraction + 1) then q + 1 else q
  }

  lemma RoundedCanonical(x: real, sign: bool, rn: nat, f: Format)
    requires x > 0.0
    ensures var m := Mantissa(x, sign, rn, f); var q := Quantum(Top(x), f);
            && m <= Pow(f.fraction + 1)
            && CanonicalPair(Rounded(x, sign, rn, f), CarryMantissa(m, f), CarryQuantum(m, q, f), f)
  {
    hide Scale, Pow;
    var m := Mantissa(x, sign, rn, f);
    var q := Quantum(Top(x), f);
    UnitsRange(x, f);
    PowStep(f.fraction);
    var y := Units(x, f);
    assert y.Floor < Pow(f.fraction + 1);
    assert q > f.MinQuantum() ==> Pow(f.fraction) <= y.Floor;
    ScaleStep(q);
    if m == Pow(f.fraction + 1) {
      HalfScale(Pow(f.fraction) as real, m as real, Scale(q), Scale(q + 1));
    }
  }

  lemma RoundedOnGrid(x: real, sign: bool, rn: nat, f: Format)
    requires x > 0.0
    ensures OnGrid(Rounded(x, sign, rn, f), f)
  {
    hide Scale, Pow;
    RoundedCanonical(x, sign, rn, f);
    assert GridPair(Rounded(x, sign, rn, f), Mantissa(x, sign, rn, f), Quantum(Top(x), f), f);
  }

  lemma TieIsEven(x: real, sign: bool, rn: nat, f: Format)
    requires x > 0.0 && rn == 0 && f.fraction >= 1
    requires var y := Units(x, f); y - y.Floor as real == 0.5
    ensures EvenPoint(Rounded(x, sign, rn, f), f)
  {
    hide Scale, Pow;
    var m := Mantissa(x, sign, rn, f);
    RoundedCanonical(x, sign, rn, f);
    PowStep(f.fraction - 1);
    assert m % 2 == 0;
    assert CanonicalPair(Rounded(x, sign, rn, f), CarryMantissa(m, f), CarryQuantum(m, Quantum(Top(x), f), f), f);
  }

  /** Where x = y*s stands between the whole units lo and hi around it. */
  lemma UnitDistances(x: real, y: real, s: real, n: real, n': real, lo: real, hi: real)
    requires s > 0.0 && x == y * s && lo == n * s && hi == n' * s && n' == n + 1.0 && n <= y < n'
    ensures lo <= x < hi
    ensures y == n <==> x == lo
    ensures y - n <= 0.5 <==> x - lo <= hi - x
    ensures y - n == 0.5 <==> x - lo == hi - x
  {
    var r := y - n;
    var p := r * s;
    AddedProduct(n, r, s, lo, p);
    AddedProduct(n, 1.0, s, lo, s);
    assert x == lo + p && hi == lo + s;
    ScaledOrder(s, 0.0, 0.0, r, p);
    ScaledOrder(s, r, p, 1.0, s);
    ScaledOrder(s, r, p, 0.5, s / 2.0);
  }

  lemma CloserPoint(x: real, lo: real, hi: real, r: real, g: real)
    requires lo <= x < hi
    requires g <= x ==> g <= lo
    requires g >= x ==> g >= hi || (g == x && x == lo)
    requires (r == lo && x - lo <= hi - x) || (r == hi && hi - x <= x - lo)
    ensures Abs(x - r) <= Abs(x - g)
    ensures Abs(x - r) == Abs(x - g) && g != r ==> x - lo == hi - x
  {
  }

  /** Which of the units around y the mode rounds to. */
  lemma RoundIntChoice(y: real, sign: bool, rn: nat)
    ensures var n, m := y.Floor, RoundInt(y, sign, rn);
            var frac := y - n as real;
            && 0.0 <= frac < 1.0
            && (if rn == 0 then (m == n && frac <= 0.5) || (m == n + 1 && frac >= 0.5)
                else if (rn == 2 && !sign) || (rn == 3 && sign) then m == if frac == 0.0 then n else n + 1
                else m == n)
  {
  }

  /** Whichever neighbour r of x the mode picks, no grid point g is preferred to it. */
  lemma NeighbourSelected(x: real, lo: real, hi: real, r: real, g: real, sign: bool, rn: nat, f: Format)
    requires lo <= x < hi && (g <= x ==> g <= lo) && (g >= x ==> g >= hi || (g == x && x == lo))
    requires if rn == 0 then (r == lo && x - lo <= hi - x) || (r == hi && hi - x <= x - lo)
             else if (rn == 2 && !sign) || (rn == 3 && sign) then r == if x == lo then lo else hi
             else r == lo
    requires rn == 0 && x - lo == hi - x ==> EvenPoint(r, f)
    ensures SelectedOver(r, g, x, sign, rn, f)
  {
    hide EvenPoint;
    if rn == 0 {
      CloserPoint(x, lo, hi, r, g);
    }
  }

  lemma Selects(x: real, y: real, s: real, g: real, sign: bool, rn: nat, f: Format)
    requires s > 0.0 && x == y * s
    requires Beyond(g, x, s, y.Floor as real, (y.Floor + 1) as real)
    requires rn == 0 && y - y.Floor as real == 0.5 ==> EvenPoint(RoundInt(y, sign, rn) as real * s, f)
    ensures SelectedOver(RoundInt(y, sign, rn) as real * s, g, x, sign, rn, f)
  {
    hide EvenPoint, RoundInt, SelectedOver;
    var n, n' := y.Floor as real, (y.Floor + 1) as real;
    var lo, hi, r := n * s, n' * s, RoundInt(y, sign, rn) as real * s;
    UnitDistances(x, y, s, n, n', lo, hi);
    RoundIntChoice(y, sign, rn);
    NeighbourSelected(x, lo, hi, r, g, sign, rn, f);
  }

  /** The rounding of x is the point of the grid its mode selects. */
  lemma RoundedIsCorrect(x: real, sign: bool, rn: nat, f: Format)
    requires x > 0.0 && f.Valid()
    ensures CorrectlyRounded(Rounded(x, sign, rn, f), x, sign, rn, f)
  {
    hide Scale, Pow;
    var r := Rounded(x, sign, rn, f);
    var y := Units(x, f);
    var s := Scale(Quantum(Top(x), f));
    RoundedOnGrid(x, sign, rn, f);
    UnitsValue(x, f);
    assert r == RoundInt(y, sign, rn) as real * s;
    forall g | OnGrid(g, f)
      ensures SelectedOver(r, g, x, sign, rn, f)
    {
      GridNeighbours(g, x, f);
      if rn == 0 && y - y.Floor as real == 0.5 {
        TieIsEven(x, sign, rn, f);
      }
      Selects(x, y, s, g, sign, rn, f);
    }
  }

  /** A value is inexact exactly when it is off the grid. */
  lemma InexactIffOffGrid(x: real, f: Format)
    requires x > 0.0
    ensures Units(x, f) != Units(x, f).Floor as real <==> !OnGrid(x, f)
  {
    hide Scale, Pow;
    var y := Units(x, f);
    var s := Scale(Quantum(Top(x), f));
    UnitsValue(x, f);
    UnitsRange(x, f);
    if y == y.Floor as real {
      assert GridPair(x, y.Floor, Quantum(Top(x), f), f);
    }
    if OnGrid(x, f) {
      GridNeighbours(x, x, f);
      var n := y.Floor;
      ScaledOrder(s, y, x, (n + 1) as real, (n + 1) as real * s);
      ScaledOrder(s, n as real, n as real * s, y, x);
    }
  }
}
