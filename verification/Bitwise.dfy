/** Bitwise operations on unbounded naturals, and when they are arithmetic. */
module Bitwise {
  import opened Dyadic
  import opened Integers

  function And(x: nat, y: nat): nat {
    if x == 0 || y == 0 then 0
    else 2 * And(x / 2, y / 2) + (if x % 2 == 1 && y % 2 == 1 then 1 else 0)
  }

  function Or(x: nat, y: nat): nat {
    if x == 0 then y
    else if y == 0 then x
    else 2 * Or(x / 2, y / 2) + (if x % 2 == 1 || y % 2 == 1 then 1 else 0)
  }

  function Xor(x: nat, y: nat): nat {
    if x == 0 then y
    else if y == 0 then x
    else 2 * Xor(x / 2, y / 2) + (if x % 2 != y % 2 then 1 else 0)
  }

  lemma {:induction false} AndBound(x: nat, y: nat)
    ensures And(x, y) <= x && And(x, y) <= y
  {
    if x != 0 && y != 0 {
      AndBound(x / 2, y / 2);
    }
  }

  /** x with the bits of y cleared. */
  function Clear(x: nat, y: nat): nat {
    AndBound(x, y);
    x - And(x, y)
  }

  lemma AndHalf(x: nat, y: nat)
    ensures And(x, y) / 2 == And(x / 2, y / 2)
    ensures And(x, y) % 2 == (if x % 2 == 1 && y % 2 == 1 then 1 else 0)
  {
  }

  /** The bits of x from position k up, and those below it. */
  function High(x: nat, k: nat): nat {
    hide Pow;
    x / Pow(k)
  }

  function Low(x: nat, k: nat): nat {
    hide Pow;
    x % Pow(k)
  }

  function Shift(x: nat, k: nat): nat {
    hide Pow;
    x * Pow(k)
  }

  lemma HalfPow(x: nat, k: nat)
    ensures High(x / 2, k) == High(x, k + 1)
    ensures Low(x, k + 1) == 2 * Low(x / 2, k) + x % 2
  {
    var q, r := x / 2 / Pow(k), x / 2 % Pow(k);
    assert x / 2 == q * Pow(k) + r;
    assert Pow(k + 1) == 2 * Pow(k);
    assert x == q * (2 * Pow(k)) + (2 * r + x % 2);
    DivModUnique(x, Pow(k + 1), q, 2 * r + x % 2);
  }

  lemma NoBits(x: nat)
    ensures High(x, 0) == x && Low(x, 0) == 0
  {
  }

  /** Masking with a block of ones is a remainder. */
  lemma {:induction false} AndOnes(x: nat, k: nat)
    ensures And(x, Pow(k) - 1) == Low(x, k)
  {
    if k > 0 {
      AndOnes(x / 2, k - 1);
      HalfPow(x, k - 1);
      assert (Pow(k) - 1) / 2 == Pow(k - 1) - 1 && (Pow(k) - 1) % 2 == 1;
      AndPieces(x, Pow(k) - 1);
    }
  }

  lemma {:induction false} AndHigh(x: nat, y: nat, k: nat)
    ensures High(And(x, y), k) == And(High(x, k), High(y, k))
  {
    hide And, High, Low;
    if k == 0 {
      NoBits(x);
      NoBits(y);
      NoBits(And(x, y));
    } else {
      AndHigh(x / 2, y / 2, k - 1);
      AndHalf(x, y);
      HalfPow(x, k - 1);
      HalfPow(y, k - 1);
      HalfPow(And(x, y), k - 1);
    }
  }

  lemma {:induction false} AndLow(x: nat, y: nat, k: nat)
    ensures Low(And(x, y), k) == And(Low(x, k), Low(y, k))
  {
    hide And, High, Low;
    if k == 0 {
      NoBits(x);
      NoBits(y);
      NoBits(And(x, y));
      AndZero(0);
    } else {
      AndLow(x / 2, y / 2, k - 1);
      HalfPow(x, k - 1);
      HalfPow(y, k - 1);
      HalfPow(And(x, y), k - 1);
      AndHalf(x, y);
      AndPieces(Low(x, k), Low(y, k));
    }
  }

  lemma AndPieces(x: nat, y: nat)
    ensures And(x, y) == 2 * And(x / 2, y / 2) + (if x % 2 == 1 && y % 2 == 1 then 1 else 0)
  {
  }

  lemma AndZero(x: nat)
    ensures And(x, 0) == 0 && And(0, x) == 0
  {
  }

  /** A field of a masked word is zero where the mask is. */
  lemma AndField(x: nat, y: nat, j: nat, n: nat)
    requires Low(High(y, j), n) == 0
    ensures Low(High(And(x, y), j), n) == 0
  {
    hide And, High, Low;
    AndHigh(x, y, j);
    AndLow(High(x, j), High(y, j), n);
    AndZero(Low(High(x, j), n));
  }

  lemma {:induction false} OrBound(x: nat, y: nat)
    ensures x <= Or(x, y) && y <= Or(x, y)
  {
    if x != 0 && y != 0 {
      OrBound(x / 2, y / 2);
    }
  }

  /** Disjoint fields: or is addition. */
  lemma {:induction false} OrAdds(a: nat, b: nat, k: nat)
    requires b < Pow(k)
    ensures Or(Shift(a, k), b) == Shift(a, k) + b
  {
    if k > 0 {
      OrAdds(a, b / 2, k - 1);
      DoubleShift(a, k);
      OrPieces(Shift(a, k), b);
    }
  }

  lemma DoubleShift(a: nat, k: nat)
    requires k > 0
    ensures Shift(a, k) == 2 * Shift(a, k - 1)
  {
  }

  lemma OrPieces(x: nat, y: nat)
    ensures Or(x, y) == 2 * Or(x / 2, y / 2) + (if x % 2 == 1 || y % 2 == 1 then 1 else 0)
  {
  }

  lemma {:induction false} OrBelow(x: nat, y: nat, k: nat)
    requires x < Pow(k) && y < Pow(k)
    ensures Or(x, y) < Pow(k)
  {
    if k > 0 {
      OrBelow(x / 2, y / 2, k - 1);
      OrPieces(x, y);
    }
  }

  /** n is a power of two when it shares no bit with its predecessor. */
  lemma {:induction false} PowerOfTwo(n: nat) returns (k: nat)
    requires n >= 1 && And(n, n - 1) == 0
    ensures n == Pow(k)
  {
    if n == 1 {
      k := 0;
    } else if n % 2 == 0 {
      assert (n - 1) / 2 == n / 2 - 1;
      AndHalf(n, n - 1);
      var j := PowerOfTwo(n / 2);
      k := j + 1;
    } else {
      assert (n - 1) / 2 == n / 2;
      AndHalf(n, n - 1);
      AndSelf(n / 2);
      assert false;
    }
  }

  lemma {:induction false} AndSelf(n: nat)
    ensures And(n, n) == n
  {
    if n > 0 {
      AndSelf(n / 2);
    }
  }

  lemma AndBit(x: nat)
    ensures And(x, 1) == x % 2
    ensures And(x, 2) == 2 * (x / 2 % 2)
  {
    assert And(x / 2, 1) == x / 2 % 2 by {
      AndPieces(x / 2, 1);
    }
    AndPieces(x, 1);
    AndPieces(x, 2);
  }

  /** Or, exclusive or and addition differ by the shared bits. */
  lemma {:induction false} SharedBits(x: nat, y: nat)
    ensures Or(x, y) + And(x, y) == x + y
    ensures Xor(x, y) + 2 * And(x, y) == x + y
  {
    if x != 0 && y != 0 {
      SharedBits(x / 2, y / 2);
    }
  }
}
