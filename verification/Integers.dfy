/** Integer division, once. */
module Integers {
  lemma DivModUnique(a: int, b: int, q: int, r: int)
    requires b > 0 && 0 <= r < b && a == q * b + r
    ensures a / b == q && a % b == r
  {
    var q', r' := a / b, a % b;
    assert a == q' * b + r';
    QuotientGap(q - q', b, r' - r);
  }

  lemma QuotientGap(d: int, b: int, e: int)
    requires b > 0 && -b < e < b && d * b == e
    ensures d == 0
  {
    if d >= 1 {
      ProductSign(d - 1, b);
    }
    if d <= -1 {
      ProductSign(-d - 1, b);
    }
  }

  lemma ProductSign(a: int, b: int)
    requires a >= 0 && b > 0
    ensures a * b >= 0
    ensures a > 0 ==> a * b > 0
  {
  }

  lemma ModShift(a: int, q: int, d: int)
    requires d > 0
    ensures (a + d * q) % d == a % d
  {
    assert a == (a / d) * d + a % d;
    assert (a / d) * d + d * q == (a / d + q) * d;
    DivModUnique(a + d * q, d, a / d + q, a % d);
  }

  /** A 32-bit instruction's primary opcode, two register fields and low half. */
  lemma InstructionFields(op: nat, x: nat, y: nat, low: nat, word: nat)
    requires x < 32 && y < 32 && low < 0x1_0000 && word == op * 0x400_0000 + x * 0x20_0000 + y * 0x1_0000 + low
    ensures word / 0x400_0000 == op && word / 0x20_0000 % 32 == x && word / 0x1_0000 % 32 == y && word % 0x1_0000 == low
  {
    DivModUnique(word, 0x400_0000, op, x * 0x20_0000 + y * 0x1_0000 + low);
    DivModUnique(word, 0x20_0000, op * 32 + x, y * 0x1_0000 + low);
    DivModUnique(op * 32 + x, 32, op, x);
    DivModUnique(word, 0x1_0000, (op * 32 + x) * 32 + y, low);
    DivModUnique((op * 32 + x) * 32 + y, 32, op * 32 + x, y);
  }

  /** The low half's third register, extended opcode and final bit. */
  lemma LowFields(word: nat, z: nat, xo: nat, last: nat)
    requires z < 32 && xo < 1024 && last < 2 && word % 0x1_0000 == z * 0x800 + xo * 2 + last
    ensures word / 0x800 % 32 == z && word / 2 % 1024 == xo && word % 2 == last
  {
    var high := word / 0x1_0000;
    assert word == high * 0x1_0000 + z * 0x800 + xo * 2 + last;
    DivModUnique(word, 0x800, high * 32 + z, xo * 2 + last);
    DivModUnique(high * 32 + z, 32, high, z);
    DivModUnique(word, 2, (high * 32 + z) * 1024 + xo, last);
    DivModUnique((high * 32 + z) * 1024 + xo, 1024, high * 32 + z, xo);
  }
}
