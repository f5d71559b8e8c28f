/** The two translation oracles agree on a request exactly when no enabled entry is malformed and none overlap. */
module BatEquivalence {
  import opened Wrappers
  import opened Dyadic
  import opened Integers
  import opened Bitwise
  import opened Bat

  predicate Word(x: nat) {
    x < 0x1_0000_0000
  }

  ghost predicate Words(pairs: seq<Pair>) {
    forall k | 0 <= k < |pairs| :: Word(pairs[k].upper) && Word(pairs[k].lower)
  }

  lemma HighParts(x: nat, m: nat)
    requires Word(x) && m == BLOCKMASK
    ensures High(m, 17) == 32767 && Low(m, 17) == 0 && High(x, 17) == x / BLOCK < 32768 && Low(x, 17) == x % BLOCK
  {
    WordPowers();
    hide Pow;
  }

  /** Masking a word with the block mask rounds it down to a block. */
  lemma MaskRounds(x: nat)
    requires Word(x)
    ensures And(x, BLOCKMASK) == x / BLOCK * BLOCK
  {
    var a := And(x, BLOCKMASK);
    AndBound(x, BLOCKMASK);
    hide And;
    HighParts(x, BLOCKMASK);
    AndHigh(x, BLOCKMASK, 17);
    AndLow(x, BLOCKMASK, 17);
    AndZero(Low(x, 17));
    WordPowers();
    AndOnes(High(x, 17), 15);
    HighParts(a, BLOCKMASK);
    assert Low(High(x, 17), 15) == High(x, 17);
  }

  /** A legal length spans a power-of-two number of blocks. */
  lemma LegalLength(length: nat) returns (k: nat)
    requires And(length + 1, length) == 0
    ensures length + 1 == Pow(k) && BLOCK * (length + 1) == Pow(k + 17) && length * BLOCK + (BLOCK - 1) == Pow(k + 17) - 1
  {
    hide And;
    k := PowerOfTwo(length + 1);
    hide Pow;
    PowAdd(k, 17);
    WordPowers();
  }

  lemma AlignedRange(ea: nat, base: nat, size: nat)
    requires size > 0 && base % size == 0
    ensures ea - ea % size == base <==> base <= ea < base + size
    ensures base <= ea < base + size ==> ea % size == ea - base
  {
    if base <= ea < base + size {
      assert base == base / size * size;
      DivModUnique(ea, size, base / size, ea - base);
    }
  }

  lemma AlignedOr(physical: nat, offset: nat, k: nat)
    requires physical % Pow(k) == 0 && offset < Pow(k)
    ensures Or(physical, offset) == physical + offset
  {
    var p := physical / Pow(k);
    assert physical == p * Pow(k) + physical % Pow(k);
    assert Shift(p, k) == physical;
    OrAdds(p, offset, k);
  }

  lemma EnabledBits(x: nat, mask: nat)
    requires mask == 1 || mask == 2
    ensures And(x, mask) == And(x % 4, mask)
    ensures And(x, mask) != 0 ==> x % 4 != 0
  {
    AndBit(x);
    AndBit(x % 4);
    QuarterBits(x);
  }

  lemma QuarterBits(x: nat)
    ensures x % 4 % 2 == x % 2 && x % 4 / 2 % 2 == x / 2 % 2
  {
  }

  /** On a well-formed entry the mask comparison is interval membership, and masking in the offset is adding it. */
  lemma EntryAgrees(p: Pair, c: Controls, ea: nat)
    requires Word(p.upper) && Word(p.lower) && !Describe(p, c.instruction).malformed
    ensures Hits(p, c, ea) == Covers(p, c, ea)
    ensures Covers(p, c, ea) ==> Physical(p, ea) == Describe(p, c.instruction).physical + (ea - Describe(p, c.instruction).base)
  {
    hide And, Or, Pow, Clear;
    EnabledBits(p.upper, c.Privilege());
    if And(p.upper, c.Privilege()) != 0 {
      var r := Describe(p, c.instruction);
      var k := LegalLength(Length(p));
      ClearOffset(p, ea, k);
      MaskRounds(p.upper);
      MaskRounds(p.lower);
      AlignedRange(ea, r.base, Pow(k + 17));
      RemainderBound(ea, Pow(k + 17));
      AlignedOr(r.physical, ea % Pow(k + 17), k + 17);
    }
  }

  lemma RemainderBound(x: nat, d: nat)
    requires d > 0
    ensures 0 <= x % d < d
  {
  }

  lemma ClearOffset(p: Pair, ea: nat, k: nat)
    requires Offset(p) == Pow(k + 17) - 1
    ensures And(ea, Offset(p)) == ea % Pow(k + 17) && Clear(ea, Offset(p)) == ea - ea % Pow(k + 17)
  {
    hide And, Pow;
    AndOnes(ea, k + 17);
  }

  // At most one entry matches.

  predicate Clean(pairs: seq<Pair>, instruction: bool) {
    (forall k | 0 <= k < |pairs| :: !Describe(pairs[k], instruction).malformed) && !Overlap(pairs, instruction)
  }

  lemma SharedPrivilege(x: nat, y: nat, mask: nat)
    requires (mask == 1 || mask == 2) && And(x, mask) != 0 && And(y, mask) != 0
    ensures And(x, y) != 0
  {
    AndBit(x);
    AndBit(y);
    AndPieces(x, y);
    AndPieces(x / 2, y / 2);
  }

  /** Entries that cover one address under one privilege overlap. */
  lemma CoverOnce(pairs: seq<Pair>, c: Controls, ea: nat, i: nat, j: nat)
    requires Clean(pairs, c.instruction) && i < j < |pairs|
    ensures !(Covers(pairs[i], c, ea) && Covers(pairs[j], c, ea))
  {
    hide And, Describe;
    var a, b := Describe(pairs[i], c.instruction), Describe(pairs[j], c.instruction);
    assert !Clash(a, b);
    if And(a.enabled, c.Privilege()) != 0 && And(b.enabled, c.Privilege()) != 0 {
      SharedPrivilege(a.enabled, b.enabled, c.Privilege());
    }
  }

  lemma {:induction false} NoHits(pairs: seq<Pair>, c: Controls, ea: nat, k: nat)
    requires k <= |pairs| && forall j | 0 <= j < k :: !Hits(pairs[j], c, ea)
    ensures HitMask(pairs, c, ea, k) == 0
  {
    hide Hits;
    if k > 0 {
      NoHits(pairs, c, ea, k - 1);
    }
  }

  lemma {:induction false} SingleHit(pairs: seq<Pair>, c: Controls, ea: nat, k: nat, i: nat)
    requires i < k <= |pairs| && forall j | 0 <= j < k :: Hits(pairs[j], c, ea) == (j == i)
    ensures HitMask(pairs, c, ea, k) == Shift(1, i)
  {
    hide Hits, Pow;
    if k - 1 == i {
      NoHits(pairs, c, ea, i);
    } else {
      SingleHit(pairs, c, ea, k - 1, i);
    }
  }

  lemma {:induction false} LowestOfOne(i: nat)
    ensures Shift(1, i) > 0 && LowestBit(Shift(1, i)) == i
  {
    if i > 0 {
      LowestOfOne(i - 1);
      DoubleShift(1, i);
    }
  }

  lemma {:induction false} CleanMask(pairs: seq<Pair>, instruction: bool, k: nat)
    requires k <= |pairs| && forall j | 0 <= j < k :: !Describe(pairs[j], instruction).malformed
    ensures BadMask(pairs, instruction, k) == 0
  {
    hide Describe;
    if k > 0 {
      CleanMask(pairs, instruction, k - 1);
    }
  }

  lemma {:induction false} BadShows(pairs: seq<Pair>, instruction: bool, k: nat, j: nat)
    requires j < k <= |pairs| && Describe(pairs[j], instruction).malformed
    ensures BadMask(pairs, instruction, k) > 0
  {
    hide Describe, Or;
    if k - 1 == j {
      OrBound(BadMask(pairs, instruction, j), Shift(1, j));
    } else {
      BadShows(pairs, instruction, k - 1, j);
      OrBound(BadMask(pairs, instruction, k - 1), Shift(1, k - 1));
    }
  }

  lemma HitsAreCovers(pairs: seq<Pair>, c: Controls, ea: nat)
    requires Words(pairs) && Clean(pairs, c.instruction)
    ensures forall j | 0 <= j < |pairs| :: Hits(pairs[j], c, ea) == Covers(pairs[j], c, ea)
  {
    hide Describe, Hits, Covers;
    forall j | 0 <= j < |pairs| ensures Hits(pairs[j], c, ea) == Covers(pairs[j], c, ea) {
      EntryAgrees(pairs[j], c, ea);
    }
  }

  /** The hit mask of clean banks is the single covering entry's bit. */
  lemma HitsAreCover(pairs: seq<Pair>, c: Controls, ea: nat)
    requires Words(pairs) && Clean(pairs, c.instruction)
    ensures var found, hits := FirstCover(pairs, c, ea, 0), HitMask(pairs, c, ea, |pairs|);
            if found.None? then hits == 0 else hits == Shift(1, found.value) > 0 && LowestBit(hits) == found.value
  {
    hide Describe, Hits, Covers, Pow, Clean;
    HitsAreCovers(pairs, c, ea);
    var found := FirstCover(pairs, c, ea, 0);
    if found.None? {
      NoHits(pairs, c, ea, |pairs|);
    } else {
      var i := found.value;
      forall j | 0 <= j < |pairs| ensures Hits(pairs[j], c, ea) == (j == i) {
        if j > i {
          CoverOnce(pairs, c, ea, i, j);
        }
      }
      SingleHit(pairs, c, ea, |pairs|, i);
      LowestOfOne(i);
    }
  }

  lemma RepliesAgree(c: Controls, ea: nat, pairs: seq<Pair>)
    requires Words(pairs) && Clean(pairs, c.instruction)
    ensures CoverReply(c, ea, pairs) == HitReply(c, ea, pairs)
  {
    hide Hits, Covers, Pow, Clean, Or, And, Describe, Reply, Physical, Denied, Attributes, Shift, Overlap, BadMask, LowestBit, HitMask,
         FirstCover, Words;
    HitsAreCover(pairs, c, ea);
    var found := FirstCover(pairs, c, ea, 0);
    if found.Some? {
      EntryClean(pairs, c.instruction, found.value);
      EntryAgrees(pairs[found.value], c, ea);
      RegionFields(pairs[found.value], c.instruction);
    }
  }

  /** With clean banks the oracles return the same payload, whatever the request. */
  lemma CleanAgree(controls: nat, ea: nat, pairs: seq<Pair>)
    requires Words(pairs) && Clean(pairs, Unpack(controls).instruction)
    ensures Intervals(controls, ea, pairs) == Stored(controls, ea, pairs)
  {
    var c := Unpack(controls);
    assert !Overlap(pairs, c.instruction);
    CleanMask(pairs, c.instruction, |pairs|);
    hide Pow, Clean, Or, Shift, Overlap, BadMask, CoverReply, HitReply, Diagnosis, Bypass, Words, Unpack;
    DiagnosisInvalid();
    RepliesAgree(c, ea, pairs);
  }

  lemma EntryClean(pairs: seq<Pair>, instruction: bool, k: nat)
    requires Clean(pairs, instruction) && Words(pairs) && k < |pairs|
    ensures !Describe(pairs[k], instruction).malformed && Word(pairs[k].upper) && Word(pairs[k].lower)
  {
    hide Describe, Overlap;
  }

  lemma RegionFields(p: Pair, instruction: bool)
    ensures var r := Describe(p, instruction); r.wimg == p.lower / 8 % 16 && r.pp == p.lower % 4
  {
    hide And;
  }

  lemma DiagnosisInvalid()
    ensures Diagnosis(true, false, 0) == Or(Shift(1, 50), Shift(1, 49))
  {
    hide Pow, Or;
    OrNone(Or(Shift(1, 50), Shift(1, 49)));
  }

  lemma OrNone(x: nat)
    ensures Or(x, 0) == x && Or(0, x) == x && Shift(0, 48) == 0 && Shift(0, 44) == 0
  {
    hide Pow;
  }

  // Otherwise they differ.

  /** A diagnosis is its four fields side by side. */
  lemma DiagnosisFields(invalid: bool, overlap: bool, bad: nat)
    requires bad < 16
    ensures Diagnosis(invalid, overlap, bad)
         == 0x4_0000_0000_0000 + Bit(invalid) * 0x2_0000_0000_0000 + Bit(overlap) * 0x1_0000_0000_0000 + bad * 0x1000_0000_0000
    ensures Diagnosis(invalid, overlap, bad) < 0x8_0000_0000_0000
  {
    hide Or, Pow, Shift;
    FieldPowers();
    var v, o := Bit(invalid), Bit(overlap);
    ShiftIs(1, 50, 0x4_0000_0000_0000);
    ShiftIs(v, 49, 0x2_0000_0000_0000);
    ShiftIs(o, 48, 0x1_0000_0000_0000);
    ShiftIs(bad, 44, 0x1000_0000_0000);
    FieldJoins(1, v * 0x2_0000_0000_0000, 50, 0x4_0000_0000_0000);
    FieldJoins(2 + v, o * 0x1_0000_0000_0000, 49, 0x2_0000_0000_0000);
    FieldJoins((2 + v) * 2 + o, bad * 0x1000_0000_0000, 48, 0x1_0000_0000_0000);
  }

  /** Every other reply of the mask oracle lies above the diagnoses. */
  lemma StoredAbove(controls: nat, ea: nat, pairs: seq<Pair>)
    ensures var c, r := Unpack(controls), Stored(controls, ea, pairs);
            c.valid && !(c.instruction && c.write) ==> r >= Pow(53)
  {
    hide Or, Pow, Bypass, HitReply, Unpack;
    FieldPowers();
    BypassAbove(ea, Unpack(controls).instruction);
    HitReplyAbove(Unpack(controls), ea, pairs);
  }

  lemma HitReplyAbove(c: Controls, ea: nat, pairs: seq<Pair>)
    ensures HitReply(c, ea, pairs) >= Pow(53)
  {
    hide Or, Pow, Hits, HitMask, Physical, Attributes, Denied, LowestBit, Reply, Shift;
    FieldPowers();
    ShiftOne(53);
    var hits := HitMask(pairs, c, ea, |pairs|);
    if hits != 0 {
      MaskBelow(pairs, c, ea, |pairs|);
      LowestBelow(hits, |pairs|);
      var index := LowestBit(hits);
      var wimg, pp := pairs[index].lower / 8 % 16, pairs[index].lower % 4;
      var denied := Denied(pp, c.write);
      ReplyAbove(denied, hits, index, if denied then 0 else Physical(pairs[index], ea), Attributes(wimg, c.instruction), pp);
    }
  }

  lemma BypassAbove(ea: nat, instruction: bool)
    ensures Bypass(ea, instruction) >= Pow(55)
  {
    hide Or, Pow;
    OrBound(Shift(1, 56), Shift(1, 55));
    OrBound(Or(Shift(1, 56), Shift(1, 55)), Shift(ea, 6));
    OrBound(Or(Or(Shift(1, 56), Shift(1, 55)), Shift(ea, 6)), Shift(if instruction then 1 else 3, 2));
  }

  lemma ReplyAbove(denied: bool, mask: nat, index: nat, pa: nat, wimg: nat, pp: nat)
    ensures Reply(denied, mask, index, pa, wimg, pp) >= Pow(54)
  {
    hide Or, Pow, Shift;
    var a := Or(Shift(Bit(!denied), 56), Shift(1, 54));
    var b := Or(a, Shift(Bit(denied), 52));
    var d := Or(b, Shift(mask, 40));
    var e := Or(d, Shift(index, 38));
    var f := Or(e, Shift(pa, 6));
    var g := Or(f, Shift(wimg, 2));
    OrBound(Shift(Bit(!denied), 56), Shift(1, 54));
    OrBound(a, Shift(Bit(denied), 52));
    OrBound(b, Shift(mask, 40));
    OrBound(d, Shift(index, 38));
    OrBound(e, Shift(pa, 6));
    OrBound(f, Shift(wimg, 2));
    OrBound(g, pp);
    ShiftOne(54);
  }

  lemma ShiftOne(k: nat)
    ensures Shift(1, k) == Pow(k)
  {
  }

  lemma NotClean(pairs: seq<Pair>, instruction: bool)
    requires !Clean(pairs, instruction)
    ensures BadMask(pairs, instruction, |pairs|) != 0 || Overlap(pairs, instruction)
  {
    hide Describe, Overlap;
    if !Overlap(pairs, instruction) {
      var k :| 0 <= k < |pairs| && Describe(pairs[k], instruction).malformed;
      BadShows(pairs, instruction, |pairs|, k);
    }
  }

  lemma DirtyDiagnosis(controls: nat, ea: nat, pairs: seq<Pair>)
    requires Unpack(controls).valid && !Clean(pairs, Unpack(controls).instruction)
    ensures var c := Unpack(controls); var bad, overlap := BadMask(pairs, c.instruction, |pairs|), Overlap(pairs, c.instruction);
            (bad != 0 || overlap) && Intervals(controls, ea, pairs) == Diagnosis(c.instruction && c.write, overlap, bad)
  {
    hide Unpack, BadMask, Overlap, Clean, Diagnosis, Bypass, CoverReply;
    NotClean(pairs, Unpack(controls).instruction);
  }

  lemma RefusedStored(controls: nat, ea: nat, pairs: seq<Pair>)
    requires Unpack(controls).valid && Unpack(controls).instruction && Unpack(controls).write
    ensures Stored(controls, ea, pairs) == Diagnosis(true, false, 0)
  {
    hide Unpack, Diagnosis, Or, Shift, Bypass, HitReply;
    DiagnosisInvalid();
  }

  lemma DirtyDiffer(controls: nat, ea: nat, pairs: seq<Pair>)
    requires |pairs| == 4 && Unpack(controls).valid && !Clean(pairs, Unpack(controls).instruction)
    ensures Intervals(controls, ea, pairs) != Stored(controls, ea, pairs)
  {
    hide *;
    var c := Unpack(controls);
    var bad, overlap := BadMask(pairs, c.instruction, 4), Overlap(pairs, c.instruction);
    DirtyDiagnosis(controls, ea, pairs);
    MaskBelow(pairs, c, ea, 4);
    FieldPowers();
    SmallPowers();
    DiagnosisFields(c.instruction && c.write, overlap, bad);
    DiagnosisOrder(c.instruction && c.write, overlap, bad);
    if c.instruction && c.write {
      RefusedStored(controls, ea, pairs);
      DiagnosisFields(true, false, 0);
    } else {
      StoredAbove(controls, ea, pairs);
    }
  }

  lemma DiagnosisOrder(invalid: bool, overlap: bool, bad: nat)
    requires bad < 16 && (bad != 0 || overlap)
    ensures Diagnosis(invalid, overlap, bad) != Diagnosis(invalid, false, 0)
  {
    hide Diagnosis, Pow;
    DiagnosisFields(invalid, overlap, bad);
    DiagnosisFields(invalid, false, 0);
    FieldPowers();
  }

  /** Main theorem: four banks of words give the same payload from both oracles exactly when the request is not valid or no
      enabled entry is malformed and no two same-privilege entries overlap. */
  lemma OraclesAgreeIffClean(controls: nat, ea: nat, pairs: seq<Pair>)
    requires |pairs| == 4 && Words(pairs)
    ensures Intervals(controls, ea, pairs) == Stored(controls, ea, pairs)
            <==> !Unpack(controls).valid || Clean(pairs, Unpack(controls).instruction)
  {
    hide *;
    if Clean(pairs, Unpack(controls).instruction) {
      CleanAgree(controls, ea, pairs);
    } else if Unpack(controls).valid {
      DirtyDiffer(controls, ea, pairs);
    } else {
      NothingAsked(controls, ea, pairs);
    }
  }

  lemma NothingAsked(controls: nat, ea: nat, pairs: seq<Pair>)
    requires !Unpack(controls).valid
    ensures Intervals(controls, ea, pairs) == 0 == Stored(controls, ea, pairs)
  {
    hide Unpack;
  }

  /** A reply's fields lie side by side. */
  lemma ReplyFields(denied: bool, mask: nat, index: nat, pa: nat, wimg: nat, pp: nat)
    requires mask < 16 && index < 4 && Word(pa) && wimg < 16 && pp < 4
    ensures Reply(denied, mask, index, pa, wimg, pp)
         == Bit(!denied) * 0x100_0000_0000_0000 + 0x40_0000_0000_0000 + Bit(denied) * 0x10_0000_0000_0000
            + mask * 0x100_0000_0000 + index * 0x40_0000_0000 + pa * 64 + wimg * 4 + pp
  {
    hide Or, Pow, Shift;
    FieldPowers();
    SmallPowers();
    ShiftIs(Bit(!denied), 56, 0x100_0000_0000_0000);
    ShiftIs(1, 54, 0x40_0000_0000_0000);
    ShiftIs(Bit(denied), 52, 0x10_0000_0000_0000);
    ShiftIs(mask, 40, 0x100_0000_0000);
    ShiftIs(index, 38, 0x40_0000_0000);
    ShiftIs(pa, 6, 64);
    ShiftIs(wimg, 2, 4);
    var allow, deny := Bit(!denied), Bit(denied);
    var head := ((allow * 4 + 1) * 4 + deny) * 0x1000 + mask;
    UpperFields(allow, deny, mask, head);
    LowerFields(head, index, pa, wimg, pp);
  }

  lemma UpperFields(allow: nat, deny: nat, mask: nat, head: nat)
    requires allow <= 1 && deny <= 1 && mask < 16 && head == ((allow * 4 + 1) * 4 + deny) * 0x1000 + mask
    ensures Or(Or(Or(allow * 0x100_0000_0000_0000, 0x40_0000_0000_0000), deny * 0x10_0000_0000_0000), mask * 0x100_0000_0000)
         == head * 0x100_0000_0000
  {
    hide Or, Pow;
    FieldPowers();
    SmallPowers();
    FieldJoins(allow, 0x40_0000_0000_0000, 56, 0x100_0000_0000_0000);
    FieldJoins(allow * 4 + 1, deny * 0x10_0000_0000_0000, 54, 0x40_0000_0000_0000);
    FieldJoins((allow * 4 + 1) * 4 + deny, mask * 0x100_0000_0000, 52, 0x10_0000_0000_0000);
  }

  lemma LowerFields(head: nat, index: nat, pa: nat, wimg: nat, pp: nat)
    requires index < 4 && Word(pa) && wimg < 16 && pp < 4
    ensures Or(Or(Or(Or(head * 0x100_0000_0000, index * 0x40_0000_0000), pa * 64), wimg * 4), pp)
         == head * 0x100_0000_0000 + index * 0x40_0000_0000 + pa * 64 + wimg * 4 + pp
  {
    hide Or, Pow;
    FieldPowers();
    SmallPowers();
    FieldJoins(head, index * 0x40_0000_0000, 40, 0x100_0000_0000);
    FieldJoins(head * 4 + index, pa * 64, 38, 0x40_0000_0000);
    FieldJoins((head * 4 + index) * 0x1_0000_0000 + pa, wimg * 4, 6, 64);
    FieldJoins(((head * 4 + index) * 0x1_0000_0000 + pa) * 16 + wimg, pp, 2, 4);
  }

  lemma FieldJoins(a: nat, b: nat, k: nat, p: nat)
    requires p == Pow(k) && b < p
    ensures Or(a * p, b) == a * p + b
  {
    hide Or, Pow;
    OrAdds(a, b, k);
  }

  lemma ShiftIs(x: nat, k: nat, p: nat)
    requires p == Pow(k)
    ensures Shift(x, k) == x * p
  {
  }

  lemma PhysicalWord(p: Pair, ea: nat)
    requires Word(p.lower)
    ensures Word(Physical(p, ea))
  {
    hide And, Or, Pow, Offset;
    AndBound(p.lower, BLOCKMASK);
    AndBound(ea, Offset(p));
    WordPowers();
    OffsetWord(p);
    OrBelow(And(p.lower, BLOCKMASK), And(ea, Offset(p)), 32);
  }

  lemma OffsetWord(p: Pair)
    ensures Offset(p) < 0x1000_0000
  {
  }

  lemma MaskOfOne(k: nat)
    requires k < 4
    ensures Shift(1, k) < 16 && Shift(1, k) == if k == 0 then 1 else if k == 1 then 2 else if k == 2 then 4 else 8
  {
    assert Pow(k) == if k == 0 then 1 else if k == 1 then 2 else if k == 2 then 4 else 8;
  }

  /** With clean banks, what the reply of the one covering entry says: access allowed when PP permits it, the entry's bit and
      number, the translated address of an allowed access, its WIMG without an instruction G bit, and PP; or a plain miss. */
  lemma ReplyOfCover(c: Controls, ea: nat, pairs: seq<Pair>, k: nat)
    requires |pairs| == 4 && Words(pairs) && Clean(pairs, c.instruction) && k < 4 && Covers(pairs[k], c, ea)
    ensures var r := Describe(pairs[k], c.instruction);
            var allow := r.pp == 2 || (!c.write && (r.pp == 1 || r.pp == 3));
            CoverReply(c, ea, pairs)
            == Bit(allow) * 0x100_0000_0000_0000 + 0x40_0000_0000_0000 + Bit(!allow) * 0x10_0000_0000_0000
               + (if k == 0 then 1 else if k == 1 then 2 else if k == 2 then 4 else 8) * 0x100_0000_0000 + k * 0x40_0000_0000
               + (if allow then r.physical + (ea - r.base) else 0) * 64
               + (if c.instruction then r.wimg / 2 * 2 else r.wimg) * 4 + r.pp
  {
    hide And, Or, Pow, Shift, Covers, Clean, Reply, Words, Overlap, Describe, Physical;
    FirstIs(c, ea, pairs, k);
    EntryClean(pairs, c.instruction, k);
    EntryAgrees(pairs[k], c, ea);
    PhysicalWord(pairs[k], ea);
    RegionFields(pairs[k], c.instruction);
    MaskOfOne(k);
    var r := Describe(pairs[k], c.instruction);
    var denied := Denied(r.pp, c.write);
    ReplyFields(denied, Shift(1, k), k, if denied then 0 else r.physical + (ea - r.base), Attributes(r.wimg, c.instruction), r.pp);
  }

  lemma FirstIs(c: Controls, ea: nat, pairs: seq<Pair>, k: nat)
    requires Clean(pairs, c.instruction) && k < |pairs| && Covers(pairs[k], c, ea)
    ensures FirstCover(pairs, c, ea, 0) == Some(k) && Describe(pairs[k], c.instruction).base <= ea
  {
    assert Describe(pairs[k], c.instruction).base <= ea;
    hide Covers, Clean, Describe;
    var first := FirstCover(pairs, c, ea, 0);
    if first.value < k {
      CoverOnce(pairs, c, ea, first.value, k);
    }
  }
}
