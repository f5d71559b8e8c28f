/** Two oracles for block address translation: one by intervals and arithmetic, one by masks and priority, and when they agree. */
module Bat {
  import opened Wrappers
  import opened Dyadic
  import opened Integers
  import opened Bitwise

  datatype Pair = Pair(upper: nat, lower: nat)

  /** A request's control bits, most significant first. */
  datatype Controls = Controls(valid: bool, instruction: bool, write: bool, ir: bool, dr: bool, user: bool) {
    predicate Translates() {
      if instruction then ir else dr
    }

    /** The valid bit of an entry that this privilege uses. */
    function Privilege(): nat {
      if user then 1 else 2
    }
  }

  function Unpack(controls: nat): Controls {
    Controls(controls / 32 % 2 == 1, controls / 16 % 2 == 1, controls / 8 % 2 == 1,
             controls / 4 % 2 == 1, controls / 2 % 2 == 1, controls % 2 == 1)
  }

  const BLOCK: nat := 131072
  const BLOCKMASK: nat := 0xfffe_0000

  function Bit(b: bool): nat {
    if b then 1 else 0
  }

  function Length(p: Pair): nat {
    p.upper / 4 % 2048
  }

  datatype Region = Region(enabled: nat, base: nat, end: nat, physical: nat, malformed: bool, wimg: nat, pp: nat)

  function Describe(p: Pair, instruction: bool): Region {
    var enabled, length := p.upper % 4, Length(p);
    var size := BLOCK * (length + 1);
    var base, physical := p.upper / BLOCK * BLOCK, p.lower / BLOCK * BLOCK;
    var legal := And(length + 1, length) == 0;
    var reserved := p.upper / 8192 % 16 != 0 || p.lower / 128 % 1024 != 0 || p.lower / 4 % 2 != 0;
    var malformed := enabled != 0 &&
      (!legal || reserved || base % size != 0 || physical % size != 0 || (instruction && p.lower / 64 % 2 != 0));
    Region(enabled, base, base + size, physical, malformed, p.lower / 8 % 16, p.lower % 4)
  }

  /** One bit for each malformed entry among the first k. */
  function BadMask(pairs: seq<Pair>, instruction: bool, k: nat): nat
    requires k <= |pairs|
  {
    if k == 0 then 0
    else
      var bad := BadMask(pairs, instruction, k - 1);
      if Describe(pairs[k - 1], instruction).malformed then Or(bad, Shift(1, k - 1)) else bad
  }

  predicate Clash(a: Region, b: Region) {
    && And(a.enabled, b.enabled) != 0 && !a.malformed && !b.malformed
    && (if a.base > b.base then a.base else b.base) < (if a.end < b.end then a.end else b.end)
  }

  predicate Overlap(pairs: seq<Pair>, instruction: bool) {
    exists i, j | 0 <= i < j < |pairs| :: Clash(Describe(pairs[i], instruction), Describe(pairs[j], instruction))
  }

  predicate Covers(p: Pair, c: Controls, ea: nat) {
    var r := Describe(p, c.instruction);
    And(r.enabled, c.Privilege()) != 0 && r.base <= ea < r.end
  }

  /** The first entry from k on whose interval holds the address. */
  function FirstCover(pairs: seq<Pair>, c: Controls, ea: nat, k: nat): (r: Option<nat>)
    requires k <= |pairs|
    ensures r.Some? ==> k <= r.value < |pairs| && Covers(pairs[r.value], c, ea) && forall j | k <= j < r.value :: !Covers(pairs[j], c, ea)
    ensures r.None? ==> forall j | k <= j < |pairs| :: !Covers(pairs[j], c, ea)
    decreases |pairs| - k
  {
    if k == |pairs| then None
    else if Covers(pairs[k], c, ea) then Some(k)
    else FirstCover(pairs, c, ea, k + 1)
  }

  function Diagnosis(invalid: bool, overlap: bool, bad: nat): nat {
    Or(Or(Or(Shift(1, 50), Shift(Bit(invalid), 49)), Shift(Bit(overlap), 48)), Shift(bad, 44))
  }

  function Bypass(ea: nat, instruction: bool): nat {
    Or(Or(Or(Shift(1, 56), Shift(1, 55)), Shift(ea, 6)), Shift(if instruction then 1 else 3, 2))
  }

  /** Allow, match found, denied, matched entries, index, physical address, WIMG and PP. */
  function Reply(denied: bool, mask: nat, index: nat, pa: nat, wimg: nat, pp: nat): nat {
    Or(Or(Or(Or(Or(Or(Or(Shift(Bit(!denied), 56), Shift(1, 54)), Shift(Bit(denied), 52)), Shift(mask, 40)), Shift(index, 38)),
             Shift(pa, 6)), Shift(wimg, 2)), pp)
  }

  function Denied(pp: nat, write: bool): bool {
    pp == 0 || (write && pp != 2)
  }

  /** Instruction entries have no guarded bit. */
  function Attributes(wimg: nat, instruction: bool): nat {
    if instruction then wimg - wimg % 2 else wimg
  }

  /** The reply for an enabled, fault-free request: a miss, or the covering entry's fields. */
  function CoverReply(c: Controls, ea: nat, pairs: seq<Pair>): nat {
    var found := FirstCover(pairs, c, ea, 0);
    if found.None? then Shift(1, 53)
    else
      var r := Describe(pairs[found.value], c.instruction);
      var denied := Denied(r.pp, c.write);
      Reply(denied, Shift(1, found.value), found.value, if denied then 0 else r.physical + (ea - r.base),
            Attributes(r.wimg, c.instruction), r.pp)
  }

  /** The interval oracle's payload. */
  function Intervals(controls: nat, ea: nat, pairs: seq<Pair>): nat {
    var c := Unpack(controls);
    var bad, overlap, invalid := BadMask(pairs, c.instruction, |pairs|), Overlap(pairs, c.instruction), c.instruction && c.write;
    if !c.valid then 0
    else if bad != 0 || overlap || invalid then Diagnosis(invalid, overlap, bad)
    else if !c.Translates() then Bypass(ea, c.instruction)
    else CoverReply(c, ea, pairs)
  }

  function Offset(p: Pair): nat {
    Length(p) * BLOCK + (BLOCK - 1)
  }

  predicate Hits(p: Pair, c: Controls, ea: nat) {
    And(p.upper, c.Privilege()) != 0 && Clear(ea, Offset(p)) == And(p.upper, BLOCKMASK)
  }

  function HitMask(pairs: seq<Pair>, c: Controls, ea: nat, k: nat): nat
    requires k <= |pairs|
  {
    if k == 0 then 0
    else
      var hits := HitMask(pairs, c, ea, k - 1);
      if Hits(pairs[k - 1], c, ea) then Or(hits, Shift(1, k - 1)) else hits
  }

  /** Index of the lowest set bit. */
  function LowestBit(mask: nat): nat
    requires mask > 0
  {
    if mask % 2 == 1 then 0 else 1 + LowestBit(mask / 2)
  }

  function Physical(p: Pair, ea: nat): nat {
    Or(And(p.lower, BLOCKMASK), And(ea, Offset(p)))
  }

  lemma {:induction false} MaskBelow(pairs: seq<Pair>, c: Controls, ea: nat, k: nat)
    requires k <= |pairs|
    ensures HitMask(pairs, c, ea, k) < Pow(k)
    ensures BadMask(pairs, c.instruction, k) < Pow(k)
  {
    if k > 0 {
      MaskBelow(pairs, c, ea, k - 1);
      OrBelow(HitMask(pairs, c, ea, k - 1), Shift(1, k - 1), k);
      OrBelow(BadMask(pairs, c.instruction, k - 1), Shift(1, k - 1), k);
    }
  }

  lemma {:induction false} LowestBelow(mask: nat, k: nat)
    requires 0 < mask < Pow(k)
    ensures LowestBit(mask) < k
  {
    if mask % 2 == 0 {
      LowestBelow(mask / 2, k - 1);
    }
  }

  /** The reply of banks as stored: a miss, or the lowest-numbered hit's fields. */
  function HitReply(c: Controls, ea: nat, pairs: seq<Pair>): nat {
    var hits := HitMask(pairs, c, ea, |pairs|);
    if hits == 0 then Shift(1, 53)
    else
      MaskBelow(pairs, c, ea, |pairs|);
      LowestBelow(hits, |pairs|);
      var index := LowestBit(hits);
      var wimg, pp := pairs[index].lower / 8 % 16, pairs[index].lower % 4;
      var denied := Denied(pp, c.write);
      Reply(denied, hits, index, if denied then 0 else Physical(pairs[index], ea), Attributes(wimg, c.instruction), pp)
  }

  /** The mask oracle's payload. */
  function Stored(controls: nat, ea: nat, pairs: seq<Pair>): nat {
    var c := Unpack(controls);
    if !c.valid then 0
    else if c.instruction && c.write then Or(Shift(1, 50), Shift(1, 49))
    else if !c.Translates() then Bypass(ea, c.instruction)
    else HitReply(c, ea, pairs)
  }
}
