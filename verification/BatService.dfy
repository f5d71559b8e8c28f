/** The translation oracles as loops over the banks, and the service that stores and translates through them. */
module BatService {
  import opened Wrappers
  import opened Dyadic
  import opened Bitwise
  import opened Bat
  import opened BatEquivalence

  /** Some entry in [i+1, j) clashes with entry i. */
  predicate ClashesWith(entries: seq<Region>, i: nat, j: nat)
    requires i < j <= |entries|
  {
    exists b | i < b < j :: Clash(entries[i], entries[b])
  }

  method AnyOverlap(entries: seq<Region>) returns (overlap: bool)
    ensures overlap <==> exists i | 0 <= i < |entries| :: ClashesWith(entries, i, |entries|)
  {
    hide Clash;
    overlap := false;
    var i := 0;
    while i < |entries|
      invariant 0 <= i <= |entries|
      invariant overlap <==> exists a | 0 <= a < i :: ClashesWith(entries, a, |entries|)
    {
      var found := false;
      var j := i + 1;
      while j < |entries|
        invariant i < j <= |entries|
        invariant found <==> ClashesWith(entries, i, j)
      {
        if Clash(entries[i], entries[j]) {
          found := true;
        }
        j := j + 1;
      }
      overlap := overlap || found;
      i := i + 1;
    }
  }

  lemma DescribedOverlap(pairs: seq<Pair>, instruction: bool, entries: seq<Region>)
    requires |entries| == |pairs| && forall k | 0 <= k < |pairs| :: entries[k] == Describe(pairs[k], instruction)
    ensures Overlap(pairs, instruction) <==> exists i | 0 <= i < |entries| :: ClashesWith(entries, i, |entries|)
  {
    hide Clash, Describe;
    if Overlap(pairs, instruction) {
      var i, j :| 0 <= i < j < |pairs| && Clash(Describe(pairs[i], instruction), Describe(pairs[j], instruction));
      assert Clash(entries[i], entries[j]);
      assert ClashesWith(entries, i, |entries|);
    }
    if i :| 0 <= i < |entries| && ClashesWith(entries, i, |entries|) {
      var j :| i < j < |entries| && Clash(entries[i], entries[j]);
      assert Clash(Describe(pairs[i], instruction), Describe(pairs[j], instruction));
    }
  }

  /** Validates every entry, then finds the one interval that holds the address. */
  method Expected(controls: nat, ea: nat, pairs: seq<Pair>) returns (r: nat)
    ensures r == Intervals(controls, ea, pairs)
  {
    hide And, Or, Shift, Pow, Describe, Overlap, Diagnosis, Bypass, Reply, Unpack, FirstCover;
    var c := Unpack(controls);
    if !c.valid {
      return 0;
    }
    var entries: seq<Region>, bad := [], 0;
    for k := 0 to |pairs|
      invariant |entries| == k && bad == BadMask(pairs, c.instruction, k)
      invariant forall j | 0 <= j < k :: entries[j] == Describe(pairs[j], c.instruction)
    {
      var e := Describe(pairs[k], c.instruction);
      if e.malformed {
        bad := Or(bad, Shift(1, k));
      }
      entries := entries + [e];
    }
    var overlap := AnyOverlap(entries);
    DescribedOverlap(pairs, c.instruction, entries);
    var invalid := c.instruction && c.write;
    if bad != 0 || overlap || invalid {
      return Diagnosis(invalid, overlap, bad);
    }
    if !c.Translates() {
      return Bypass(ea, c.instruction);
    }
    var matches := CollectCovers(pairs, c, ea);
    SoleCover(pairs, c, ea, matches);
    if matches == [] {
      return Shift(1, 53);
    }
    assert |matches| == 1;
    var index := matches[0];
    var e := entries[index];
    var denied := Denied(e.pp, c.write);
    var pa := if denied then 0 else e.physical + (ea - e.base);
    r := Reply(denied, Shift(1, index), index, pa, Attributes(e.wimg, c.instruction), e.pp);
  }

  /** The covering entries, in order. */
  method CollectCovers(pairs: seq<Pair>, c: Controls, ea: nat) returns (matches: seq<nat>)
    ensures forall m | 0 <= m < |matches| :: matches[m] < |pairs| && Covers(pairs[matches[m]], c, ea)
    ensures forall l, m | 0 <= l < m < |matches| :: matches[l] < matches[m]
    ensures forall k | 0 <= k < |pairs| && Covers(pairs[k], c, ea) :: k in matches
  {
    hide Covers;
    matches := [];
    for k := 0 to |pairs|
      invariant forall m | 0 <= m < |matches| :: matches[m] < k && Covers(pairs[matches[m]], c, ea)
      invariant forall l, m | 0 <= l < m < |matches| :: matches[l] < matches[m]
      invariant forall j | 0 <= j < k && Covers(pairs[j], c, ea) :: j in matches
    {
      if Covers(pairs[k], c, ea) {
        matches := matches + [k];
      }
    }
  }

  /** Clean banks leave at most one match: the oracle's own assertion never fails. */
  lemma SoleCover(pairs: seq<Pair>, c: Controls, ea: nat, matches: seq<nat>)
    requires BadMask(pairs, c.instruction, |pairs|) == 0 && !Overlap(pairs, c.instruction)
    requires forall m | 0 <= m < |matches| :: matches[m] < |pairs| && Covers(pairs[matches[m]], c, ea)
    requires forall l, m | 0 <= l < m < |matches| :: matches[l] < matches[m]
    requires forall k | 0 <= k < |pairs| && Covers(pairs[k], c, ea) :: k in matches
    ensures var found := FirstCover(pairs, c, ea, 0); if found.None? then |matches| == 0 else matches == [found.value]
    ensures forall m | 0 <= m < |matches| :: Describe(pairs[matches[m]], c.instruction).base <= ea
  {
    assert forall m | 0 <= m < |matches| :: Describe(pairs[matches[m]], c.instruction).base <= ea;
    hide Describe, Overlap, Covers, BadMask, Clean;
    CleanByMask(pairs, c.instruction);
    if |matches| > 1 {
      CoverOnce(pairs, c, ea, matches[0], matches[1]);
    }
    assert |matches| > 0 ==> Covers(pairs[matches[0]], c, ea);
    var found := FirstCover(pairs, c, ea, 0);
    if found.Some? {
      assert found.value in matches && matches[0] == found.value;
      assert matches == [found.value];
    }
  }

  lemma CleanByMask(pairs: seq<Pair>, instruction: bool)
    requires BadMask(pairs, instruction, |pairs|) == 0 && !Overlap(pairs, instruction)
    ensures Clean(pairs, instruction)
  {
    hide BadMask, Overlap, Clean;
    if !Clean(pairs, instruction) {
      NotClean(pairs, instruction);
    }
  }

  /** Compares under masks, collects the hits and serves the lowest-numbered. */
  method ExpectedStored(controls: nat, ea: nat, pairs: seq<Pair>) returns (r: nat)
    ensures r == Stored(controls, ea, pairs)
  {
    hide And, Or, Shift, Pow, Hits, Physical, Bypass, Reply, Unpack;
    var c := Unpack(controls);
    if !c.valid {
      return 0;
    }
    if c.instruction && c.write {
      return Or(Shift(1, 50), Shift(1, 49));
    }
    if !c.Translates() {
      return Bypass(ea, c.instruction);
    }
    var matched := 0;
    for k := 0 to |pairs|
      invariant matched == HitMask(pairs, c, ea, k)
    {
      if Hits(pairs[k], c, ea) {
        matched := Or(matched, Shift(1, k));
      }
    }
    if matched == 0 {
      return Shift(1, 53);
    }
    MaskBelow(pairs, c, ea, |pairs|);
    LowestBelow(matched, |pairs|);
    var index := LowestBit(matched);
    var lower := pairs[index].lower;
    var pp := lower % 4;
    var denied := Denied(pp, c.write);
    var pa := if denied then 0 else Physical(pairs[index], ea);
    r := Reply(denied, matched, index, pa, Attributes(lower / 8 % 16, c.instruction), pp);
  }

  // The service.

  datatype Request = Request(kind: nat, ea: nat, spr: nat, data: nat, ir: bool, dr: bool, pr: bool)

  datatype Counts = Counts(translation: nat, write: nat, read: nat, privileged: nat, unsupported: nat)

  /** Bank 0 serves instruction fetches, bank 1 data. */
  datatype Service = Service(banks: seq<seq<Pair>>, counts: Counts)

  const UPPERMASK: nat := 0xfffe_1fff
  const LOWERMASK: nat := 0xfffe_007b

  ghost predicate Stocked(banks: seq<seq<Pair>>) {
    |banks| == 2 && forall b | 0 <= b < 2 :: |banks[b]| == 4
  }

  function BankFor(kind: nat): nat {
    if kind == 0 then 0 else 1
  }

  /** A request's translation controls. */
  function ControlsFor(q: Request): nat {
    32 + (if q.kind == 0 then 16 else 0) + (if q.kind == 2 then 8 else 0) + 4 * Bit(q.ir) + 2 * Bit(q.dr) + Bit(q.pr)
  }

  function Header(q: Request): nat {
    Shift(q.kind, 134) + Shift(q.ea, 102) + Shift(q.spr, 92)
  }

  predicate IsTranslation(q: Request) {
    q.kind <= 2
  }

  predicate Unsupported(q: Request) {
    !IsTranslation(q) && ((q.kind != 3 && q.kind != 4) || !(528 <= q.spr <= 543))
  }

  /** What a write stores: reserved fields cleared. */
  function StoredHalf(p: Pair, lower: bool, data: nat): Pair {
    if lower then p.(lower := And(data, LOWERMASK)) else p.(upper := And(data, UPPERMASK))
  }

  function Half(p: Pair, lower: bool): nat {
    if lower then p.lower else p.upper
  }

  /** Bank, entry and half a register number names. */
  function Bank(spr: nat): nat
    requires 528 <= spr <= 543
  {
    (spr - 528) / 8
  }

  function Entry(spr: nat): nat
    requires 528 <= spr <= 543
  {
    (spr - 528) % 8 / 2
  }

  function IsLower(spr: nat): bool
    requires 528 <= spr <= 543
  {
    (spr - 528) % 8 % 2 == 1
  }

  function ReadHalf(banks: seq<seq<Pair>>, spr: nat): nat
    requires Stocked(banks) && 528 <= spr <= 543
  {
    Half(banks[Bank(spr)][Entry(spr)], IsLower(spr))
  }

  function WriteHalf(banks: seq<seq<Pair>>, spr: nat, data: nat): (r: seq<seq<Pair>>)
    requires Stocked(banks) && 528 <= spr <= 543
    ensures Stocked(r)
  {
    var b, e := Bank(spr), Entry(spr);
    banks[b := banks[b][e := StoredHalf(banks[b][e], IsLower(spr), data)]]
  }

  function Respond(banks: seq<seq<Pair>>, q: Request): nat
    requires Stocked(banks)
  {
    Header(q) +
    (if IsTranslation(q) then Stored(ControlsFor(q), q.ea, banks[BankFor(q.kind)])
     else if Unsupported(q) then Shift(1, 58)
     else if q.pr then Shift(1, 59)
     else if q.kind == 3 then Shift(ReadHalf(banks, q.spr), 60)
     else 0)
  }

  function Update(s: Service, q: Request): (r: Service)
    requires Stocked(s.banks)
    ensures Stocked(r.banks)
  {
    var n := s.counts;
    if IsTranslation(q) then s.(counts := n.(translation := n.translation + 1))
    else if Unsupported(q) then s.(counts := n.(unsupported := n.unsupported + 1))
    else if q.pr then s.(counts := n.(privileged := n.privileged + 1))
    else if q.kind == 3 then s.(counts := n.(read := n.read + 1))
    else Service(WriteHalf(s.banks, q.spr, q.data), n.(write := n.write + 1))
  }

  const CLEAR := Pair(0, 0)
  const EMPTY := Service([[CLEAR, CLEAR, CLEAR, CLEAR], [CLEAR, CLEAR, CLEAR, CLEAR]], Counts(0, 0, 0, 0, 0))

  class Model {
    var banks: seq<seq<Pair>>
    var counts: Counts

    function State(): Service
      reads this
    {
      Service(banks, counts)
    }

    constructor ()
      ensures State() == EMPTY && Stocked(banks)
    {
      banks := [[CLEAR, CLEAR, CLEAR, CLEAR], [CLEAR, CLEAR, CLEAR, CLEAR]];
      counts := Counts(0, 0, 0, 0, 0);
    }

    /** Answers one request from the committed banks, then commits its write. */
    method Accept(q: Request) returns (response: nat)
      requires Stocked(banks)
      modifies this
      ensures Stocked(banks)
      ensures State() == Update(old(State()), q) && response == Respond(old(banks), q)
    {
      hide Shift, And, Stored;
      response := Header(q);
      if q.kind <= 2 {
        counts := counts.(translation := counts.translation + 1);
        var payload := ExpectedStored(ControlsFor(q), q.ea, banks[BankFor(q.kind)]);
        return response + payload;
      }
      if (q.kind != 3 && q.kind != 4) || !(528 <= q.spr <= 543) {
        counts := counts.(unsupported := counts.unsupported + 1);
        return response + Shift(1, 58);
      }
      if q.pr {
        counts := counts.(privileged := counts.privileged + 1);
        return response + Shift(1, 59);
      }
      var bank, half := (q.spr - 528) / 8, (q.spr - 528) % 8;
      var entry, lower := half / 2, half % 2 == 1;
      if q.kind == 3 {
        counts := counts.(read := counts.read + 1);
        return response + Shift(Half(banks[bank][entry], lower), 60);
      }
      var kept := And(q.data, if lower then LOWERMASK else UPPERMASK);
      var candidate := banks[bank];
      var was := candidate[entry];
      candidate := candidate[entry := if lower then Pair(was.upper, kept) else Pair(kept, was.lower)];
      counts := counts.(write := counts.write + 1);
      banks := banks[bank := candidate];
    }
  }

  function Serve(requests: seq<Request>): (s: Service)
    ensures Stocked(s.banks)
  {
    if requests == [] then EMPTY else Update(Serve(requests[..|requests| - 1]), requests[|requests| - 1])
  }

  // What every run keeps.

  /** Word-sized halves with every reserved field zero. */
  ghost predicate Cleared(p: Pair) {
    && Word(p.upper) && Word(p.lower)
    && p.upper / 8192 % 16 == 0 && p.lower / 128 % 1024 == 0 && p.lower / 4 % 2 == 0
  }

  ghost predicate AllCleared(banks: seq<seq<Pair>>) {
    Stocked(banks) && forall b, e | 0 <= b < 2 && 0 <= e < 4 :: Cleared(banks[b][e])
  }

  lemma MaskedField(data: nat, mask: nat, j: nat, n: nat, p: nat, m: nat)
    requires p == Pow(j) && m == Pow(n) && mask / p % m == 0
    ensures And(data, mask) / p % m == 0
  {
    hide And;
    AndField(data, mask, j, n);
  }

  lemma StoredCleared(p: Pair, lower: bool, data: nat)
    requires Cleared(p)
    ensures Cleared(StoredHalf(p, lower, data))
  {
    hide And;
    SmallPowers();
    AndBound(data, LOWERMASK);
    AndBound(data, UPPERMASK);
    MaskedField(data, UPPERMASK, 13, 4, 8192, 16);
    MaskedField(data, LOWERMASK, 7, 10, 128, 1024);
    MaskedField(data, LOWERMASK, 2, 1, 4, 2);
  }

  lemma {:induction false} RunCleared(requests: seq<Request>)
    ensures AllCleared(Serve(requests).banks)
  {
    hide Cleared;
    if requests == [] {
      ZeroCleared();
    } else {
      var s, q := Serve(requests[..|requests| - 1]), requests[|requests| - 1];
      RunCleared(requests[..|requests| - 1]);
      if !IsTranslation(q) && !Unsupported(q) && !q.pr && q.kind == 4 {
        StoredCleared(s.banks[Bank(q.spr)][Entry(q.spr)], IsLower(q.spr), q.data);
      }
    }
  }

  lemma ZeroCleared()
    ensures Cleared(Pair(0, 0))
  {
  }

  /** Legal length, aligned both ways, and no write-through instruction entry: what software must set up. */
  predicate Tidy(p: Pair, instruction: bool) {
    p.upper % 4 != 0 ==>
      var length := Length(p); var size := BLOCK * (length + 1);
      && And(length + 1, length) == 0 && p.upper / BLOCK * BLOCK % size == 0 && p.lower / BLOCK * BLOCK % size == 0
      && !(instruction && p.lower / 64 % 2 != 0)
  }

  lemma TidyIsWellFormed(p: Pair, instruction: bool)
    requires Cleared(p)
    ensures Tidy(p, instruction) <==> !Describe(p, instruction).malformed
  {
    hide And;
  }

  ghost predicate WellSet(bank: seq<Pair>, instruction: bool) {
    (forall e | 0 <= e < |bank| :: Tidy(bank[e], instruction)) && !Overlap(bank, instruction)
  }

  lemma ControlsUnpack(q: Request)
    requires IsTranslation(q)
    ensures Unpack(ControlsFor(q)) == Controls(true, q.kind == 0, q.kind == 2, q.ir, q.dr, q.pr)
  {
  }

  /** Main theorem: after any requests, a translation's reply carries the interval oracle's payload exactly when its bank's
      enabled entries are tidy and do not overlap. */
  lemma TranslationIsInterval(requests: seq<Request>, q: Request)
    requires IsTranslation(q)
    ensures var bank := Serve(requests).banks[BankFor(q.kind)];
            Respond(Serve(requests).banks, q) == Header(q) + Intervals(ControlsFor(q), q.ea, bank)
            <==> WellSet(bank, q.kind == 0)
  {
    hide Describe, Overlap, Cleared, Tidy, ControlsFor, Intervals, Stored, Header, Serve, Unpack;
    RunCleared(requests);
    var bank := Serve(requests).banks[BankFor(q.kind)];
    ControlsUnpack(q);
    forall e | 0 <= e < 4 ensures Tidy(bank[e], q.kind == 0) <==> !Describe(bank[e], q.kind == 0).malformed
                          ensures Word(bank[e].upper) && Word(bank[e].lower) {
      TidyIsWellFormed(bank[e], q.kind == 0);
      ClearedWords(bank[e]);
    }
    OraclesAgreeIffClean(ControlsFor(q), q.ea, bank);
  }

  lemma ClearedWords(p: Pair)
    requires Cleared(p)
    ensures Word(p.upper) && Word(p.lower)
  {
  }

  /** A supervisor write is read back with reserved fields cleared, and every other register is unchanged. */
  lemma WriteReadsBack(banks: seq<seq<Pair>>, spr: nat, other: nat, data: nat)
    requires Stocked(banks) && 528 <= spr <= 543 && 528 <= other <= 543
    ensures ReadHalf(WriteHalf(banks, spr, data), other)
         == if other == spr then And(data, if IsLower(spr) then LOWERMASK else UPPERMASK) else ReadHalf(banks, other)
  {
    hide And;
  }

  /** Every request is counted once, and no translation or read changes a bank. */
  lemma {:induction false} RequestsCounted(requests: seq<Request>)
    ensures var n := Serve(requests).counts; n.translation + n.write + n.read + n.privileged + n.unsupported == |requests|
  {
    if requests != [] {
      RequestsCounted(requests[..|requests| - 1]);
    }
  }
}
