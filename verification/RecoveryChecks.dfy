/** The checks the recovery model makes of itself after each step, implied by the invariant; operand reads. */
module RecoveryChecks {
  import opened Wrappers
  import opened Integers
  import opened Recovery
  import opened RecoveryInvariant

  function Slots(entries: seq<Entry>): seq<int> {
    seq(|entries|, k requires 0 <= k < |entries| => entries[k].tag.slot)
  }

  function Serials(entries: seq<Entry>): seq<int> {
    seq(|entries|, k requires 0 <= k < |entries| => entries[k].serial)
  }

  /** The renames in use, oldest first. */
  function RenameList(entries: seq<Entry>): seq<int> {
    if entries == [] then []
    else (if entries[0].rename.Some? then [entries[0].rename.value] else []) + RenameList(entries[1..])
  }

  function Elements(xs: seq<int>): set<int> {
    set x | x in xs
  }

  ghost predicate SelfChecks(s: State, c: Config)
    requires c.depth > 0
  {
    && |s.entries| <= c.depth
    && |Elements(Slots(s.entries))| == |s.entries|
    && |Elements(Serials(s.entries))| == |s.entries|
    && (forall j, k | 0 <= j < k < |s.entries| :: s.entries[j].serial <= s.entries[k].serial)
    && |RenameList(s.entries)| == |Elements(RenameList(s.entries))| <= c.renameDepth
    && s.mapping == MappingOf(s.entries)
    && (forall k | 0 <= k < |s.entries| - 1 :: s.entries[k + 1].tag.slot == Following(s.entries[k].tag.slot, c.depth))
    && (|s.entries| > 0 ==> s.tail == Following(s.entries[|s.entries| - 1].tag.slot, c.depth))
    && (forall t | t in s.tokens && !Active(s.entries, t) :: s.tokens[t] == External)
    && (forall e | e in s.entries :: !e.done || e.tag !in s.tokens)
  }

  lemma {:induction false} DistinctCount(xs: seq<int>)
    requires forall j, k | 0 <= j < k < |xs| :: xs[j] != xs[k]
    ensures |Elements(xs)| == |xs|
  {
    if xs == [] {
      assert Elements(xs) == {};
    } else {
      DistinctCount(xs[1..]);
      assert Elements(xs) == {xs[0]} + Elements(xs[1..]);
    }
  }

  function Below(xs: set<int>, n: nat): set<int> {
    set x | x in xs && 0 <= x < n
  }

  lemma {:induction false} BelowCount(xs: set<int>, n: nat)
    ensures |Below(xs, n)| <= n
  {
    if n > 0 {
      BelowCount(xs, n - 1);
      assert Below(xs, n) == if n - 1 in xs then Below(xs, n - 1) + {n - 1} else Below(xs, n - 1);
    } else {
      assert Below(xs, n) == {};
    }
  }

  lemma {:induction false} RenameListed(entries: seq<Entry>)
    ensures forall x | x in RenameList(entries) :: x in Renames(entries)
  {
    if entries != [] {
      var rest := entries[1..];
      RenameListed(rest);
      assert entries == [entries[0]] + rest;
      assert Renames(entries) == (if entries[0].rename.Some? then {entries[0].rename.value} else {}) + Renames(rest);
    }
  }

  lemma {:induction false} RenameListDistinct(entries: seq<Entry>, c: Config)
    requires Renamed(entries, c)
    ensures forall j, k | 0 <= j < k < |RenameList(entries)| :: RenameList(entries)[j] != RenameList(entries)[k]
  {
    if entries != [] {
      var rest := entries[1..];
      RenameListDistinct(rest, c);
      RenameListed(rest);
      if entries[0].rename.Some? {
        var x, list := entries[0].rename.value, RenameList(rest);
        assert x !in list by {
          HeadRenameOnce(entries, c);
        }
        assert RenameList(entries) == [x] + list;
        forall k | 0 <= k < |list| ensures list[k] != x {
          assert list[k] in list;
        }
      } else {
        assert RenameList(entries) == RenameList(rest);
      }
    }
  }

  lemma HeadRenameOnce(entries: seq<Entry>, c: Config)
    requires Renamed(entries, c) && |entries| > 0 && entries[0].rename.Some?
    ensures entries[0].rename.value !in Renames(entries[1..])
    ensures entries[0].rename.value !in RenameList(entries[1..])
  {
    var rest := entries[1..];
    forall e | e in rest ensures e.rename != entries[0].rename {
      var k :| 0 <= k < |rest| && rest[k] == e;
      assert rest[k] == entries[k + 1];
    }
    RenameListed(rest);
  }

  lemma RenamesInRange(entries: seq<Entry>, c: Config)
    requires Renamed(entries, c)
    ensures forall x | x in Renames(entries) :: 0 <= x < c.renameDepth
  {
    forall x | x in Renames(entries) ensures 0 <= x < c.renameDepth {
      var k :| 0 <= k < |entries| && entries[k].rename.Some? && entries[k].rename.value == x;
    }
  }

  lemma IdentitiesCounted(entries: seq<Entry>, tail: nat, next: nat, c: Config)
    requires Ordered(entries, tail, next, c)
    ensures |Elements(Slots(entries))| == |entries| && |Elements(Serials(entries))| == |entries|
  {
    hide Slot, Ordered;
    assert forall j, k | 0 <= j < k < |entries| :: entries[j].serial < entries[k].serial by {
      SerialsRise(entries, tail, next, c);
    }
    forall j, k | 0 <= j < k < |entries| ensures Slots(entries)[j] != Slots(entries)[k] {
      TagsDistinct(entries, tail, next, c, j, k);
    }
    DistinctCount(Slots(entries));
    DistinctCount(Serials(entries));
  }

  lemma SerialsRise(entries: seq<Entry>, tail: nat, next: nat, c: Config)
    requires Ordered(entries, tail, next, c)
    ensures forall j, k | 0 <= j < k < |entries| :: entries[j].serial < entries[k].serial
  {
    hide Slot;
  }

  lemma RenamesCounted(entries: seq<Entry>, c: Config)
    requires Renamed(entries, c)
    ensures |RenameList(entries)| == |Elements(RenameList(entries))| <= c.renameDepth
  {
    hide Renamed;
    RenameListed(entries);
    RenameListDistinct(entries, c);
    DistinctCount(RenameList(entries));
    RenamesInRange(entries, c);
    var used := Elements(RenameList(entries));
    BelowCount(used, c.renameDepth);
    assert used == Below(used, c.renameDepth);
  }

  lemma RingAdjacent(entries: seq<Entry>, tail: nat, next: nat, c: Config, k: nat)
    requires Ordered(entries, tail, next, c) && k < |entries|
    ensures c.depth > 0
    ensures Following(entries[k].tag.slot, c.depth) == if k == |entries| - 1 then tail else entries[k + 1].tag.slot
  {
    hide Slot;
    SlotNext(tail, |entries| - k, c.depth);
    SlotAdvance(tail, 0, c.depth);
  }

  lemma OwedOrOwned(entries: seq<Entry>, tokens: map<Tag, Kind>)
    requires Owned(entries, tokens)
    ensures forall t | t in tokens && !Active(entries, t) :: tokens[t] == External
    ensures forall e | e in entries :: !e.done || e.tag !in tokens
  {
  }

  /** Every assertion of the model's own checker holds in every valid state. */
  lemma ValidChecks(s: State, c: Config)
    requires Valid(s, c)
    ensures c.depth > 0 && SelfChecks(s, c)
  {
    assert |s.entries| <= c.depth && s.mapping == MappingOf(s.entries);
    IdentitiesCounted(s.entries, s.tail, s.nextSerial, c);
    SerialsRise(s.entries, s.tail, s.nextSerial, c);
    RenamesCounted(s.entries, c);
    OwedOrOwned(s.entries, s.tokens);
    assert c.depth > 0;
    forall k | 0 <= k < |s.entries| - 1 ensures s.entries[k + 1].tag.slot == Following(s.entries[k].tag.slot, c.depth) {
      RingAdjacent(s.entries, s.tail, s.nextSerial, c, k);
    }
    if |s.entries| > 0 {
      RingAdjacent(s.entries, s.tail, s.nextSerial, c, |s.entries| - 1);
    }
    hide *;
    SelfChecksFrom(s, c);
  }

  lemma SelfChecksFrom(s: State, c: Config)
    requires c.depth > 0 && |s.entries| <= c.depth && s.mapping == MappingOf(s.entries)
    requires |Elements(Slots(s.entries))| == |s.entries| && |Elements(Serials(s.entries))| == |s.entries|
    requires forall j, k | 0 <= j < k < |s.entries| :: s.entries[j].serial < s.entries[k].serial
    requires |RenameList(s.entries)| == |Elements(RenameList(s.entries))| <= c.renameDepth
    requires forall k | 0 <= k < |s.entries| - 1 :: s.entries[k + 1].tag.slot == Following(s.entries[k].tag.slot, c.depth)
    requires |s.entries| > 0 ==> s.tail == Following(s.entries[|s.entries| - 1].tag.slot, c.depth)
    requires forall t | t in s.tokens && !Active(s.entries, t) :: s.tokens[t] == External
    requires forall e | e in s.entries :: !e.done || e.tag !in s.tokens
    ensures SelfChecks(s, c)
  {
    hide RenameList, Elements, Slots, Serials, MappingOf, Active, Following;
  }

  // Operand reads.

  datatype Operand = Operand(ready: bool, value: int, tag: Option<Tag>)

  /** The youngest entry writing the register, if any. */
  function YoungestWriter(entries: seq<Entry>, reg: int): (k: Option<nat>)
    ensures k.Some? ==> k.value < |entries| && entries[k.value].dst == Some(reg)
                        && forall j | k.value < j < |entries| :: entries[j].dst != Some(reg)
    ensures k.None? ==> forall j | 0 <= j < |entries| :: entries[j].dst != Some(reg)
  {
    if entries == [] then None
    else if entries[|entries| - 1].dst == Some(reg) then Some(|entries| - 1)
    else YoungestWriter(entries[..|entries| - 1], reg)
  }

  /** What an operand read means: the youngest in-flight writer, else the architectural register. */
  function ReadOperand(entries: seq<Entry>, arch: seq<int>, reg: int): Operand
    requires 0 <= reg < |arch|
  {
    var k := YoungestWriter(entries, reg);
    if k.Some? then Operand(entries[k.value].done, entries[k.value].value, Some(entries[k.value].tag))
    else Operand(true, arch[reg], None)
  }

  lemma {:induction false} MappingIsYoungest(entries: seq<Entry>, reg: int)
    ensures var k := YoungestWriter(entries, reg);
            if k.Some? then reg in MappingOf(entries) && MappingOf(entries)[reg] == entries[k.value].tag
            else reg !in MappingOf(entries)
  {
    if entries != [] {
      MappingIsYoungest(entries[..|entries| - 1], reg);
    }
  }

  lemma TagFoundAt(entries: seq<Entry>, k: nat)
    requires Distinct(entries) && k < |entries|
    ensures IndexOf(entries, entries[k].tag) == Some(k)
  {
  }
}
