/** The dispatch monitor's completion queue: streamed retirements, dispatches, recoveries and occupancy. */
module DispatchTrace {
  import opened Wrappers

  type Pc = int

  /** What the monitor asks of an instruction's class; unknown words have none. */
  datatype Class = Class(gprWrites: nat, fprWrites: nat, multiple: bool, conditional: bool, fromSecond: bool, serialized: bool)

  /** How a recovery removed an entry: behind a branch still in the queue, or behind one removed at dispatch. */
  datatype Mark = Live | Killed | KilledBehindRemoved

  datatype Entry = Entry(pc: Pc, cycle: int, seqno: nat, mark: Mark, kind: Option<Class>) {
    predicate Marked() {
      mark != Live
    }
  }

  datatype Stats = Stats(cycles: int, dispatches: nat, retirements: nat, pairsDispatched: nat, pairsRetired: nat,
                         flushed: nat, mispredicts: nat, removed: nat, cqMax: nat, gprMax: nat)

  /** removed says which dispatches the branch unit took out; recovery is the count a misprediction removes, and after is
      given when the mispredicted branch was itself removed at dispatch. */
  datatype Event = Event(cycle: int, dispatched: seq<Pc>, retired: seq<Pc>, recovery: Option<nat>, removed: seq<bool>, after: Option<nat>)

  datatype Violation =
    | TooWide | NotDispatched | OutOfOrder | RetiredAfterRecovery | SameCycle | FromSecondSlot | QueueFull | RenamesFull | RecoveryTooLarge

  datatype Config = Config(width: nat, flush: bool, classes: map<Pc, Class>)

  datatype Rules = Rules(inflight: seq<Entry>, seqno: nat, lastRetired: Option<Pc>, condRetired: bool, stats: Stats)

  const CQDEPTH := 5
  const GPRRENAMES := 5
  const FPRRENAMES := 4

  const EMPTY := Rules([], 0, None, false, Stats(0, 0, 0, 0, 0, 0, 0, 0, 0, 0))

  function ClassOf(c: Config, pc: Pc): Option<Class> {
    if pc in c.classes then Some(c.classes[pc]) else None
  }

  // One retirement.

  /** How many marked entries lead the queue. */
  function LeadingMarked(q: seq<Entry>): (n: nat)
    ensures n <= |q| && (forall k | 0 <= k < n :: q[k].Marked()) && (n < |q| ==> !q[n].Marked())
  {
    if |q| > 0 && q[0].Marked() then 1 + LeadingMarked(q[1..]) else 0
  }

  /** The wrong path a retirement may step over. */
  function WrongPath(s: Rules): (n: nat)
    ensures n <= |s.inflight| && forall k | 0 <= k < n :: s.inflight[k].Marked()
  {
    if s.condRetired || (|s.inflight| > 0 && s.inflight[0].mark == KilledBehindRemoved) then LeadingMarked(s.inflight) else 0
  }

  function FindPc(q: seq<Entry>, pc: Pc, from: nat): (r: Option<nat>)
    requires from <= |q|
    ensures r.Some? ==> from <= r.value < |q| && q[r.value].pc == pc && forall k | from <= k < r.value :: q[k].pc != pc
    ensures r.None? ==> forall k | from <= k < |q| :: q[k].pc != pc
    decreases |q| - from
  {
    if from == |q| then None else if q[from].pc == pc then Some(from) else FindPc(q, pc, from + 1)
  }

  /** A further micro-op of the same multiple or string instruction takes no entry. */
  predicate IsMicroOp(s: Rules, c: Config, pc: Pc) {
    ClassOf(c, pc).Some? && ClassOf(c, pc).value.multiple && s.lastRetired == Some(pc) && FindPc(s.inflight, pc, 0).None?
  }

  function RetireOne(s: Rules, c: Config, cycle: int, slot: nat, pc: Pc): Result<Rules, Violation> {
    if IsMicroOp(s, c, pc) then Ok(s)
    else
      var wrongPath := WrongPath(s);
      var index := FindPc(s.inflight, pc, wrongPath);
      if index.None? then Err(NotDispatched)
      else if !c.flush && index.value != wrongPath then Err(OutOfOrder)
      else if s.inflight[index.value].Marked() then Err(RetiredAfterRecovery)
      else if s.inflight[index.value].cycle >= cycle then Err(SameCycle)
      else
        var kind := ClassOf(c, pc);
        if kind.Some? && slot == 1 && (!kind.value.fromSecond || kind.value.serialized) then Err(FromSecondSlot)
        else
          Ok(Rules(s.inflight[index.value + 1..], s.seqno, Some(pc), kind.Some? && kind.value.conditional,
                   s.stats.(flushed := s.stats.flushed + index.value, retirements := s.stats.retirements + 1,
                            mispredicts := s.stats.mispredicts + if wrongPath > 0 then 1 else 0)))
  }

  /** The first k retirements of the event, in slot order. */
  function RetireAll(s: Rules, c: Config, e: Event, k: nat): Result<Rules, Violation>
    requires k <= |e.retired|
  {
    if k == 0 then Ok(s)
    else
      var r := RetireAll(s, c, e, k - 1);
      if r.Err? then r else RetireOne(r.value, c, e.cycle, k - 1, e.retired[k - 1])
  }

  // Dispatches.

  predicate Gone(e: Event, slot: nat) {
    slot < |e.removed| && e.removed[slot]
  }

  function DispatchOne(s: Rules, c: Config, e: Event, slot: nat): Rules
    requires slot < |e.dispatched|
  {
    var pc := e.dispatched[slot];
    if Gone(e, slot) then
      s.(stats := s.stats.(dispatches := s.stats.dispatches + 1, removed := s.stats.removed + 1))
    else
      s.(seqno := s.seqno + 1, inflight := s.inflight + [Entry(pc, e.cycle, s.seqno + 1, Live, ClassOf(c, pc))],
         stats := s.stats.(dispatches := s.stats.dispatches + 1))
  }

  function DispatchAll(s: Rules, c: Config, e: Event, k: nat): Rules
    requires k <= |e.dispatched|
  {
    if k == 0 then s else DispatchOne(DispatchAll(s, c, e, k - 1), c, e, k - 1)
  }

  // Occupancy and recovery.

  function LiveCount(q: seq<Entry>): nat {
    if q == [] then 0 else LiveCount(q[..|q| - 1]) + if q[|q| - 1].Marked() then 0 else 1
  }

  function Writes(e: Entry, fpr: bool): nat {
    if e.Marked() || e.kind.None? then 0 else if fpr then e.kind.value.fprWrites else e.kind.value.gprWrites
  }

  /** Destinations the unmarked entries hold. */
  function Destinations(q: seq<Entry>, fpr: bool): nat {
    if q == [] then 0 else Destinations(q[..|q| - 1], fpr) + Writes(q[|q| - 1], fpr)
  }

  function Max(a: nat, b: nat): nat {
    if a >= b then a else b
  }

  function Occupancy(s: Rules): Result<Rules, Violation> {
    var live, gpr, fpr := LiveCount(s.inflight), Destinations(s.inflight, false), Destinations(s.inflight, true);
    if live > CQDEPTH then Err(QueueFull)
    else if gpr > GPRRENAMES || fpr > FPRRENAMES then Err(RenamesFull)
    else Ok(s.(stats := s.stats.(cqMax := Max(s.stats.cqMax, live), gprMax := Max(s.stats.gprMax, gpr))))
  }

  /** Marks the youngest n entries. */
  function MarkYoungest(q: seq<Entry>, n: nat, mark: Mark): (r: seq<Entry>)
    requires n <= |q|
    ensures |r| == |q| && forall k | 0 <= k < |q| :: r[k] == if k >= |q| - n then q[k].(mark := mark) else q[k]
  {
    seq(|q|, k requires 0 <= k < |q| => if k >= |q| - n then q[k].(mark := mark) else q[k])
  }

  function MarkOf(e: Event): Mark {
    if e.after.None? then Killed else KilledBehindRemoved
  }

  function Recover(s: Rules, e: Event): Result<Rules, Violation> {
    if e.recovery.None? then Ok(s)
    else if e.recovery.value > |s.inflight| then Err(RecoveryTooLarge)
    else Ok(s.(inflight := MarkYoungest(s.inflight, e.recovery.value, MarkOf(e))))
  }

  function Counted(s: Rules, e: Event): Rules {
    s.(stats := s.stats.(cycles := e.cycle))
  }

  function Paired(s: Rules, e: Event): Rules {
    s.(stats := s.stats.(pairsRetired := s.stats.pairsRetired + (if |e.retired| == 2 then 1 else 0),
                         pairsDispatched := s.stats.pairsDispatched + if |e.dispatched| == 2 then 1 else 0))
  }

  /** One event: retirements, then dispatches, then occupancy, then the recovery's marks. */
  function Accept(s: Rules, c: Config, e: Event): Result<Rules, Violation> {
    if |e.dispatched| > c.width || |e.retired| > c.width then Err(TooWide)
    else
      var retired := RetireAll(Counted(s, e), c, e, |e.retired|);
      if retired.Err? then retired
      else
        var checked := Occupancy(DispatchAll(Paired(retired.value, e), c, e, |e.dispatched|));
        if checked.Err? then checked else Recover(checked.value, e)
  }

  class RulesMonitor {
    const config: Config
    var inflight: seq<Entry>
    var seqno: nat
    var lastRetired: Option<Pc>
    var condRetired: bool
    var stats: Stats

    function Model(): Rules
      reads this
    {
      Rules(inflight, seqno, lastRetired, condRetired, stats)
    }

    constructor (c: Config)
      ensures config == c && Model() == EMPTY
    {
      config := c;
      inflight, seqno, lastRetired, condRetired := [], 0, None, false;
      stats := Stats(0, 0, 0, 0, 0, 0, 0, 0, 0, 0);
    }

    method Has(pc: Pc) returns (found: bool)
      ensures found == FindPc(inflight, pc, 0).Some?
    {
      for k := 0 to |inflight|
        invariant forall j | 0 <= j < k :: inflight[j].pc != pc
      {
        if inflight[k].pc == pc {
          return true;
        }
      }
      found := false;
    }

    method SkipWrongPath() returns (n: nat)
      ensures n == WrongPath(Model())
    {
      n := 0;
      if condRetired || (|inflight| > 0 && inflight[0].mark == KilledBehindRemoved) {
        while n < |inflight| && inflight[n].Marked()
          invariant n <= |inflight| && n + LeadingMarked(inflight[n..]) == LeadingMarked(inflight)
        {
          n := n + 1;
        }
      }
    }

    method Search(pc: Pc, from: nat) returns (r: Option<nat>)
      requires from <= |inflight|
      ensures r == FindPc(inflight, pc, from)
    {
      for k := from to |inflight|
        invariant forall j | from <= j < k :: inflight[j].pc != pc
      {
        if inflight[k].pc == pc {
          return Some(k);
        }
      }
      r := None;
    }

    method Retire(cycle: int, slot: nat, pc: Pc) returns (bad: Option<Violation>)
      modifies this`inflight, this`lastRetired, this`condRetired, this`stats
      ensures var r := RetireOne(old(Model()), config, cycle, slot, pc);
              if bad.Some? then r == Err(bad.value) else r == Ok(Model())
    {
      hide WrongPath, LeadingMarked, FindPc;
      var kind := ClassOf(config, pc);
      var here := Has(pc);
      if kind.Some? && kind.value.multiple && lastRetired == Some(pc) && !here {
        return None;
      }
      var wrongPath := SkipWrongPath();
      var index := Search(pc, wrongPath);
      if index.None? {
        return Some(NotDispatched);
      }
      var i := index.value;
      if !config.flush && i != wrongPath {
        return Some(OutOfOrder);
      }
      if inflight[i].Marked() {
        return Some(RetiredAfterRecovery);
      }
      if inflight[i].cycle >= cycle {
        return Some(SameCycle);
      }
      if kind.Some? && slot == 1 && (!kind.value.fromSecond || kind.value.serialized) {
        return Some(FromSecondSlot);
      }
      stats := stats.(flushed := stats.flushed + i, retirements := stats.retirements + 1,
                      mispredicts := stats.mispredicts + if wrongPath > 0 then 1 else 0);
      inflight := inflight[i + 1..];
      lastRetired, condRetired := Some(pc), kind.Some? && kind.value.conditional;
      bad := None;
    }

    method Dispatch(e: Event, slot: nat)
      requires slot < |e.dispatched|
      modifies this`inflight, this`seqno, this`stats
      ensures Model() == DispatchOne(old(Model()), config, e, slot)
    {
      stats := stats.(dispatches := stats.dispatches + 1);
      if Gone(e, slot) {
        stats := stats.(removed := stats.removed + 1);
      } else {
        var pc := e.dispatched[slot];
        seqno := seqno + 1;
        inflight := inflight + [Entry(pc, e.cycle, seqno, Live, ClassOf(config, pc))];
      }
    }

    method CheckOccupancy() returns (bad: Option<Violation>)
      modifies this`stats
      ensures var r := Occupancy(old(Model())); if bad.Some? then r == Err(bad.value) else r == Ok(Model())
    {
      var live, gpr, fpr := 0, 0, 0;
      for k := 0 to |inflight|
        invariant live == LiveCount(inflight[..k])
        invariant gpr == Destinations(inflight[..k], false) && fpr == Destinations(inflight[..k], true)
      {
        assert inflight[..k + 1][..k] == inflight[..k];
        if !inflight[k].Marked() {
          live := live + 1;
        }
        gpr, fpr := gpr + Writes(inflight[k], false), fpr + Writes(inflight[k], true);
      }
      assert inflight[..|inflight|] == inflight;
      if live > CQDEPTH {
        return Some(QueueFull);
      }
      if gpr > GPRRENAMES || fpr > FPRRENAMES {
        return Some(RenamesFull);
      }
      stats := stats.(cqMax := Max(stats.cqMax, live), gprMax := Max(stats.gprMax, gpr));
      bad := None;
    }

    method MarkRecovered(n: nat, mark: Mark)
      requires n <= |inflight|
      modifies this`inflight
      ensures inflight == MarkYoungest(old(inflight), n, mark)
    {
      var q := inflight;
      var k := |q| - n;
      while k < |q|
        invariant |q| - n <= k <= |q| == |inflight|
        invariant forall j | 0 <= j < |q| :: inflight[j] == if |q| - n <= j < k then q[j].(mark := mark) else q[j]
      {
        inflight := inflight[k := q[k].(mark := mark)];
        k := k + 1;
      }
    }

    /** Takes one event in; a violation ends the run. */
    method Take(e: Event) returns (bad: Option<Violation>)
      modifies this
      ensures var r := Accept(old(Model()), config, e); if bad.Some? then r == Err(bad.value) else r == Ok(Model())
    {
      hide RetireOne, DispatchOne, Occupancy;
      if |e.dispatched| > config.width || |e.retired| > config.width {
        return Some(TooWide);
      }
      stats := stats.(cycles := e.cycle);
      ghost var counted := Model();
      for slot := 0 to |e.retired|
        invariant RetireAll(counted, config, e, slot) == Ok(Model())
      {
        ghost var before := Model();
        bad := Retire(e.cycle, slot, e.retired[slot]);
        if bad.Some? {
          RetireStuck(counted, config, e, slot + 1);
          return;
        }
      }
      stats := stats.(pairsRetired := stats.pairsRetired + (if |e.retired| == 2 then 1 else 0),
                      pairsDispatched := stats.pairsDispatched + if |e.dispatched| == 2 then 1 else 0);
      ghost var paired := Model();
      for slot := 0 to |e.dispatched|
        invariant Model() == DispatchAll(paired, config, e, slot)
      {
        Dispatch(e, slot);
      }
      bad := CheckOccupancy();
      if bad.Some? {
        return;
      }
      if e.recovery.Some? {
        if e.recovery.value > |inflight| {
          return Some(RecoveryTooLarge);
        }
        MarkRecovered(e.recovery.value, MarkOf(e));
      }
    }
  }

  lemma {:induction false} RetireStuck(s: Rules, c: Config, e: Event, k: nat)
    requires k <= |e.retired| && RetireAll(s, c, e, k).Err?
    ensures RetireAll(s, c, e, |e.retired|) == RetireAll(s, c, e, k)
    decreases |e.retired| - k
  {
    hide RetireOne;
    if k < |e.retired| {
      RetireStuck(s, c, e, k + 1);
    }
  }
}
