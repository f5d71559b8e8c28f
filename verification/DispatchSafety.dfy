/** Conservation over accepted dispatch traces: every dispatched entry is retired once, discarded, or still in flight, in order. */
module DispatchSafety {
  import opened Wrappers
  import opened DispatchTrace

  /** An entry that left the queue, with the cycle it retired if it did. */
  datatype Fate = Fate(entry: Entry, retiredAt: Option<int>)

  /** The monitor with its history: every queued dispatch, every entry gone, every sequence number a recovery removed. */
  datatype History = History(s: Rules, log: seq<Entry>, fates: seq<Fate>, recovered: set<nat>)

  function Discards(q: seq<Entry>): (r: seq<Fate>)
    ensures |r| == |q| && forall k | 0 <= k < |q| :: r[k] == Fate(q[k], None)
  {
    seq(|q|, k requires 0 <= k < |q| => Fate(q[k], None))
  }

  /** What one accepted retirement takes from the queue. */
  function GoneOne(s: Rules, c: Config, cycle: int, pc: Pc): seq<Fate> {
    if IsMicroOp(s, c, pc) then []
    else
      var index := FindPc(s.inflight, pc, WrongPath(s));
      if index.None? then [] else Discards(s.inflight[..index.value]) + [Fate(s.inflight[index.value], Some(cycle))]
  }

  function GoneAll(s: Rules, c: Config, e: Event, k: nat): seq<Fate>
    requires k <= |e.retired|
  {
    if k == 0 then []
    else
      var before := RetireAll(s, c, e, k - 1);
      GoneAll(s, c, e, k - 1) + if before.Ok? then GoneOne(before.value, c, e.cycle, e.retired[k - 1]) else []
  }

  /** The entries an event queues. */
  function Queued(s: Rules, c: Config, e: Event, k: nat): seq<Entry>
    requires k <= |e.dispatched|
  {
    if k == 0 then []
    else
      var before := DispatchAll(s, c, e, k - 1);
      Queued(s, c, e, k - 1)
      + if Gone(e, k - 1) then [] else [Entry(e.dispatched[k - 1], e.cycle, before.seqno + 1, Live, ClassOf(c, e.dispatched[k - 1]))]
  }

  function Seqnos(q: seq<Entry>): set<nat> {
    set e | e in q :: e.seqno
  }

  /** The sequence numbers an event's recovery removes. */
  function Recovering(s: Rules, e: Event): set<nat> {
    if e.recovery.Some? && e.recovery.value <= |s.inflight| then Seqnos(s.inflight[|s.inflight| - e.recovery.value..]) else {}
  }

  function Observe(h: History, c: Config, e: Event): Result<History, Violation> {
    var next := Accept(h.s, c, e);
    if next.Err? then Err(next.error)
    else
      var retired := RetireAll(Counted(h.s, e), c, e, |e.retired|);
      if retired.Err? then Err(retired.error)
      else
        Ok(History(next.value, h.log + Queued(Paired(retired.value, e), c, e, |e.dispatched|),
                   h.fates + GoneAll(Counted(h.s, e), c, e, |e.retired|),
                   h.recovered + Recovering(next.value, e)))
  }

  function Run(events: seq<Event>, c: Config): Result<History, Violation> {
    if events == [] then Ok(History(EMPTY, [], [], {}))
    else
      var before := Run(events[..|events| - 1], c);
      if before.Err? then before else Observe(before.value, c, events[|events| - 1])
  }

  /** An entry as it was dispatched. */
  function Identity(e: Entry): Entry {
    e.(mark := Live)
  }

  function Identities(q: seq<Entry>): (r: seq<Entry>)
    ensures |r| == |q| && forall k | 0 <= k < |q| :: r[k] == Identity(q[k])
  {
    seq(|q|, k requires 0 <= k < |q| => Identity(q[k]))
  }

  function Entries(fates: seq<Fate>): (r: seq<Entry>)
    ensures |r| == |fates| && forall k | 0 <= k < |r| :: r[k] == fates[k].entry
  {
    seq(|fates|, k requires 0 <= k < |fates| => fates[k].entry)
  }

  function Retired(fates: seq<Fate>): nat {
    if fates == [] then 0 else Retired(fates[..|fates| - 1]) + if fates[|fates| - 1].retiredAt.Some? then 1 else 0
  }

  lemma {:induction false} RetiredAppend(a: seq<Fate>, b: seq<Fate>)
    ensures Retired(a + b) == Retired(a) + Retired(b) <= |a| + |b|
  {
    if b == [] {
      assert a + b == a;
      RetiredBound(a);
    } else {
      var n := |b| - 1;
      assert (a + b)[..|a + b| - 1] == a + b[..n];
      RetiredAppend(a, b[..n]);
    }
  }

  lemma {:induction false} RetiredBound(a: seq<Fate>)
    ensures Retired(a) <= |a|
  {
    if a != [] {
      RetiredBound(a[..|a| - 1]);
    }
  }

  lemma {:induction false} DiscardsRetireNone(q: seq<Entry>)
    ensures Retired(Discards(q)) == 0
  {
    if q != [] {
      assert Discards(q)[..|q| - 1] == Discards(q[..|q| - 1]);
      DiscardsRetireNone(q[..|q| - 1]);
    }
  }

  // The invariant.

  /** The log is, oldest first, what has left followed by what is in flight. */
  ghost predicate Ordered(s: Rules, log: seq<Entry>, fates: seq<Fate>) {
    && log == Identities(Entries(fates)) + Identities(s.inflight)
    && s.seqno == |log| && forall k | 0 <= k < |log| :: log[k].seqno == k + 1
  }

  ghost predicate Balanced(s: Rules, log: seq<Entry>, fates: seq<Fate>) {
    && s.stats.dispatches == |log| + s.stats.removed
    && s.stats.retirements == Retired(fates) && s.stats.flushed == |fates| - Retired(fates)
  }

  /** A retired entry was never removed and left after its dispatch cycle; without flushing, a discarded one was removed. */
  ghost predicate Fair(f: Fate, recovered: set<nat>, flush: bool) {
    if f.retiredAt.Some? then f.entry.seqno !in recovered && f.entry.cycle < f.retiredAt.value
    else flush || f.entry.seqno in recovered
  }

  ghost predicate MarksKept(q: seq<Entry>, recovered: set<nat>) {
    forall k | 0 <= k < |q| :: q[k].Marked() <==> q[k].seqno in recovered
  }

  ghost predicate Within(s: Rules) {
    LiveCount(s.inflight) <= CQDEPTH && Destinations(s.inflight, false) <= GPRRENAMES && Destinations(s.inflight, true) <= FPRRENAMES
  }

  ghost predicate Conserved(h: History, flush: bool) {
    && Ordered(h.s, h.log, h.fates) && Balanced(h.s, h.log, h.fates)
    && (forall k | 0 <= k < |h.fates| :: Fair(h.fates[k], h.recovered, flush))
    && MarksKept(h.s.inflight, h.recovered)
    && (forall n | n in h.recovered :: n <= |h.log|)
  }

  lemma EntriesAppend(a: seq<Fate>, b: seq<Fate>)
    ensures Identities(Entries(a + b)) == Identities(Entries(a)) + Identities(Entries(b))
  {
  }

  /** The queue lost a prefix, every part of it accounted for. */
  ghost predicate Takes(s: Rules, n: Rules, gone: seq<Fate>, recovered: set<nat>, flush: bool) {
    && Entries(gone) + n.inflight == s.inflight && n.seqno == s.seqno
    && n.stats.dispatches == s.stats.dispatches && n.stats.removed == s.stats.removed
    && n.stats.retirements == s.stats.retirements + Retired(gone)
    && n.stats.flushed == s.stats.flushed + |gone| - Retired(gone)
    && (forall k | 0 <= k < |gone| :: Fair(gone[k], recovered, flush))
    && MarksKept(n.inflight, recovered)
  }

  lemma TakesCompose(s: Rules, m: Rules, n: Rules, gone: seq<Fate>, more: seq<Fate>, recovered: set<nat>, flush: bool)
    requires Takes(s, m, gone, recovered, flush) && Takes(m, n, more, recovered, flush)
    ensures Takes(s, n, gone + more, recovered, flush)
  {
    hide Fair, MarksKept, Retired;
    RetiredAppend(gone, more);
    assert Entries(gone + more) == Entries(gone) + Entries(more);
    assert Entries(gone) + (Entries(more) + n.inflight) == Entries(gone + more) + n.inflight;
  }

  /** One retirement takes discarded entries, then the one that retires. */
  lemma RetireOneTakes(s: Rules, c: Config, cycle: int, slot: nat, pc: Pc, recovered: set<nat>)
    requires RetireOne(s, c, cycle, slot, pc).Ok? && MarksKept(s.inflight, recovered)
    ensures Takes(s, RetireOne(s, c, cycle, slot, pc).value, GoneOne(s, c, cycle, pc), recovered, c.flush)
  {
    hide LeadingMarked, MarksKept, Fair;
    var n, gone := RetireOne(s, c, cycle, slot, pc).value, GoneOne(s, c, cycle, pc);
    if IsMicroOp(s, c, pc) {
      assert Entries(gone) + n.inflight == s.inflight;
    } else {
      var index := FindPc(s.inflight, pc, WrongPath(s)).value;
      TakenPrefix(s.inflight, index, cycle, n.inflight);
      TakenFair(s, c, cycle, index, recovered);
    }
  }

  lemma TakenPrefix(q: seq<Entry>, index: nat, cycle: int, rest: seq<Entry>)
    requires index < |q| && rest == q[index + 1..]
    ensures var gone := Discards(q[..index]) + [Fate(q[index], Some(cycle))];
            Entries(gone) + rest == q && Retired(gone) == 1 && |gone| == index + 1
  {
    var gone := Discards(q[..index]) + [Fate(q[index], Some(cycle))];
    DiscardsRetireNone(q[..index]);
    assert gone[..|gone| - 1] == Discards(q[..index]);
  }

  lemma TakenFair(s: Rules, c: Config, cycle: int, index: nat, recovered: set<nat>)
    requires index < |s.inflight| && MarksKept(s.inflight, recovered) && !s.inflight[index].Marked() && s.inflight[index].cycle < cycle
    requires c.flush || index == WrongPath(s)
    ensures var gone := Discards(s.inflight[..index]) + [Fate(s.inflight[index], Some(cycle))];
            forall k | 0 <= k < |gone| :: Fair(gone[k], recovered, c.flush)
    ensures MarksKept(s.inflight[index + 1..], recovered)
  {
  }

  lemma {:induction false} RetireAllTakes(s: Rules, c: Config, e: Event, k: nat, recovered: set<nat>)
    requires k <= |e.retired| && RetireAll(s, c, e, k).Ok? && MarksKept(s.inflight, recovered)
    ensures Takes(s, RetireAll(s, c, e, k).value, GoneAll(s, c, e, k), recovered, c.flush)
  {
    hide RetireOne, GoneOne, Fair, MarksKept;
    if k > 0 {
      RetireAllTakes(s, c, e, k - 1, recovered);
      var m := RetireAll(s, c, e, k - 1).value;
      RetireOneTakes(m, c, e.cycle, k - 1, e.retired[k - 1], recovered);
      TakesCompose(s, m, RetireAll(s, c, e, k).value, GoneAll(s, c, e, k - 1), GoneOne(m, c, e.cycle, e.retired[k - 1]),
                   recovered, c.flush);
    }
  }

  lemma {:induction false} DispatchAllAdds(s: Rules, c: Config, e: Event, k: nat)
    requires k <= |e.dispatched|
    ensures var n, more := DispatchAll(s, c, e, k), Queued(s, c, e, k);
            && n.inflight == s.inflight + more && n.seqno == s.seqno + |more|
            && (forall j | 0 <= j < |more| :: more[j].seqno == s.seqno + j + 1 && !more[j].Marked())
            && n.stats.dispatches - n.stats.removed == s.stats.dispatches - s.stats.removed + |more|
            && n.stats.dispatches == s.stats.dispatches + k
            && n.stats.retirements == s.stats.retirements && n.stats.flushed == s.stats.flushed
  {
    if k > 0 {
      DispatchAllAdds(s, c, e, k - 1);
    }
  }

  lemma IdentitiesAppend(a: seq<Entry>, b: seq<Entry>)
    ensures Identities(a + b) == Identities(a) + Identities(b)
  {
  }

  lemma LiveIdentities(q: seq<Entry>)
    requires forall k | 0 <= k < |q| :: !q[k].Marked()
    ensures Identities(q) == q
  {
  }

  /** The queue's sequence numbers follow those of everything gone. */
  lemma SeqnosFollow(s: Rules, log: seq<Entry>, fates: seq<Fate>)
    requires Ordered(s, log, fates)
    ensures forall k | 0 <= k < |fates| :: fates[k].entry.seqno == k + 1
    ensures forall k | 0 <= k < |s.inflight| :: s.inflight[k].seqno == |fates| + k + 1
    ensures |log| == |fates| + |s.inflight|
  {
    forall k | 0 <= k < |fates| ensures fates[k].entry.seqno == k + 1 {
      assert log[k] == Identity(fates[k].entry);
    }
    forall k | 0 <= k < |s.inflight| ensures s.inflight[k].seqno == |fates| + k + 1 {
      assert log[|fates| + k] == Identity(s.inflight[k]);
    }
  }

  lemma RetireOrdered(s: Rules, n: Rules, log: seq<Entry>, fates: seq<Fate>, gone: seq<Fate>)
    requires Ordered(s, log, fates) && Entries(gone) + n.inflight == s.inflight && n.seqno == s.seqno
    ensures Ordered(n, log, fates + gone)
  {
    EntriesAppend(fates, gone);
    IdentitiesAppend(Entries(gone), n.inflight);
    var a, b, d := Identities(Entries(fates)), Identities(Entries(gone)), Identities(n.inflight);
    assert a + (b + d) == (a + b) + d;
  }

  lemma DispatchOrdered(s: Rules, n: Rules, log: seq<Entry>, fates: seq<Fate>, more: seq<Entry>)
    requires Ordered(s, log, fates) && n.inflight == s.inflight + more && n.seqno == s.seqno + |more|
    requires forall j | 0 <= j < |more| :: more[j].seqno == s.seqno + j + 1 && !more[j].Marked()
    ensures Ordered(n, log + more, fates)
  {
    IdentitiesAppend(s.inflight, more);
    LiveIdentities(more);
    var a, b := Identities(Entries(fates)), Identities(s.inflight);
    assert (a + b) + more == a + (b + more);
  }

  lemma DispatchMarks(s: Rules, n: Rules, log: seq<Entry>, recovered: set<nat>, more: seq<Entry>)
    requires MarksKept(s.inflight, recovered) && n.inflight == s.inflight + more && s.seqno == |log|
    requires forall j | 0 <= j < |more| :: more[j].seqno == s.seqno + j + 1 && !more[j].Marked()
    requires forall r | r in recovered :: r <= |log|
    ensures MarksKept(n.inflight, recovered)
  {
    forall k | 0 <= k < |n.inflight| ensures n.inflight[k].Marked() <==> n.inflight[k].seqno in recovered {
      if k >= |s.inflight| {
        assert n.inflight[k] == more[k - |s.inflight|];
      }
    }
  }

  /** Where the recovered part of the queue begins. */
  function RecoveredFrom(q: seq<Entry>, e: Event): nat {
    if e.recovery.Some? && e.recovery.value <= |q| then |q| - e.recovery.value else |q|
  }

  /** A recovery changes marks only, from one place on. */
  lemma RecoverQueue(s: Rules, e: Event)
    requires Recover(s, e).Ok?
    ensures var n := Recover(s, e).value; var from := RecoveredFrom(s.inflight, e);
            && n.stats == s.stats && n.seqno == s.seqno && |n.inflight| == |s.inflight| && from <= |s.inflight|
            && Identities(n.inflight) == Identities(s.inflight)
            && (forall k | 0 <= k < |n.inflight| :: n.inflight[k].seqno == s.inflight[k].seqno)
            && (forall k | 0 <= k < |n.inflight| :: n.inflight[k].Marked() <==> s.inflight[k].Marked() || k >= from)
            && Recovering(n, e) == Seqnos(n.inflight[from..])
  {
    hide Seqnos;
    var n := Recover(s, e).value;
    assert Identities(n.inflight) == Identities(s.inflight);
    assert Seqnos(n.inflight[|n.inflight|..]) == {} by {
      NoSeqnos(n.inflight[|n.inflight|..]);
    }
  }

  lemma NoSeqnos(q: seq<Entry>)
    requires |q| == 0
    ensures Seqnos(q) == {}
  {
  }

  lemma SeqnosFrom(q: seq<Entry>, from: nat, base: nat)
    requires from <= |q| && forall k | 0 <= k < |q| :: q[k].seqno == base + k + 1
    ensures forall k | 0 <= k < |q| :: q[k].seqno in Seqnos(q[from..]) <==> k >= from
    ensures forall r | r in Seqnos(q[from..]) :: base < r <= base + |q|
  {
    forall k | from <= k < |q| ensures q[k].seqno in Seqnos(q[from..]) {
      assert q[from..][k - from] in q[from..];
    }
    forall r | r in Seqnos(q[from..]) ensures base + from < r <= base + |q| {
      var x :| x in q[from..] && x.seqno == r;
      var k :| 0 <= k < |q[from..]| && q[from..][k] == x;
      assert q[from + k] == x;
    }
  }

  lemma SameIdentities(s: Rules, n: Rules, log: seq<Entry>, fates: seq<Fate>)
    requires Ordered(s, log, fates) && Identities(n.inflight) == Identities(s.inflight) && n.seqno == s.seqno
    ensures Ordered(n, log, fates)
  {
  }

  /** A recovery marks exactly the entries it names, and names nothing that has left. */
  lemma RecoverMarks(s: Rules, e: Event, log: seq<Entry>, fates: seq<Fate>, recovered: set<nat>, flush: bool)
    requires Ordered(s, log, fates) && MarksKept(s.inflight, recovered) && Recover(s, e).Ok?
    requires forall k | 0 <= k < |fates| :: Fair(fates[k], recovered, flush)
    requires forall r | r in recovered :: r <= |log|
    ensures var n := Recover(s, e).value; var all := recovered + Recovering(n, e);
            && Ordered(n, log, fates) && MarksKept(n.inflight, all) && n.stats == s.stats
            && (forall k | 0 <= k < |fates| :: Fair(fates[k], all, flush))
            && (forall r | r in all :: r <= |log|)
  {
    hide Ordered, Recover, Recovering, Seqnos, RecoveredFrom;
    var n := Recover(s, e).value;
    RecoverQueue(s, e);
    SameIdentities(s, n, log, fates);
    SeqnosFollow(n, log, fates);
    SeqnosFrom(n.inflight, RecoveredFrom(s.inflight, e), |fates|);
  }

  lemma {:induction false} MarkingFrees(q: seq<Entry>, n: nat, mark: Mark, k: nat)
    requires n <= |q| && k <= |q| && mark != Live
    ensures var r := MarkYoungest(q, n, mark);
            && LiveCount(r[..k]) <= LiveCount(q[..k])
            && Destinations(r[..k], false) <= Destinations(q[..k], false) && Destinations(r[..k], true) <= Destinations(q[..k], true)
  {
    var r := MarkYoungest(q, n, mark);
    if k > 0 {
      MarkingFrees(q, n, mark, k - 1);
      assert r[..k][..k - 1] == r[..k - 1] && q[..k][..k - 1] == q[..k - 1];
    }
  }

  lemma AcceptedWithin(s: Rules, c: Config, e: Event)
    requires Accept(s, c, e).Ok?
    ensures Within(Accept(s, c, e).value)
  {
    hide RetireAll, DispatchAll, LiveCount, Destinations;
    var retired := RetireAll(Counted(s, e), c, e, |e.retired|).value;
    var q := Occupancy(DispatchAll(Paired(retired, e), c, e, |e.dispatched|)).value.inflight;
    if e.recovery.Some? {
      MarkingFrees(q, e.recovery.value, MarkOf(e), |q|);
      var r := MarkYoungest(q, e.recovery.value, MarkOf(e));
      assert r[..|q|] == r && q[..|q|] == q;
    }
  }

  /** The part of an accepted event before its recovery. */
  lemma MiddleConserved(h: History, c: Config, e: Event)
    requires Conserved(h, c.flush) && Accept(h.s, c, e).Ok?
    ensures RetireAll(Counted(h.s, e), c, e, |e.retired|).Ok?
    ensures var paired := Paired(RetireAll(Counted(h.s, e), c, e, |e.retired|).value, e);
            var n := DispatchAll(paired, c, e, |e.dispatched|);
            var log, fates := h.log + Queued(paired, c, e, |e.dispatched|), h.fates + GoneAll(Counted(h.s, e), c, e, |e.retired|);
            && Ordered(n, log, fates) && Balanced(n, log, fates) && MarksKept(n.inflight, h.recovered)
            && (forall k | 0 <= k < |fates| :: Fair(fates[k], h.recovered, c.flush))
            && (forall r | r in h.recovered :: r <= |log|)
  {
    hide RetireAll, DispatchAll, GoneAll, Queued, Fair, MarksKept, Retired, Ordered;
    var s := Counted(h.s, e);
    var m := RetireAll(s, c, e, |e.retired|).value;
    var paired := Paired(m, e);
    var gone, more := GoneAll(s, c, e, |e.retired|), Queued(paired, c, e, |e.dispatched|);
    RetireAllTakes(s, c, e, |e.retired|, h.recovered);
    RetireOrdered(h.s, paired, h.log, h.fates, gone);
    RetiredAppend(h.fates, gone);
    DispatchAllAdds(paired, c, e, |e.dispatched|);
    DispatchOrdered(paired, DispatchAll(paired, c, e, |e.dispatched|), h.log, h.fates + gone, more);
    LogLength(h.s, h.log, h.fates);
    DispatchMarks(paired, DispatchAll(paired, c, e, |e.dispatched|), h.log, h.recovered, more);
  }

  lemma LogLength(s: Rules, log: seq<Entry>, fates: seq<Fate>)
    requires Ordered(s, log, fates)
    ensures s.seqno == |log|
  {
  }

  /** Every accepted event conserves the entries. */
  lemma EventConserves(h: History, c: Config, e: Event)
    requires Conserved(h, c.flush) && Observe(h, c, e).Ok?
    ensures Conserved(Observe(h, c, e).value, c.flush) && Within(Observe(h, c, e).value.s)
  {
    hide RetireAll, DispatchAll, GoneAll, Queued, Fair, MarksKept, Ordered, Recover, LiveCount, Destinations, Within;
    MiddleConserved(h, c, e);
    AcceptedWithin(h.s, c, e);
    var paired := Paired(RetireAll(Counted(h.s, e), c, e, |e.retired|).value, e);
    var n := DispatchAll(paired, c, e, |e.dispatched|);
    var log, fates := h.log + Queued(paired, c, e, |e.dispatched|), h.fates + GoneAll(Counted(h.s, e), c, e, |e.retired|);
    OccupancyKeeps(n, log, fates);
    RecoverMarks(Occupancy(n).value, e, log, fates, h.recovered, c.flush);
  }

  lemma OccupancyKeeps(s: Rules, log: seq<Entry>, fates: seq<Fate>)
    requires Occupancy(s).Ok? && Ordered(s, log, fates)
    ensures Ordered(Occupancy(s).value, log, fates) && Occupancy(s).value.inflight == s.inflight
  {
    hide LiveCount, Destinations;
  }

  lemma {:induction false} RunConserves(events: seq<Event>, c: Config)
    requires Run(events, c).Ok?
    ensures Conserved(Run(events, c).value, c.flush) && Within(Run(events, c).value.s)
  {
    hide Observe, Conserved, Within;
    if events == [] {
      StartConserved(c.flush);
    } else {
      var n := |events| - 1;
      RunConserves(events[..n], c);
      EventConserves(Run(events[..n], c).value, c, events[n]);
    }
  }

  lemma StartConserved(flush: bool)
    ensures Conserved(History(EMPTY, [], [], {}), flush) && Within(EMPTY)
  {
  }

  /** Main theorem: after any accepted events, the entries dispatched are, in order, those that left followed by those in
      flight; the counters balance; no entry a recovery removed ever retires, and each retires after its dispatch cycle; and
      without flushing every discarded entry was removed by a recovery. At most five unmarked entries, five GPR and four FPR
      destinations are in flight. */
  lemma AcceptedRunConserves(events: seq<Event>, c: Config)
    requires Run(events, c).Ok?
    ensures var h := Run(events, c).value;
            && h.log == Identities(Entries(h.fates)) + Identities(h.s.inflight)
            && h.s.stats.dispatches == h.s.stats.removed + h.s.stats.retirements + h.s.stats.flushed + |h.s.inflight|
            && h.s.stats.retirements == Retired(h.fates)
            && (forall k | 0 <= k < |h.fates| :: Fair(h.fates[k], h.recovered, c.flush))
            && (forall k | 0 <= k < |h.s.inflight| :: h.s.inflight[k].Marked() <==> h.s.inflight[k].seqno in h.recovered)
            && LiveCount(h.s.inflight) <= CQDEPTH
            && Destinations(h.s.inflight, false) <= GPRRENAMES && Destinations(h.s.inflight, true) <= FPRRENAMES
  {
    hide Run, Fair, LiveCount, Destinations, Retired;
    RunConserves(events, c);
  }

  /** Each entry discarded in an event was removed by the recovery of an earlier one, unless flushing is allowed. */
  lemma DiscardedWereRemoved(h: History, c: Config, e: Event, k: nat)
    requires Conserved(h, c.flush) && Accept(h.s, c, e).Ok? && !c.flush
    requires k < |GoneAll(Counted(h.s, e), c, e, |e.retired|)|
    ensures var f := GoneAll(Counted(h.s, e), c, e, |e.retired|)[k];
            f.retiredAt.None? <==> f.entry.seqno in h.recovered
  {
    hide RetireAll, DispatchAll, GoneAll, Queued, MarksKept, Retired, Ordered, Occupancy, Recover;
    RetireAllTakes(Counted(h.s, e), c, e, |e.retired|, h.recovered);
  }

  lemma {:induction false} LeadingIs(q: seq<Entry>, n: nat)
    requires n < |q| && !q[n].Marked() && forall k | 0 <= k < n :: q[k].Marked()
    ensures LeadingMarked(q) == n
  {
    if n > 0 {
      LeadingIs(q[1..], n - 1);
    }
  }

  /** What an in-order retirement needs: the oldest unmarked entry, at this PC and dispatched earlier, with any marked entries
      ahead of it explained by the conditional branch that retired last or by one removed at dispatch. */
  ghost predicate Due(s: Rules, cycle: int, pc: Pc, n: nat) {
    && n < |s.inflight| && s.inflight[n].pc == pc && !s.inflight[n].Marked() && s.inflight[n].cycle < cycle
    && (forall k | 0 <= k < n :: s.inflight[k].Marked())
    && (n > 0 ==> s.condRetired || s.inflight[0].mark == KilledBehindRemoved)
  }

  /** Without flushing, a retirement from the first slot is accepted exactly when some entry is due, and takes that entry. */
  lemma RetiresExactlyDue(s: Rules, c: Config, cycle: int, pc: Pc)
    requires !c.flush && !IsMicroOp(s, c, pc)
    ensures RetireOne(s, c, cycle, 0, pc).Ok? <==> exists n :: Due(s, cycle, pc, n)
    ensures forall n | Due(s, cycle, pc, n) ::
              RetireOne(s, c, cycle, 0, pc).Ok? && RetireOne(s, c, cycle, 0, pc).value.inflight == s.inflight[n + 1..]
  {
    hide IsMicroOp, LeadingMarked;
    var r := RetireOne(s, c, cycle, 0, pc);
    if r.Ok? {
      assert Due(s, cycle, pc, WrongPath(s));
    }
    forall n | Due(s, cycle, pc, n)
      ensures r.Ok? && r.value.inflight == s.inflight[n + 1..]
    {
      LeadingIs(s.inflight, n);
      assert WrongPath(s) == n;
    }
  }
}
