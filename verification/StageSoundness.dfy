/** What an accepted pipeline trace means: a sequential execution, with every instruction's events in order. */
module StageSoundness {
  import opened Wrappers
  import opened StageTiming

  // The trace's own events.

  function Dispatches(edges: seq<Edge>): seq<Dispatch> {
    if edges == [] then []
    else
      var last := edges[|edges| - 1];
      Dispatches(edges[..|edges| - 1]) + if last.dispatch.Some? then [last.dispatch.value] else []
  }

  /** Packets the machine accepted. */
  function Retirements(edges: seq<Edge>): seq<Packet> {
    if edges == [] then []
    else
      var last := edges[|edges| - 1];
      Retirements(edges[..|edges| - 1]) + if last.retire.Some? && last.retireReady then [last.retire.value] else []
  }

  ghost predicate SawDispatch(edges: seq<Edge>, d: Dispatch, t: int) {
    exists n | 0 <= n < |edges| :: edges[n].edge == t && edges[n].dispatch == Some(d)
  }

  ghost predicate SawIssue(edges: seq<Edge>, i: Issue, t: int) {
    exists n | 0 <= n < |edges| :: edges[n].edge == t && edges[n].issue == Some(i)
  }

  ghost predicate SawFinish(edges: seq<Edge>, f: Finish, t: int) {
    exists n | 0 <= n < |edges| :: edges[n].edge == t && edges[n].finish == Some(f)
  }

  ghost predicate SawRetire(edges: seq<Edge>, p: Packet, t: int) {
    exists n | 0 <= n < |edges| :: edges[n].edge == t && edges[n].retire == Some(p) && edges[n].retireReady
  }

  // Sequential execution.

  /** The registers after executing the instructions one by one. */
  function Execute(d: seq<Dispatch>): (registers: seq<nat>)
    ensures |registers| == 32
  {
    if d == [] then seq(32, _ => 0)
    else
      var registers, i := Execute(d[..|d| - 1]), Decode(d[|d| - 1].insn);
      if i.None? then registers
      else
        var operands := OperandsFrom(i.value, registers);
        registers[i.value.dst := Compute(i.value.form, operands.0, operands.1)]
  }

  /** The latest writer of each register. */
  function Writers(d: seq<Dispatch>): map<nat, Id> {
    if d == [] then map[]
    else
      var writers, last := Writers(d[..|d| - 1]), d[|d| - 1];
      var i := Decode(last.insn);
      if i.None? then writers else writers[i.value.dst := last.id]
  }

  /** Index of the last instruction that writes the register. */
  function LastWriter(d: seq<Dispatch>, r: nat): (k: Option<nat>)
    ensures k.Some? ==> k.value < |d|
  {
    if d == [] then None
    else
      var i := Decode(d[|d| - 1].insn);
      if i.Some? && i.value.dst == r then Some(|d| - 1) else LastWriter(d[..|d| - 1], r)
  }

  lemma {:induction false} WritersAreLast(d: seq<Dispatch>, r: nat)
    ensures var k := LastWriter(d, r);
            if k.Some? then r in Writers(d) && Writers(d)[r] == d[k.value].id else r !in Writers(d)
  {
    hide Decode;
    if d != [] {
      WritersAreLast(d[..|d| - 1], r);
    }
  }

  /** The operands, result packet and producers of the k-th instruction in sequential execution. */
  function OperandsAt(d: seq<Dispatch>, k: nat): (nat, nat)
    requires k < |d| && Decode(d[k].insn).Some?
  {
    OperandsFrom(Decode(d[k].insn).value, Execute(d[..k]))
  }

  function PacketAt(d: seq<Dispatch>, k: nat): Packet
    requires k < |d| && Decode(d[k].insn).Some?
  {
    var i, operands := Decode(d[k].insn).value, OperandsAt(d, k);
    Packet(d[k].id, d[k].pc, d[k].insn, i.dst, Compute(i.form, operands.0, operands.1))
  }

  function ProducersAt(d: seq<Dispatch>, k: nat): seq<Id>
    requires k < |d| && Decode(d[k].insn).Some?
  {
    Producers(Decode(d[k].insn).value, Writers(d[..k]))
  }

  lemma PrefixAt(d: seq<Dispatch>, x: Dispatch, k: nat)
    requires k < |d| && Decode(d[k].insn).Some?
    ensures (d + [x])[k] == d[k] && (d + [x])[..k] == d[..k]
    ensures OperandsAt(d + [x], k) == OperandsAt(d, k) && PacketAt(d + [x], k) == PacketAt(d, k)
    ensures ProducersAt(d + [x], k) == ProducersAt(d, k)
  {
    hide Decode, Execute, Writers, Compute;
    assert (d + [x])[..k] == d[..k];
  }

  // The monitor's invariant.

  function Ids(d: seq<Dispatch>): (r: seq<Id>)
    ensures |r| == |d| && forall k | 0 <= k < |d| :: r[k] == d[k].id
  {
    seq(|d|, k requires 0 <= k < |d| => d[k].id)
  }

  ghost predicate Clocked(m: Monitor, edges: seq<Edge>) {
    && (forall n | 0 <= n < |edges| :: edges[n].edge == edges[0].edge + n)
    && m.lastEdge == if |edges| == 0 then None else Some(edges[|edges| - 1].edge)
  }

  ghost predicate Queued(m: Monitor, d: seq<Dispatch>, r: seq<Packet>) {
    && |r| <= |d| <= |r| + 5 && m.order == Ids(d)[|r|..] && m.live == (set id | id in m.order)
    && (forall j, k | 0 <= j < k < |d| :: d[j].id != d[k].id)
    && (forall k | 0 <= k < |d| :: d[k].id in m.history && Decode(d[k].insn).Some?)
    && (forall id | id in m.history :: id in Ids(d))
    && m.registers == Execute(d) && m.latest == Writers(d)
    && (forall k | 0 <= k < |r| :: r[k] == PacketAt(d, k))
    && m.stats.dispatch == |d| && m.stats.retire == |r|
  }

  /** The record of the k-th instruction agrees with sequential execution and with the events seen. */
  ghost predicate Tracked(rec: Record, history: map<Id, Record>, d: seq<Dispatch>, k: nat, edges: seq<Edge>)
    requires k < |d| && Decode(d[k].insn).Some?
  {
    && rec.packet == PacketAt(d, k) && rec.value == rec.packet.value && rec.operands == OperandsAt(d, k)
    && rec.deps == ProducersAt(d, k)
    && SawDispatch(edges, d[k], rec.dispatch)
    && (rec.issue.Some? ==>
          && rec.dispatch < rec.issue.value && SawIssue(edges, Issue(d[k].id, rec.operands.0, rec.operands.1), rec.issue.value)
          && forall p | p in rec.deps :: Finished(history, p) && history[p].finish.value <= rec.issue.value)
    && (rec.finish.Some? ==>
          rec.issue == Some(rec.finish.value - 1) && SawFinish(edges, Finish(d[k].id, rec.value), rec.finish.value))
  }

  ghost predicate AllTracked(m: Monitor, d: seq<Dispatch>, edges: seq<Edge>) {
    forall k | 0 <= k < |d| :: Decode(d[k].insn).Some? && d[k].id in m.history && Tracked(m.history[d[k].id], m.history, d, k, edges)
  }

  /** Each issue or finish event is the one its record names: there is no other. */
  ghost predicate Recorded(history: map<Id, Record>, edges: seq<Edge>) {
    && (forall n | 0 <= n < |edges| && edges[n].issue.Some? ::
          edges[n].issue.value.id in history && history[edges[n].issue.value.id].issue == Some(edges[n].edge))
    && (forall n | 0 <= n < |edges| && edges[n].finish.Some? ::
          edges[n].finish.value.id in history && history[edges[n].finish.value.id].finish == Some(edges[n].edge))
  }

  ghost predicate RetiredLate(history: map<Id, Record>, d: seq<Dispatch>, r: seq<Packet>, edges: seq<Edge>) {
    |r| <= |d| && forall k | 0 <= k < |r| :: Late(history, d[k].id, r[k], edges)
  }

  ghost predicate Late(history: map<Id, Record>, id: Id, p: Packet, edges: seq<Edge>) {
    Finished(history, id) && exists t :: SawRetire(edges, p, t) && history[id].finish.value <= t
  }

  // A row is taken in event by event.

  function Blank(row: Edge): Edge {
    row.(finish := None, retire := None, retireReady := false, issue := None, dispatch := None)
  }

  /** b happens on the same edge with at least the events of a. */
  ghost predicate Grows(a: Edge, b: Edge) {
    && a.edge == b.edge && (a.finish.Some? ==> b.finish == a.finish) && (a.issue.Some? ==> b.issue == a.issue)
    && (a.dispatch.Some? ==> b.dispatch == a.dispatch)
    && (a.retire.Some? && a.retireReady ==> b.retire == a.retire && b.retireReady)
  }

  ghost predicate Extends(edges: seq<Edge>, more: seq<Edge>) {
    |edges| <= |more| && forall n | 0 <= n < |edges| :: Grows(edges[n], more[n])
  }

  lemma SeenStays(edges: seq<Edge>, more: seq<Edge>)
    requires Extends(edges, more)
    ensures forall d, t | SawDispatch(edges, d, t) :: SawDispatch(more, d, t)
    ensures forall i, t | SawIssue(edges, i, t) :: SawIssue(more, i, t)
    ensures forall f, t | SawFinish(edges, f, t) :: SawFinish(more, f, t)
    ensures forall p, t | SawRetire(edges, p, t) :: SawRetire(more, p, t)
  {
    forall d, t | SawDispatch(edges, d, t) ensures SawDispatch(more, d, t) {
      var n :| 0 <= n < |edges| && edges[n].edge == t && edges[n].dispatch == Some(d);
      assert Grows(edges[n], more[n]);
    }
    forall i, t | SawIssue(edges, i, t) ensures SawIssue(more, i, t) {
      var n :| 0 <= n < |edges| && edges[n].edge == t && edges[n].issue == Some(i);
      assert Grows(edges[n], more[n]);
    }
    forall f, t | SawFinish(edges, f, t) ensures SawFinish(more, f, t) {
      var n :| 0 <= n < |edges| && edges[n].edge == t && edges[n].finish == Some(f);
      assert Grows(edges[n], more[n]);
    }
    forall p, t | SawRetire(edges, p, t) ensures SawRetire(more, p, t) {
      var n :| 0 <= n < |edges| && edges[n].edge == t && edges[n].retire == Some(p) && edges[n].retireReady;
      assert Grows(edges[n], more[n]);
    }
  }

  lemma TrackedStays(m: Monitor, d: seq<Dispatch>, r: seq<Packet>, edges: seq<Edge>, more: seq<Edge>)
    requires AllTracked(m, d, edges) && RetiredLate(m.history, d, r, edges) && Extends(edges, more)
    ensures AllTracked(m, d, more) && RetiredLate(m.history, d, r, more)
  {
    hide SawDispatch, SawIssue, SawFinish, SawRetire, Extends, Decode, PacketAt, OperandsAt, ProducersAt, Finished;
    SeenStays(edges, more);
    forall k | 0 <= k < |d| ensures Tracked(m.history[d[k].id], m.history, d, k, more) {
      assert Tracked(m.history[d[k].id], m.history, d, k, edges);
    }
    forall k | 0 <= k < |r| ensures Late(m.history, d[k].id, r[k], more) {
      assert Late(m.history, d[k].id, r[k], edges);
    }
  }

  ghost predicate SoundOn(m: Monitor, d: seq<Dispatch>, r: seq<Packet>, edges: seq<Edge>) {
    Clocked(m, edges) && Queued(m, d, r) && AllTracked(m, d, edges) && Recorded(m.history, edges) && RetiredLate(m.history, d, r, edges)
  }

  lemma SampleSound(m: Monitor, d: seq<Dispatch>, r: seq<Packet>, edges: seq<Edge>, row: Edge)
    requires SoundOn(m, d, r, edges) && Sample(m, row).Ok?
    ensures SoundOn(Sample(m, row).value, d, r, edges + [Blank(row)])
    ensures Sample(m, row).value.lastEdge == Some(row.edge)
  {
    hide Decode, Execute, Writers, Tracked, Late, PacketAt;
    var m', more := Sample(m, row).value, edges + [Blank(row)];
    assert Extends(edges, more);
    TrackedStays(m, d, r, edges, more);
    assert Clocked(m', more);
    assert Queued(m', d, r);
    assert AllTracked(m', d, more);
    assert Recorded(m'.history, more);
  }

  /** Records only gain issue and finish times. */
  ghost predicate Gains(h: map<Id, Record>, h': map<Id, Record>) {
    forall id | id in h :: id in h' && RecordGains(h[id], h'[id])
  }

  ghost predicate RecordGains(a: Record, b: Record) {
    b == a.(issue := b.issue, finish := b.finish) && (a.issue.Some? ==> b.issue == a.issue) && (a.finish.Some? ==> b.finish == a.finish)
  }

  lemma TrackedGains(rec: Record, h: map<Id, Record>, h': map<Id, Record>, d: seq<Dispatch>, k: nat, edges: seq<Edge>)
    requires k < |d| && Decode(d[k].insn).Some? && Tracked(rec, h, d, k, edges) && Gains(h, h')
    ensures Tracked(rec, h', d, k, edges)
  {
    hide Decode, PacketAt, OperandsAt, ProducersAt, SawDispatch, SawIssue, SawFinish;
    forall p | p in rec.deps && Finished(h, p) ensures Finished(h', p) && h'[p].finish == h[p].finish {
      assert RecordGains(h[p], h'[p]);
    }
  }

  lemma LateGains(h: map<Id, Record>, h': map<Id, Record>, d: seq<Dispatch>, r: seq<Packet>, edges: seq<Edge>)
    requires RetiredLate(h, d, r, edges) && Gains(h, h')
    ensures RetiredLate(h', d, r, edges)
  {
    hide SawRetire;
    forall k | 0 <= k < |r| ensures Late(h', d[k].id, r[k], edges) {
      assert Late(h, d[k].id, r[k], edges);
      assert RecordGains(h[d[k].id], h'[d[k].id]);
    }
  }

  /** One record changes; the rest of the invariant follows. */
  lemma RecordChanged(m: Monitor, m': Monitor, d: seq<Dispatch>, r: seq<Packet>, edges: seq<Edge>, id: Id)
    requires Queued(m, d, r) && AllTracked(m, d, edges) && RetiredLate(m.history, d, r, edges)
    requires OneChange(m, m', id)
    requires forall k | 0 <= k < |d| && d[k].id == id :: Decode(d[k].insn).Some? && Tracked(m'.history[id], m'.history, d, k, edges)
    ensures Queued(m', d, r) && AllTracked(m', d, edges) && RetiredLate(m'.history, d, r, edges)
  {
    hide Decode, PacketAt, Execute, Writers, Tracked, RetiredLate;
    assert Gains(m.history, m'.history);
    LateGains(m.history, m'.history, d, r, edges);
    forall k | 0 <= k < |d| ensures Decode(d[k].insn).Some? && Tracked(m'.history[d[k].id], m'.history, d, k, edges) {
      if d[k].id != id {
        TrackedGains(m.history[d[k].id], m.history, m'.history, d, k, edges);
      }
    }
  }

  lemma TrackedAt(m: Monitor, d: seq<Dispatch>, edges: seq<Edge>, k: nat)
    requires AllTracked(m, d, edges) && k < |d|
    ensures Decode(d[k].insn).Some? && d[k].id in m.history && Tracked(m.history[d[k].id], m.history, d, k, edges)
  {
    hide Tracked, Decode;
  }

  lemma FinishRecorded(m: Monitor, m': Monitor, edges: seq<Edge>, a: Edge, row: Edge)
    requires Recorded(m.history, edges + [a]) && a == Blank(row) && row.finish.Some? && FinishPhase(m, row) == Ok(m')
    ensures Recorded(m'.history, edges + [a.(finish := row.finish)])
  {
    var was, now := edges + [a], edges + [a.(finish := row.finish)];
    forall n | 0 <= n < |edges| ensures was[n] == now[n] {
    }
  }

  lemma FinishTracked(m: Monitor, m': Monitor, d: seq<Dispatch>, edges: seq<Edge>, row: Edge, k: nat)
    requires AllTracked(m, d, edges) && row.finish.Some? && FinishPhase(m, row) == Ok(m')
    requires k < |d| && d[k].id == row.finish.value.id && SawFinish(edges, row.finish.value, row.edge)
    ensures Decode(d[k].insn).Some? && Tracked(m'.history[d[k].id], m'.history, d, k, edges)
  {
    hide Decode, PacketAt, OperandsAt, ProducersAt, SawDispatch, SawIssue, SawFinish, AllTracked;
    TrackedAt(m, d, edges, k);
    assert Gains(m.history, m'.history);
    TrackedGains(m.history[d[k].id], m.history, m'.history, d, k, edges);
  }

  /** The phase changes one record, of an instruction in flight, by adding a time. */
  ghost predicate OneChange(m: Monitor, m': Monitor, id: Id) {
    && id in m.history && id in m'.history && m'.history == m.history[id := m'.history[id]]
    && RecordGains(m.history[id], m'.history[id])
    && m' == m.(history := m'.history, stats := m'.stats)
    && m'.stats.dispatch == m.stats.dispatch && m'.stats.retire == m.stats.retire
  }

  lemma FinishChanges(m: Monitor, row: Edge)
    requires row.finish.Some? && FinishPhase(m, row).Ok?
    ensures OneChange(m, FinishPhase(m, row).value, row.finish.value.id)
  {
  }

  lemma FinishSound(m: Monitor, d: seq<Dispatch>, r: seq<Packet>, edges: seq<Edge>, row: Edge)
    requires SoundOn(m, d, r, edges + [Blank(row)]) && m.lastEdge == Some(row.edge) && FinishPhase(m, row).Ok?
    ensures SoundOn(FinishPhase(m, row).value, d, r, edges + [Blank(row).(finish := row.finish)])
    ensures FinishPhase(m, row).value.lastEdge == Some(row.edge)
  {
    if row.finish.Some? {
      FinishEventSound(m, d, r, edges, row);
    } else {
      assert Blank(row).(finish := row.finish) == Blank(row);
    }
  }

  lemma FinishEventSound(m: Monitor, d: seq<Dispatch>, r: seq<Packet>, edges: seq<Edge>, row: Edge)
    requires SoundOn(m, d, r, edges + [Blank(row)]) && m.lastEdge == Some(row.edge) && FinishPhase(m, row).Ok?
    requires row.finish.Some?
    ensures SoundOn(FinishPhase(m, row).value, d, r, edges + [Blank(row).(finish := row.finish)])
    ensures FinishPhase(m, row).value.lastEdge == Some(row.edge)
  {
    var m' := FinishPhase(m, row).value;
    var more := edges + [Blank(row).(finish := row.finish)];
    assert SawFinish(more, row.finish.value, row.edge) by {
      assert more[|edges|].finish == row.finish;
    }
    assert Extends(edges + [Blank(row)], more);
    hide Decode, Tracked, Recorded, RetiredLate, AllTracked, Queued, Clocked, FinishPhase, SawFinish, Extends;
    FinishChanges(m, row);
    ClockStays(m, m', edges, Blank(row), Blank(row).(finish := row.finish));
    TrackedStays(m, d, r, edges + [Blank(row)], more);
    FinishRecorded(m, m', edges, Blank(row), row);
    forall k | 0 <= k < |d| && d[k].id == row.finish.value.id
      ensures Decode(d[k].insn).Some? && Tracked(m'.history[d[k].id], m'.history, d, k, more)
    {
      FinishTracked(m, m', d, more, row, k);
    }
    RecordChanged(m, m', d, r, more, row.finish.value.id);
  }

  lemma ClockStays(m: Monitor, m': Monitor, edges: seq<Edge>, a: Edge, b: Edge)
    requires Clocked(m, edges + [a]) && a.edge == b.edge && m'.lastEdge == m.lastEdge
    ensures Clocked(m', edges + [b])
  {
    var was, now := edges + [a], edges + [b];
    assert forall n | 0 <= n < |now| :: now[n].edge == was[n].edge;
  }

  /** The offered retirement is the finished head's packet. */
  ghost predicate HeadReady(m: Monitor, row: Edge) {
    row.retire.Some? ==>
      && |m.order| > 0 && m.order[0] in m.history && Finished(m.history, m.order[0])
      && m.history[m.order[0]].finish.value <= row.edge && m.history[m.order[0]].packet == row.retire.value
  }

  lemma RetireSound(m: Monitor, d: seq<Dispatch>, r: seq<Packet>, edges: seq<Edge>, row: Edge)
    requires SoundOn(m, d, r, edges) && m.lastEdge == Some(row.edge) && RetirePhase(m, row).Ok?
    ensures SoundOn(RetirePhase(m, row).value, d, r, edges) && HeadReady(RetirePhase(m, row).value, row)
    ensures RetirePhase(m, row).value.lastEdge == Some(row.edge)
  {
    hide Decode, Tracked, Recorded, RetiredLate, PacketAt, Execute, Writers;
  }

  lemma IssueRecorded(m: Monitor, m': Monitor, edges: seq<Edge>, a: Edge, row: Edge)
    requires Recorded(m.history, edges + [a]) && a.issue.None? && a.edge == row.edge && row.issue.Some?
    requires IssuePhase(m, row) == Ok(m')
    ensures Recorded(m'.history, edges + [a.(issue := row.issue)])
  {
    var was, now := edges + [a], edges + [a.(issue := row.issue)];
    forall n | 0 <= n < |edges| ensures was[n] == now[n] {
    }
    assert was[|edges|].finish == now[|edges|].finish;
  }

  lemma IssueTracked(m: Monitor, m': Monitor, d: seq<Dispatch>, edges: seq<Edge>, row: Edge, k: nat)
    requires AllTracked(m, d, edges) && row.issue.Some? && IssuePhase(m, row) == Ok(m')
    requires k < |d| && d[k].id == row.issue.value.id && SawIssue(edges, row.issue.value, row.edge)
    ensures Decode(d[k].insn).Some? && Tracked(m'.history[d[k].id], m'.history, d, k, edges)
  {
    hide Decode, PacketAt, OperandsAt, ProducersAt, SawDispatch, SawIssue, SawFinish, AllTracked;
    TrackedAt(m, d, edges, k);
    assert Gains(m.history, m'.history);
    TrackedGains(m.history[d[k].id], m.history, m'.history, d, k, edges);
    forall p | p in m.history[d[k].id].deps ensures Finished(m'.history, p) && m'.history[p].finish.value <= row.edge {
      assert RecordGains(m.history[p], m'.history[p]);
    }
  }

  lemma IssueKeepsHead(m: Monitor, row: Edge)
    requires IssuePhase(m, row).Ok? && HeadReady(m, row)
    ensures HeadReady(IssuePhase(m, row).value, row) && IssuePhase(m, row).value.lastEdge == m.lastEdge
  {
  }

  lemma IssueChanges(m: Monitor, row: Edge)
    requires row.issue.Some? && IssuePhase(m, row).Ok?
    ensures OneChange(m, IssuePhase(m, row).value, row.issue.value.id)
  {
  }

  lemma IssueSound(m: Monitor, d: seq<Dispatch>, r: seq<Packet>, edges: seq<Edge>, a: Edge, row: Edge)
    requires SoundOn(m, d, r, edges + [a]) && m.lastEdge == Some(row.edge) && IssuePhase(m, row).Ok?
    requires a.issue.None? && a.edge == row.edge
    ensures SoundOn(IssuePhase(m, row).value, d, r, edges + [a.(issue := row.issue)])
  {
    if row.issue.Some? {
      IssueEventSound(m, d, r, edges, a, row);
    } else {
      assert a.(issue := row.issue) == a;
    }
  }

  lemma IssueEventSound(m: Monitor, d: seq<Dispatch>, r: seq<Packet>, edges: seq<Edge>, a: Edge, row: Edge)
    requires SoundOn(m, d, r, edges + [a]) && m.lastEdge == Some(row.edge) && IssuePhase(m, row).Ok?
    requires a.issue.None? && a.edge == row.edge && row.issue.Some?
    ensures SoundOn(IssuePhase(m, row).value, d, r, edges + [a.(issue := row.issue)])
  {
    var m' := IssuePhase(m, row).value;
    var b := a.(issue := row.issue);
    var more := edges + [b];
    assert SawIssue(more, row.issue.value, row.edge) by {
      assert more[|edges|].issue == row.issue;
    }
    assert Extends(edges + [a], more);
    hide Decode, Tracked, Recorded, RetiredLate, AllTracked, Queued, Clocked, IssuePhase, SawIssue, Extends;
    IssueChanges(m, row);
    ClockStays(m, m', edges, a, b);
    TrackedStays(m, d, r, edges + [a], more);
    IssueRecorded(m, m', edges, a, row);
    forall k | 0 <= k < |d| && d[k].id == row.issue.value.id
      ensures Decode(d[k].insn).Some? && Tracked(m'.history[d[k].id], m'.history, d, k, more)
    {
      IssueTracked(m, m', d, more, row, k);
    }
    RecordChanged(m, m', d, r, more, row.issue.value.id);
  }

  // A dispatch adds a record.

  lemma EnterIds(m: Monitor, d: seq<Dispatch>, r: seq<Packet>, x: Dispatch)
    requires Queued(m, d, r) && x.id !in m.history
    ensures Ids(d + [x]) == Ids(d) + [x.id] && x.id !in Ids(d)
    ensures forall k | 0 <= k < |d| :: d[k].id != x.id
    ensures forall j, k | 0 <= j < k < |d + [x]| :: (d + [x])[j].id != (d + [x])[k].id
  {
    hide Decode, PacketAt, Execute, Writers;
    forall k | 0 <= k < |d| ensures d[k].id != x.id {
      assert d[k].id in m.history;
    }
    assert forall k | 0 <= k < |d| :: Ids(d)[k] != x.id;
  }

  lemma EnterMachine(m: Monitor, d: seq<Dispatch>, x: Dispatch, i: Instruction, edge: int)
    requires m.registers == Execute(d) && m.latest == Writers(d) && Decode(x.insn) == Some(i)
    ensures Enter(m, x, i, edge).registers == Execute(d + [x]) && Enter(m, x, i, edge).latest == Writers(d + [x])
  {
    hide Decode, Compute, Producers, OperandsFrom;
    assert (d + [x])[..|d|] == d;
    assert i.dst < 32;
  }

  lemma EnterPackets(d: seq<Dispatch>, r: seq<Packet>, x: Dispatch)
    requires |r| <= |d| && forall k | 0 <= k < |r| :: Decode(d[k].insn).Some? && r[k] == PacketAt(d, k)
    ensures forall k | 0 <= k < |r| :: Decode((d + [x])[k].insn).Some? && r[k] == PacketAt(d + [x], k)
  {
    hide Decode, PacketAt, OperandsAt, ProducersAt;
    forall k | 0 <= k < |r| ensures Decode((d + [x])[k].insn).Some? && r[k] == PacketAt(d + [x], k) {
      PrefixAt(d, x, k);
    }
  }

  lemma EnterQueue(m: Monitor, d: seq<Dispatch>, r: seq<Packet>, x: Dispatch, i: Instruction, edge: int)
    requires Queued(m, d, r) && |m.order| < 5 && Ids(d + [x]) == Ids(d) + [x.id]
    ensures var m', d' := Enter(m, x, i, edge), d + [x];
            && |r| <= |d'| <= |r| + 5 && m'.order == Ids(d')[|r|..] && m'.live == (set id | id in m'.order)
            && m'.stats.dispatch == |d'| && m'.stats.retire == |r|
            && (forall id | id in m'.history :: id in Ids(d'))
  {
    hide Decode, PacketAt, Compute, Producers, Execute, Writers;
    var m', d' := Enter(m, x, i, edge), d + [x];
    assert m'.order == Ids(d')[|r|..];
    assert m'.live == (set id | id in m'.order);
  }

  lemma EnterKnown(m: Monitor, d: seq<Dispatch>, r: seq<Packet>, x: Dispatch, i: Instruction, edge: int)
    requires Queued(m, d, r) && Decode(x.insn) == Some(i)
    ensures forall k | 0 <= k < |d + [x]| :: (d + [x])[k].id in Enter(m, x, i, edge).history && Decode((d + [x])[k].insn).Some?
    ensures m.registers == Execute(d) && m.latest == Writers(d)
    ensures |r| <= |d| && forall k | 0 <= k < |r| :: Decode(d[k].insn).Some? && r[k] == PacketAt(d, k)
  {
    hide Decode, PacketAt, Compute, Producers, Execute, Writers;
  }

  lemma QueuedFrom(m: Monitor, d: seq<Dispatch>, r: seq<Packet>)
    requires |r| <= |d| <= |r| + 5 && m.order == Ids(d)[|r|..] && m.live == (set id | id in m.order)
    requires forall j, k | 0 <= j < k < |d| :: d[j].id != d[k].id
    requires forall k | 0 <= k < |d| :: d[k].id in m.history && Decode(d[k].insn).Some?
    requires forall id | id in m.history :: id in Ids(d)
    requires m.registers == Execute(d) && m.latest == Writers(d)
    requires forall k | 0 <= k < |r| :: Decode(d[k].insn).Some? && r[k] == PacketAt(d, k)
    requires m.stats.dispatch == |d| && m.stats.retire == |r|
    ensures Queued(m, d, r)
  {
    hide Decode, PacketAt, Execute, Writers;
  }

  lemma EnterQueued(m: Monitor, d: seq<Dispatch>, r: seq<Packet>, x: Dispatch, i: Instruction, edge: int)
    requires Queued(m, d, r) && Decode(x.insn) == Some(i) && |m.order| < 5 && x.id !in m.history
    ensures Queued(Enter(m, x, i, edge), d + [x], r)
  {
    hide *;
    EnterKnown(m, d, r, x, i, edge);
    EnterIds(m, d, r, x);
    EnterMachine(m, d, x, i, edge);
    EnterPackets(d, r, x);
    EnterQueue(m, d, r, x, i, edge);
    QueuedFrom(Enter(m, x, i, edge), d + [x], r);
  }

  lemma EnterTracksOld(m: Monitor, d: seq<Dispatch>, edges: seq<Edge>, x: Dispatch, i: Instruction, edge: int, k: nat)
    requires AllTracked(m, d, edges) && x.id !in m.history && k < |d|
    ensures var m', d' := Enter(m, x, i, edge), d + [x];
            Decode(d'[k].insn).Some? && d'[k].id in m'.history && Tracked(m'.history[d'[k].id], m'.history, d', k, edges)
  {
    hide Decode, PacketAt, OperandsAt, ProducersAt, SawDispatch, SawIssue, SawFinish, AllTracked;
    var m' := Enter(m, x, i, edge);
    TrackedAt(m, d, edges, k);
    PrefixAt(d, x, k);
    assert Gains(m.history, m'.history);
    TrackedGains(m.history[d[k].id], m.history, m'.history, d, k, edges);
  }

  lemma EnterTracksNew(m: Monitor, d: seq<Dispatch>, r: seq<Packet>, edges: seq<Edge>, x: Dispatch, i: Instruction, edge: int)
    requires Queued(m, d, r) && Decode(x.insn) == Some(i) && SawDispatch(edges, x, edge)
    ensures var m', d' := Enter(m, x, i, edge), d + [x];
            x.id in m'.history && Tracked(m'.history[x.id], m'.history, d', |d|, edges)
  {
    hide Decode, Execute, Writers, Compute, Producers, SawDispatch;
    assert (d + [x])[..|d|] == d;
  }

  lemma EnterRecorded(m: Monitor, edges: seq<Edge>, x: Dispatch, i: Instruction, edge: int, a: Edge)
    requires Recorded(m.history, edges + [a]) && x.id !in m.history
    ensures Recorded(Enter(m, x, i, edge).history, edges + [a.(dispatch := Some(x))])
  {
    var was, now := edges + [a], edges + [a.(dispatch := Some(x))];
    forall n | 0 <= n < |was| ensures was[n].issue == now[n].issue && was[n].finish == now[n].finish && was[n].edge == now[n].edge {
    }
  }

  lemma EnterLate(m: Monitor, d: seq<Dispatch>, r: seq<Packet>, edges: seq<Edge>, x: Dispatch, i: Instruction, edge: int)
    requires RetiredLate(m.history, d, r, edges) && x.id !in m.history
    ensures RetiredLate(Enter(m, x, i, edge).history, d + [x], r, edges)
  {
    hide SawRetire;
    forall k | 0 <= k < |r| ensures Late(Enter(m, x, i, edge).history, (d + [x])[k].id, r[k], edges) {
      assert Late(m.history, d[k].id, r[k], edges);
    }
  }

  function Added(row: Edge): seq<Dispatch> {
    if row.dispatch.Some? then [row.dispatch.value] else []
  }

  lemma DispatchSound(m: Monitor, d: seq<Dispatch>, r: seq<Packet>, edges: seq<Edge>, a: Edge, row: Edge)
    requires SoundOn(m, d, r, edges + [a]) && m.lastEdge == Some(row.edge) && DispatchPhase(m, row).Ok?
    requires a.dispatch.None? && a.edge == row.edge
    ensures SoundOn(DispatchPhase(m, row).value, d + Added(row), r, edges + [a.(dispatch := row.dispatch)])
  {
    var m' := DispatchPhase(m, row).value;
    var b := a.(dispatch := row.dispatch);
    var more := edges + [b];
    hide Decode, Tracked, Recorded, RetiredLate, AllTracked, Queued, Enter;
    if row.dispatch.Some? {
      var x, i := row.dispatch.value, Decode(row.dispatch.value.insn).value;
      EnterClock(m, x, i, row.edge);
      ClockStays(m, m', edges, a, b);
      TrackedStays(m, d, r, edges + [a], more);
      assert SawDispatch(more, x, row.edge) by {
        assert more[|edges|].dispatch == row.dispatch;
      }
      EnterQueued(m, d, r, x, i, row.edge);
      EnterRecorded(m, edges, x, i, row.edge, a);
      EnterLate(m, d, r, more, x, i, row.edge);
      EnterAllTracked(m, d, r, more, x, i, row.edge);
    } else {
      assert b == a && d + Added(row) == d;
    }
  }

  lemma EnterClock(m: Monitor, x: Dispatch, i: Instruction, edge: int)
    ensures Enter(m, x, i, edge).lastEdge == m.lastEdge
  {
    hide Compute, Producers;
  }

  lemma EnterAllTracked(m: Monitor, d: seq<Dispatch>, r: seq<Packet>, edges: seq<Edge>, x: Dispatch, i: Instruction, edge: int)
    requires Queued(m, d, r) && AllTracked(m, d, edges) && x.id !in m.history
    requires Decode(x.insn) == Some(i) && SawDispatch(edges, x, edge)
    ensures AllTracked(Enter(m, x, i, edge), d + [x], edges)
  {
    hide Decode, Tracked, Enter, Queued, SawDispatch;
    EnterTracksNew(m, d, r, edges, x, i, edge);
    var m', d' := Enter(m, x, i, edge), d + [x];
    forall k | 0 <= k < |d'|
      ensures Decode(d'[k].insn).Some? && d'[k].id in m'.history && Tracked(m'.history[d'[k].id], m'.history, d', k, edges)
    {
      if k < |d| {
        EnterTracksOld(m, d, edges, x, i, edge, k);
      }
    }
  }

  lemma DispatchKeepsHead(m: Monitor, row: Edge)
    requires DispatchPhase(m, row).Ok? && HeadReady(m, row)
    ensures HeadReady(DispatchPhase(m, row).value, row) && DispatchPhase(m, row).value.lastEdge == m.lastEdge
  {
    hide Compute, Producers, Decode;
  }

  // Retirement at the end of the edge.

  function Left(row: Edge): seq<Packet> {
    if row.retire.Some? && row.retireReady then [row.retire.value] else []
  }

  lemma PopQueued(m: Monitor, d: seq<Dispatch>, r: seq<Packet>, edges: seq<Edge>, row: Edge)
    requires Queued(m, d, r) && AllTracked(m, d, edges) && HeadReady(m, row)
    ensures Queued(PopPhase(m, row), d, r + Left(row))
    ensures Left(row) != [] ==> |r| < |d| && m.order[0] == d[|r|].id
  {
    hide *;
    PopCases(m, row);
    if row.retire.Some? && row.retireReady {
      PopHead(m, d, r, edges, row);
      PopLive(m, d, r);
      QueuedAll(m, d, r);
      LeftOne(row);
      QueuedFrom(PopPhase(m, row), d, r + Left(row));
    } else {
      assert r + Left(row) == r;
    }
  }

  lemma LeftOne(row: Edge)
    requires row.retire.Some? && row.retireReady
    ensures Left(row) == [row.retire.value]
  {
  }

  lemma PopCases(m: Monitor, row: Edge)
    ensures if row.retire.Some? && row.retireReady && |m.order| > 0 then
              var n := PopPhase(m, row);
              && n.live == m.live - {m.order[0]} && n.order == m.order[1..] && n.history == m.history
              && n.registers == m.registers && n.latest == m.latest
              && n.stats.dispatch == m.stats.dispatch && n.stats.retire == m.stats.retire + 1
            else PopPhase(m, row) == m
    ensures !(row.retire.Some? && row.retireReady) ==> Left(row) == []
  {
  }

  lemma QueuedAll(m: Monitor, d: seq<Dispatch>, r: seq<Packet>)
    requires Queued(m, d, r)
    ensures |r| <= |d| <= |r| + 5 && m.stats.dispatch == |d| && m.stats.retire == |r|
    ensures forall j, k | 0 <= j < k < |d| :: d[j].id != d[k].id
    ensures forall k | 0 <= k < |d| :: d[k].id in m.history && Decode(d[k].insn).Some?
    ensures forall id | id in m.history :: id in Ids(d)
    ensures m.registers == Execute(d) && m.latest == Writers(d)
  {
    hide Decode, Execute, Writers, PacketAt;
  }

  /** The head is the oldest unretired instruction, offering its sequential packet. */
  lemma PopHead(m: Monitor, d: seq<Dispatch>, r: seq<Packet>, edges: seq<Edge>, row: Edge)
    requires Queued(m, d, r) && AllTracked(m, d, edges) && HeadReady(m, row) && row.retire.Some?
    ensures |r| < |d| && |m.order| > 0 && m.order[0] == d[|r|].id && Decode(d[|r|].insn).Some?
    ensures row.retire.value == PacketAt(d, |r|)
    ensures forall k | 0 <= k < |r| + 1 :: Decode(d[k].insn).Some? && (r + [row.retire.value])[k] == PacketAt(d, k)
  {
    hide Decode, Execute, Writers, PacketAt, Tracked;
    assert m.order[0] == Ids(d)[|r|];
    TrackedAt(m, d, edges, |r|);
    TrackedPacket(m.history[d[|r|].id], m.history, d, |r|, edges);
  }

  lemma PopLive(m: Monitor, d: seq<Dispatch>, r: seq<Packet>)
    requires Queued(m, d, r) && |m.order| > 0
    ensures m.order[1..] == Ids(d)[|r| + 1..] && m.live - {m.order[0]} == (set id | id in m.order[1..])
  {
    hide Decode, Execute, Writers, PacketAt;
    var rest := m.order[1..];
    forall j | 0 <= j < |rest| ensures rest[j] != m.order[0] {
      assert rest[j] == d[|r| + 1 + j].id && m.order[0] == d[|r|].id;
    }
    assert m.order == [m.order[0]] + rest;
  }

  lemma TrackedPacket(rec: Record, history: map<Id, Record>, d: seq<Dispatch>, k: nat, edges: seq<Edge>)
    requires k < |d| && Decode(d[k].insn).Some? && Tracked(rec, history, d, k, edges)
    ensures rec.packet == PacketAt(d, k)
  {
    hide Decode, PacketAt;
  }

  lemma PopLate(m: Monitor, d: seq<Dispatch>, r: seq<Packet>, edges: seq<Edge>, row: Edge)
    requires RetiredLate(m.history, d, r, edges + [row]) && HeadReady(m, row)
    requires Left(row) != [] ==> |r| < |d| && |m.order| > 0 && m.order[0] == d[|r|].id
    ensures RetiredLate(m.history, d, r + Left(row), edges + [row])
  {
    if Left(row) != [] {
      assert SawRetire(edges + [row], row.retire.value, row.edge) by {
        assert (edges + [row])[|edges|] == row;
      }
      assert Late(m.history, d[|r|].id, row.retire.value, edges + [row]);
    }
    hide SawRetire, Finished, Late;
  }

  lemma PopSound(m: Monitor, d: seq<Dispatch>, r: seq<Packet>, edges: seq<Edge>, a: Edge, row: Edge)
    requires SoundOn(m, d, r, edges + [a]) && HeadReady(m, row) && m.lastEdge == Some(row.edge)
    requires a == row.(retire := None, retireReady := false)
    ensures SoundOn(PopPhase(m, row), d, r + Left(row), edges + [row])
  {
    hide Decode, Tracked, Recorded, RetiredLate, AllTracked, Queued;
    var more := edges + [row];
    ClockStays(m, PopPhase(m, row), edges, a, row);
    TrackedStays(m, d, r, edges + [a], more);
    PopQueued(m, d, r, more, row);
    QueuedOrder(m, d, r);
    PopLate(m, d, r, edges, row);
    PopRecorded(m, edges, a, row);
    PopTracked(m, d, more, row);
  }

  lemma QueuedOrder(m: Monitor, d: seq<Dispatch>, r: seq<Packet>)
    requires Queued(m, d, r)
    ensures |d| == |r| + |m.order|
  {
    hide Decode, PacketAt, Execute, Writers;
  }

  lemma PopRecorded(m: Monitor, edges: seq<Edge>, a: Edge, row: Edge)
    requires Recorded(m.history, edges + [a]) && a == row.(retire := None, retireReady := false)
    ensures Recorded(m.history, edges + [row])
  {
    var was, now := edges + [a], edges + [row];
    forall n | 0 <= n < |was| ensures was[n].issue == now[n].issue && was[n].finish == now[n].finish && was[n].edge == now[n].edge {
    }
  }

  lemma PopTracked(m: Monitor, d: seq<Dispatch>, edges: seq<Edge>, row: Edge)
    requires AllTracked(m, d, edges)
    ensures AllTracked(PopPhase(m, row), d, edges) && PopPhase(m, row).history == m.history
  {
    hide Decode, Tracked;
  }

  /** Every accepted edge keeps the invariant. */
  lemma StepSound(m: Monitor, d: seq<Dispatch>, r: seq<Packet>, edges: seq<Edge>, row: Edge)
    requires SoundOn(m, d, r, edges) && Step(m, row).Ok?
    ensures SoundOn(Step(m, row).value, d + Added(row), r + Left(row), edges + [row])
  {
    hide SoundOn, Sample, FinishPhase, RetirePhase, IssuePhase, DispatchPhase, PopPhase, HeadReady;
    var m1 := Sample(m, row).value;
    SampleSound(m, d, r, edges, row);
    var m2 := FinishPhase(m1, row).value;
    FinishSound(m1, d, r, edges, row);
    var a2 := Blank(row).(finish := row.finish);
    var m3 := RetirePhase(m2, row).value;
    RetireSound(m2, d, r, edges + [a2], row);
    var m4 := IssuePhase(m3, row).value;
    IssueKeepsHead(m3, row);
    IssueSound(m3, d, r, edges, a2, row);
    var a4 := a2.(issue := row.issue);
    var m5 := DispatchPhase(m4, row).value;
    DispatchKeepsHead(m4, row);
    DispatchSound(m4, d, r, edges, a4, row);
    PopSound(m5, d + Added(row), r, edges, a4.(dispatch := row.dispatch), row);
  }

  lemma {:induction false} WatchSound(edges: seq<Edge>)
    requires Watch(edges).Ok?
    ensures SoundOn(Watch(edges).value, Dispatches(edges), Retirements(edges), edges)
  {
    hide Step, SoundOn;
    if edges == [] {
      StartSound();
    } else {
      var n := |edges| - 1;
      WatchSound(edges[..n]);
      StepSound(Watch(edges[..n]).value, Dispatches(edges[..n]), Retirements(edges[..n]), edges[..n], edges[n]);
      assert edges[..n] + [edges[n]] == edges;
    }
  }

  lemma StartSound()
    ensures SoundOn(Start(), [], [], [])
  {
  }

  // What acceptance means.

  lemma WatchAccepted(edges: seq<Edge>, coverage: bool)
    requires Check(edges, coverage).Ok?
    ensures Watch(edges).Ok? && Watch(edges).value.live == {} && Watch(edges).value.stats.dispatch > 0
  {
    hide Watch, Covered;
  }

  lemma DrainedQueue(m: Monitor, d: seq<Dispatch>, r: seq<Packet>)
    requires Queued(m, d, r) && m.live == {}
    ensures |r| == |d|
  {
    hide Decode, PacketAt, Execute, Writers;
    QueuedOrder(m, d, r);
    NoElements(m.order, m.live);
  }

  lemma Inhabited(ids: set<Id>, id: Id)
    requires id in ids
    ensures ids != {}
  {
  }

  lemma NoElements(order: seq<Id>, live: set<Id>)
    requires live == (set id | id in order) && live == {}
    ensures |order| == 0
  {
    if |order| > 0 {
      var first := order[0];
      assert first in order;
      Inhabited(live, first);
    }
  }

  lemma QueuedFacts(m: Monitor, d: seq<Dispatch>, r: seq<Packet>)
    requires Queued(m, d, r)
    ensures |r| <= |d| <= |r| + 5 && m.stats.dispatch == |d| && m.stats.retire == |r|
    ensures forall k | 0 <= k < |d| :: d[k].id in m.history && Decode(d[k].insn).Some?
    ensures forall k | 0 <= k < |r| :: r[k] == PacketAt(d, k)
    ensures forall j, k | 0 <= j < k < |d| :: d[j].id != d[k].id
  {
    hide Decode, PacketAt, Execute, Writers;
  }

  /** The k-th instruction's four events, in order, with sequential operands and value. */
  ghost predicate Scheduled(edges: seq<Edge>, d: seq<Dispatch>, k: nat, t: int, u: int, w: int)
    requires k < |d| && Decode(d[k].insn).Some?
  {
    var p, operands := PacketAt(d, k), OperandsAt(d, k);
    && t < u && u + 1 <= w
    && SawDispatch(edges, d[k], t) && SawIssue(edges, Issue(d[k].id, operands.0, operands.1), u)
    && SawFinish(edges, Finish(d[k].id, p.value), u + 1) && SawRetire(edges, p, w)
  }

  lemma RetiredScheduled(m: Monitor, d: seq<Dispatch>, r: seq<Packet>, edges: seq<Edge>, k: nat)
    requires SoundOn(m, d, r, edges) && k < |r|
    ensures k < |d| && Decode(d[k].insn).Some? && exists t, u, w :: Scheduled(edges, d, k, t, u, w)
  {
    hide Decode, PacketAt, OperandsAt, ProducersAt, SawDispatch, SawIssue, SawFinish, SawRetire, AllTracked, Queued;
    QueuedFacts(m, d, r);
    TrackedAt(m, d, edges, k);
    assert Late(m.history, d[k].id, r[k], edges);
    var rec := m.history[d[k].id];
    var w :| SawRetire(edges, r[k], w) && rec.finish.value <= w;
    assert Scheduled(edges, d, k, rec.dispatch, rec.issue.value, w);
  }

  /** Main theorem: the packets of an accepted trace are exactly its dispatched instructions, in dispatch order, with the
      values of a sequential execution, and each was dispatched, later issued with sequential operands, finished one edge
      after, and retired no earlier. */
  lemma AcceptedTraceIsSequential(edges: seq<Edge>, coverage: bool)
    requires Check(edges, coverage).Ok?
    ensures var d, r := Dispatches(edges), Retirements(edges);
            && 0 < |d| == |r| == Check(edges, coverage).value.dispatch == Check(edges, coverage).value.retire
            && (forall j, k | 0 <= j < k < |d| :: d[j].id != d[k].id)
            && (forall k | 0 <= k < |d| :: Decode(d[k].insn).Some? && r[k] == PacketAt(d, k)
                                           && exists t, u, w :: Scheduled(edges, d, k, t, u, w))
  {
    hide Decode, PacketAt, Queued, AllTracked, RetiredLate, Recorded, Clocked, Watch, Scheduled, Dispatches, Retirements, Covered;
    WatchAccepted(edges, coverage);
    WatchSound(edges);
    var m, d, r := Watch(edges).value, Dispatches(edges), Retirements(edges);
    QueuedFacts(m, d, r);
    DrainedQueue(m, d, r);
    forall k | 0 <= k < |d| ensures Decode(d[k].insn).Some? && exists t, u, w :: Scheduled(edges, d, k, t, u, w) {
      RetiredScheduled(m, d, r, edges, k);
    }
  }

  lemma IssueTime(history: map<Id, Record>, edges: seq<Edge>, i: Issue, t: int)
    requires Recorded(history, edges) && SawIssue(edges, i, t)
    ensures i.id in history && history[i.id].issue == Some(t)
  {
  }

  lemma FinishTime(history: map<Id, Record>, edges: seq<Edge>, f: Finish, t: int)
    requires Recorded(history, edges) && SawFinish(edges, f, t)
    ensures f.id in history && history[f.id].finish == Some(t)
  {
  }

  lemma IsProducer(d: seq<Dispatch>, k: nat, source: nat, j: nat)
    requires k < |d| && Decode(d[k].insn).Some? && LastWriter(d[..k], source) == Some(j)
    requires Decode(d[k].insn).value.first == Some(source) || Decode(d[k].insn).value.second == Some(source)
    ensures d[j].id in ProducersAt(d, k)
  {
    hide Decode, Writers, LastWriter;
    WritersAreLast(d[..k], source);
  }

  /** No instruction issues before the producer of each of its sources has finished, at any point of an accepted run. */
  lemma IssueAfterProducers(edges: seq<Edge>, k: nat, j: nat, source: nat, i: Issue, t: int)
    requires Watch(edges).Ok? && k < |Dispatches(edges)| && i.id == Dispatches(edges)[k].id && SawIssue(edges, i, t)
    requires LastWriter(Dispatches(edges)[..k], source) == Some(j) && Decode(Dispatches(edges)[k].insn).Some?
    requires var insn := Decode(Dispatches(edges)[k].insn).value; insn.first == Some(source) || insn.second == Some(source)
    ensures var d := Dispatches(edges);
            && Decode(d[j].insn).Some?
            && (exists f :: f <= t && SawFinish(edges, Finish(d[j].id, PacketAt(d, j).value), f))
            && (forall v, f | SawFinish(edges, Finish(d[j].id, v), f) :: f <= t)
  {
    hide Decode, PacketAt, OperandsAt, ProducersAt, Queued, AllTracked, RetiredLate, Recorded, Clocked, Watch, Dispatches, Retirements,
         SawDispatch, SawIssue, SawFinish;
    WatchSound(edges);
    var m, d, r := Watch(edges).value, Dispatches(edges), Retirements(edges);
    IssueTime(m.history, edges, i, t);
    TrackedAt(m, d, edges, k);
    IsProducer(d, k, source, j);
    TrackedAt(m, d, edges, j);
    forall v, f | SawFinish(edges, Finish(d[j].id, v), f) ensures f <= t {
      FinishTime(m.history, edges, Finish(d[j].id, v), f);
    }
  }

  /** Each identity issues once and finishes once. */
  lemma EventsOnce(edges: seq<Edge>, i: Issue, i': Issue, f: Finish, f': Finish, t: int, t': int)
    requires Watch(edges).Ok?
    ensures SawIssue(edges, i, t) && SawIssue(edges, i', t') && i.id == i'.id ==> t == t'
    ensures SawFinish(edges, f, t) && SawFinish(edges, f', t') && f.id == f'.id ==> t == t'
  {
    hide Watch, Dispatches, Retirements, Queued, AllTracked, RetiredLate, Clocked;
    WatchSound(edges);
  }

  lemma {:induction false} PrefixAccepted(edges: seq<Edge>, n: nat)
    requires n <= |edges| && Watch(edges).Ok?
    ensures Watch(edges[..n]).Ok?
  {
    if Watch(edges[..n]).Err? {
      Stuck(edges, n);
    }
  }

  /** Never more than five instructions are in flight, and packets leave in dispatch order with sequential values, at every
      edge of an accepted run. */
  lemma InFlightBounded(edges: seq<Edge>, n: nat)
    requires n <= |edges| && Watch(edges).Ok?
    ensures var d, r := Dispatches(edges[..n]), Retirements(edges[..n]);
            |r| <= |d| <= |r| + 5 && forall k | 0 <= k < |r| :: Decode(d[k].insn).Some? && r[k] == PacketAt(d, k)
  {
    hide Watch, Dispatches, Retirements, Queued, AllTracked, RetiredLate, Clocked, Recorded, Decode, PacketAt;
    PrefixAccepted(edges, n);
    WatchSound(edges[..n]);
    QueuedFacts(Watch(edges[..n]).value, Dispatches(edges[..n]), Retirements(edges[..n]));
  }
}
