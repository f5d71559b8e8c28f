/** Which traces the pipeline monitor accepts: exactly those whose every edge keeps the reviewed relations, read from the
    trace's own events, and whose work has drained. */
module StageAcceptance {
  import opened Wrappers
  import opened StageTiming
  import opened StageSoundness

  // The relations of one edge, over the edges before it.

  predicate IssueSeen(edges: seq<Edge>, id: Id) {
    exists n | 0 <= n < |edges| :: edges[n].issue.Some? && edges[n].issue.value.id == id
  }

  predicate IssuedAt(edges: seq<Edge>, id: Id, t: int) {
    exists n | 0 <= n < |edges| :: edges[n].issue.Some? && edges[n].issue.value.id == id && edges[n].edge == t
  }

  predicate FinishSeen(edges: seq<Edge>, id: Id) {
    exists n | 0 <= n < |edges| :: edges[n].finish.Some? && edges[n].finish.value.id == id
  }

  /** Finished on an earlier edge or on this one. */
  predicate FinishedBy(edges: seq<Edge>, row: Edge, id: Id) {
    FinishSeen(edges, id) || (row.finish.Some? && row.finish.value.id == id)
  }

  /** The k-th instruction, dispatched and not yet retired. */
  predicate InFlight(d: seq<Dispatch>, r: seq<Packet>, k: nat, id: Id) {
    |r| <= k < |d| && d[k].id == id && Decode(d[k].insn).Some?
  }

  ghost predicate LegalSample(edges: seq<Edge>, d: seq<Dispatch>, r: seq<Packet>, row: Edge) {
    && (|edges| > 0 ==> row.edge == edges[|edges| - 1].edge + 1)
    && row.cqCount == |d| - |r| == row.renameCount
  }

  /** A finish is the first of an instruction in flight issued one edge earlier, with its sequential value. */
  ghost predicate LegalFinish(edges: seq<Edge>, d: seq<Dispatch>, r: seq<Packet>, row: Edge) {
    row.finish.Some? ==> exists k :: FinishLegalFor(edges, d, r, row, k)
  }

  ghost predicate FinishLegalFor(edges: seq<Edge>, d: seq<Dispatch>, r: seq<Packet>, row: Edge, k: nat)
    requires row.finish.Some?
  {
    var f := row.finish.value;
    && InFlight(d, r, k, f.id) && IssuedAt(edges, f.id, row.edge - 1) && !FinishSeen(edges, f.id)
    && f.value == PacketAt(d, k).value
  }

  /** An offer not taken is repeated unchanged. */
  function Held(edges: seq<Edge>): Option<Packet> {
    if |edges| == 0 then None
    else
      var last := edges[|edges| - 1];
      if last.retireReady then None else last.retire
  }

  /** Retirement is offered exactly when the oldest instruction in flight has finished, and offers its sequential packet. */
  ghost predicate LegalRetire(edges: seq<Edge>, d: seq<Dispatch>, r: seq<Packet>, row: Edge) {
    && (Held(edges).Some? ==> row.retire == Held(edges))
    && (if |r| < |d| && FinishedBy(edges, row, d[|r|].id)
        then Decode(d[|r|].insn).Some? && row.retire == Some(PacketAt(d, |r|)) else row.retire.None?)
  }

  /** An issue is the first of an instruction in flight, with sequential operands, after every producer's finish. */
  ghost predicate LegalIssue(edges: seq<Edge>, d: seq<Dispatch>, r: seq<Packet>, row: Edge) {
    row.issue.Some? ==> exists k :: IssueLegalFor(edges, d, r, row, k)
  }

  ghost predicate IssueLegalFor(edges: seq<Edge>, d: seq<Dispatch>, r: seq<Packet>, row: Edge, k: nat)
    requires row.issue.Some?
  {
    var i := row.issue.value;
    && InFlight(d, r, k, i.id) && !IssueSeen(edges, i.id) && (i.a, i.b) == OperandsAt(d, k)
    && forall p | p in ProducersAt(d, k) :: FinishedBy(edges, row, p)
  }

  /** A dispatch has room before this edge's retirement, a new identity and a supported form. */
  ghost predicate LegalDispatch(d: seq<Dispatch>, r: seq<Packet>, row: Edge) {
    row.dispatch.Some? ==>
      && |d| - |r| < 5 && Decode(row.dispatch.value.insn).Some?
      && forall k | 0 <= k < |d| :: d[k].id != row.dispatch.value.id
  }

  ghost predicate LegalEdge(edges: seq<Edge>, row: Edge) {
    var d, r := Dispatches(edges), Retirements(edges);
    && LegalSample(edges, d, r, row) && LegalFinish(edges, d, r, row) && LegalRetire(edges, d, r, row)
    && LegalIssue(edges, d, r, row) && LegalDispatch(d, r, row)
  }

  // What the monitor's records say of the events.

  lemma LiveIs(m: Monitor, d: seq<Dispatch>, r: seq<Packet>, id: Id)
    requires Queued(m, d, r)
    ensures id in m.live <==> exists k :: InFlight(d, r, k, id)
    ensures id in m.live ==> id in m.history
  {
    hide Decode, PacketAt, Execute, Writers;
    if id in m.live {
      var j :| 0 <= j < |m.order| && m.order[j] == id;
      assert d[|r| + j].id == id;
      assert InFlight(d, r, |r| + j, id);
    }
    forall k: nat | InFlight(d, r, k, id) ensures id in m.live {
      assert m.order[k - |r|] == id;
    }
  }

  lemma HistoryIs(m: Monitor, d: seq<Dispatch>, r: seq<Packet>, id: Id)
    requires Queued(m, d, r)
    ensures id in m.history <==> exists k :: 0 <= k < |d| && d[k].id == id
  {
    hide Decode, PacketAt, Execute, Writers;
    if id in m.history {
      assert id in Ids(d);
      var k :| 0 <= k < |d| && Ids(d)[k] == id;
      assert d[k].id == id;
    }
  }

  /** A record's times are the events seen. */
  lemma TimesAreEvents(m: Monitor, d: seq<Dispatch>, edges: seq<Edge>, k: nat)
    requires AllTracked(m, d, edges) && Recorded(m.history, edges) && k < |d|
    ensures Decode(d[k].insn).Some? && d[k].id in m.history
    ensures var rec := m.history[d[k].id];
            && rec.value == PacketAt(d, k).value && rec.packet == PacketAt(d, k)
            && rec.operands == OperandsAt(d, k) && rec.deps == ProducersAt(d, k)
            && (rec.issue.Some? <==> IssueSeen(edges, d[k].id))
            && (rec.finish.Some? <==> FinishSeen(edges, d[k].id))
            && (forall t :: rec.issue == Some(t) <==> IssuedAt(edges, d[k].id, t))
  {
    hide Decode, PacketAt, OperandsAt, ProducersAt, AllTracked;
    TrackedAt(m, d, edges, k);
  }

  /** Whatever was recorded happened on an edge so far. */
  lemma TimesArePast(m: Monitor, d: seq<Dispatch>, edges: seq<Edge>, k: nat)
    requires AllTracked(m, d, edges) && Clocked(m, edges) && k < |d|
    ensures d[k].id in m.history && |edges| > 0
    ensures m.history[d[k].id].dispatch <= edges[|edges| - 1].edge
    ensures m.history[d[k].id].finish.Some? ==> m.history[d[k].id].finish.value <= edges[|edges| - 1].edge
  {
    hide Decode, PacketAt, OperandsAt, ProducersAt, AllTracked;
    TrackedAt(m, d, edges, k);
    assert forall n | 0 <= n < |edges| :: edges[n].edge <= edges[|edges| - 1].edge;
  }

  // Phase by phase, acceptance is legality.

  lemma SampleLegal(m: Monitor, d: seq<Dispatch>, r: seq<Packet>, edges: seq<Edge>, row: Edge)
    requires SoundOn(m, d, r, edges)
    ensures Sample(m, row).Ok? <==> LegalSample(edges, d, r, row)
  {
    hide Queued, AllTracked, Recorded, RetiredLate;
    QueuedOrder(m, d, r);
    QueuedFacts(m, d, r);
  }

  lemma FinishLegal(m: Monitor, d: seq<Dispatch>, r: seq<Packet>, edges: seq<Edge>, row: Edge)
    requires Queued(m, d, r) && AllTracked(m, d, edges) && Recorded(m.history, edges)
    ensures FinishPhase(m, row).Ok? <==> LegalFinish(edges, d, r, row)
  {
    hide Queued, AllTracked, Recorded, Decode, PacketAt, IssueSeen, IssuedAt, FinishSeen;
    if row.finish.Some? {
      var f := row.finish.value;
      LiveIs(m, d, r, f.id);
      forall k | InFlight(d, r, k, f.id)
        ensures FinishPhase(m, row).Ok? <==> FinishLegalFor(edges, d, r, row, k)
      {
        TimesAreEvents(m, d, edges, k);
        LiveIs(m, d, r, f.id);
      }
    }
  }

  lemma IssueLegal(m: Monitor, d: seq<Dispatch>, r: seq<Packet>, edges: seq<Edge>, a: Edge, row: Edge)
    requires Queued(m, d, r) && AllTracked(m, d, edges + [a]) && Recorded(m.history, edges + [a]) && Clocked(m, edges + [a])
    requires a == Blank(row).(finish := row.finish)
    ensures IssuePhase(m, row).Ok? <==> LegalIssue(edges, d, r, row)
  {
    hide Queued, AllTracked, Recorded, Clocked, Decode, PacketAt, OperandsAt, ProducersAt, IssueSeen, FinishSeen;
    if row.issue.Some? {
      var i := row.issue.value;
      LiveIs(m, d, r, i.id);
      forall k | InFlight(d, r, k, i.id)
        ensures IssuePhase(m, row).Ok? <==> IssueLegalFor(edges, d, r, row, k)
      {
        IssueLegalAt(m, d, r, edges, a, row, k);
      }
    }
  }

  lemma IssueLegalAt(m: Monitor, d: seq<Dispatch>, r: seq<Packet>, edges: seq<Edge>, a: Edge, row: Edge, k: nat)
    requires Queued(m, d, r) && AllTracked(m, d, edges + [a]) && Recorded(m.history, edges + [a]) && Clocked(m, edges + [a])
    requires a == Blank(row).(finish := row.finish) && row.issue.Some? && InFlight(d, r, k, row.issue.value.id)
    ensures IssuePhase(m, row).Ok? <==> IssueLegalFor(edges, d, r, row, k)
  {
    hide Queued, AllTracked, Recorded, Clocked, Decode, PacketAt, OperandsAt, ProducersAt, IssueSeen, FinishSeen;
    var id := row.issue.value.id;
    LiveIs(m, d, r, id);
    TimesAreEvents(m, d, edges + [a], k);
    SeenThrough(edges, a, row, id);
    DispatchedEarlier(m, d, edges, a, row, k);
    ProducersFinished(m, d, r, edges, a, row, k);
  }

  /** Partial rows show only the finish of this edge. */
  lemma SeenThrough(edges: seq<Edge>, a: Edge, row: Edge, id: Id)
    requires a == Blank(row).(finish := row.finish)
    ensures IssueSeen(edges + [a], id) <==> IssueSeen(edges, id)
    ensures FinishSeen(edges + [a], id) <==> FinishedBy(edges, row, id)
  {
    var more := edges + [a];
    assert more[|edges|] == a;
    forall n | 0 <= n < |edges| ensures more[n] == edges[n] {
    }
    if IssueSeen(edges, id) {
      var n :| 0 <= n < |edges| && edges[n].issue.Some? && edges[n].issue.value.id == id;
      assert more[n].issue.Some?;
    }
    if FinishSeen(edges, id) {
      var n :| 0 <= n < |edges| && edges[n].finish.Some? && edges[n].finish.value.id == id;
      assert more[n].finish.Some?;
    }
  }

  lemma DispatchedEarlier(m: Monitor, d: seq<Dispatch>, edges: seq<Edge>, a: Edge, row: Edge, k: nat)
    requires AllTracked(m, d, edges + [a]) && Clocked(m, edges + [a]) && k < |d| && a == Blank(row).(finish := row.finish)
    ensures d[k].id in m.history && m.history[d[k].id].dispatch < row.edge
  {
    hide Decode, PacketAt, OperandsAt, ProducersAt, AllTracked;
    TrackedAt(m, d, edges + [a], k);
    var more := edges + [a];
    var t := m.history[d[k].id].dispatch;
    var n :| 0 <= n < |more| && more[n].edge == t && more[n].dispatch == Some(d[k]);
    assert n < |edges|;
    assert more[|edges|].edge == more[0].edge + |edges| && more[n].edge == more[0].edge + n;
  }

  /** A producer is an earlier instruction; its record is finished exactly when its finish was seen, never in the future. */
  lemma ProducersFinished(m: Monitor, d: seq<Dispatch>, r: seq<Packet>, edges: seq<Edge>, a: Edge, row: Edge, k: nat)
    requires Queued(m, d, r) && AllTracked(m, d, edges + [a]) && Recorded(m.history, edges + [a]) && Clocked(m, edges + [a])
    requires a == Blank(row).(finish := row.finish) && k < |d| && Decode(d[k].insn).Some?
    ensures forall p | p in ProducersAt(d, k) ::
              FinishedBy(edges, row, p) <==> Finished(m.history, p) && m.history[p].finish.value <= row.edge
  {
    hide Queued, AllTracked, Recorded, Clocked, Decode, PacketAt, ProducersAt, FinishSeen, FinishedBy;
    forall p | p in ProducersAt(d, k)
      ensures FinishedBy(edges, row, p) <==> Finished(m.history, p) && m.history[p].finish.value <= row.edge
    {
      var j := ProducerIndex(d, k, p);
      TimesAreEvents(m, d, edges + [a], j);
      TimesArePast(m, d, edges + [a], j);
      SeenThrough(edges, a, row, p);
    }
  }

  lemma ProducerIndex(d: seq<Dispatch>, k: nat, p: Id) returns (j: nat)
    requires k < |d| && Decode(d[k].insn).Some? && p in ProducersAt(d, k)
    ensures j < k && d[j].id == p
  {
    hide Decode, Writers;
    j := WriterIndex(d[..k], p);
  }

  lemma {:induction false} WriterIndex(d: seq<Dispatch>, p: Id) returns (j: nat)
    requires p in Writers(d).Values
    ensures j < |d| && d[j].id == p
  {
    hide Decode;
    var n := |d| - 1;
    if d[n].id == p {
      j := n;
    } else {
      j := WriterIndex(d[..n], p);
    }
  }

  lemma DispatchLegal(m: Monitor, d: seq<Dispatch>, r: seq<Packet>, row: Edge)
    requires Queued(m, d, r)
    ensures DispatchPhase(m, row).Ok? <==> LegalDispatch(d, r, row)
  {
    hide Queued, Decode, Enter;
    QueuedOrder(m, d, r);
    if row.dispatch.Some? {
      HistoryIs(m, d, r, row.dispatch.value.id);
    }
  }

  lemma HeadIs(m: Monitor, d: seq<Dispatch>, r: seq<Packet>)
    requires Queued(m, d, r)
    ensures |m.order| == |d| - |r| && (|r| < |d| ==> m.order[0] == d[|r|].id)
  {
    hide Decode, PacketAt, Execute, Writers;
    QueuedOrder(m, d, r);
    if |r| < |d| {
      assert m.order[0] == Ids(d)[|r|];
    }
  }

  lemma RetireLegal(m: Monitor, d: seq<Dispatch>, r: seq<Packet>, edges: seq<Edge>, a: Edge, row: Edge)
    requires Queued(m, d, r) && AllTracked(m, d, edges + [a]) && Recorded(m.history, edges + [a]) && Clocked(m, edges + [a])
    requires a == Blank(row).(finish := row.finish) && m.stalled == Held(edges)
    ensures RetirePhase(m, row).Ok? <==> LegalRetire(edges, d, r, row)
  {
    hide Queued, AllTracked, Recorded, Clocked, Decode, PacketAt, FinishSeen, FinishedBy, Held;
    HeadIs(m, d, r);
    if |r| < |d| {
      HeadFinished(m, d, edges, a, row, |r|);
      PacketNamed(d, |r|);
    }
  }

  lemma PacketNamed(d: seq<Dispatch>, k: nat)
    requires k < |d| && Decode(d[k].insn).Some?
    ensures PacketAt(d, k).id == d[k].id
  {
    hide Decode, OperandsAt, Compute;
  }

  /** An instruction's record is finished exactly when its finish has been seen, and not later than this edge. */
  lemma HeadFinished(m: Monitor, d: seq<Dispatch>, edges: seq<Edge>, a: Edge, row: Edge, k: nat)
    requires AllTracked(m, d, edges + [a]) && Recorded(m.history, edges + [a]) && Clocked(m, edges + [a])
    requires a == Blank(row).(finish := row.finish) && k < |d|
    ensures Decode(d[k].insn).Some? && d[k].id in m.history && m.history[d[k].id].packet == PacketAt(d, k)
    ensures Finished(m.history, d[k].id) <==> FinishedBy(edges, row, d[k].id)
    ensures Finished(m.history, d[k].id) ==> m.history[d[k].id].finish.value <= row.edge
  {
    hide AllTracked, Recorded, Clocked, Decode, PacketAt, FinishSeen, FinishedBy;
    TimesAreEvents(m, d, edges + [a], k);
    TimesArePast(m, d, edges + [a], k);
    SeenThrough(edges, a, row, d[k].id);
  }

  // A whole edge.

  lemma PhasesKeepStalled(m: Monitor, row: Edge)
    ensures Sample(m, row).Ok? ==> Sample(m, row).value.stalled == m.stalled
    ensures FinishPhase(m, row).Ok? ==> FinishPhase(m, row).value.stalled == m.stalled
    ensures IssuePhase(m, row).Ok? ==> IssuePhase(m, row).value.stalled == m.stalled
    ensures DispatchPhase(m, row).Ok? ==> DispatchPhase(m, row).value.stalled == m.stalled
    ensures PopPhase(m, row).stalled == m.stalled
  {
    hide Decode, Compute, Producers;
  }

  lemma RetireHolds(m: Monitor, edges: seq<Edge>, row: Edge)
    requires RetirePhase(m, row).Ok?
    ensures RetirePhase(m, row).value.stalled == Held(edges + [row])
  {
  }

  /** The monitor accepts an edge exactly when it keeps the relations. */
  lemma StepLegal(m: Monitor, d: seq<Dispatch>, r: seq<Packet>, edges: seq<Edge>, row: Edge)
    requires SoundOn(m, d, r, edges) && m.stalled == Held(edges)
    ensures Step(m, row).Ok? <==> LegalSample(edges, d, r, row) && LegalFinish(edges, d, r, row) && LegalRetire(edges, d, r, row)
                                  && LegalIssue(edges, d, r, row) && LegalDispatch(d, r, row)
    ensures Step(m, row).Ok? ==> Step(m, row).value.stalled == Held(edges + [row])
  {
    hide SoundOn, Sample, FinishPhase, RetirePhase, IssuePhase, DispatchPhase, PopPhase, HeadReady, Held,
         LegalSample, LegalFinish, LegalRetire, LegalIssue, LegalDispatch;
    SampleLegal(m, d, r, edges, row);
    PhasesKeepStalled(m, row);
    if Sample(m, row).Ok? {
      var m1 := Sample(m, row).value;
      SampleSound(m, d, r, edges, row);
      SampleKeeps(m, d, r, edges, row);
      FinishLegal(m1, d, r, edges, row);
      PhasesKeepStalled(m1, row);
      if FinishPhase(m1, row).Ok? {
        LaterLegal(m1, FinishPhase(m1, row).value, d, r, edges, row);
      }
    }
  }

  /** Sampling changes no record, so what held of the edges before still does. */
  lemma SampleKeeps(m: Monitor, d: seq<Dispatch>, r: seq<Packet>, edges: seq<Edge>, row: Edge)
    requires SoundOn(m, d, r, edges) && Sample(m, row).Ok?
    ensures var m1 := Sample(m, row).value; Queued(m1, d, r) && AllTracked(m1, d, edges) && Recorded(m1.history, edges)
  {
    hide Tracked, Decode, PacketAt, Execute, Writers;
  }

  lemma LaterLegal(m: Monitor, m2: Monitor, d: seq<Dispatch>, r: seq<Packet>, edges: seq<Edge>, row: Edge)
    requires SoundOn(m, d, r, edges + [Blank(row)]) && m.lastEdge == Some(row.edge) && FinishPhase(m, row) == Ok(m2)
    requires m.stalled == Held(edges) == m2.stalled
    ensures var checked := RetirePhase(m2, row);
            if checked.Err? then !LegalRetire(edges, d, r, row)
            else
              var issued := IssuePhase(checked.value, row);
              && LegalRetire(edges, d, r, row) && (issued.Ok? <==> LegalIssue(edges, d, r, row))
              && (issued.Ok? ==> (DispatchPhase(issued.value, row).Ok? <==> LegalDispatch(d, r, row)))
              && (issued.Ok? && DispatchPhase(issued.value, row).Ok? ==>
                    PopPhase(DispatchPhase(issued.value, row).value, row).stalled == Held(edges + [row]))
  {
    hide SoundOn, Sample, FinishPhase, RetirePhase, IssuePhase, DispatchPhase, PopPhase, HeadReady, Held,
         LegalSample, LegalFinish, LegalRetire, LegalIssue, LegalDispatch;
    var a := Blank(row).(finish := row.finish);
    FinishSound(m, d, r, edges, row);
    SoundParts(m2, d, r, edges + [a]);
    RetireLegal(m2, d, r, edges, a, row);
    if RetirePhase(m2, row).Ok? {
      var m3 := RetirePhase(m2, row).value;
      RetireSound(m2, d, r, edges + [a], row);
      RetireHolds(m2, edges, row);
      SoundParts(m3, d, r, edges + [a]);
      IssueLegal(m3, d, r, edges, a, row);
      PhasesKeepStalled(m3, row);
      if IssuePhase(m3, row).Ok? {
        var m4 := IssuePhase(m3, row).value;
        IssueSound(m3, d, r, edges, a, row);
        SoundParts(m4, d, r, edges + [a.(issue := row.issue)]);
        DispatchLegal(m4, d, r, row);
        PhasesKeepStalled(m4, row);
        if DispatchPhase(m4, row).Ok? {
          PhasesKeepStalled(DispatchPhase(m4, row).value, row);
        }
      }
    }
  }

  lemma SoundParts(m: Monitor, d: seq<Dispatch>, r: seq<Packet>, edges: seq<Edge>)
    requires SoundOn(m, d, r, edges)
    ensures Clocked(m, edges) && Queued(m, d, r) && AllTracked(m, d, edges) && Recorded(m.history, edges)
  {
    hide Clocked, Queued, AllTracked, Recorded, RetiredLate;
  }

  ghost predicate Legal(edges: seq<Edge>) {
    forall n | 0 <= n < |edges| :: LegalEdge(edges[..n], edges[n])
  }

  /** The monitor takes in a trace exactly when every edge of it is legal. */
  lemma {:induction false} WatchesIffLegal(edges: seq<Edge>)
    ensures Watch(edges).Ok? <==> Legal(edges)
    ensures Watch(edges).Ok? ==> Watch(edges).value.stalled == Held(edges)
  {
    hide Step, SoundOn, LegalEdge;
    if edges != [] {
      var n := |edges| - 1;
      var before, row := edges[..n], edges[n];
      WatchesIffLegal(before);
      assert before + [row] == edges;
      LegalSplit(before, row);
      if Watch(before).Ok? {
        WatchSound(before);
        StepLegalEdge(Watch(before).value, before, row);
      }
    }
  }

  lemma StepLegalEdge(m: Monitor, edges: seq<Edge>, row: Edge)
    requires SoundOn(m, Dispatches(edges), Retirements(edges), edges) && m.stalled == Held(edges)
    ensures Step(m, row).Ok? <==> LegalEdge(edges, row)
    ensures Step(m, row).Ok? ==> Step(m, row).value.stalled == Held(edges + [row])
  {
    hide SoundOn, Step, Held, LegalSample, LegalFinish, LegalRetire, LegalIssue, LegalDispatch;
    StepLegal(m, Dispatches(edges), Retirements(edges), edges, row);
  }

  lemma LegalSplit(edges: seq<Edge>, row: Edge)
    ensures Legal(edges + [row]) <==> Legal(edges) && LegalEdge(edges, row)
  {
    hide LegalEdge;
    var more := edges + [row];
    assert more[..|edges|] == edges && more[|edges|] == row;
    forall n | 0 <= n < |edges| ensures more[..n] == edges[..n] && more[n] == edges[n] {
    }
    if Legal(more) {
      assert LegalEdge(more[..|edges|], more[|edges|]);
      forall n | 0 <= n < |edges| ensures LegalEdge(edges[..n], edges[n]) {
        assert LegalEdge(more[..n], more[n]);
      }
    }
  }

  /** Main theorem: a trace is accepted if and only if every edge keeps the relations and all work, some at least, has
      drained; and, when coverage is asked for, every form and case was seen. */
  lemma AcceptsIffLegal(edges: seq<Edge>, coverage: bool)
    ensures Check(edges, coverage).Ok? <==>
              && Legal(edges) && 0 < |Dispatches(edges)| == |Retirements(edges)|
              && (coverage ==> Watch(edges).Ok? && Watch(edges).value.forms == FORMS && Covered(Watch(edges).value.stats))
  {
    hide Legal, Watch, Covered, Dispatches, Retirements;
    WatchesIffLegal(edges);
    if Watch(edges).Ok? {
      WatchSound(edges);
      DrainedIff(Watch(edges).value, Dispatches(edges), Retirements(edges), edges);
    }
  }

  lemma DrainedIff(m: Monitor, d: seq<Dispatch>, r: seq<Packet>, edges: seq<Edge>)
    requires SoundOn(m, d, r, edges)
    ensures m.live == {} <==> |r| == |d|
    ensures m.stats.dispatch == |d|
  {
    SoundParts(m, d, r, edges);
    hide SoundOn, Clocked, AllTracked, Recorded, RetiredLate, Decode, PacketAt, Execute, Writers;
    if m.live == {} {
      DrainedQueue(m, d, r);
    }
    QueuedOrder(m, d, r);
  }
}
