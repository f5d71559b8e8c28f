/** The pipeline-trace monitor: one pass over the edges of a trace, rejecting at the first relation broken. */
module StageTiming {
  import opened Wrappers
  import opened Integers
  import opened Dyadic
  import opened Bitwise

  type Id = int

  datatype Form = Addi | Addis | Ori | Oris | Xori | Xoris | AddReg

  /** Two source registers, the second replaced by an immediate when there is one. */
  datatype Instruction = Instruction(form: Form, dst: nat, first: Option<nat>, second: Option<nat>, imm: Option<nat>)

  datatype Dispatch = Dispatch(id: Id, pc: nat, insn: nat)

  datatype Issue = Issue(id: Id, a: nat, b: nat)

  datatype Finish = Finish(id: Id, value: nat)

  datatype Packet = Packet(id: Id, pc: nat, insn: nat, gpr: nat, value: nat)

  /** One sampled clock edge. */
  datatype Edge = Edge(edge: int, cqCount: int, renameCount: int, finish: Option<Finish>, retire: Option<Packet>,
                       retireReady: bool, issue: Option<Issue>, dispatch: Option<Dispatch>)

  datatype Record = Record(dispatch: int, deps: seq<Id>, operands: (nat, nat), value: nat, packet: Packet,
                           issue: Option<int>, finish: Option<int>)

  datatype Stats = Stats(dispatch: nat, issue: nat, finish: nat, retire: nat, stallEdges: nat, pendingRaw: nat,
                         sameEdgeRaw: nat, earliestIssue: nat, earliestRetire: nat, fullEdges: nat)

  datatype Complaint =
    | EdgeSequence | Occupancy | BadFinish | FinishDistance | ResultValue | StalledChanged | NotOldest | RetireBeforeFinish
    | RetirePayload | RetireWithheld | BadIssue | IssueDistance | RawBeforeFinish | IssueOperands | FullReclaim
    | IdentityReused | UnsupportedForm | NotDrained | FormsMissing | CoverageMissing

  /** live names the records still in flight; history keeps every record. */
  datatype Monitor = Monitor(live: set<Id>, history: map<Id, Record>, latest: map<nat, Id>, order: seq<Id>,
                             registers: seq<nat>, lastEdge: Option<int>, stalled: Option<Packet>, forms: set<Form>, stats: Stats)

  const WORD: nat := 0x1_0000_0000
  const FORMS := {Addi, Addis, Ori, Oris, Xori, Xoris, AddReg}

  function Start(): Monitor {
    Monitor({}, map[], map[], [], seq(32, _ => 0), None, None, {}, Stats(0, 0, 0, 0, 0, 0, 0, 0, 0, 0))
  }

  function Decode(word: nat): (r: Option<Instruction>)
    ensures r.Some? ==> r.value.dst < 32 && (r.value.first.Some? ==> r.value.first.value < 32)
                        && (r.value.second.Some? ==> r.value.second.value < 32)
  {
    var op, rt, ra, rb, imm := word / 0x400_0000, word / 0x20_0000 % 32, word / 0x1_0000 % 32, word / 0x800 % 32, word % 0x1_0000;
    if op == 14 then
      Some(Instruction(Addi, rt, if ra == 0 then None else Some(ra), None, Some((if imm >= 0x8000 then imm - 0x1_0000 else imm) % WORD)))
    else if op == 15 then
      Some(Instruction(Addis, rt, if ra == 0 then None else Some(ra), None, Some(imm * 0x1_0000 % WORD)))
    else if 24 <= op <= 27 then
      var form := if op == 24 then Ori else if op == 25 then Oris else if op == 26 then Xori else Xoris;
      Some(Instruction(form, ra, Some(rt), None, Some(if op % 2 == 1 then imm * 0x1_0000 else imm)))
    else if op == 31 && word / 2 % 1024 == 266 && word % 2 == 0 then
      Some(Instruction(AddReg, rt, Some(ra), Some(rb), None))
    else None
  }

  function SourceValue(source: Option<nat>, registers: seq<nat>): nat {
    if source.Some? && source.value < |registers| then registers[source.value] else 0
  }

  function OperandsFrom(i: Instruction, registers: seq<nat>): (nat, nat) {
    (SourceValue(i.first, registers), if i.imm.Some? then i.imm.value else SourceValue(i.second, registers))
  }

  function Compute(form: Form, a: nat, b: nat): nat {
    (if form == Xori || form == Xoris then Xor(a, b) else if form == Ori || form == Oris then Or(a, b) else a + b) % WORD
  }

  /** The most recent dispatched writers of the sources, first source first. */
  function Producers(i: Instruction, latest: map<nat, Id>): seq<Id> {
    (if i.first.Some? && i.first.value in latest then [latest[i.first.value]] else [])
    + (if i.second.Some? && i.second.value in latest then [latest[i.second.value]] else [])
  }

  function Tally(b: bool): nat {
    if b then 1 else 0
  }

  predicate Finished(history: map<Id, Record>, id: Id) {
    id in history && history[id].finish.Some?
  }

  // One edge, phase by phase.

  function Sample(m: Monitor, row: Edge): Result<Monitor, Complaint> {
    if m.lastEdge.Some? && row.edge != m.lastEdge.value + 1 then Err(EdgeSequence)
    else if !(row.cqCount == |m.order| == row.renameCount) then Err(Occupancy)
    else Ok(m.(lastEdge := Some(row.edge), stats := m.stats.(fullEdges := m.stats.fullEdges + Tally(|m.order| == 5))))
  }

  function FinishPhase(m: Monitor, row: Edge): Result<Monitor, Complaint> {
    if row.finish.None? then Ok(m)
    else
      var f := row.finish.value;
      if !(f.id in m.live && f.id in m.history && m.history[f.id].issue.Some? && m.history[f.id].finish.None?) then Err(BadFinish)
      else
        var r := m.history[f.id];
        if row.edge != r.issue.value + 1 then Err(FinishDistance)
        else if f.value != r.value then Err(ResultValue)
        else Ok(m.(history := m.history[f.id := r.(finish := Some(row.edge))], stats := m.stats.(finish := m.stats.finish + 1)))
  }

  /** Checks the offered retirement; the queue moves only at the end of the edge. */
  function RetirePhase(m: Monitor, row: Edge): Result<Monitor, Complaint> {
    if m.stalled.Some? && row.retire != m.stalled then Err(StalledChanged)
    else if row.retire.Some? && !(|m.order| > 0 && row.retire.value.id == m.order[0]) then Err(NotOldest)
    else if row.retire.Some? && !(Finished(m.history, m.order[0]) && row.edge >= m.history[m.order[0]].finish.value)
      then Err(RetireBeforeFinish)
    else if row.retire.Some? && row.retire.value != m.history[m.order[0]].packet then Err(RetirePayload)
    else if row.retire.None? && |m.order| > 0 && Finished(m.history, m.order[0]) then Err(RetireWithheld)
    else
      var stalled := if row.retire.Some? && !row.retireReady then row.retire else None;
      Ok(m.(stalled := stalled, stats := m.stats.(stallEdges := m.stats.stallEdges + Tally(stalled.Some?))))
  }

  function IssuePhase(m: Monitor, row: Edge): Result<Monitor, Complaint> {
    if row.issue.None? then Ok(m)
    else
      var i := row.issue.value;
      if !(i.id in m.live && i.id in m.history && m.history[i.id].issue.None?) then Err(BadIssue)
      else
        var r := m.history[i.id];
        if row.edge < r.dispatch + 1 then Err(IssueDistance)
        else if exists p | p in r.deps :: !(Finished(m.history, p) && m.history[p].finish.value <= row.edge) then Err(RawBeforeFinish)
        else if (i.a, i.b) != r.operands then Err(IssueOperands)
        else
          var sameEdge := exists p | p in r.deps :: Finished(m.history, p) && m.history[p].finish.value == row.edge;
          Ok(m.(history := m.history[i.id := r.(issue := Some(row.edge))],
                stats := m.stats.(issue := m.stats.issue + 1, sameEdgeRaw := m.stats.sameEdgeRaw + Tally(sameEdge),
                                  earliestIssue := m.stats.earliestIssue + Tally(row.edge == r.dispatch + 1))))
  }

  function DispatchPhase(m: Monitor, row: Edge): Result<Monitor, Complaint> {
    if row.dispatch.None? then Ok(m)
    else
      var d := row.dispatch.value;
      if |m.order| >= 5 then Err(FullReclaim)
      else if d.id in m.history then Err(IdentityReused)
      else
        var decoded := Decode(d.insn);
        if decoded.None? then Err(UnsupportedForm)
        else Ok(Enter(m, d, decoded.value, row.edge))
  }

  function Enter(m: Monitor, d: Dispatch, i: Instruction, edge: int): Monitor {
    var deps, operands := Producers(i, m.latest), OperandsFrom(i, m.registers);
    var value := Compute(i.form, operands.0, operands.1);
    var packet := Packet(d.id, d.pc, d.insn, i.dst, value);
    var pending := exists p | p in deps :: !Finished(m.history, p);
    m.(live := m.live + {d.id}, history := m.history[d.id := Record(edge, deps, operands, value, packet, None, None)],
       latest := m.latest[i.dst := d.id], order := m.order + [d.id],
       registers := if i.dst < |m.registers| then m.registers[i.dst := value] else m.registers,
       forms := m.forms + {i.form},
       stats := m.stats.(dispatch := m.stats.dispatch + 1, pendingRaw := m.stats.pendingRaw + Tally(pending)))
  }

  /** An accepted retirement leaves at the end of the edge. */
  function PopPhase(m: Monitor, row: Edge): Monitor {
    if row.retire.Some? && row.retireReady && |m.order| > 0 then
      var early := Finished(m.history, m.order[0]) && m.history[m.order[0]].finish.value == row.edge;
      m.(live := m.live - {m.order[0]}, order := m.order[1..],
         stats := m.stats.(retire := m.stats.retire + 1, earliestRetire := m.stats.earliestRetire + Tally(early)))
    else m
  }

  /** One edge: events on an edge are simultaneous, a finish forwards to issue and retirement of the same edge. */
  function Step(m: Monitor, row: Edge): Result<Monitor, Complaint> {
    var sampled := Sample(m, row);
    if sampled.Err? then sampled else
    var finished := FinishPhase(sampled.value, row);
    if finished.Err? then finished else
    var checked := RetirePhase(finished.value, row);
    if checked.Err? then checked else
    var issued := IssuePhase(checked.value, row);
    if issued.Err? then issued else
    var dispatched := DispatchPhase(issued.value, row);
    if dispatched.Err? then dispatched else Ok(PopPhase(dispatched.value, row))
  }

  function Watch(edges: seq<Edge>): Result<Monitor, Complaint> {
    if edges == [] then Ok(Start())
    else
      var before := Watch(edges[..|edges| - 1]);
      if before.Err? then before else Step(before.value, edges[|edges| - 1])
  }

  predicate Covered(s: Stats) {
    s.stallEdges > 0 && s.pendingRaw > 0 && s.sameEdgeRaw > 0 && s.earliestIssue > 0 && s.earliestRetire > 0 && s.fullEdges > 0
  }

  function Check(edges: seq<Edge>, coverage: bool): Result<Stats, Complaint> {
    var m := Watch(edges);
    if m.Err? then Err(m.error)
    else if m.value.live != {} || m.value.stats.dispatch == 0 then Err(NotDrained)
    else if coverage && m.value.forms != FORMS then Err(FormsMissing)
    else if coverage && !Covered(m.value.stats) then Err(CoverageMissing)
    else Ok(m.value.stats)
  }

  // The monitor as a loop.

  method AnyProducer(history: map<Id, Record>, deps: seq<Id>, edge: int) returns (late: bool, same: bool, pending: bool)
    ensures late <==> exists p | p in deps :: !(Finished(history, p) && history[p].finish.value <= edge)
    ensures same <==> exists p | p in deps :: Finished(history, p) && history[p].finish.value == edge
    ensures pending <==> exists p | p in deps :: !Finished(history, p)
  {
    late, same, pending := false, false, false;
    for k := 0 to |deps|
      invariant late <==> exists p | p in deps[..k] :: !(Finished(history, p) && history[p].finish.value <= edge)
      invariant same <==> exists p | p in deps[..k] :: Finished(history, p) && history[p].finish.value == edge
      invariant pending <==> exists p | p in deps[..k] :: !Finished(history, p)
    {
      var p := deps[k];
      assert deps[..k + 1] == deps[..k] + [p];
      var done := Finished(history, p);
      if !(done && history[p].finish.value <= edge) {
        late := true;
      }
      if done && history[p].finish.value == edge {
        same := true;
      }
      if !done {
        pending := true;
      }
    }
    assert deps[..|deps|] == deps;
  }

  method CheckIssue(m: Monitor, row: Edge) returns (r: Result<Monitor, Complaint>)
    ensures r == IssuePhase(m, row)
  {
    if row.issue.None? {
      return Ok(m);
    }
    var i := row.issue.value;
    if !(i.id in m.live && i.id in m.history && m.history[i.id].issue.None?) {
      return Err(BadIssue);
    }
    var record := m.history[i.id];
    if row.edge < record.dispatch + 1 {
      return Err(IssueDistance);
    }
    var late, same, _ := AnyProducer(m.history, record.deps, row.edge);
    if late {
      return Err(RawBeforeFinish);
    }
    if (i.a, i.b) != record.operands {
      return Err(IssueOperands);
    }
    r := Ok(m.(history := m.history[i.id := record.(issue := Some(row.edge))],
               stats := m.stats.(issue := m.stats.issue + 1, sameEdgeRaw := m.stats.sameEdgeRaw + Tally(same),
                                 earliestIssue := m.stats.earliestIssue + Tally(row.edge == record.dispatch + 1))));
  }

  method CheckDispatch(m: Monitor, row: Edge) returns (r: Result<Monitor, Complaint>)
    ensures r == DispatchPhase(m, row)
  {
    hide Decode, Compute;
    if row.dispatch.None? {
      return Ok(m);
    }
    var d := row.dispatch.value;
    if |m.order| >= 5 {
      return Err(FullReclaim);
    }
    if d.id in m.history {
      return Err(IdentityReused);
    }
    var decoded := Decode(d.insn);
    if decoded.None? {
      return Err(UnsupportedForm);
    }
    var i := decoded.value;
    var deps, operands := Producers(i, m.latest), OperandsFrom(i, m.registers);
    var value := Compute(i.form, operands.0, operands.1);
    var _, _, pending := AnyProducer(m.history, deps, row.edge);
    var record := Record(row.edge, deps, operands, value, Packet(d.id, d.pc, d.insn, i.dst, value), None, None);
    var registers := m.registers;
    if i.dst < |registers| {
      registers := registers[i.dst := value];
    }
    r := Ok(m.(live := m.live + {d.id}, history := m.history[d.id := record], latest := m.latest[i.dst := d.id],
               order := m.order + [d.id], registers := registers, forms := m.forms + {i.form},
               stats := m.stats.(dispatch := m.stats.dispatch + 1, pendingRaw := m.stats.pendingRaw + Tally(pending))));
  }

  /** Accepts a trace edge by edge, then asks that all work drained and, if wanted, that every case was seen. */
  method CheckTrace(edges: seq<Edge>, coverage: bool) returns (r: Result<Stats, Complaint>)
    ensures r == Check(edges, coverage)
  {
    hide Sample, FinishPhase, RetirePhase, IssuePhase, DispatchPhase, PopPhase;
    var m := Start();
    for k := 0 to |edges|
      invariant Watch(edges[..k]) == Ok(m)
    {
      var row := edges[k];
      PrefixStep(edges, k);
      var s := Sample(m, row);
      if s.Err? {
        return Err(s.error);
      }
      s := FinishPhase(s.value, row);
      if s.Err? {
        return Err(s.error);
      }
      s := RetirePhase(s.value, row);
      if s.Err? {
        return Err(s.error);
      }
      s := CheckIssue(s.value, row);
      if s.Err? {
        return Err(s.error);
      }
      s := CheckDispatch(s.value, row);
      if s.Err? {
        return Err(s.error);
      }
      m := PopPhase(s.value, row);
    }
    assert edges[..|edges|] == edges;
    if m.live != {} || m.stats.dispatch == 0 {
      return Err(NotDrained);
    }
    if coverage && m.forms != FORMS {
      return Err(FormsMissing);
    }
    if coverage && !Covered(m.stats) {
      return Err(CoverageMissing);
    }
    r := Ok(m.stats);
  }

  lemma PrefixStep(edges: seq<Edge>, k: nat)
    requires k < |edges|
    ensures var before := Watch(edges[..k]);
            Watch(edges[..k + 1]) == if before.Err? then before else Step(before.value, edges[k])
    ensures WatchedTo(edges, k).Ok? && Step(WatchedTo(edges, k).value, edges[k]).Err? ==>
              Watch(edges) == Err(Step(WatchedTo(edges, k).value, edges[k]).error)
  {
    hide Step;
    assert edges[..k + 1][..k] == edges[..k];
    if WatchedTo(edges, k).Ok? && Step(WatchedTo(edges, k).value, edges[k]).Err? {
      Stuck(edges, k + 1);
    }
  }

  function WatchedTo(edges: seq<Edge>, k: nat): Result<Monitor, Complaint>
    requires k <= |edges|
  {
    Watch(edges[..k])
  }

  /** A rejection is final. */
  lemma {:induction false} Stuck(edges: seq<Edge>, k: nat)
    requires k <= |edges| && Watch(edges[..k]).Err?
    ensures Watch(edges) == Watch(edges[..k])
    decreases |edges| - k
  {
    hide Step;
    if k < |edges| {
      assert edges[..k + 1][..k] == edges[..k];
      Stuck(edges, k + 1);
    } else {
      assert edges[..k] == edges;
    }
  }

  /** A register-immediate word decodes to its fields: sign extension for addi, the upper half for addis, oris and xoris. */
  lemma DecodesImmediate(op: nat, x: nat, y: nat, imm: nat)
    requires (op == 14 || op == 15 || 24 <= op <= 27) && x < 32 && y < 32 && imm < 0x1_0000
    ensures var d := Decode(op * 0x400_0000 + x * 0x20_0000 + y * 0x1_0000 + imm);
            d == Some(
              if op == 14 then Instruction(Addi, x, if y == 0 then None else Some(y), None,
                                           Some(if imm < 0x8000 then imm else imm + 0xffff_0000))
              else if op == 15 then Instruction(Addis, x, if y == 0 then None else Some(y), None, Some(imm * 0x1_0000))
              else Instruction(if op == 24 then Ori else if op == 25 then Oris else if op == 26 then Xori else Xoris,
                               y, Some(x), None, Some(if op == 24 || op == 26 then imm else imm * 0x1_0000)))
  {
    InstructionFields(op, x, y, imm, op * 0x400_0000 + x * 0x20_0000 + y * 0x1_0000 + imm);
  }

  /** A register-register word decodes to addition only for the plain add. */
  lemma DecodesRegister(rt: nat, ra: nat, rb: nat, xo: nat, rc: nat)
    requires rt < 32 && ra < 32 && rb < 32 && xo < 1024 && rc < 2
    ensures Decode(31 * 0x400_0000 + rt * 0x20_0000 + ra * 0x1_0000 + rb * 0x800 + xo * 2 + rc)
         == if xo == 266 && rc == 0 then Some(Instruction(AddReg, rt, Some(ra), Some(rb), None)) else None
  {
    var low := rb * 0x800 + xo * 2 + rc;
    var word := 31 * 0x400_0000 + rt * 0x20_0000 + ra * 0x1_0000 + low;
    InstructionFields(31, rt, ra, low, word);
    LowFields(word, rb, xo, rc);
  }

  /** The computed value, by form, in 32 bits. */
  lemma ComputesByForm(form: Form, a: nat, b: nat)
    requires a < WORD && b < WORD
    ensures Compute(form, a, b) < WORD
    ensures form == Ori || form == Oris ==> Compute(form, a, b) == a + b - And(a, b)
    ensures form == Xori || form == Xoris ==> Compute(form, a, b) == a + b - 2 * And(a, b)
    ensures form == Addi || form == Addis || form == AddReg ==> Compute(form, a, b) == if a + b < WORD then a + b else a + b - WORD
  {
    hide Or, Xor, And, Pow;
    SharedBits(a, b);
    WordPowers();
    OrBelow(a, b, 32);
  }
}
