/** The recovery model as an object: each step updates the queue, tokens and registers in place. */
module RecoveryMachine {
  import opened Wrappers
  import opened Dyadic
  import opened Recovery
  import opened RecoveryInvariant
  import opened RecoveryChecks

  method Find(entries: seq<Entry>, tag: Tag) returns (k: Option<nat>)
    ensures k == IndexOf(entries, tag)
  {
    for j := 0 to |entries|
      invariant forall m | 0 <= m < j :: entries[m].tag != tag
    {
      if entries[j].tag == tag {
        return Some(j);
      }
    }
    k := None;
  }

  method CollectRenames(entries: seq<Entry>) returns (used: set<int>)
    ensures used == Renames(entries)
  {
    used := {};
    for j := 0 to |entries|
      invariant used == Renames(entries[..j])
    {
      assert entries[..j + 1] == entries[..j] + [entries[j]];
      assert Renames(entries[..j + 1]) == Renames(entries[..j]) + if entries[j].rename.Some? then {entries[j].rename.value} else {};
      if entries[j].rename.Some? {
        used := used + {entries[j].rename.value};
      }
    }
    assert entries[..|entries|] == entries;
  }

  method FreeRename(entries: seq<Entry>, depth: nat) returns (r: Option<int>)
    ensures r == FreeFrom(Renames(entries), 0, depth)
  {
    var used := CollectRenames(entries);
    var i := 0;
    while i < depth && i in used
      invariant 0 <= i <= depth
      invariant FreeFrom(used, i, depth) == FreeFrom(used, 0, depth)
    {
      i := i + 1;
    }
    r := if i < depth then Some(i) else None;
  }

  method BuildMapping(entries: seq<Entry>) returns (m: map<int, Tag>)
    ensures m == MappingOf(entries)
  {
    m := map[];
    for j := 0 to |entries|
      invariant m == MappingOf(entries[..j])
    {
      assert entries[..j + 1][..j] == entries[..j];
      if entries[j].dst.Some? {
        m := m[entries[j].dst.value := entries[j].tag];
      }
    }
    assert entries[..|entries|] == entries;
  }

  /** The tags cut away, and the tokens once their local producers are cancelled. */
  method Cancel(killed: seq<Entry>, owned: map<Tag, Kind>) returns (tags: seq<Tag>, tokens: map<Tag, Kind>)
    ensures tags == TagSeq(killed) && tokens == CancelLocal(owned, TagsOf(killed))
  {
    tags, tokens := [], owned;
    for j := 0 to |killed|
      invariant tags == TagSeq(killed[..j]) && tokens == CancelLocal(owned, TagsOf(killed[..j]))
    {
      var tag := killed[j].tag;
      assert killed[..j + 1] == killed[..j] + [killed[j]];
      assert TagsOf(killed[..j + 1]) == TagsOf(killed[..j]) + {tag};
      if tag in tokens && tokens[tag] == Local {
        tokens := tokens - {tag};
      }
      tags := tags + [tag];
    }
    assert killed[..|killed|] == killed;
  }

  class RecoveryModel {
    const config: Config
    var entries: seq<Entry>
    var generations: seq<nat>
    var tail: nat
    var tokens: map<Tag, Kind>
    var arch: seq<int>
    var mapping: map<int, Tag>
    var nextSerial: nat
    var retired: seq<Commit>

    function Model(): State
      reads this
    {
      State(entries, generations, tail, tokens, arch, mapping, nextSerial, retired)
    }

    ghost predicate Valid()
      reads this
    {
      Recovery.Valid(Model(), config)
    }

    constructor (c: Config)
      requires c.Positive()
      ensures config == c && Model() == Reset(c) && Valid()
    {
      config := c;
      entries, generations, tail, tokens := [], seq(c.depth, _ => 0), 0, map[];
      arch, mapping, nextSerial, retired := seq(32, _ => 0), map[], 0, [];
      new;
      ResetValid(c);
    }

    /** Non-positive dimensions are refused. */
    static method Create(depth: int, renameDepth: int, generationBits: int) returns (r: Option<RecoveryModel>)
      ensures r.Some? <==> depth >= 1 && renameDepth >= 1 && generationBits >= 1
      ensures r.Some? ==> fresh(r.value) && r.value.Valid()
                          && r.value.config == Config(depth, renameDepth, Pow(generationBits))
                          && r.value.Model() == Reset(r.value.config)
    {
      if depth < 1 || renameDepth < 1 || generationBits < 1 {
        return None;
      }
      var model := new RecoveryModel(Config(depth, renameDepth, Pow(generationBits)));
      r := Some(model);
    }

    /** A pre-edge operand read finds the youngest writer in flight, else the register. */
    method ReadRegister(reg: int) returns (r: Result<Operand, StepError>)
      requires Valid()
      ensures r == if 0 <= reg < 32 then Ok(ReadOperand(entries, arch, reg)) else Err(RegisterOutOfRange)
    {
      if !(0 <= reg < 32) {
        return Err(RegisterOutOfRange);
      }
      MappingIsYoungest(entries, reg);
      if reg !in mapping {
        return Ok(Operand(true, arch[reg], None));
      }
      OrderedDistinct(entries, tail, nextSerial, config);
      var k := Find(entries, mapping[reg]);
      TagFoundAt(entries, YoungestWriter(entries, reg).value);
      r := Ok(Operand(entries[k.value].done, entries[k.value].value, Some(mapping[reg])));
    }

    /** Where a redirect cuts the queue. */
    method Decide(redirect: Option<Redirect>) returns (v: Verdict)
      ensures v == Resolve(entries, redirect)
    {
      if redirect.None? {
        return NoRedirect;
      }
      var cut := 0;
      if redirect.value.pivot.Some? {
        var found := Find(entries, redirect.value.pivot.value);
        if found.None? {
          return Rejected(InactivePivot);
        }
        cut := found.value + if redirect.value.keepPivot then 1 else 0;
      }
      v := if cut == 0 && entries != [] && entries[0].done then Rejected(IrrevocableHead) else Accepted(cut);
    }

    /** Redirect: drops the youngest entries and their local tokens, and moves the tail behind the survivors. */
    method RedirectPhase(i: Input) returns (v: Verdict, survivors: seq<Entry>, killed: seq<Tag>)
      requires config.Positive()
      modifies this`tokens, this`tail
      ensures v == Resolve(entries, i.redirect) && survivors == Survivors(old(Model()), i) && |survivors| <= |entries|
      ensures killed == KilledTags(old(Model()), i)
      ensures tail == TailAfter(entries, old(tail), v, config.depth) && tokens == CutTokens(old(Model()), i)
    {
      hide Resolve, CancelLocal, TagsOf, TagSeq;
      v := Decide(i.redirect);
      survivors, killed := entries, [];
      if v.Accepted? {
        survivors := entries[..v.cut];
        killed, tokens := Cancel(entries[v.cut..], tokens);
        if v.cut > 0 {
          tail := Following(survivors[v.cut - 1].tag.slot, config.depth);
        } else if entries != [] {
          tail := entries[0].tag.slot;
        }
      } else {
        NoTags(entries);
      }
    }

    /** Response: always consumes its token; finishes only an unfinished survivor that owned one before the edge. */
    method ResponsePhase(ghost s: State, survivors: seq<Entry>, preTokens: map<Tag, Kind>, i: Input)
      returns (after: seq<Entry>, finished: Option<Tag>)
      requires survivors == Survivors(s, i) && preTokens == s.tokens
      modifies this`tokens
      ensures after == AfterResult(s, i) && tokens == Consume(old(tokens), i.result)
      ensures finished == FinishedTag(s, i)
    {
      hide Survivors;
      after, finished := survivors, None;
      if i.result.Some? {
        var tag := i.result.value.tag;
        tokens := tokens - {tag};
        var k := Find(survivors, tag);
        if k.Some? && !survivors[k.value].done && tag in preTokens {
          after := survivors[k.value := survivors[k.value].(done := true, value := i.result.value.value % WORD)];
          finished := Some(tag);
        }
      }
    }

    /** Retirement: a head done before the edge writes its register and leaves. */
    method RetirePhase(ghost s: State, after: seq<Entry>, i: Input) returns (rest: seq<Entry>, committed: Option<Commit>)
      requires after == AfterResult(s, i) && entries == s.entries && arch == s.arch && retired == s.retired
      modifies this`arch, this`retired
      ensures rest == Remaining(s, i) && committed == CommittedBy(s, i) && arch == ArchAfter(s, i)
      ensures retired == s.retired + Retiring(s, i)
    {
      hide Survivors, Finish, Write;
      rest, committed := after, None;
      if i.retireReady && |after| > 0 && |entries| > 0 && entries[0].done {
        var w := CommitOf(after[0]);
        arch := Write(arch, w);
        retired := retired + [w];
        committed := Some(w);
        rest := after[1..];
      }
    }

    /** Issue: an unissued, unfinished entry takes a token. */
    method IssuePhase(ghost s: State, rest: seq<Entry>, i: Input) returns (served: seq<Entry>, accepted: bool)
      requires rest == Remaining(s, i) && tokens == Consume(CutTokens(s, i), i.result)
      modifies this`tokens
      ensures served == Serviced(s, i) && accepted == IssueTaken(s, i) && tokens == TokensAfter(s, i)
    {
      hide Remaining, CutTokens, Consume;
      served, accepted := rest, false;
      if i.issue.Some? {
        var k := Find(rest, i.issue.value);
        if k.Some? && !rest[k.value].issued && !rest[k.value].done {
          served := rest[k.value := rest[k.value].(issued := true)];
          tokens := tokens[i.issue.value := i.kind];
          accepted := true;
        }
      }
    }

    /** Places a new entry at the tail when pre-edge room, renames and tokens allow it. */
    method Enter(ghost s: State, survivors: seq<Entry>, preTokens: map<Tag, Kind>, i: Input, v: Verdict)
      returns (after: seq<Entry>, entered: Option<Tag>)
      requires config.Positive() && s.tail < |s.generations|
      requires entries == s.entries && generations == s.generations && nextSerial == s.nextSerial && preTokens == s.tokens
      requires tail < |generations| && (!v.Accepted? ==> tail == s.tail)
      modifies this`generations, this`tail, this`nextSerial
      ensures Entered(s, i, v, config, survivors, old(tail), after, entered, generations, tail, nextSerial)
    {
      after, entered := survivors, None;
      var free := FreeRename(entries, config.renameDepth);
      var needsRename := i.dst.Some? && !i.fault;
      var candidate := Tag(tail, (generations[tail] + 1) % config.generations);
      if i.allocate && !v.Accepted? && |entries| < config.depth && (needsRename ==> free.Some?) && candidate !in preTokens {
        entered := Some(candidate);
        after := survivors + [Entry(candidate, nextSerial, if i.fault then None else i.dst,
                                    if needsRename then free else None, i.fault, 0, i.fault, false)];
        nextSerial := nextSerial + 1;
        generations := generations[tail := candidate.generation];
        tail := Following(tail, config.depth);
      }
    }

    /** One clock edge. */
    method Step(i: Input) returns (r: Result<Events, StepError>)
      requires Valid()
      modifies this
      ensures Valid()
      ensures Rejects(i).Some? ==> r == Err(Rejects(i).value) && Model() == old(Model())
      ensures Rejects(i).None? ==> r == Ok(EventsOf(old(Model()), i, config)) && Model() == Next(old(Model()), i, config)
    {
      if i.dst.Some? && !(0 <= i.dst.value < 32) {
        return Err(RegisterOutOfRange);
      }
      if i.kind == Unknown {
        return Err(UnknownKind);
      }
      ghost var s := Model();
      StepKeepsValid(s, i, config);
      var events := Advance(i);
      r := Ok(events);
    }

    /** Response, retirement and issue, in that order, on the survivors. */
    method ServePhases(ghost s: State, survivors: seq<Entry>, preTokens: map<Tag, Kind>, i: Input)
      returns (served: seq<Entry>, finished: Option<Tag>, committed: Option<Commit>, issueAccepted: bool)
      requires survivors == Survivors(s, i) && preTokens == s.tokens && tokens == CutTokens(s, i)
      requires entries == s.entries && arch == s.arch && retired == s.retired
      modifies this`tokens, this`arch, this`retired
      ensures served == Serviced(s, i) && tokens == TokensAfter(s, i) && finished == FinishedTag(s, i)
      ensures committed == CommittedBy(s, i) && arch == ArchAfter(s, i) && retired == s.retired + Retiring(s, i)
      ensures issueAccepted == IssueTaken(s, i)
    {
      hide Survivors, AfterResult, Remaining, Serviced, Retiring, FinishedTag, CommittedBy, ArchAfter, IssueTaken, CutTokens,
           TokensAfter, Consume;
      var after;
      after, finished := ResponsePhase(s, survivors, preTokens, i);
      var rest;
      rest, committed := RetirePhase(s, after, i);
      served, issueAccepted := IssuePhase(s, rest, i);
    }

    /** Allocates if it may, and commits the new queue and its mapping. */
    method Settle(ghost s: State, served: seq<Entry>, preTokens: map<Tag, Kind>, i: Input, v: Verdict)
      returns (entered: Option<Tag>)
      requires config.Positive() && s.tail < |s.generations|
      requires entries == s.entries && generations == s.generations && nextSerial == s.nextSerial && preTokens == s.tokens
      requires tail < |generations| && (!v.Accepted? ==> tail == s.tail)
      modifies this`entries, this`mapping, this`generations, this`tail, this`nextSerial
      ensures Entered(s, i, v, config, served, old(tail), entries, entered, generations, tail, nextSerial)
      ensures mapping == MappingOf(entries)
    {
      hide Entered, MappingOf;
      var final;
      final, entered := Enter(s, served, preTokens, i, v);
      entries := final;
      mapping := BuildMapping(final);
    }

    /** Everything of the step but allocation. */
    method Service(ghost s: State, i: Input) returns (v: Verdict, served: seq<Entry>, events: Events)
      requires Valid() && s == Model()
      modifies this`tokens, this`tail, this`arch, this`retired
      ensures v == Resolve(entries, i.redirect) && tail == TailAfter(entries, s.tail, v, config.depth)
      ensures config.Positive() && s.tail < |generations| && tail < |generations| && (!v.Accepted? ==> tail == s.tail)
      ensures served == Serviced(s, i) && Reported(s, i, v, events, tokens, arch, retired)
    {
      var preTokens := tokens;
      TailInRange(s, i, config);
      hide Resolve, Recovery.Valid, TailAfter, Survivors, Serviced, Retiring, FinishedTag, CommittedBy, ArchAfter, KilledTags,
           IssueTaken, CutTokens, TokensAfter;
      var survivors, killed;
      v, survivors, killed := RedirectPhase(i);
      var finished, committed, issueAccepted;
      served, finished, committed, issueAccepted := ServePhases(s, survivors, preTokens, i);
      events := Events(None, finished, committed, killed, v.Accepted?,
                       if v.Rejected? then Some(v.why) else None, issueAccepted, i.result.Some?);
    }

    method Advance(i: Input) returns (events: Events)
      requires Valid() && Rejects(i).None?
      modifies this
      ensures events == EventsOf(old(Model()), i, config) && Model() == Next(old(Model()), i, config)
    {
      ghost var s := Model();
      var preTokens := tokens;
      hide Resolve, Recovery.Valid, MappingOf, TailAfter, Entered, Next, EventsOf, Serviced, Reported, Rejects;
      var v, served, reported := Service(s, i);
      var entered := Settle(s, served, preTokens, i, v);
      events := reported.(entered := entered);
      Completed(s, i, config, v, reported, Model(), events);
    }
  }

  lemma NoTags(entries: seq<Entry>)
    ensures TagSeq(entries[|entries|..]) == []
  {
  }

  /** The allocation phase placed the new entry, or nothing. */
  ghost predicate Entered(s: State, i: Input, v: Verdict, c: Config, served: seq<Entry>, cutTail: nat, after: seq<Entry>,
                          entered: Option<Tag>, generations: seq<nat>, tail: nat, nextSerial: nat)
    requires c.Positive() && s.tail < |s.generations|
  {
    var grows := Allocates(s, i, v, c);
    && entered == (if grows then Some(Candidate(s, c)) else None)
    && after == served + (if grows then [NewEntry(s, i, c)] else [])
    && generations == (if grows then s.generations[s.tail := Candidate(s, c).generation] else s.generations)
    && tail == (if grows then Following(s.tail, c.depth) else cutTail)
    && nextSerial == s.nextSerial + if grows then 1 else 0
  }

  /** Tokens, registers and events are those of the step, allocation aside. */
  ghost predicate Reported(s: State, i: Input, v: Verdict, e: Events, tokens: map<Tag, Kind>, arch: seq<int>, retired: seq<Commit>) {
    && tokens == TokensAfter(s, i) && arch == ArchAfter(s, i) && retired == s.retired + Retiring(s, i)
    && e.finished == FinishedTag(s, i) && e.committed == CommittedBy(s, i) && e.issueAccepted == IssueTaken(s, i)
    && |Survivors(s, i)| <= |s.entries| && e.killed == KilledTags(s, i)
    && e.accepted == v.Accepted? && e.rejected == (if v.Rejected? then Some(v.why) else None) && e.resultConsumed == i.result.Some?
  }

  lemma Completed(s: State, i: Input, c: Config, v: Verdict, r: Events, n: State, e: Events)
    requires Recovery.Valid(s, c) && Rejects(i).None? && v == Resolve(s.entries, i.redirect)
    requires Reported(s, i, v, r, n.tokens, n.arch, n.retired) && e == r.(entered := e.entered)
    requires c.Positive() && s.tail < |s.generations|
    requires Entered(s, i, v, c, Serviced(s, i), TailAfter(s.entries, s.tail, v, c.depth), n.entries, e.entered,
                     n.generations, n.tail, n.nextSerial)
    requires n.mapping == MappingOf(n.entries)
    ensures n == Next(s, i, c) && e == EventsOf(s, i, c)
  {
    hide Resolve, Recovery.Valid, MappingOf, Survivors, Serviced, Retiring, Allocates, NewEntry, Candidate, Rejects, TailAfter,
         TokensAfter, FinishedTag, CommittedBy, ArchAfter, KilledTags, IssueTaken;
  }

  lemma TailInRange(s: State, i: Input, c: Config)
    requires Recovery.Valid(s, c)
    ensures c.Positive() && s.tail < |s.generations| == c.depth
    ensures TailAfter(s.entries, s.tail, Resolve(s.entries, i.redirect), c.depth) < c.depth
    ensures !Resolve(s.entries, i.redirect).Accepted? ==>
              TailAfter(s.entries, s.tail, Resolve(s.entries, i.redirect), c.depth) == s.tail
  {
    assert c.Positive() && s.tail < |s.generations| == c.depth;
    assert Ordered(s.entries, s.tail, s.nextSerial, c) && Renamed(s.entries, c);
    hide Slot, Resolve, Recovery.Valid, Owned, InOrder, Ordered, Renamed;
    PrefixOrdered(s.entries, s.tail, s.nextSerial, c, Resolve(s.entries, i.redirect));
    TailBound(Survivors(s, i), TailAfter(s.entries, s.tail, Resolve(s.entries, i.redirect), c.depth), s.nextSerial, c);
  }

  lemma TailBound(entries: seq<Entry>, tail: nat, next: nat, c: Config)
    requires Ordered(entries, tail, next, c)
    ensures tail < c.depth
  {
  }
}
