/** Safety over whole runs: token ownership under tag reuse, conservation of serials, and the in-order architectural state. */
module RecoveryRuns {
  import opened Wrappers
  import opened Recovery
  import opened RecoveryInvariant

  /** A state with its history: which serial's issue created the latest token of each tag, and which entries were killed. */
  datatype History = History(s: State, issuer: map<Tag, nat>, killed: seq<Entry>)

  function Killing(s: State, i: Input): seq<Entry> {
    var kept := |Survivors(s, i)|;
    if kept <= |s.entries| then s.entries[kept..] else []
  }

  function Observe(h: History, i: Input, c: Config): History
    requires Valid(h.s, c)
  {
    if Rejects(i).Some? then h
    else
      var at := Issuing(Remaining(h.s, i), i.issue);
      History(Next(h.s, i, c),
              if at.Some? then h.issuer[i.issue.value := Remaining(h.s, i)[at.value].serial] else h.issuer,
              h.killed + Killing(h.s, i))
  }

  function Start(c: Config): History
    requires c.Positive()
  {
    History(Reset(c), map[], [])
  }

  /** The history after any sequence of inputs; refused inputs change nothing. */
  function Run(inputs: seq<Input>, c: Config): (h: History)
    requires c.Positive()
    ensures Valid(h.s, c)
  {
    if inputs == [] then
      ResetValid(c);
      Start(c)
    else
      var n := |inputs| - 1;
      var h := Run(inputs[..n], c);
      ObserveValid(h, inputs[n], c);
      Observe(h, inputs[n], c)
  }

  lemma ObserveValid(h: History, i: Input, c: Config)
    requires Valid(h.s, c)
    ensures Valid(Observe(h, i, c).s, c)
  {
    hide Valid, Next;
    if Rejects(i).None? {
      StepKeepsValid(h.s, i, c);
    }
  }

  // Token ownership.

  predicate KilledSerial(killed: seq<Entry>, serial: nat) {
    exists k | 0 <= k < |killed| :: killed[k].serial == serial
  }

  /** The token was created by the entry its tag now names, if that is active, else by a killed entry. */
  ghost predicate TracedToken(h: History, t: Tag) {
    && t in h.issuer
    && (forall k | 0 <= k < |h.s.entries| && h.s.entries[k].tag == t :: h.s.entries[k].serial == h.issuer[t])
    && (Active(h.s.entries, t) || KilledSerial(h.killed, h.issuer[t]))
  }

  ghost predicate Traced(h: History) {
    forall t | t in h.s.tokens :: TracedToken(h, t)
  }

  lemma TokensShrink(s: State, i: Input)
    ensures var at := Issuing(Remaining(s, i), i.issue);
            forall t | t in TokensAfter(s, i) :: t in s.tokens || (at.Some? && t == i.issue.value)
  {
    hide Resolve, Issuing, Remaining;
  }

  /** The next queue holds serviced entries, each a survivor of the old queue, and at most one new entry. */
  lemma NextFrom(s: State, i: Input, c: Config, k: nat)
    requires Valid(s, c) && Rejects(i).None? && k < |Next(s, i, c).entries|
    ensures var e, from := Next(s, i, c).entries[k], if Commits(s, i) then 1 else 0;
            if k < |Serviced(s, i)| then
              from + k < |s.entries| && e.tag == s.entries[from + k].tag && e.serial == s.entries[from + k].serial
            else e.serial == s.nextSerial && e == NewEntry(s, i, c) && Candidate(s, c) !in TokensAfter(s, i) && e.tag == Candidate(s, c)
  {
    NextFields(s, i, c);
    ServicedSlice(s, i);
    assert c.Positive() && s.tail < |s.generations|;
    if Allocates(s, i, Resolve(s.entries, i.redirect), c) {
      CandidateUnowned(s, i, c);
    }
    hide Next, Valid, Serviced, Resolve, Allocates, Commits, Candidate;
  }

  lemma Served(s: State, i: Input, c: Config)
    requires Valid(s, c) && Rejects(i).None?
    ensures var n := Next(s, i, c).entries;
            |Serviced(s, i)| <= |n| && forall k | 0 <= k < |Serviced(s, i)| :: n[k] == Serviced(s, i)[k]
  {
    NextFields(s, i, c);
    assert c.Positive() && s.tail < |s.generations|;
    hide Next, Valid, Serviced, Resolve, Allocates;
  }

  lemma CommitsDone(s: State, i: Input)
    requires Commits(s, i)
    ensures |s.entries| > 0 && s.entries[0].done
  {
    hide Resolve;
  }

  /** An entry that leaves without retiring is in the killed part. */
  lemma LeavesOrStays(s: State, i: Input, c: Config, j: nat)
    requires Valid(s, c) && Rejects(i).None? && j < |s.entries|
    ensures var from := if Commits(s, i) then 1 else 0; var n := Next(s, i, c);
            || (from <= j < from + |n.entries| && n.entries[j - from].tag == s.entries[j].tag)
            || s.entries[j] in Killing(s, i)
            || (j == 0 && s.entries[j].done)
  {
    hide Next, Valid, Serviced, Resolve, Allocates, Commits, Survivors;
    Served(s, i, c);
    ServicedSlice(s, i);
    var kept := |Survivors(s, i)|;
    if j >= kept {
      assert Killing(s, i)[j - kept] == s.entries[j];
    } else if Commits(s, i) {
      CommitsDone(s, i);
    }
  }

  lemma IssuedTag(s: State, i: Input, c: Config)
    requires Valid(s, c) && Rejects(i).None?
    ensures var at := Issuing(Remaining(s, i), i.issue);
            at.Some? ==>
              && at.value < |Remaining(s, i)| == |Serviced(s, i)| <= |Next(s, i, c).entries|
              && Next(s, i, c).entries[at.value].tag == i.issue.value
              && Next(s, i, c).entries[at.value].serial == Remaining(s, i)[at.value].serial
  {
    NextFields(s, i, c);
    IssueShape(Remaining(s, i), i.issue);
    hide Next, Valid, Resolve, Allocates, Remaining;
  }

  lemma KilledGrows(killed: seq<Entry>, more: seq<Entry>, serial: nat)
    ensures KilledSerial(killed, serial) ==> KilledSerial(killed + more, serial)
    ensures forall e | e in more :: KilledSerial(killed + more, e.serial)
  {
    if KilledSerial(killed, serial) {
      var k :| 0 <= k < |killed| && killed[k].serial == serial;
      assert (killed + more)[k].serial == serial;
    }
    forall e | e in more ensures KilledSerial(killed + more, e.serial) {
      var k :| 0 <= k < |more| && more[k] == e;
      assert (killed + more)[|killed| + k] == e;
    }
  }

  lemma TracedIssue(h: History, i: Input, c: Config)
    requires Valid(h.s, c) && Rejects(i).None? && Issuing(Remaining(h.s, i), i.issue).Some?
    ensures TracedToken(Observe(h, i, c), i.issue.value)
  {
    hide Next, Valid, Resolve, Remaining, Issuing, Distinct, KilledSerial, Active, Killing, Rejects;
    IssuedTag(h.s, i, c);
    StepKeepsValid(h.s, i, c);
    ValidDistinct(Next(h.s, i, c), c);
    OnlyCarrier(Next(h.s, i, c).entries, Issuing(Remaining(h.s, i), i.issue).value);
  }

  lemma OnlyCarrier(entries: seq<Entry>, at: nat)
    requires Distinct(entries) && at < |entries|
    ensures Active(entries, entries[at].tag)
    ensures forall k | 0 <= k < |entries| && entries[k].tag == entries[at].tag :: k == at
  {
  }

  /** A token's tag keeps naming the same entry while the token lives: no entry is given a tag still owed a response. */
  lemma SameEntry(s: State, i: Input, c: Config, t: Tag, k: nat)
    requires Valid(s, c) && Rejects(i).None? && t in TokensAfter(s, i)
    requires k < |Next(s, i, c).entries| && Next(s, i, c).entries[k].tag == t
    ensures exists j | 0 <= j < |s.entries| :: s.entries[j].tag == t && s.entries[j].serial == Next(s, i, c).entries[k].serial
  {
    hide Next, Valid, Resolve, TokensAfter, Serviced, Commits, Candidate, NewEntry;
    NextFrom(s, i, c, k);
    assert s.entries[k + if Commits(s, i) then 1 else 0].tag == t;
  }

  lemma TracedOutstanding(h: History, i: Input, c: Config, t: Tag)
    requires Valid(h.s, c) && Rejects(i).None? && t in TokensAfter(h.s, i) && t in h.s.tokens && TracedToken(h, t)
    ensures forall k | 0 <= k < |Next(h.s, i, c).entries| && Next(h.s, i, c).entries[k].tag == t ::
              Next(h.s, i, c).entries[k].serial == h.issuer[t]
    ensures Active(Next(h.s, i, c).entries, t) || KilledSerial(h.killed + Killing(h.s, i), h.issuer[t])
  {
    assert Owned(h.s.entries, h.s.tokens);
    hide Next, Valid, Resolve, TokensAfter, Killing, Commits, KilledSerial, Owned;
    var n := Next(h.s, i, c).entries;
    forall k | 0 <= k < |n| && n[k].tag == t ensures n[k].serial == h.issuer[t] {
      SameEntry(h.s, i, c, t, k);
    }
    KilledGrows(h.killed, Killing(h.s, i), h.issuer[t]);
    if !Active(n, t) && Active(h.s.entries, t) {
      var j :| 0 <= j < |h.s.entries| && h.s.entries[j].tag == t;
      DoneUnowned(h.s.entries, h.s.tokens);
      LeavesOrStays(h.s, i, c, j);
    }
  }

  lemma DoneUnowned(entries: seq<Entry>, tokens: map<Tag, Kind>)
    requires Owned(entries, tokens)
    ensures forall k | 0 <= k < |entries| && entries[k].done :: entries[k].tag !in tokens
  {
  }

  /** Tracing survives each step. */
  lemma TracedStep(h: History, i: Input, c: Config)
    requires Valid(h.s, c) && Traced(h)
    ensures Traced(Observe(h, i, c))
  {
    if Rejects(i).None? {
      hide Next, Valid, Resolve, Remaining, TokensAfter, Killing, Issuing, KilledSerial, Active;
      NextFields(h.s, i, c);
      TokensShrink(h.s, i);
      var h' := Observe(h, i, c);
      forall t | t in h'.s.tokens ensures TracedToken(h', t) {
        if Issuing(Remaining(h.s, i), i.issue).Some? && t == i.issue.value {
          TracedIssue(h, i, c);
        } else {
          TracedOutstanding(h, i, c, t);
        }
      }
    }
  }

  predicate Finishes(s: State, i: Input, j: nat)
    requires j < |s.entries|
  {
    i.result.Some? && s.entries[j].tag == i.result.value.tag && !s.entries[j].done && s.entries[j].tag in s.tokens
  }

  lemma FinishedFields(entries: seq<Entry>, kept: seq<Entry>, tokens: map<Tag, Kind>, result: Option<Response>, j: nat)
    requires Distinct(entries) && kept <= entries && j < |kept|
    ensures var e, out := kept[j], Finish(kept, tokens, result);
            |out| == |kept| && out[j] == if result.Some? && e.tag == result.value.tag && !e.done && e.tag in tokens
                                         then e.(done := true, value := result.value.value % WORD) else e
  {
    assert kept[j] == entries[j];
  }

  lemma IssuedFields(entries: seq<Entry>, issue: Option<Tag>, j: nat)
    requires j < |entries|
    ensures |Issue(entries, issue)| == |entries|
    ensures Issue(entries, issue)[j].done == entries[j].done && Issue(entries, issue)[j].value == entries[j].value
  {
  }

  /** Main theorem on token ownership: however often tags are reused, a response changes at most the entry whose issue
      created the outstanding token; every other entry keeps its status and value. */
  lemma ResponseFinishesItsIssuer(h: History, i: Input, c: Config, j: nat, m: nat)
    requires Valid(h.s, c) && Traced(h) && Rejects(i).None?
    requires j < |h.s.entries| && m < |Next(h.s, i, c).entries| && Next(h.s, i, c).entries[m].serial == h.s.entries[j].serial
    ensures var e, e' := h.s.entries[j], Next(h.s, i, c).entries[m];
            && e'.tag == e.tag
            && (if Finishes(h.s, i, j) then e.issued && h.issuer[e.tag] == e.serial && e'.done && e'.value == i.result.value.value % WORD
                else e'.done == e.done && e'.value == e.value)
  {
    hide *;
    var from := MatchingPosition(h.s, i, c, j, m);
    ValidDistinct(h.s, c);
    ServicedFields(h.s, i, m);
    FinisherIssued(h, i, c, j);
  }

  /** Entries of the two queues with one serial lie a retirement apart. */
  lemma MatchingPosition(s: State, i: Input, c: Config, j: nat, m: nat) returns (from: nat)
    requires Valid(s, c) && Rejects(i).None?
    requires j < |s.entries| && m < |Next(s, i, c).entries| && Next(s, i, c).entries[m].serial == s.entries[j].serial
    ensures from == (if Commits(s, i) then 1 else 0) && j == from + m && m < |Serviced(s, i)|
    ensures Next(s, i, c).entries[m] == Serviced(s, i)[m] && Next(s, i, c).entries[m].tag == s.entries[j].tag
  {
    hide *;
    from := if Commits(s, i) then 1 else 0;
    SerialsFound(s, c);
    NextFrom(s, i, c, m);
    Served(s, i, c);
  }

  lemma ValidDistinct(s: State, c: Config)
    requires Valid(s, c)
    ensures Distinct(s.entries) && Owned(s.entries, s.tokens)
  {
    OrderedDistinct(s.entries, s.tail, s.nextSerial, c);
    hide Ordered, Renamed, Owned, InOrder, Distinct;
  }

  lemma FinisherIssued(h: History, i: Input, c: Config, j: nat)
    requires Valid(h.s, c) && Traced(h) && j < |h.s.entries|
    ensures Finishes(h.s, i, j) ==>
              var e := h.s.entries[j]; e.issued && e.tag in h.issuer && h.issuer[e.tag] == e.serial && i.result.Some? && !e.done
  {
    ValidDistinct(h.s, c);
    hide Valid, Traced, Owned, Distinct;
    OwnedIssued(h.s, j);
    if Finishes(h.s, i, j) {
      TracedAt(h, h.s.entries[j].tag);
    }
  }

  lemma TracedAt(h: History, t: Tag)
    requires Traced(h) && t in h.s.tokens
    ensures TracedToken(h, t)
  {
  }

  lemma OwnedIssued(s: State, j: nat)
    requires Owned(s.entries, s.tokens) && j < |s.entries|
    ensures s.entries[j].tag in s.tokens ==> s.entries[j].issued
  {
  }

  lemma SerialsFound(s: State, c: Config)
    requires Valid(s, c)
    ensures forall j, k | 0 <= j < |s.entries| && 0 <= k < |s.entries| && j != k :: s.entries[j].serial != s.entries[k].serial
    ensures forall j | 0 <= j < |s.entries| :: s.entries[j].serial < s.nextSerial
  {
  }

  lemma ServicedFields(s: State, i: Input, m: nat)
    requires Distinct(s.entries) && m < |Serviced(s, i)|
    ensures var from := if Commits(s, i) then 1 else 0;
            && from + m < |Survivors(s, i)| <= |s.entries|
            && var e, e' := s.entries[from + m], Serviced(s, i)[m];
               e'.done == (e.done || Finishes(s, i, from + m))
               && e'.value == if Finishes(s, i, from + m) then i.result.value.value % WORD else e.value
  {
    hide Resolve, Finish, Issue;
    ServicedSlice(s, i);
    var from := if Commits(s, i) then 1 else 0;
    IssueShape(Remaining(s, i), i.issue);
    FinishedFields(s.entries, Survivors(s, i), s.tokens, i.result, from + m);
    IssuedFields(Remaining(s, i), i.issue, m);
  }

  /** No token is created while one with the same tag is outstanding. */
  lemma IssueTakesFreeTag(s: State, i: Input, c: Config)
    requires Valid(s, c) && Issuing(Remaining(s, i), i.issue).Some?
    ensures i.issue.value !in s.tokens
  {
    OrderedDistinct(s.entries, s.tail, s.nextSerial, c);
    var at := Issuing(Remaining(s, i), i.issue).value;
    var e := Remaining(s, i)[at];
    assert Owned(s.entries, s.tokens);
    hide Resolve, Finish, Valid;
    var from := if Commits(s, i) then 1 else 0;
    FinishShape(Survivors(s, i), s.tokens, i.result);
    FinishedFields(s.entries, Survivors(s, i), s.tokens, i.result, from + at);
    assert s.entries[from + at] in s.entries;
  }

  /** Whether this step takes up the issue of entry j: active, not yet issued, and not finished by the same edge. */
  lemma IssueMarks(s: State, i: Input, c: Config, j: nat, m: nat)
    requires Valid(s, c) && Rejects(i).None?
    requires j < |s.entries| && m < |Next(s, i, c).entries| && Next(s, i, c).entries[m].serial == s.entries[j].serial
    ensures var e, e' := s.entries[j], Next(s, i, c).entries[m];
            e'.issued == (e.issued || (i.issue == Some(e.tag) && !e'.done)) && e'.dst == e.dst && e'.rename == e.rename
  {
    hide *;
    var from := MatchingPosition(s, i, c, j, m);
    ServicedSliceAt(s, i, m);
    ServicedIssued(s, i, c, m);
  }

  lemma ServicedSliceAt(s: State, i: Input, m: nat)
    requires m < |Serviced(s, i)|
    ensures var from := if Commits(s, i) then 1 else 0;
            from + m < |s.entries| && Serviced(s, i)[m].dst == s.entries[from + m].dst
            && Serviced(s, i)[m].rename == s.entries[from + m].rename
  {
    hide Serviced, Commits;
    ServicedSlice(s, i);
  }

  lemma ServicedIssued(s: State, i: Input, c: Config, m: nat)
    requires Valid(s, c) && m < |Serviced(s, i)|
    ensures var from := if Commits(s, i) then 1 else 0;
            && from + m < |Survivors(s, i)| <= |s.entries|
            && var e, e' := s.entries[from + m], Serviced(s, i)[m];
               e'.issued == (e.issued || (i.issue == Some(e.tag) && !e'.done))
  {
    hide *;
    RemainingTags(s, i, c);
    RemainingAt(s, i, c, m);
    ServicedIs(s, i);
    IssuedFields(Remaining(s, i), i.issue, m);
    IssuedStatus(Remaining(s, i), i.issue, m);
  }

  lemma ServicedIs(s: State, i: Input)
    ensures Serviced(s, i) == Issue(Remaining(s, i), i.issue)
  {
    hide Remaining, Issue;
  }

  /** An entry kept past retirement, before issue. */
  lemma RemainingAt(s: State, i: Input, c: Config, m: nat)
    requires Valid(s, c) && m < |Serviced(s, i)|
    ensures var from := if Commits(s, i) then 1 else 0;
            && from + m < |Survivors(s, i)| <= |s.entries| && m < |Remaining(s, i)|
            && Remaining(s, i)[m].tag == s.entries[from + m].tag && Remaining(s, i)[m].issued == s.entries[from + m].issued
  {
    hide *;
    ServicedSlice(s, i);
    RemainingIs(s, i);
    AfterResultAt(s, i, c, m + if Commits(s, i) then 1 else 0);
  }

  lemma RemainingIs(s: State, i: Input)
    ensures Remaining(s, i) == if Commits(s, i) then AfterResult(s, i)[1..] else AfterResult(s, i)
    ensures |Remaining(s, i)| == |Serviced(s, i)|
  {
    hide AfterResult, Commits, Issue;
    IssueShape(Remaining(s, i), i.issue);
  }

  lemma SurvivorsPrefix(s: State, i: Input)
    ensures |Survivors(s, i)| <= |s.entries| && Survivors(s, i) <= s.entries
  {
    hide Resolve;
  }

  lemma AfterResultAt(s: State, i: Input, c: Config, k: nat)
    requires Valid(s, c) && k < |Survivors(s, i)|
    ensures k < |AfterResult(s, i)| == |Survivors(s, i)| <= |s.entries|
    ensures AfterResult(s, i)[k].tag == s.entries[k].tag && AfterResult(s, i)[k].issued == s.entries[k].issued
  {
    OrderedDistinct(s.entries, s.tail, s.nextSerial, c);
    hide Valid, Survivors, Finish, Distinct;
    SurvivorsPrefix(s, i);
    FinishedFields(s.entries, Survivors(s, i), s.tokens, i.result, k);
  }

  lemma RemainingTags(s: State, i: Input, c: Config)
    requires Valid(s, c)
    ensures Distinct(Remaining(s, i))
  {
    ServicedOrdered(s, i, c);
    assert c.depth > 0;
    hide *;
    OrderedDistinct(Remaining(s, i), TailAfter(s.entries, s.tail, Resolve(s.entries, i.redirect), c.depth), s.nextSerial, c);
  }

  lemma IssuedStatus(entries: seq<Entry>, issue: Option<Tag>, k: nat)
    requires Distinct(entries) && k < |entries|
    ensures var e, out := entries[k], Issue(entries, issue);
            |out| == |entries| && out[k].issued == (e.issued || (issue == Some(e.tag) && !e.done))
  {
  }

  /** Allocation happens exactly when asked for with no redirect accepted, pre-edge room, a free rename if a result is
      renamed, and no response outstanding for the next tag of the slot; the entry is the youngest. */
  lemma AllocationOutcome(s: State, i: Input, c: Config)
    requires Valid(s, c) && Rejects(i).None?
    ensures c.Positive() && s.tail < |s.generations|
    ensures var n := Next(s, i, c); var last := |n.entries| - 1;
            var renamed := i.dst.Some? && !i.fault;
            var tag := Tag(s.tail, (s.generations[s.tail] + 1) % c.generations);
            && (n.nextSerial == s.nextSerial + 1 <==>
                  && i.allocate && !EventsOf(s, i, c).accepted && |s.entries| < c.depth && tag !in s.tokens
                  && (renamed ==> exists r :: 0 <= r < c.renameDepth && r !in Renames(s.entries)))
            && (n.nextSerial == s.nextSerial + 1 ==>
                  && last >= 0 && n.entries[last].serial == s.nextSerial && n.entries[last].tag == tag
                  && n.generations == s.generations[s.tail := tag.generation]
                  && n.entries[last].dst == (if i.fault then None else i.dst) && n.entries[last].fault == i.fault
                  && n.entries[last].done == i.fault && !n.entries[last].issued
                  && (renamed ==> n.entries[last].rename.Some? && n.entries[last].rename.value !in Renames(s.entries)))
            && (n.nextSerial == s.nextSerial || n.nextSerial == s.nextSerial + 1)
            && (n.nextSerial == s.nextSerial ==> n.generations == s.generations)
  {
    hide *;
    NextFields(s, i, c);
    NextGenerations(s, i, c);
    AllocatesWhen(s, i, c);
    NewEntryFields(s, i, c);
  }

  lemma NextGenerations(s: State, i: Input, c: Config)
    requires Valid(s, c) && Rejects(i).None?
    ensures c.Positive() && s.tail < |s.generations|
    ensures Next(s, i, c).generations == if Allocates(s, i, Resolve(s.entries, i.redirect), c)
                                         then s.generations[s.tail := Candidate(s, c).generation] else s.generations
  {
    assert c.Positive() && s.tail < |s.generations|;
    hide Valid, Resolve, Serviced, TokensAfter, Retiring, MappingOf, Allocates, TailAfter, NewEntry;
  }

  lemma AllocatesWhen(s: State, i: Input, c: Config)
    requires Valid(s, c) && Rejects(i).None?
    ensures c.Positive() && s.tail < |s.generations|
    ensures Allocates(s, i, Resolve(s.entries, i.redirect), c) <==>
              && i.allocate && !EventsOf(s, i, c).accepted && |s.entries| < c.depth
              && Tag(s.tail, (s.generations[s.tail] + 1) % c.generations) !in s.tokens
              && (i.dst.Some? && !i.fault ==> exists r :: 0 <= r < c.renameDepth && r !in Renames(s.entries))
  {
    assert c.Positive() && s.tail < |s.generations|;
    hide Valid, Resolve, Renames, Survivors, Remaining, Retiring, TagSeq;
    var free := FreeFrom(Renames(s.entries), 0, c.renameDepth);
    if free.Some? {
      assert 0 <= free.value < c.renameDepth && free.value !in Renames(s.entries);
    }
  }

  lemma NewEntryFields(s: State, i: Input, c: Config)
    requires Valid(s, c) && Rejects(i).None?
    ensures c.Positive() && s.tail < |s.generations|
    ensures Candidate(s, c) == Tag(s.tail, (s.generations[s.tail] + 1) % c.generations)
    ensures var e := NewEntry(s, i, c); var renamed := i.dst.Some? && !i.fault;
            && e.tag == Candidate(s, c) && e.serial == s.nextSerial && e.dst == (if i.fault then None else i.dst)
            && e.fault == i.fault && e.done == i.fault && !e.issued
            && (Allocates(s, i, Resolve(s.entries, i.redirect), c) && renamed ==>
                  e.rename.Some? && e.rename.value !in Renames(s.entries))
  {
    assert c.Positive() && s.tail < |s.generations|;
    hide Valid, Resolve, Renames;
  }

  // Conservation.

  function SerialsOf(entries: seq<Entry>): seq<nat> {
    seq(|entries|, k requires 0 <= k < |entries| => entries[k].serial)
  }

  function CommitSerials(retired: seq<Commit>): seq<nat> {
    seq(|retired|, k requires 0 <= k < |retired| => retired[k].serial)
  }

  function Naturals(n: nat): seq<nat> {
    seq(n, k => k)
  }

  /** Every serial ever allotted is retired, active or killed, and in exactly one of them once. */
  ghost predicate Accounted(h: History) {
    multiset(CommitSerials(h.s.retired)) + multiset(SerialsOf(h.s.entries)) + multiset(SerialsOf(h.killed))
    == multiset(Naturals(h.s.nextSerial))
  }

  /** One step splits the old queue, oldest first, into what retires, what stays and what is killed. */
  lemma StepSplits(s: State, i: Input)
    ensures SerialsOf(s.entries) == CommitSerials(Retiring(s, i)) + SerialsOf(Serviced(s, i)) + SerialsOf(Killing(s, i))
  {
    hide Resolve, Finish, Issue;
    ServicedSlice(s, i);
    FinishShape(Survivors(s, i), s.tokens, i.result);
    assert |Survivors(s, i)| <= |s.entries| && Survivors(s, i) == s.entries[..|Survivors(s, i)|];
  }

  lemma SerialsAppend(a: seq<Entry>, b: seq<Entry>)
    ensures SerialsOf(a + b) == SerialsOf(a) + SerialsOf(b)
  {
  }

  lemma CommitsAppend(a: seq<Commit>, b: seq<Commit>)
    ensures CommitSerials(a + b) == CommitSerials(a) + CommitSerials(b)
  {
  }

  lemma NaturalsStep(n: nat)
    ensures Naturals(n + 1) == Naturals(n) + [n]
  {
  }

  lemma Rebalanced(retired: seq<nat>, active: seq<nat>, killed: seq<nat>, all: seq<nat>,
                   retiring: seq<nat>, served: seq<nat>, killing: seq<nat>, entering: seq<nat>)
    requires multiset(retired) + multiset(active) + multiset(killed) == multiset(all)
    requires active == retiring + served + killing
    ensures multiset(retired + retiring) + multiset(served + entering) + multiset(killed + killing) == multiset(all + entering)
  {
    assert multiset(active) == multiset(retiring) + multiset(served) + multiset(killing);
  }

  lemma NextSerials(s: State, i: Input, c: Config)
    requires Valid(s, c) && Rejects(i).None?
    ensures var entering := if Allocates(s, i, Resolve(s.entries, i.redirect), c) then [s.nextSerial] else [];
            && SerialsOf(Next(s, i, c).entries) == SerialsOf(Serviced(s, i)) + entering
            && Naturals(Next(s, i, c).nextSerial) == Naturals(s.nextSerial) + entering
  {
    NextFields(s, i, c);
    hide Next, Valid, Resolve, Serviced, Naturals, Allocates, SerialsOf;
    if Allocates(s, i, Resolve(s.entries, i.redirect), c) {
      SerialsAppend(Serviced(s, i), [NewEntry(s, i, c)]);
      NaturalsStep(s.nextSerial);
      NewProgressed(s, i, c);
      OneSerial(NewEntry(s, i, c));
    }
  }

  lemma AccountedStep(h: History, i: Input, c: Config)
    requires Valid(h.s, c) && Accounted(h)
    ensures Accounted(Observe(h, i, c))
  {
    if Rejects(i).None? {
      NextFields(h.s, i, c);
      hide Next, Valid, Resolve, Serviced, Retiring, Killing, SerialsOf, CommitSerials, Naturals, Allocates, Remaining, Issuing;
      StepSplits(h.s, i);
      SerialsAppend(h.killed, Killing(h.s, i));
      CommitsAppend(h.s.retired, Retiring(h.s, i));
      NextSerials(h.s, i, c);
      var entering := if Allocates(h.s, i, Resolve(h.s.entries, i.redirect), c) then [h.s.nextSerial] else [];
      Rebalanced(CommitSerials(h.s.retired), SerialsOf(h.s.entries), SerialsOf(h.killed), Naturals(h.s.nextSerial),
                 CommitSerials(Retiring(h.s, i)), SerialsOf(Serviced(h.s, i)), SerialsOf(Killing(h.s, i)), entering);
    }
  }

  lemma OneSerial(e: Entry)
    ensures SerialsOf([e]) == [e.serial]
  {
  }

  // The in-order architectural state.

  /** Registers after an in-order machine performs the writes one by one. */
  function Replay(writes: seq<Commit>): (r: seq<int>)
    ensures |r| == 32
  {
    if writes == [] then seq(32, _ => 0) else Write(Replay(writes[..|writes| - 1]), writes[|writes| - 1])
  }

  lemma ReplayStep(h: History, i: Input, c: Config)
    requires Valid(h.s, c) && h.s.arch == Replay(h.s.retired)
    ensures Observe(h, i, c).s.arch == Replay(Observe(h, i, c).s.retired)
  {
    if Rejects(i).None? {
      hide Valid, Resolve, Serviced, Finish, Allocates, Remaining, Issuing, TokensAfter, Survivors, MappingOf, NewEntry, Commits, Write;
      var all := h.s.retired + Retiring(h.s, i);
      if Retiring(h.s, i) != [] {
        assert all[..|all| - 1] == h.s.retired;
      } else {
        assert all == h.s.retired;
      }
    }
  }

  /** Main theorem over runs: after any inputs the invariant holds, tokens are traced to their issuers, serials are
      conserved, and the registers are those of an in-order machine replaying the retired writes, in program order. */
  lemma {:induction false} RunsAreSafe(inputs: seq<Input>, c: Config)
    requires c.Positive()
    ensures var h := Run(inputs, c);
            && Valid(h.s, c) && Traced(h) && Accounted(h)
            && h.s.arch == Replay(h.s.retired)
            && (forall j, k | 0 <= j < k < |h.s.retired| :: h.s.retired[j].serial < h.s.retired[k].serial)
            && (forall w, e | w in h.s.retired && e in h.s.entries :: w.serial < e.serial)
  {
    hide Observe, Accounted, Traced, Replay;
    if inputs == [] {
      StartSafe(c);
    } else {
      var n := |inputs| - 1;
      var h := Run(inputs[..n], c);
      RunsAreSafe(inputs[..n], c);
      TracedStep(h, inputs[n], c);
      AccountedStep(h, inputs[n], c);
      ReplayStep(h, inputs[n], c);
    }
  }

  lemma StartSafe(c: Config)
    requires c.Positive()
    ensures var h := Start(c); Traced(h) && Accounted(h) && h.s.arch == Replay(h.s.retired)
  {
  }
}
