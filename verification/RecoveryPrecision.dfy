/** Precise recovery, the irrevocable head, and draining. */
module RecoveryPrecision {
  import opened Wrappers
  import opened Recovery
  import opened RecoveryInvariant
  import opened RecoveryChecks
  import opened RecoveryRuns

  /** The state after the inputs, from any valid state. */
  function Steps(s: State, inputs: seq<Input>, c: Config): (n: State)
    requires Valid(s, c)
    ensures Valid(n, c)
    decreases |inputs|
  {
    if inputs == [] then s
    else if Rejects(inputs[0]).Some? then Steps(s, inputs[1..], c)
    else
      StepKeepsValid(s, inputs[0], c);
      Steps(Next(s, inputs[0], c), inputs[1..], c)
  }

  /** The same input without allocation or redirect. */
  function Stripped(i: Input): Input {
    i.(allocate := false, redirect := None)
  }

  function StripAll(inputs: seq<Input>): (r: seq<Input>)
    ensures |r| == |inputs| && forall k | 0 <= k < |r| :: r[k] == Stripped(inputs[k])
  {
    seq(|inputs|, k requires 0 <= k < |inputs| => Stripped(inputs[k]))
  }

  // A run and its shadow that never speculates.

  /** t is s had the entries from serial `base` on never been allocated. */
  ghost predicate Shadow(s: State, t: State, base: nat, c: Config) {
    && Valid(s, c) && Valid(t, c) && base <= s.nextSerial
    && |t.entries| <= |s.entries| && t.entries == s.entries[..|t.entries|]
    && (forall k | 0 <= k < |s.entries| :: s.entries[k].serial < base <==> k < |t.entries|)
    && t.tail == Slot(s.tail, |s.entries| - |t.entries|, c.depth)
    && t.arch == s.arch && t.retired == s.retired
  }

  /** The step kills nothing older than the base and retires nothing from it on. */
  ghost predicate Spares(s: State, i: Input, base: nat) {
    && (forall e | e in Killing(s, i) :: e.serial >= base)
    && (forall w | w in Retiring(s, i) :: w.serial < base)
  }

  lemma OwnershipAgrees(s: State, t: State, base: nat, c: Config, k: nat)
    requires Shadow(s, t, base, c) && k < |t.entries|
    ensures s.entries[k] == t.entries[k] && (s.entries[k].tag in s.tokens <==> t.entries[k].tag in t.tokens)
  {
    hide Ordered, Renamed, InOrder, Slot;
    assert s.entries[k] in s.entries && t.entries[k] in t.entries;
  }

  /** A sparing step keeps at least the shadow's entries. */
  lemma SparedLength(s: State, t: State, base: nat, c: Config, i: Input)
    requires Shadow(s, t, base, c) && Spares(s, i, base)
    ensures |t.entries| <= |Survivors(s, i)| <= |s.entries|
    ensures Survivors(s, i) == s.entries[..|Survivors(s, i)|]
    ensures Commits(s, i) == Commits(t, Stripped(i))
    ensures Survivors(t, Stripped(i)) == t.entries
  {
    hide Valid, Slot, Finish;
    KillsYoungest(s, i);
    if Commits(s, i) {
      HeadStaysDone(s, i);
      assert Retiring(s, i)[0] in Retiring(s, i);
    }
  }

  lemma KillsYoungest(s: State, i: Input)
    ensures |Survivors(s, i)| < |s.entries| ==> s.entries[|Survivors(s, i)|] in Killing(s, i)
  {
    hide Resolve;
    var kept := |Survivors(s, i)|;
    if kept < |s.entries| {
      assert Killing(s, i)[0] == s.entries[kept];
    }
  }

  lemma IssuedAt(entries: seq<Entry>, issue: Option<Tag>, k: nat)
    requires Distinct(entries) && k < |entries|
    ensures var e, out := entries[k], Issue(entries, issue);
            |out| == |entries|
            && out[k] == if issue == Some(e.tag) && !e.issued && !e.done then e.(issued := true) else e
  {
  }

  lemma FinishesAlike(s: State, t: State, base: nat, c: Config, i: Input, k: nat)
    requires Shadow(s, t, base, c) && Spares(s, i, base) && k < |t.entries|
    ensures |AfterResult(s, i)| == |Survivors(s, i)| && |AfterResult(t, Stripped(i))| == |t.entries| <= |Survivors(s, i)|
    ensures AfterResult(s, i)[k] == AfterResult(t, Stripped(i))[k]
  {
    OrderedDistinct(s.entries, s.tail, s.nextSerial, c);
    OrderedDistinct(t.entries, t.tail, t.nextSerial, c);
    hide Valid, Slot, Finish, Resolve, Shadow, Spares;
    SparedLength(s, t, base, c, i);
    OwnershipAgrees(s, t, base, c, k);
    FinishedFields(s.entries, Survivors(s, i), s.tokens, i.result, k);
    FinishedFields(t.entries, t.entries, t.tokens, i.result, k);
  }

  lemma RemainingAlike(s: State, t: State, base: nat, c: Config, i: Input, k: nat)
    requires Shadow(s, t, base, c) && Spares(s, i, base) && k < |Remaining(t, Stripped(i))|
    ensures k < |Remaining(s, i)| && Remaining(s, i)[k] == Remaining(t, Stripped(i))[k]
  {
    hide Valid, Slot, Finish, Resolve, Shadow, Spares;
    SparedLength(s, t, base, c, i);
    FinishesAlike(s, t, base, c, i, k + if Commits(s, i) then 1 else 0);
  }

  lemma IssuesAlike(a: seq<Entry>, b: seq<Entry>, issue: Option<Tag>, k: nat)
    requires Distinct(a) && Distinct(b) && k < |a| && k < |b| && a[k] == b[k]
    ensures |Issue(a, issue)| == |a| && |Issue(b, issue)| == |b|
    ensures Issue(a, issue)[k] == Issue(b, issue)[k]
  {
    hide Issue, Distinct;
    IssuedAt(a, issue, k);
    IssuedAt(b, issue, k);
  }

  /** On the shared prefix both runs are serviced alike. */
  lemma ServicedAlike(s: State, t: State, base: nat, c: Config, i: Input, k: nat)
    requires Shadow(s, t, base, c) && Spares(s, i, base)
    requires k < |Serviced(t, Stripped(i))|
    ensures k < |Serviced(s, i)| && Serviced(s, i)[k] == Serviced(t, Stripped(i))[k]
  {
    IssueShape(Remaining(t, Stripped(i)), i.issue);
    hide Slot, Shadow, Spares, Issue, Valid, Remaining;
    assert Valid(s, c) && Valid(t, c) by { ShadowValid(s, t, base, c); }
    RemainingTags(s, i, c);
    RemainingTags(t, Stripped(i), c);
    RemainingAlike(s, t, base, c, i, k);
    IssuesAlike(Remaining(s, i), Remaining(t, Stripped(i)), i.issue, k);
  }

  lemma ShadowValid(s: State, t: State, base: nat, c: Config)
    requires Shadow(s, t, base, c)
    ensures Valid(s, c) && Valid(t, c)
  {
    hide Valid;
  }

  /** How the serviced parts compare. */
  lemma ServicedPrefix(s: State, t: State, base: nat, c: Config, i: Input)
    requires Shadow(s, t, base, c) && Spares(s, i, base)
    ensures var a, b := Serviced(s, i), Serviced(t, Stripped(i)); var gone := if Commits(s, i) then 1 else 0;
            && |a| == |Survivors(s, i)| - gone && |b| == |t.entries| - gone && |b| <= |a| && b == a[..|b|]
  {
    hide *;
    SparedLength(s, t, base, c, i);
    ServicedSlice(s, i);
    ServicedSlice(t, Stripped(i));
    var a, b := Serviced(s, i), Serviced(t, Stripped(i));
    forall k | 0 <= k < |b| ensures b[k] == a[k] {
      ServicedAlike(s, t, base, c, i, k);
    }
  }

  /** Both tails still differ by what lies beyond the shadow. */
  lemma TailsAlike(s: State, t: State, base: nat, c: Config, i: Input)
    requires Shadow(s, t, base, c) && Spares(s, i, base) && Rejects(i).None?
    ensures var beyond := |Next(s, i, c).entries| - |Serviced(t, Stripped(i))|;
            0 <= beyond <= c.depth && c.Positive() && t.tail == Slot(Next(s, i, c).tail, beyond, c.depth)
  {
    hide *;
    NextLength(s, t, base, c, i);
    ShadowPosition(s, t, base, c, i);
  }

  lemma ShadowPosition(s: State, t: State, base: nat, c: Config, i: Input)
    requires Shadow(s, t, base, c) && Spares(s, i, base) && Rejects(i).None?
    ensures Valid(s, c) && c.Positive() && s.tail < |s.generations| && |t.entries| <= |Survivors(s, i)|
    ensures Back(s, i, c, |t.entries|) <= c.depth
    ensures t.tail == Slot(Next(s, i, c).tail, Back(s, i, c, |t.entries|), c.depth)
  {
    hide *;
    ShadowValid(s, t, base, c);
    SparedKeeps(s, t, base, c, i);
    ShadowTail(s, t, base, c);
    PositionKept(s, i, c, |t.entries|);
  }

  lemma SparedKeeps(s: State, t: State, base: nat, c: Config, i: Input)
    requires Shadow(s, t, base, c) && Spares(s, i, base)
    ensures |t.entries| <= |Survivors(s, i)|
  {
    hide *;
    SparedLength(s, t, base, c, i);
  }

  lemma NextLength(s: State, t: State, base: nat, c: Config, i: Input)
    requires Shadow(s, t, base, c) && Spares(s, i, base) && Rejects(i).None?
    ensures c.Positive() && s.tail < |s.generations| && |t.entries| <= |Survivors(s, i)|
    ensures |Next(s, i, c).entries| - |Serviced(t, Stripped(i))| == Back(s, i, c, |t.entries|)
  {
    ShadowValid(s, t, base, c);
    hide Valid, Shadow, Spares, Serviced, Survivors, Commits, Allocates, Resolve, Next;
    NextFields(s, i, c);
    ServicedPrefix(s, t, base, c, i);
    SparedLength(s, t, base, c, i);
  }

  /** A position in the ring keeps its slot through the tail's movement: back at the cut, forward at an allocation. */
  lemma PositionKept(s: State, i: Input, c: Config, kept: nat)
    requires Valid(s, c) && kept <= |Survivors(s, i)| && Rejects(i).None?
    ensures c.Positive() && s.tail < |s.generations| && kept <= |s.entries| <= c.depth && Back(s, i, c, kept) <= c.depth
    ensures Slot(s.tail, |s.entries| - kept, c.depth) == Slot(Next(s, i, c).tail, Back(s, i, c, kept), c.depth)
  {
    hide *;
    BackBound(s, i, c, kept);
    if Resolve(s.entries, i.redirect).Accepted? {
      PositionCut(s, i, c, kept);
    } else {
      PositionUncut(s, i, c, kept);
    }
  }

  lemma PositionUncut(s: State, i: Input, c: Config, kept: nat)
    requires Valid(s, c) && kept <= |Survivors(s, i)| && Rejects(i).None? && !Resolve(s.entries, i.redirect).Accepted?
    ensures c.Positive() && s.tail < |s.generations| && kept <= |s.entries| <= c.depth && Back(s, i, c, kept) <= c.depth
    ensures Slot(s.tail, |s.entries| - kept, c.depth) == Slot(Next(s, i, c).tail, Back(s, i, c, kept), c.depth)
  {
    hide *;
    BackBound(s, i, c, kept);
    NextTailIs(s, i, c);
    var v := Resolve(s.entries, i.redirect);
    UncutTail(s.entries, s.tail, v, c.depth);
    if Allocates(s, i, v, c) {
      SlotAdvance(s.tail, |s.entries| - kept, c.depth);
    }
  }

  lemma PositionCut(s: State, i: Input, c: Config, kept: nat)
    requires Valid(s, c) && kept <= |Survivors(s, i)| && Rejects(i).None? && Resolve(s.entries, i.redirect).Accepted?
    ensures c.Positive() && s.tail < |s.generations| && kept <= |s.entries| <= c.depth && Back(s, i, c, kept) <= c.depth
    ensures Slot(s.tail, |s.entries| - kept, c.depth) == Slot(Next(s, i, c).tail, Back(s, i, c, kept), c.depth)
  {
    hide *;
    BackBound(s, i, c, kept);
    NextTailIs(s, i, c);
    CutPosition(s, i, c, kept);
  }

  lemma NextTailIs(s: State, i: Input, c: Config)
    requires Valid(s, c) && Rejects(i).None?
    ensures c.Positive() && s.tail < |s.generations|
    ensures var v := Resolve(s.entries, i.redirect);
            Next(s, i, c).tail == if Allocates(s, i, v, c) then Following(s.tail, c.depth) else TailAfter(s.entries, s.tail, v, c.depth)
  {
    hide Valid, Next;
    NextFields(s, i, c);
  }

  /** How far behind the next tail the position `kept` lies. */
  function Back(s: State, i: Input, c: Config, kept: nat): nat
    requires c.Positive() && s.tail < |s.generations| && kept <= |Survivors(s, i)|
  {
    |Survivors(s, i)| - kept + if Allocates(s, i, Resolve(s.entries, i.redirect), c) then 1 else 0
  }

  lemma BackBound(s: State, i: Input, c: Config, kept: nat)
    requires Valid(s, c) && kept <= |Survivors(s, i)|
    ensures c.Positive() && s.tail < |s.generations| && kept <= |s.entries| <= c.depth && s.tail < c.depth
    ensures var v := Resolve(s.entries, i.redirect);
            if v.Accepted? then Back(s, i, c, kept) == v.cut - kept && v.cut <= |s.entries| && !Allocates(s, i, v, c)
            else if Allocates(s, i, v, c) then Back(s, i, c, kept) == |s.entries| - kept + 1 && |s.entries| < c.depth
            else Back(s, i, c, kept) == |s.entries| - kept
    ensures Back(s, i, c, kept) <= c.depth
  {
    assert c.Positive() && s.tail < |s.generations| && |s.entries| <= c.depth && s.tail < c.depth;
    hide Valid, Resolve, Candidate;
    KeptLength(s, i);
  }

  lemma CutPosition(s: State, i: Input, c: Config, kept: nat)
    requires Valid(s, c) && kept <= |Survivors(s, i)| && Resolve(s.entries, i.redirect).Accepted?
    ensures var v := Resolve(s.entries, i.redirect);
            && kept <= v.cut <= |s.entries| <= c.depth && c.Positive()
            && Slot(s.tail, |s.entries| - kept, c.depth) == Slot(TailAfter(s.entries, s.tail, v, c.depth), v.cut - kept, c.depth)
  {
    var v := Resolve(s.entries, i.redirect);
    assert Ordered(s.entries, s.tail, s.nextSerial, c);
    hide *;
    OrderedBounds(s.entries, s.tail, s.nextSerial, c);
    KeptLength(s, i);
    AcceptedIs(v);
    CutTail(s.entries, s.tail, s.nextSerial, c, v.cut);
    SlotShift(s.tail, |s.entries| - v.cut, v.cut - kept, c.depth);
  }

  lemma AcceptedIs(v: Verdict)
    requires v.Accepted?
    ensures v == Accepted(v.cut)
  {
  }

  lemma KeptLength(s: State, i: Input)
    ensures var v := Resolve(s.entries, i.redirect);
            if v.Accepted? then |Survivors(s, i)| == v.cut <= |s.entries| else |Survivors(s, i)| == |s.entries|
  {
  }

  lemma UncutTail(entries: seq<Entry>, tail: nat, v: Verdict, depth: nat)
    requires depth > 0 && !v.Accepted?
    ensures TailAfter(entries, tail, v, depth) == tail
  {
  }

  lemma AllocatesOnlyUncut(s: State, i: Input, v: Verdict, c: Config)
    requires c.Positive() && s.tail < |s.generations| && v.Accepted?
    ensures !Allocates(s, i, v, c)
  {
  }

  lemma OrderedBounds(entries: seq<Entry>, tail: nat, next: nat, c: Config)
    requires Ordered(entries, tail, next, c)
    ensures |entries| <= c.depth && tail < c.depth && c.Positive()
  {
  }

  lemma ShadowTail(s: State, t: State, base: nat, c: Config)
    requires Shadow(s, t, base, c)
    ensures |t.entries| <= |s.entries| <= c.depth && c.Positive()
    ensures t.tail == Slot(s.tail, |s.entries| - |t.entries|, c.depth)
  {
    hide Slot;
  }

  lemma StrippedNext(t: State, i: Input, c: Config)
    requires Valid(t, c) && Rejects(i).None?
    ensures Rejects(Stripped(i)).None?
    ensures var n := Next(t, Stripped(i), c);
            n.entries == Serviced(t, Stripped(i)) && n.tail == t.tail && n.retired == t.retired + Retiring(t, Stripped(i))
            && n.arch == (if Retiring(t, Stripped(i)) != [] then Write(t.arch, Retiring(t, Stripped(i))[0]) else t.arch)
  {
    assert Rejects(Stripped(i)).None?;
    hide Valid, Serviced, Retiring, Write, Next;
    NextFields(t, Stripped(i), c);
    NextWrites(t, Stripped(i), c);
  }

  lemma NextWrites(s: State, i: Input, c: Config)
    requires Valid(s, c) && Rejects(i).None?
    ensures Next(s, i, c).arch == if Retiring(s, i) != [] then Write(s.arch, Retiring(s, i)[0]) else s.arch
  {
    hide Valid, Serviced, AfterResult, Write, Resolve, TokensAfter, MappingOf, NewEntry, Allocates, TailAfter;
  }

  lemma ShadowHead(s: State, t: State, base: nat, c: Config, i: Input)
    requires Shadow(s, t, base, c) && Spares(s, i, base)
    ensures Retiring(s, i) == Retiring(t, Stripped(i))
  {
    hide *;
    SparedLength(s, t, base, c, i);
    SameRetiring(s, t, base, c, i);
  }

  lemma SameRetiring(s: State, t: State, base: nat, c: Config, i: Input)
    requires Shadow(s, t, base, c) && Spares(s, i, base) && Commits(s, i) == Commits(t, Stripped(i))
    requires Survivors(t, Stripped(i)) == t.entries
    ensures Retiring(s, i) == Retiring(t, Stripped(i))
  {
    hide Valid, Shadow, Spares, Finish, Resolve;
    if Commits(s, i) {
      FinishesAlike(s, t, base, c, i, 0);
    }
  }

  lemma ShadowSerial(s: State, t: State, base: nat, c: Config, k: nat)
    requires Shadow(s, t, base, c) && k < |s.entries|
    ensures s.entries[k].serial < base <==> k < |t.entries|
    ensures base <= s.nextSerial
  {
    hide Valid, Slot;
  }

  lemma ShadowSerials(s: State, t: State, base: nat, c: Config, i: Input, k: nat)
    requires Shadow(s, t, base, c) && Spares(s, i, base) && Rejects(i).None? && k < |Next(s, i, c).entries|
    ensures Next(s, i, c).entries[k].serial < base <==> k < |Serviced(t, Stripped(i))|
  {
    hide *;
    ShadowValid(s, t, base, c);
    SparedLength(s, t, base, c, i);
    ServicedPrefix(s, t, base, c, i);
    NextFrom(s, i, c, k);
    var from := if Commits(s, i) then 1 else 0;
    if k < |Serviced(s, i)| {
      ShadowSerial(s, t, base, c, from + k);
    } else {
      ShadowBase(s, t, base, c);
    }
  }

  lemma ShadowBase(s: State, t: State, base: nat, c: Config)
    requires Shadow(s, t, base, c)
    ensures base <= s.nextSerial && t.arch == s.arch && t.retired == s.retired
  {
    hide Valid, Slot;
  }

  /** A sparing step and the stripped step stay in shadow. */
  lemma ShadowStep(s: State, t: State, base: nat, c: Config, i: Input)
    requires Shadow(s, t, base, c) && Spares(s, i, base) && Rejects(i).None?
    ensures Valid(s, c) && Valid(t, c) && Rejects(Stripped(i)).None?
    ensures Shadow(Next(s, i, c), Next(t, Stripped(i), c), base, c)
  {
    hide *;
    ShadowValid(s, t, base, c);
    StrippedNext(t, i, c);
    StepKeepsValid(s, i, c);
    StepKeepsValid(t, Stripped(i), c);
    forall k | 0 <= k < |Next(s, i, c).entries|
      ensures Next(s, i, c).entries[k].serial < base <==> k < |Next(t, Stripped(i), c).entries|
    {
      ShadowSerials(s, t, base, c, i, k);
    }
    TailsAlike(s, t, base, c, i);
    ShadowState(s, t, base, c, i);
    ShadowFrom(Next(s, i, c), Next(t, Stripped(i), c), base, c);
  }

  lemma ShadowState(s: State, t: State, base: nat, c: Config, i: Input)
    requires Shadow(s, t, base, c) && Spares(s, i, base) && Rejects(i).None?
    ensures Valid(s, c) && Valid(t, c) && Rejects(Stripped(i)).None?
    ensures var n, m := Next(s, i, c), Next(t, Stripped(i), c);
            && |m.entries| <= |n.entries| && m.entries == n.entries[..|m.entries|]
            && m.arch == n.arch && m.retired == n.retired && base <= n.nextSerial
  {
    hide *;
    ShadowValid(s, t, base, c);
    StrippedNext(t, i, c);
    NextFields(s, i, c);
    NextWrites(s, i, c);
    ServicedPrefix(s, t, base, c, i);
    ShadowHead(s, t, base, c, i);
    ShadowBase(s, t, base, c);
  }

  lemma ShadowFrom(s: State, t: State, base: nat, c: Config)
    requires Valid(s, c) && Valid(t, c) && base <= s.nextSerial && c.Positive() && |t.entries| <= |s.entries|
    requires t.entries == s.entries[..|t.entries|] && 0 <= |s.entries| - |t.entries| <= c.depth
    requires forall k | 0 <= k < |s.entries| :: s.entries[k].serial < base <==> k < |t.entries|
    requires t.tail == Slot(s.tail, |s.entries| - |t.entries|, c.depth) && t.arch == s.arch && t.retired == s.retired
    ensures Shadow(s, t, base, c)
  {
    hide Valid, Slot;
  }

  /** No step of the run kills an entry older than the base or retires one from it on. */
  ghost predicate SparesThroughout(s: State, inputs: seq<Input>, base: nat, c: Config)
    requires Valid(s, c)
    decreases |inputs|
  {
    inputs == [] ||
    (if Rejects(inputs[0]).Some? then SparesThroughout(s, inputs[1..], base, c)
     else
       StepKeepsValid(s, inputs[0], c);
       Spares(s, inputs[0], base) && SparesThroughout(Next(s, inputs[0], c), inputs[1..], base, c))
  }

  lemma {:induction false} ShadowRun(s: State, t: State, inputs: seq<Input>, base: nat, c: Config)
    requires Valid(s, c) && Valid(t, c) && Shadow(s, t, base, c) && SparesThroughout(s, inputs, base, c)
    ensures Shadow(Steps(s, inputs, c), Steps(t, StripAll(inputs), c), base, c)
    decreases |inputs|
  {
    hide Valid, Shadow, Spares, Next;
    if inputs != [] {
      assert StripAll(inputs)[1..] == StripAll(inputs[1..]);
      if Rejects(inputs[0]).Some? {
        ShadowRun(s, t, inputs[1..], base, c);
      } else {
        StepKeepsValid(s, inputs[0], c);
        ShadowStep(s, t, base, c, inputs[0]);
        StepKeepsValid(t, Stripped(inputs[0]), c);
        ShadowRun(Next(s, inputs[0], c), Next(t, Stripped(inputs[0]), c), inputs[1..], base, c);
      }
    }
  }

  lemma OwnShadow(s: State, c: Config)
    requires Valid(s, c)
    ensures Shadow(s, s, s.nextSerial, c)
  {
    SerialsFound(s, c);
    assert s.entries == s.entries[..|s.entries|];
    SlotAdvance(s.tail, 0, c.depth);
  }

  lemma ShadowMeets(s: State, t: State, base: nat, c: Config)
    requires Shadow(s, t, base, c) && forall e | e in s.entries :: e.serial < base
    ensures s.entries == t.entries && s.arch == t.arch && s.retired == t.retired && s.mapping == t.mapping && s.tail == t.tail
  {
    if |s.entries| > 0 {
      assert s.entries[|s.entries| - 1] in s.entries;
    }
    assert s.entries == s.entries[..|s.entries|];
    SlotAdvance(s.tail, 0, c.depth);
    hide Slot, Ordered, Owned, Renamed, InOrder, MappingOf;
  }

  /** Main theorem of precise recovery: a run that allocates any speculation after s, issues, finishes and partially flushes
      it, and finally kills all of it, ends with the queue, registers, renames and every operand read of the run that was
      never given those allocations and redirects. */
  lemma SpeculationLeavesNoTrace(s: State, inputs: seq<Input>, c: Config)
    requires Valid(s, c) && SparesThroughout(s, inputs, s.nextSerial, c)
    requires forall e | e in Steps(s, inputs, c).entries :: e.serial < s.nextSerial
    ensures var n, t := Steps(s, inputs, c), Steps(s, StripAll(inputs), c);
            && n.entries == t.entries && n.arch == t.arch && n.retired == t.retired && n.mapping == t.mapping && n.tail == t.tail
            && |n.arch| == 32 && |t.arch| == 32
            && (forall reg | 0 <= reg < 32 :: ReadOperand(n.entries, n.arch, reg) == ReadOperand(t.entries, t.arch, reg))
  {
    var n, t := Steps(s, inputs, c), Steps(s, StripAll(inputs), c);
    assert |n.arch| == 32 && |t.arch| == 32;
    hide *;
    OwnShadow(s, c);
    ShadowRun(s, s, inputs, s.nextSerial, c);
    ShadowMeets(n, t, s.nextSerial, c);
  }

  /** A redirect is accepted exactly when its pivot is active and it would not cut a finished head, or has no pivot. */
  lemma RedirectDecided(s: State, redirect: Redirect, c: Config)
    requires Valid(s, c)
    ensures var v := Resolve(s.entries, Some(redirect));
            && (redirect.pivot.None? ==>
                  v == if |s.entries| > 0 && s.entries[0].done then Rejected(IrrevocableHead) else Accepted(0))
            && (redirect.pivot.Some? && !Active(s.entries, redirect.pivot.value) ==> v == Rejected(InactivePivot))
            && (forall k | 0 <= k < |s.entries| && redirect.pivot == Some(s.entries[k].tag) ::
                  v == if k == 0 && !redirect.keepPivot && s.entries[0].done then Rejected(IrrevocableHead)
                       else Accepted(if redirect.keepPivot then k + 1 else k))
  {
    OrderedDistinct(s.entries, s.tail, s.nextSerial, c);
    hide Valid;
  }

  /** One accepted redirect: exactly the oldest `cut` entries stay, less a same-edge retirement, the tail points just past
      them, killed renames are free and killed local tokens are gone. */
  lemma RedirectCuts(s: State, i: Input, c: Config)
    requires Valid(s, c) && Rejects(i).None? && Resolve(s.entries, i.redirect).Accepted?
    ensures var cut, n, from := Resolve(s.entries, i.redirect).cut, Next(s, i, c), if Commits(s, i) then 1 else 0;
            && cut <= |s.entries| && c.depth > 0
            && |n.entries| == cut - from && Slice(n.entries, s.entries, from) && n.nextSerial == s.nextSerial
            && n.tail == Slot(s.tail, |s.entries| - cut, c.depth)
            && Renames(n.entries) !! Renames(s.entries[cut..])
            && (forall e | e in s.entries[cut..] && e.tag in n.tokens :: n.tokens[e.tag] == External)
            && EventsOf(s, i, c).killed == TagSeq(s.entries[cut..])
  {
    var v := Resolve(s.entries, i.redirect);
    RedirectQueue(s, i, c);
    StepKeepsValid(s, i, c);
    var n := Next(s, i, c);
    assert Owned(n.entries, n.tokens) && Renamed(s.entries, c) && Ordered(s.entries, s.tail, s.nextSerial, c);
    hide Valid, Next, Resolve, Slot, Ordered, Renamed, Commits, TagSeq;
    OrderedDistinct(s.entries, s.tail, s.nextSerial, c);
    var from := if Commits(s, i) then 1 else 0;
    RenamesSplit(s.entries, n.entries, from, v.cut, c);
    forall e | e in s.entries[v.cut..] && e.tag in n.tokens ensures n.tokens[e.tag] == External {
      KilledNotActive(s.entries, n.entries, from, v.cut, e);
    }
  }

  lemma RedirectQueue(s: State, i: Input, c: Config)
    requires Valid(s, c) && Rejects(i).None? && Resolve(s.entries, i.redirect).Accepted?
    ensures var cut, n, from := Resolve(s.entries, i.redirect).cut, Next(s, i, c), if Commits(s, i) then 1 else 0;
            && cut <= |s.entries| && c.depth > 0 && |Survivors(s, i)| == cut
            && |n.entries| == cut - from && Slice(n.entries, s.entries, from) && n.nextSerial == s.nextSerial
            && |s.entries| <= c.depth && n.tail == Slot(s.tail, |s.entries| - cut, c.depth)
  {
    hide *;
    var v := Resolve(s.entries, i.redirect);
    NextFields(s, i, c);
    KeptLength(s, i);
    ServicedSlice(s, i);
    AllocatesOnlyUncut(s, i, v, c);
    AcceptedIs(v);
    ValidOrdered(s, c);
    CutTail(s.entries, s.tail, s.nextSerial, c, v.cut);
    OrderedBounds(s.entries, s.tail, s.nextSerial, c);
  }

  lemma ValidOrdered(s: State, c: Config)
    requires Valid(s, c)
    ensures Ordered(s.entries, s.tail, s.nextSerial, c) && Renamed(s.entries, c) && Owned(s.entries, s.tokens)
  {
    hide Slot, Ordered, Renamed, Owned;
  }

  lemma RenamesSplit(entries: seq<Entry>, part: seq<Entry>, from: nat, cut: nat, c: Config)
    requires Renamed(entries, c) && Slice(part, entries, from) && from + |part| == cut
    ensures Renames(part) !! Renames(entries[cut..])
  {
    var suffix := entries[cut..];
    forall r | r in Renames(part) ensures r !in Renames(suffix) {
      var j :| 0 <= j < |part| && part[j].rename == Some(r);
      forall e | e in suffix ensures e.rename != Some(r) {
        var k :| 0 <= k < |suffix| && suffix[k] == e;
        assert e == entries[cut + k] && entries[from + j].rename == Some(r);
      }
    }
  }

  lemma KilledNotActive(entries: seq<Entry>, part: seq<Entry>, from: nat, cut: nat, e: Entry)
    requires Distinct(entries) && Slice(part, entries, from) && from + |part| == cut && e in entries[cut..]
    ensures !Active(part, e.tag)
  {
    var k :| 0 <= k < |entries[cut..]| && entries[cut..][k] == e;
    forall j | 0 <= j < |part| ensures part[j].tag != e.tag {
      assert entries[from + j].tag != entries[cut + k].tag;
    }
  }

  // The irrevocable head.

  /** A finished head survives every step unchanged, whatever redirect arrives, and leaves exactly when retirement is ready,
      writing the value it was finished with. */
  lemma DoneHeadIrrevocable(s: State, i: Input, c: Config)
    requires Valid(s, c) && Rejects(i).None? && |s.entries| > 0 && s.entries[0].done
    ensures var n := Next(s, i, c);
            if i.retireReady then
              n.retired == s.retired + [CommitOf(s.entries[0])] && n.arch == Write(s.arch, CommitOf(s.entries[0]))
            else |n.entries| > 0 && n.entries[0] == s.entries[0] && n.retired == s.retired && n.arch == s.arch
  {
    DoneHeadKept(s, i);
    hide Valid, Next, Resolve, Write, Serviced;
    NextFields(s, i, c);
    NextWrites(s, i, c);
  }

  lemma DoneHeadKept(s: State, i: Input)
    requires |s.entries| > 0 && s.entries[0].done
    ensures Commits(s, i) == i.retireReady
    ensures Retiring(s, i) == if i.retireReady then [CommitOf(s.entries[0])] else []
    ensures !i.retireReady ==> |Serviced(s, i)| > 0 && Serviced(s, i)[0] == s.entries[0]
  {
    assert |Survivors(s, i)| > 0;
    hide Resolve;
  }

  /** Over any run: until retirement is ready the head stays, and the first ready step commits its recorded value. */
  lemma {:induction false} DoneHeadWaits(s: State, inputs: seq<Input>, c: Config)
    requires Valid(s, c) && |s.entries| > 0 && s.entries[0].done
    requires forall k | 0 <= k < |inputs| :: !inputs[k].retireReady
    ensures var n := Steps(s, inputs, c);
            |n.entries| > 0 && n.entries[0] == s.entries[0] && n.retired == s.retired && n.arch == s.arch
    decreases |inputs|
  {
    hide Valid, Next;
    if inputs != [] {
      if Rejects(inputs[0]).Some? {
        DoneHeadWaits(s, inputs[1..], c);
      } else {
        StepKeepsValid(s, inputs[0], c);
        DoneHeadIrrevocable(s, inputs[0], c);
        DoneHeadWaits(Next(s, inputs[0], c), inputs[1..], c);
      }
    }
  }

  // Draining.

  /** Serve the head: issue it, answer it, or retire it. */
  function Serve(s: State, value: int): Input {
    var idle := Input(false, None, false, None, Local, None, None, false);
    if s.entries == [] then idle
    else if s.entries[0].done then idle.(retireReady := true)
    else if s.entries[0].issued then idle.(result := Some(Response(s.entries[0].tag, value)))
    else idle.(issue := Some(s.entries[0].tag))
  }

  function Drain(s: State, values: seq<int>, c: Config): (n: State)
    requires Valid(s, c)
    ensures Valid(n, c)
    decreases |values|
  {
    if values == [] then s
    else
      StepKeepsValid(s, Serve(s, values[0]), c);
      Drain(Next(s, Serve(s, values[0]), c), values[1..], c)
  }

  /** Steps the head still needs, and three for each entry behind it. */
  function Work(entries: seq<Entry>): nat {
    if |entries| == 0 then 0
    else 3 * (|entries| - 1) + if entries[0].done then 1 else if entries[0].issued then 2 else 3
  }

  lemma ServeOutcome(s: State, value: int, c: Config)
    requires Valid(s, c)
    ensures var i := Serve(s, value);
            && Rejects(i).None? && Killing(s, i) == []
            && (|s.entries| > 0 ==> Work(Serviced(s, i)) < Work(s.entries)) && (|s.entries| == 0 ==> |Serviced(s, i)| == 0)
  {
    OrderedDistinct(s.entries, s.tail, s.nextSerial, c);
    assert Owned(s.entries, s.tokens);
    hide Valid, Slot;
    if |s.entries| > 0 {
      assert s.entries[0] in s.entries;
      TagFoundAt(s.entries, 0);
    }
  }

  lemma ServeStep(s: State, value: int, c: Config)
    requires Valid(s, c)
    ensures var i := Serve(s, value); var n := Next(s, i, c);
            && (|s.entries| > 0 ==> Work(n.entries) < Work(s.entries)) && (|s.entries| == 0 ==> |n.entries| == 0)
            && CommitSerials(n.retired) + SerialsOf(n.entries) == CommitSerials(s.retired) + SerialsOf(s.entries)
  {
    hide Valid, Next, Work, Serviced, CommitSerials, SerialsOf, Retiring;
    var i := Serve(s, value);
    ServeOutcome(s, value, c);
    NextFields(s, i, c);
    StepSplits(s, i);
    CommitsAppend(s.retired, Retiring(s, i));
    assert !Allocates(s, i, Resolve(s.entries, i.redirect), c);
    assert SerialsOf([]) == [] by { NoSerials(); }
  }

  lemma NoSerials()
    ensures SerialsOf([]) == []
  {
  }

  /** From any valid state, serving the head empties the queue within three steps an entry, and retires exactly its entries,
      oldest first, whatever values the producers return. */
  lemma {:induction false} DrainEmpties(s: State, values: seq<int>, c: Config)
    requires Valid(s, c) && |values| >= Work(s.entries)
    ensures Drain(s, values, c).entries == []
    ensures CommitSerials(Drain(s, values, c).retired) == CommitSerials(s.retired) + SerialsOf(s.entries)
    ensures Work(s.entries) <= 3 * |s.entries|
    decreases |values|
  {
    hide Valid, Next, CommitSerials, SerialsOf;
    if values == [] {
      assert SerialsOf([]) == [] by { NoSerials(); }
    } else {
      StepKeepsValid(s, Serve(s, values[0]), c);
      ServeStep(s, values[0], c);
      DrainEmpties(Next(s, Serve(s, values[0]), c), values[1..], c);
    }
  }
}
