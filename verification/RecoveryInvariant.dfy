/** Every step keeps the recovery invariant, and the invariant implies every check the model makes of itself. */
module RecoveryInvariant {
  import opened Wrappers
  import opened Integers
  import opened Recovery

  // Ring arithmetic.

  lemma SlotShift(tail: nat, back: nat, more: nat, depth: nat)
    requires depth > 0 && back + more <= depth
    ensures Slot(Slot(tail, back, depth), more, depth) == Slot(tail, back + more, depth)
  {
    var t := tail + depth - back;
    InnerMod(t, depth - more, depth);
    ModShift(tail + depth - (back + more), 1, depth);
    assert t + (depth - more) == tail + depth - (back + more) + depth * 1;
  }

  lemma InnerMod(t: nat, a: nat, depth: nat)
    requires depth > 0
    ensures (t % depth + a) % depth == (t + a) % depth
  {
    DivisionOf(t, depth);
    ModShift(t % depth + a, t / depth, depth);
  }

  lemma DivisionOf(t: nat, depth: nat)
    requires depth > 0
    ensures t == depth * (t / depth) + t % depth
  {
  }

  lemma SlotDistinct(tail: nat, b: nat, b': nat, depth: nat)
    requires depth > 0 && tail < depth && b < b' <= depth && b' - b < depth
    ensures Slot(tail, b, depth) != Slot(tail, b', depth)
  {
    SlotValue(tail, b, depth);
    SlotValue(tail, b', depth);
  }

  lemma SlotValue(tail: nat, b: nat, depth: nat)
    requires depth > 0 && tail < depth && b <= depth
    ensures Slot(tail, b, depth) == if tail >= b then tail - b else tail + depth - b
  {
    if tail >= b {
      DivModUnique(tail + depth - b, depth, 1, tail - b);
    } else {
      DivModUnique(tail + depth - b, depth, 0, tail + depth - b);
    }
  }

  lemma SlotAdvance(tail: nat, back: nat, depth: nat)
    requires depth > 0 && tail < depth && back < depth
    ensures Slot(Following(tail, depth), back + 1, depth) == Slot(tail, back, depth)
    ensures Slot(tail, 0, depth) == tail
  {
    SlotValue(tail, back, depth);
    SlotValue(tail, 0, depth);
    if tail + 1 < depth {
      DivModUnique(tail + 1, depth, 0, tail + 1);
      SlotValue(tail + 1, back + 1, depth);
    } else {
      DivModUnique(depth, depth, 1, 0);
      SlotValue(0, back + 1, depth);
    }
  }

  lemma SlotNext(tail: nat, back: nat, depth: nat)
    requires depth > 0 && tail < depth && 1 <= back <= depth
    ensures Following(Slot(tail, back, depth), depth) == Slot(tail, back - 1, depth)
  {
    SlotValue(tail, back, depth);
    SlotValue(tail, back - 1, depth);
    var p := Slot(tail, back, depth) + 1;
    if p < depth {
      DivModUnique(p, depth, 0, p);
    } else {
      DivModUnique(p, depth, 1, 0);
    }
  }

  // Tags are distinct.

  lemma TagsDistinct(entries: seq<Entry>, tail: nat, next: nat, c: Config, j: nat, k: nat)
    requires Ordered(entries, tail, next, c) && j < k < |entries|
    ensures entries[j].tag.slot != entries[k].tag.slot
  {
    hide Slot, Following;
    SlotDistinct(tail, |entries| - k, |entries| - j, c.depth);
  }

  ghost predicate Distinct(entries: seq<Entry>) {
    forall j, k | 0 <= j < k < |entries| :: entries[j].tag != entries[k].tag
  }

  lemma OrderedDistinct(entries: seq<Entry>, tail: nat, next: nat, c: Config)
    requires Ordered(entries, tail, next, c)
    ensures Distinct(entries)
  {
    hide Slot, Ordered;
    forall j, k | 0 <= j < k < |entries| ensures entries[j].tag != entries[k].tag {
      TagsDistinct(entries, tail, next, c, j, k);
    }
  }

  /** The entry the tail points past is not active while there is room. */
  lemma CandidateFree(entries: seq<Entry>, tail: nat, next: nat, c: Config, k: nat)
    requires Ordered(entries, tail, next, c) && |entries| < c.depth && k < |entries|
    ensures entries[k].tag.slot != tail
  {
    SlotAdvance(tail, 0, c.depth);
    SlotDistinct(tail, 0, |entries| - k, c.depth);
  }

  // Phases preserve the invariant.

  ghost predicate SameShape(a: seq<Entry>, b: seq<Entry>) {
    |a| == |b| && forall k | 0 <= k < |a| ::
      a[k].tag == b[k].tag && a[k].serial == b[k].serial && a[k].dst == b[k].dst && a[k].rename == b[k].rename && a[k].fault == b[k].fault
  }

  lemma ShapeKeeps(a: seq<Entry>, b: seq<Entry>, tail: nat, next: nat, c: Config)
    requires SameShape(a, b) && Ordered(a, tail, next, c) && Renamed(a, c)
    ensures Ordered(b, tail, next, c) && Renamed(b, c)
  {
    hide Slot, Following;
  }

  lemma PrefixOrdered(entries: seq<Entry>, tail: nat, next: nat, c: Config, v: Verdict)
    requires Ordered(entries, tail, next, c) && Renamed(entries, c) && (v.Accepted? ==> v.cut <= |entries|)
    ensures Ordered(Kept(entries, v), TailAfter(entries, tail, v, c.depth), next, c) && Renamed(Kept(entries, v), c)
  {
    hide Slot, Following;
    if v.Accepted? {
      var kept, tail' := entries[..v.cut], TailAfter(entries, tail, v, c.depth);
      CutTail(entries, tail, next, c, v.cut);
      forall k | 0 <= k < |kept| ensures kept[k].tag.slot == Slot(tail', |kept| - k, c.depth) {
        SlotShift(tail, |entries| - v.cut, v.cut - k, c.depth);
      }
    }
  }

  /** After a cut the tail points just past the youngest survivor. */
  lemma CutTail(entries: seq<Entry>, tail: nat, next: nat, c: Config, cut: nat)
    requires Ordered(entries, tail, next, c) && cut <= |entries|
    ensures TailAfter(entries, tail, Accepted(cut), c.depth) == Slot(tail, |entries| - cut, c.depth) < c.depth
  {
    SlotAdvance(tail, 0, c.depth);
    if cut > 0 {
      SlotNext(tail, |entries| - (cut - 1), c.depth);
    }
  }

  lemma SuffixOrdered(entries: seq<Entry>, tail: nat, next: nat, c: Config)
    requires Ordered(entries, tail, next, c) && Renamed(entries, c) && entries != []
    ensures Ordered(entries[1..], tail, next, c) && Renamed(entries[1..], c)
  {
    hide Slot, Following;
  }

  lemma FinishShape(entries: seq<Entry>, tokens: map<Tag, Kind>, result: Option<Response>)
    ensures SameShape(entries, Finish(entries, tokens, result))
  {
  }

  lemma IssueShape(entries: seq<Entry>, issue: Option<Tag>)
    ensures SameShape(entries, Issue(entries, issue))
  {
  }

  /** The serviced queue keeps order, renames and ring position. */
  lemma ServicedOrdered(s: State, i: Input, c: Config)
    requires Valid(s, c)
    ensures var tail := TailAfter(s.entries, s.tail, Resolve(s.entries, i.redirect), c.depth);
            && Ordered(AfterResult(s, i), tail, s.nextSerial, c) && Renamed(AfterResult(s, i), c)
            && Ordered(Remaining(s, i), tail, s.nextSerial, c) && Renamed(Remaining(s, i), c)
            && Ordered(Serviced(s, i), tail, s.nextSerial, c) && Renamed(Serviced(s, i), c)
            && |Serviced(s, i)| <= |s.entries|
  {
    assert c.Positive();
    hide Following, Ordered, Renamed, Finish, Issue, Resolve, Owned;
    var tail := TailAfter(s.entries, s.tail, Resolve(s.entries, i.redirect), c.depth);
    PrefixOrdered(s.entries, s.tail, s.nextSerial, c, Resolve(s.entries, i.redirect));
    FinishShape(Survivors(s, i), s.tokens, i.result);
    ShapeKeeps(Survivors(s, i), AfterResult(s, i), tail, s.nextSerial, c);
    if Commits(s, i) {
      SuffixOrdered(AfterResult(s, i), tail, s.nextSerial, c);
    }
    IssueShape(Remaining(s, i), i.issue);
    ShapeKeeps(Remaining(s, i), Serviced(s, i), tail, s.nextSerial, c);
  }

  lemma AppendOrdered(entries: seq<Entry>, tail: nat, c: Config, e: Entry, next: nat)
    requires Ordered(entries, tail, next, c) && Renamed(entries, c) && |entries| < c.depth
    requires e.tag.slot == tail && e.serial == next
    requires e.rename.Some? == e.dst.Some? && (e.dst.Some? ==> 0 <= e.dst.value < 32)
    requires e.rename.Some? ==> 0 <= e.rename.value < c.renameDepth && e.rename.value !in Renames(entries)
    ensures Ordered(entries + [e], Following(tail, c.depth), next + 1, c) && Renamed(entries + [e], c)
  {
    hide Slot;
    var es := entries + [e];
    forall k | 0 <= k < |es| ensures es[k].tag.slot == Slot(Following(tail, c.depth), |es| - k, c.depth) {
      SlotAdvance(tail, |entries| - k, c.depth);
    }
  }

  lemma CancelOwned(entries: seq<Entry>, tokens: map<Tag, Kind>, cut: nat)
    requires Distinct(entries) && Owned(entries, tokens) && cut <= |entries|
    ensures Owned(entries[..cut], CancelLocal(tokens, TagsOf(entries[cut..])))
    ensures forall e | e in entries[..cut] :: e.tag in CancelLocal(tokens, TagsOf(entries[cut..])) <==> e.tag in tokens
  {
    var killed, left := TagsOf(entries[cut..]), CancelLocal(tokens, TagsOf(entries[cut..]));
    forall e | e in entries[..cut] ensures e.tag in left <==> e.tag in tokens {
      var k :| 0 <= k < cut && entries[k] == e;
      assert e.tag !in killed;
    }
    forall t | t in left ensures left[t] == External || Active(entries[..cut], t) {
      if tokens[t] != External {
        var k :| 0 <= k < |entries| && entries[k].tag == t;
        SplitTag(entries, cut, k);
      }
    }
  }

  lemma SplitTag(entries: seq<Entry>, cut: nat, k: nat)
    requires k < |entries| && cut <= |entries|
    ensures entries[k].tag in TagsOf(entries[cut..]) || Active(entries[..cut], entries[k].tag)
  {
    if k >= cut {
      assert entries[cut..][k - cut] in entries[cut..];
    } else {
      assert entries[..cut][k].tag == entries[k].tag;
    }
  }

  lemma FinishOwned(entries: seq<Entry>, pre: map<Tag, Kind>, tokens: map<Tag, Kind>, result: Option<Response>)
    requires Distinct(entries) && Owned(entries, tokens)
    requires forall e | e in entries :: e.tag in tokens <==> e.tag in pre
    ensures Owned(Finish(entries, pre, result), Consume(tokens, result))
  {
    var out, left := Finish(entries, pre, result), Consume(tokens, result);
    forall e | e in out ensures e.tag in left <==> e.issued && !e.done {
      var k :| 0 <= k < |out| && out[k] == e;
      assert entries[k] in entries;
    }
    forall t | t in left ensures left[t] == External || Active(out, t) {
      if tokens[t] != External {
        var k :| 0 <= k < |entries| && entries[k].tag == t;
        assert out[k].tag == t;
      }
    }
  }

  lemma RetireOwned(entries: seq<Entry>, tokens: map<Tag, Kind>)
    requires Owned(entries, tokens) && entries != [] && entries[0].done
    ensures Owned(entries[1..], tokens)
  {
    assert entries[0].tag !in tokens;
    forall t | t in tokens ensures tokens[t] == External || Active(entries[1..], t) {
      if tokens[t] != External {
        var k :| 0 <= k < |entries| && entries[k].tag == t;
        assert entries[1..][k - 1].tag == t;
      }
    }
  }

  lemma IssueOwned(entries: seq<Entry>, tokens: map<Tag, Kind>, issue: Option<Tag>, kind: Kind)
    requires Distinct(entries) && Owned(entries, tokens) && kind != Unknown
    ensures Owned(Issue(entries, issue), if Issuing(entries, issue).Some? then tokens[issue.value := kind] else tokens)
  {
    var at := Issuing(entries, issue);
    if at.Some? {
      var out, added := Issue(entries, issue), tokens[issue.value := kind];
      forall e | e in out ensures e.tag in added <==> e.issued && !e.done {
        var k :| 0 <= k < |out| && out[k] == e;
        assert entries[k] in entries;
      }
      forall t | t in added ensures added[t] == External || Active(out, t) {
        if t == issue.value {
          assert out[at.value].tag == t;
        } else if tokens[t] != External {
          var k :| 0 <= k < |entries| && entries[k].tag == t;
          assert out[k].tag == t;
        }
      }
    }
  }

  /** The tokens after the step own exactly the serviced queue's outstanding entries. */
  lemma ServicedOwned(s: State, i: Input, c: Config)
    requires Valid(s, c) && i.kind != Unknown
    ensures Owned(Serviced(s, i), TokensAfter(s, i))
  {
    assert c.Positive();
    hide Following, Ordered, Renamed, Finish, Issue, Resolve, Owned, CancelLocal, Consume;
    var v := Resolve(s.entries, i.redirect);
    OrderedDistinct(s.entries, s.tail, s.nextSerial, c);
    var cut := if v.Accepted? then v.cut else |s.entries|;
    var live := if v.Accepted? then CancelLocal(s.tokens, TagsOf(s.entries[cut..])) else s.tokens;
    if v.Accepted? {
      CancelOwned(s.entries, s.tokens, cut);
    }
    FinishOwned(Survivors(s, i), s.tokens, live, i.result);
    HeadStaysDone(s, i);
    if Commits(s, i) {
      RetireOwned(AfterResult(s, i), Consume(live, i.result));
    }
    ServicedOrdered(s, i, c);
    OrderedDistinct(Remaining(s, i), TailAfter(s.entries, s.tail, v, c.depth), s.nextSerial, c);
    IssueOwned(Remaining(s, i), Consume(live, i.result), i.issue, i.kind);
  }

  lemma HeadStaysDone(s: State, i: Input)
    ensures Commits(s, i) ==> AfterResult(s, i)[0] == s.entries[0]
  {
  }

  lemma ServicedProgress(s: State, i: Input)
    requires (forall e | e in s.entries :: Progressed(e)) && (forall e | e in s.entries :: e.tag in s.tokens ==> e.issued)
    ensures forall e | e in AfterResult(s, i) :: Progressed(e)
    ensures forall e | e in Serviced(s, i) :: Progressed(e)
  {
    hide Resolve;
    var kept := Survivors(s, i);
    forall e | e in AfterResult(s, i) ensures Progressed(e) {
      var k :| 0 <= k < |kept| && AfterResult(s, i)[k] == e;
      assert kept[k] in s.entries;
    }
    var r := Remaining(s, i);
    forall e | e in Serviced(s, i) ensures Progressed(e) {
      var k :| 0 <= k < |r| && Serviced(s, i)[k] == e;
      assert r[k] in AfterResult(s, i);
    }
  }

  /** Servicing only drops entries from the front and back: identities come from the old queue, in order. */
  ghost predicate Slice(part: seq<Entry>, whole: seq<Entry>, from: nat) {
    from + |part| <= |whole| && forall k | 0 <= k < |part| ::
      && part[k].tag == whole[from + k].tag && part[k].serial == whole[from + k].serial
      && part[k].dst == whole[from + k].dst && part[k].rename == whole[from + k].rename && part[k].fault == whole[from + k].fault
  }

  lemma ServicedSlice(s: State, i: Input)
    ensures Slice(Serviced(s, i), s.entries, if Commits(s, i) then 1 else 0)
    ensures |Serviced(s, i)| == |Survivors(s, i)| - (if Commits(s, i) then 1 else 0)
  {
    hide Resolve, Finish, Issue;
    FinishShape(Survivors(s, i), s.tokens, i.result);
    IssueShape(Remaining(s, i), i.issue);
  }

  lemma SliceRenames(part: seq<Entry>, whole: seq<Entry>, from: nat)
    requires Slice(part, whole, from)
    ensures Renames(part) <= Renames(whole)
  {
    forall r | r in Renames(part) ensures r in Renames(whole) {
      var k :| 0 <= k < |part| && part[k].rename.Some? && part[k].rename.value == r;
      assert whole[from + k] in whole;
    }
  }

  lemma StillOwned(entries: seq<Entry>, tokens: map<Tag, Kind>, e: Entry)
    requires Owned(entries, tokens) && e.tag !in tokens && (!e.issued || e.done)
    ensures Owned(entries + [e], tokens)
  {
    forall t | t in tokens ensures tokens[t] == External || Active(entries + [e], t) {
      if tokens[t] != External {
        var k :| 0 <= k < |entries| && entries[k].tag == t;
        assert (entries + [e])[k].tag == t;
      }
    }
  }

  /** No token of this step carries the candidate tag. */
  lemma CandidateUnowned(s: State, i: Input, c: Config)
    requires Valid(s, c) && Allocates(s, i, Resolve(s.entries, i.redirect), c)
    ensures Candidate(s, c) !in TokensAfter(s, i)
  {
    hide Resolve, Finish, Owned, Renamed, Slot;
    var at := Issuing(Remaining(s, i), i.issue);
    if at.Some? {
      ServicedOrdered(s, i, c);
      FinishShape(Survivors(s, i), s.tokens, i.result);
      CandidateFree(s.entries, s.tail, s.nextSerial, c, at.value + if Commits(s, i) then 1 else 0);
    }
  }

  lemma FreshEntry(s: State, i: Input, c: Config)
    requires Valid(s, c) && Rejects(i).None? && Allocates(s, i, Resolve(s.entries, i.redirect), c)
    ensures var e := NewEntry(s, i, c);
            && e.tag == Candidate(s, c) && e.tag.slot == s.tail && e.serial == s.nextSerial
            && e.rename.Some? == e.dst.Some? && (e.dst.Some? ==> 0 <= e.dst.value < 32)
            && (e.rename.Some? ==> 0 <= e.rename.value < c.renameDepth && e.rename.value !in Renames(s.entries))
            && !e.issued
  {
    hide Resolve, Owned, Renamed, Slot;
  }

  lemma AllocationValid(s: State, i: Input, c: Config)
    requires Valid(s, c) && Rejects(i).None? && Allocates(s, i, Resolve(s.entries, i.redirect), c)
    ensures var entries := Serviced(s, i) + [NewEntry(s, i, c)];
            && Ordered(entries, Following(s.tail, c.depth), s.nextSerial + 1, c) && Renamed(entries, c)
            && Owned(entries, TokensAfter(s, i))
  {
    var tail := TailAfter(s.entries, s.tail, Resolve(s.entries, i.redirect), c.depth);
    assert tail == s.tail && |s.entries| < c.depth;
    hide *;
    ServicedOrdered(s, i, c);
    assert Ordered(Serviced(s, i), s.tail, s.nextSerial, c);
    ServicedSlice(s, i);
    SliceRenames(Serviced(s, i), s.entries, if Commits(s, i) then 1 else 0);
    FreshEntry(s, i, c);
    AppendOrdered(Serviced(s, i), s.tail, c, NewEntry(s, i, c), s.nextSerial);
    AllocationOwned(s, i, c);
  }

  lemma AllocationOwned(s: State, i: Input, c: Config)
    requires Valid(s, c) && Rejects(i).None? && Allocates(s, i, Resolve(s.entries, i.redirect), c)
    ensures Owned(Serviced(s, i) + [NewEntry(s, i, c)], TokensAfter(s, i))
  {
    assert i.kind != Unknown;
    hide *;
    ServicedOwned(s, i, c);
    CandidateUnowned(s, i, c);
    FreshEntry(s, i, c);
    StillOwned(Serviced(s, i), TokensAfter(s, i), NewEntry(s, i, c));
  }

  lemma RetirementInOrder(s: State, i: Input, c: Config)
    requires Valid(s, c)
    ensures InOrder(Serviced(s, i), s.retired + Retiring(s, i))
    ensures forall w | w in Retiring(s, i) :: w.serial < s.nextSerial
  {
    hide Resolve, Owned, Renamed, Serviced;
    ServicedSlice(s, i);
    HeadStaysDone(s, i);
    var out, all := Serviced(s, i), s.retired + Retiring(s, i);
    var from := if Commits(s, i) then 1 else 0;
    forall w, e | w in all && e in out ensures w.serial < e.serial {
      var k :| 0 <= k < |out| && out[k] == e;
      assert s.entries[from + k] in s.entries && (from == 1 ==> s.entries[0] in s.entries);
    }
    forall j, k | 0 <= j < k < |all| ensures all[j].serial < all[k].serial {
      if k == |s.retired| {
        assert s.entries[0] in s.entries && s.retired[j] in s.retired;
      }
    }
  }

  lemma AppendInOrder(entries: seq<Entry>, retired: seq<Commit>, e: Entry)
    requires InOrder(entries, retired) && forall w | w in retired :: w.serial < e.serial
    ensures InOrder(entries + [e], retired)
  {
  }

  lemma TokensImplyIssued(s: State)
    requires Owned(s.entries, s.tokens)
    ensures forall e | e in s.entries :: e.tag in s.tokens ==> e.issued
  {
  }

  lemma ArchBounded(arch: seq<int>, w: Commit)
    requires |arch| == 32 && (forall r | 0 <= r < 32 :: 0 <= arch[r] < WORD) && 0 <= w.value < WORD
    ensures forall r | 0 <= r < 32 :: 0 <= Write(arch, w)[r] < WORD
  {
  }

  lemma NextArch(s: State, i: Input, c: Config)
    requires Valid(s, c) && Rejects(i).None?
    ensures |Next(s, i, c).arch| == 32 && forall r | 0 <= r < 32 :: 0 <= Next(s, i, c).arch[r] < WORD
  {
    hide Resolve, Owned, Renamed, Ordered, Serviced, TokensAfter, AfterResult;
    TokensImplyIssued(s);
    ServicedProgress(s, i);
    HeadStaysDone(s, i);
    if Commits(s, i) {
      assert s.entries[0] in s.entries;
      ArchBounded(s.arch, Retiring(s, i)[0]);
    }
  }

  /** The next state, read field by field. */
  lemma NextFields(s: State, i: Input, c: Config)
    requires Valid(s, c) && Rejects(i).None?
    ensures c.Positive() && s.tail < |s.generations| && |s.generations| == c.depth
    ensures var n, v := Next(s, i, c), Resolve(s.entries, i.redirect); var grows := Allocates(s, i, v, c);
            && n.entries == (if grows then Serviced(s, i) + [NewEntry(s, i, c)] else Serviced(s, i))
            && n.tail == (if grows then Following(s.tail, c.depth) else TailAfter(s.entries, s.tail, v, c.depth))
            && n.nextSerial == s.nextSerial + (if grows then 1 else 0)
            && n.tokens == TokensAfter(s, i) && n.mapping == MappingOf(n.entries)
            && n.retired == s.retired + Retiring(s, i) && |n.generations| == c.depth
  {
    assert c.Positive() && s.tail < |s.generations|;
    hide Resolve, Owned, Renamed, Ordered, Serviced, TokensAfter, Retiring, InOrder, NewEntry, Valid, Allocates, TailAfter, MappingOf;
    assert Serviced(s, i) + [] == Serviced(s, i);
  }

  lemma QueueValid(s: State, i: Input, c: Config)
    requires Valid(s, c) && Rejects(i).None?
    ensures var n := Next(s, i, c);
            Ordered(n.entries, n.tail, n.nextSerial, c) && Renamed(n.entries, c) && Owned(n.entries, n.tokens)
  {
    assert i.kind != Unknown;
    hide *;
    NextFields(s, i, c);
    if Allocates(s, i, Resolve(s.entries, i.redirect), c) {
      AllocationValid(s, i, c);
    } else {
      ServicedOrdered(s, i, c);
      ServicedOwned(s, i, c);
    }
  }

  lemma QueueProgressed(s: State, i: Input, c: Config)
    requires Valid(s, c) && Rejects(i).None?
    ensures forall e | e in Next(s, i, c).entries :: Progressed(e)
  {
    NextFields(s, i, c);
    TokensImplyIssued(s);
    ServicedProgress(s, i);
    NewProgressed(s, i, c);
    hide *;
  }

  lemma RetiredValid(s: State, i: Input, c: Config)
    requires Valid(s, c) && Rejects(i).None?
    ensures var n := Next(s, i, c); InOrder(n.entries, n.retired) && forall w | w in n.retired :: w.serial < n.nextSerial
  {
    assert forall w | w in s.retired :: w.serial < s.nextSerial;
    NextFields(s, i, c);
    RetirementInOrder(s, i, c);
    NewProgressed(s, i, c);
    hide *;
    if Allocates(s, i, Resolve(s.entries, i.redirect), c) {
      AppendInOrder(Serviced(s, i), s.retired + Retiring(s, i), NewEntry(s, i, c));
    }
  }

  /** Main invariant: every accepted input takes a valid state to a valid state. */
  lemma StepKeepsValid(s: State, i: Input, c: Config)
    requires Valid(s, c) && Rejects(i).None?
    ensures Valid(Next(s, i, c), c)
  {
    hide Following, Ordered, Resolve, Owned, Renamed, InOrder, Next, Progressed;
    NextFields(s, i, c);
    QueueValid(s, i, c);
    QueueProgressed(s, i, c);
    NextArch(s, i, c);
    RetiredValid(s, i, c);
  }

  lemma NewProgressed(s: State, i: Input, c: Config)
    requires c.Positive() && s.tail < |s.generations|
    ensures Progressed(NewEntry(s, i, c)) && NewEntry(s, i, c).serial == s.nextSerial
  {
  }

  function Reset(c: Config): State
    requires c.Positive()
  {
    State([], seq(c.depth, _ => 0), 0, map[], seq(32, _ => 0), map[], 0, [])
  }

  lemma ResetValid(c: Config)
    requires c.Positive()
    ensures Valid(Reset(c), c)
  {
  }
}
