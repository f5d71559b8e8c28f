/** The recovery policy: a reorder queue of generation-tagged slots, its one-step function, and the model object. */
module Recovery {
  import opened Wrappers
  import opened Dyadic

  datatype Tag = Tag(slot: nat, generation: nat)

  /** dst is the architectural register written, rename its physical home. */
  datatype Entry = Entry(tag: Tag, serial: nat, dst: Option<int>, rename: Option<int>,
                         done: bool, value: int, fault: bool, issued: bool)

  /** No pivot cuts all speculation. */
  datatype Redirect = Redirect(pivot: Option<Tag>, keepPivot: bool)

  datatype Commit = Commit(serial: nat, dst: Option<int>, value: int)

  datatype Kind = Local | External | Unknown

  datatype Rejection = InactivePivot | IrrevocableHead

  datatype Response = Response(tag: Tag, value: int)

  datatype Input = Input(allocate: bool, dst: Option<int>, fault: bool, issue: Option<Tag>, kind: Kind,
                         result: Option<Response>, redirect: Option<Redirect>, retireReady: bool)

  datatype Events = Events(entered: Option<Tag>, finished: Option<Tag>, committed: Option<Commit>, killed: seq<Tag>,
                           accepted: bool, rejected: Option<Rejection>, issueAccepted: bool, resultConsumed: bool)

  datatype StepError = RegisterOutOfRange | UnknownKind

  datatype Config = Config(depth: nat, renameDepth: nat, generations: nat) {
    predicate Positive() {
      depth >= 1 && renameDepth >= 1 && generations >= 1
    }
  }

  datatype State = State(entries: seq<Entry>, generations: seq<nat>, tail: nat, tokens: map<Tag, Kind>, arch: seq<int>,
                         mapping: map<int, Tag>, nextSerial: nat, retired: seq<Commit>)

  const WORD := 0x1_0000_0000

  // The step, phase by phase.

  /** The first entry carrying the tag. */
  function IndexOf(entries: seq<Entry>, tag: Tag): (k: Option<nat>)
    ensures k.Some? ==> k.value < |entries| && entries[k.value].tag == tag && forall j | 0 <= j < k.value :: entries[j].tag != tag
    ensures k.None? ==> forall j | 0 <= j < |entries| :: entries[j].tag != tag
  {
    if entries == [] then None
    else if entries[0].tag == tag then Some(0)
    else
      var rest := IndexOf(entries[1..], tag);
      if rest.Some? then Some(rest.value + 1) else None
  }

  /** What a redirect does to the queue: keep its oldest `cut` entries, or nothing. */
  datatype Verdict = NoRedirect | Rejected(why: Rejection) | Accepted(cut: nat)

  function CutAt(entries: seq<Entry>, cut: nat): Verdict {
    if cut == 0 && entries != [] && entries[0].done then Rejected(IrrevocableHead) else Accepted(cut)
  }

  function Resolve(entries: seq<Entry>, redirect: Option<Redirect>): (v: Verdict)
    ensures v.Accepted? ==> redirect.Some? && v.cut <= |entries|
    ensures v.Accepted? && v.cut == 0 ==> entries == [] || !entries[0].done
  {
    if redirect.None? then NoRedirect
    else if redirect.value.pivot.None? then CutAt(entries, 0)
    else
      var found := IndexOf(entries, redirect.value.pivot.value);
      if found.None? then Rejected(InactivePivot)
      else CutAt(entries, found.value + if redirect.value.keepPivot then 1 else 0)
  }

  function Kept(entries: seq<Entry>, v: Verdict): seq<Entry>
    requires v.Accepted? ==> v.cut <= |entries|
  {
    if v.Accepted? then entries[..v.cut] else entries
  }

  /** The next slot round the ring. */
  function Following(slot: nat, depth: nat): nat
    requires depth > 0
  {
    (slot + 1) % depth
  }

  function TailAfter(entries: seq<Entry>, tail: nat, v: Verdict, depth: nat): nat
    requires depth > 0 && (v.Accepted? ==> v.cut <= |entries|)
  {
    if !v.Accepted? then tail
    else if v.cut > 0 then Following(entries[v.cut - 1].tag.slot, depth)
    else if entries != [] then entries[0].tag.slot
    else tail
  }

  function TagsOf(entries: seq<Entry>): set<Tag> {
    set e | e in entries :: e.tag
  }

  /** A killed entry's local producer is cancelled; an external one stays owed. */
  function CancelLocal(tokens: map<Tag, Kind>, killed: set<Tag>): map<Tag, Kind> {
    map t | t in tokens && !(t in killed && tokens[t] == Local) :: tokens[t]
  }

  function Finishing(entries: seq<Entry>, tokens: map<Tag, Kind>, result: Option<Response>): Option<nat> {
    if result.None? then None
    else
      var k := IndexOf(entries, result.value.tag);
      if k.Some? && !entries[k.value].done && result.value.tag in tokens then k else None
  }

  function Finish(entries: seq<Entry>, tokens: map<Tag, Kind>, result: Option<Response>): seq<Entry> {
    var k := Finishing(entries, tokens, result);
    if k.Some? then entries[k.value := entries[k.value].(done := true, value := result.value.value % WORD)] else entries
  }

  function Consume(tokens: map<Tag, Kind>, result: Option<Response>): map<Tag, Kind> {
    if result.Some? then tokens - {result.value.tag} else tokens
  }

  function Issuing(entries: seq<Entry>, issue: Option<Tag>): Option<nat> {
    if issue.None? then None
    else
      var k := IndexOf(entries, issue.value);
      if k.Some? && !entries[k.value].issued && !entries[k.value].done then k else None
  }

  function Issue(entries: seq<Entry>, issue: Option<Tag>): seq<Entry> {
    var k := Issuing(entries, issue);
    if k.Some? then entries[k.value := entries[k.value].(issued := true)] else entries
  }

  function Renames(entries: seq<Entry>): set<int> {
    set e | e in entries && e.rename.Some? :: e.rename.value
  }

  /** The least rename at or after `from` that no entry holds. */
  function FreeFrom(used: set<int>, from: nat, depth: nat): (r: Option<int>)
    ensures r.Some? ==> from <= r.value < depth && r.value !in used
    ensures r.Some? ==> forall k | from <= k < r.value :: k in used
    ensures r.None? ==> forall k | from <= k < depth :: k in used
    decreases depth - from
  {
    if from >= depth then None
    else if from !in used then Some(from)
    else FreeFrom(used, from + 1, depth)
  }

  function MappingOf(entries: seq<Entry>): map<int, Tag> {
    if entries == [] then map[]
    else
      var older, e := MappingOf(entries[..|entries| - 1]), entries[|entries| - 1];
      if e.dst.Some? then older[e.dst.value := e.tag] else older
  }

  function Candidate(s: State, c: Config): Tag
    requires c.Positive() && s.tail < |s.generations|
  {
    Tag(s.tail, (s.generations[s.tail] + 1) % c.generations)
  }

  function CommitOf(e: Entry): Commit {
    Commit(e.serial, e.dst, e.value)
  }

  function Write(arch: seq<int>, w: Commit): (r: seq<int>)
    ensures |r| == |arch|
  {
    if w.dst.Some? && 0 <= w.dst.value < |arch| then arch[w.dst.value := w.value] else arch
  }

  function Rejects(i: Input): Option<StepError> {
    if i.dst.Some? && !(0 <= i.dst.value < 32) then Some(RegisterOutOfRange)
    else if i.kind == Unknown then Some(UnknownKind)
    else None
  }

  function Survivors(s: State, i: Input): seq<Entry> {
    Kept(s.entries, Resolve(s.entries, i.redirect))
  }

  function AfterResult(s: State, i: Input): (r: seq<Entry>)
    ensures |r| == |Survivors(s, i)|
  {
    Finish(Survivors(s, i), s.tokens, i.result)
  }

  /** Whether the head, done before the edge, leaves on it. */
  predicate Commits(s: State, i: Input) {
    i.retireReady && Survivors(s, i) != [] && s.entries != [] && s.entries[0].done
  }

  function Remaining(s: State, i: Input): seq<Entry> {
    if Commits(s, i) then AfterResult(s, i)[1..] else AfterResult(s, i)
  }

  /** The queue after cut, result, retirement and issue, before allocation. */
  function Serviced(s: State, i: Input): seq<Entry> {
    Issue(Remaining(s, i), i.issue)
  }

  /** What retirement appends this step. */
  function Retiring(s: State, i: Input): seq<Commit> {
    if Commits(s, i) then [CommitOf(AfterResult(s, i)[0])] else []
  }

  /** Allocation looks at pre-edge capacity, renames and tokens only. */
  predicate Allocates(s: State, i: Input, v: Verdict, c: Config)
    requires c.Positive() && s.tail < |s.generations|
  {
    && i.allocate && !v.Accepted? && |s.entries| < c.depth
    && (i.dst.Some? && !i.fault ==> FreeFrom(Renames(s.entries), 0, c.renameDepth).Some?)
    && Candidate(s, c) !in s.tokens
  }

  function NewEntry(s: State, i: Input, c: Config): Entry
    requires c.Positive() && s.tail < |s.generations|
  {
    Entry(Candidate(s, c), s.nextSerial, if i.fault then None else i.dst,
          if i.dst.Some? && !i.fault then FreeFrom(Renames(s.entries), 0, c.renameDepth) else None,
          i.fault, 0, i.fault, false)
  }

  // The invariant.

  /** The slot `back` places behind the tail of the ring. */
  function Slot(tail: nat, back: nat, depth: nat): nat
    requires depth > 0 && back <= depth
  {
    (tail + depth - back) % depth
  }

  ghost predicate Ordered(entries: seq<Entry>, tail: nat, next: nat, c: Config) {
    && c.Positive() && |entries| <= c.depth && tail < c.depth
    && (forall k | 0 <= k < |entries| :: entries[k].tag.slot == Slot(tail, |entries| - k, c.depth))
    && (forall j, k | 0 <= j < k < |entries| :: entries[j].serial < entries[k].serial)
    && (forall k | 0 <= k < |entries| :: entries[k].serial < next)
  }

  ghost predicate Renamed(entries: seq<Entry>, c: Config) {
    && (forall k | 0 <= k < |entries| :: entries[k].rename.Some? == entries[k].dst.Some?)
    && (forall k | 0 <= k < |entries| && entries[k].rename.Some? :: 0 <= entries[k].rename.value < c.renameDepth)
    && (forall k | 0 <= k < |entries| && entries[k].dst.Some? :: 0 <= entries[k].dst.value < 32)
    && (forall j, k | 0 <= j < k < |entries| && entries[j].rename.Some? && entries[k].rename.Some? ::
          entries[j].rename != entries[k].rename)
  }

  ghost predicate Progressed(e: Entry) {
    && 0 <= e.value < WORD && (e.fault ==> e.done && e.dst.None?) && (e.done ==> e.issued || e.fault)
    && (e.issued ==> !e.fault)
  }

  predicate Active(entries: seq<Entry>, tag: Tag) {
    exists k | 0 <= k < |entries| :: entries[k].tag == tag
  }

  /** A live token belongs to its active issued entry, or is an external response still owed to a killed one. */
  ghost predicate Owned(entries: seq<Entry>, tokens: map<Tag, Kind>) {
    && (forall e | e in entries :: e.tag in tokens <==> e.issued && !e.done)
    && (forall t | t in tokens :: tokens[t] != Unknown && (tokens[t] == External || Active(entries, t)))
  }

  ghost predicate InOrder(entries: seq<Entry>, retired: seq<Commit>) {
    && (forall j, k | 0 <= j < k < |retired| :: retired[j].serial < retired[k].serial)
    && (forall w, e | w in retired && e in entries :: w.serial < e.serial)
  }

  ghost predicate Valid(s: State, c: Config) {
    && Ordered(s.entries, s.tail, s.nextSerial, c) && Renamed(s.entries, c)
    && (forall e | e in s.entries :: Progressed(e))
    && Owned(s.entries, s.tokens)
    && s.mapping == MappingOf(s.entries)
    && |s.generations| == c.depth && |s.arch| == 32
    && (forall r | 0 <= r < 32 :: 0 <= s.arch[r] < WORD)
    && InOrder(s.entries, s.retired) && (forall w | w in s.retired :: w.serial < s.nextSerial)
  }

  /** The tokens once a cut has cancelled its local producers. */
  function CutTokens(s: State, i: Input): map<Tag, Kind> {
    var v := Resolve(s.entries, i.redirect);
    if v.Accepted? then CancelLocal(s.tokens, TagsOf(s.entries[v.cut..])) else s.tokens
  }

  function TokensAfter(s: State, i: Input): map<Tag, Kind> {
    var left := Consume(CutTokens(s, i), i.result);
    if IssueTaken(s, i) then left[i.issue.value := i.kind] else left
  }

  /** What the step reports and writes, phase by phase. */
  function FinishedTag(s: State, i: Input): Option<Tag> {
    if Finishing(Survivors(s, i), s.tokens, i.result).Some? then Some(i.result.value.tag) else None
  }

  function CommittedBy(s: State, i: Input): Option<Commit> {
    if Commits(s, i) then Some(CommitOf(AfterResult(s, i)[0])) else None
  }

  function ArchAfter(s: State, i: Input): seq<int> {
    if Commits(s, i) then Write(s.arch, CommitOf(AfterResult(s, i)[0])) else s.arch
  }

  function KilledTags(s: State, i: Input): seq<Tag>
    requires |Survivors(s, i)| <= |s.entries|
  {
    TagSeq(s.entries[|Survivors(s, i)|..])
  }

  function IssueTaken(s: State, i: Input): bool {
    Issuing(Remaining(s, i), i.issue).Some?
  }

  /** One clock edge. */
  function Next(s: State, i: Input, c: Config): State
    requires Valid(s, c) && Rejects(i).None?
  {
    var v := Resolve(s.entries, i.redirect);
    var allocates := Allocates(s, i, v, c);
    var entries := Serviced(s, i) + if allocates then [NewEntry(s, i, c)] else [];
    State(entries,
          if allocates then s.generations[s.tail := Candidate(s, c).generation] else s.generations,
          if allocates then Following(s.tail, c.depth) else TailAfter(s.entries, s.tail, v, c.depth),
          TokensAfter(s, i),
          ArchAfter(s, i),
          MappingOf(entries),
          s.nextSerial + if allocates then 1 else 0,
          s.retired + Retiring(s, i))
  }

  function EventsOf(s: State, i: Input, c: Config): Events
    requires Valid(s, c) && Rejects(i).None?
  {
    var v := Resolve(s.entries, i.redirect);
    Events(if Allocates(s, i, v, c) then Some(Candidate(s, c)) else None,
           FinishedTag(s, i),
           CommittedBy(s, i),
           KilledTags(s, i),
           v.Accepted?,
           if v.Rejected? then Some(v.why) else None,
           IssueTaken(s, i),
           i.result.Some?)
  }

  function TagSeq(entries: seq<Entry>): (r: seq<Tag>)
    ensures |r| == |entries| && forall k | 0 <= k < |r| :: r[k] == entries[k].tag
  {
    seq(|entries|, k requires 0 <= k < |entries| => entries[k].tag)
  }
}
