/** The fetch side of a redirect: an offered request is a promise, and an outstanding response must drain first. */
module FetchDrain {
  import opened Wrappers
  import opened Recovery

  datatype Fetch = Fetch(pc: int, offered: Option<int>, pending: Option<int>, target: Option<int>)

  datatype FetchInput = FetchInput(requestReady: bool, response: Option<int>, packetReady: bool, redirect: Option<int>)

  datatype Packet = Packet(pc: int, word: int)

  datatype FetchEvents = FetchEvents(request: Option<int>, requestAccepted: bool, responseConsumed: bool, packet: Option<Packet>)

  datatype FetchError = MisalignedTarget

  predicate Refuses(i: FetchInput) {
    i.redirect.Some? && !(0 <= i.redirect.value < WORD && i.redirect.value % 4 == 0)
  }

  /** Making the offer explicit: with nothing outstanding and no redirect waiting, the current PC is offered. */
  function Offered(s: Fetch): Fetch {
    if s.pending.None? && s.offered.None? && s.target.None? then s.(offered := Some(s.pc)) else s
  }

  function Request(s: Fetch): Option<int> {
    if s.pending.Some? then None else Offered(s).offered
  }

  function EventsFor(s: Fetch, i: FetchInput): FetchEvents {
    var redirected := i.redirect.Some? || s.target.Some?;
    var consumed := s.pending.Some? && i.response.Some? && (redirected || i.packetReady);
    FetchEvents(Request(s), Request(s).Some? && i.requestReady, consumed,
                if consumed && !redirected then Some(Packet(s.pending.value, i.response.value % WORD)) else None)
  }

  /** One step: the promise stands, a redirect waits for the drain, a response is delivered or dropped. */
  function After(s: Fetch, i: FetchInput): Fetch {
    var e := EventsFor(s, i);
    var target := if i.redirect.Some? then i.redirect else s.target;
    var offered := if e.requestAccepted then None else Offered(s).offered;
    var pending := if e.requestAccepted then e.request else if e.responseConsumed then None else s.pending;
    var pc := if e.packet.Some? then (s.pending.value + 4) % WORD else s.pc;
    if pending.None? && offered.None? && target.Some? then Fetch(target.value, None, None, None)
    else Fetch(pc, offered, pending, target)
  }

  class FetchDrainModel {
    const resetPc: int
    var pc: int
    var offered: Option<int>
    var pending: Option<int>
    var target: Option<int>

    function Model(): Fetch
      reads this
    {
      Fetch(pc, offered, pending, target)
    }

    constructor (resetPc: int)
      ensures this.resetPc == resetPc && Model() == Fetch(resetPc, None, None, None)
    {
      this.resetPc := resetPc;
      pc, offered, pending, target := resetPc, None, None, None;
    }

    method Offer() returns (request: Option<int>)
      modifies this`offered
      ensures request == Request(old(Model()))
      ensures Model() == Offered(old(Model()))
    {
      if pending.Some? {
        return None;
      }
      if offered.None? && target.None? {
        offered := Some(pc);
      }
      request := offered;
    }

    method Step(i: FetchInput) returns (r: Result<FetchEvents, FetchError>)
      modifies this`pc, this`offered, this`pending, this`target
      ensures Refuses(i) ==> r == Err(MisalignedTarget) && Model() == old(Model())
      ensures !Refuses(i) ==> r == Ok(EventsFor(old(Model()), i)) && Model() == After(old(Model()), i)
    {
      if i.redirect.Some? && !(0 <= i.redirect.value < WORD && i.redirect.value % 4 == 0) {
        return Err(MisalignedTarget);
      }
      var request := Offer();
      var wasPending := pending;
      if i.redirect.Some? {
        target := i.redirect;
      }
      var requestAccepted := request.Some? && i.requestReady;
      if requestAccepted {
        pending, offered := request, None;
      }
      var consumed := wasPending.Some? && i.response.Some? && (target.Some? || i.packetReady);
      var packet := None;
      if consumed {
        if target.None? {
          packet := Some(Packet(wasPending.value, i.response.value % WORD));
          pc := (wasPending.value + 4) % WORD;
        }
        pending := None;
      }
      if pending.None? && offered.None? && target.Some? {
        pc, target := target.value, None;
      }
      r := Ok(FetchEvents(request, requestAccepted, consumed, packet));
    }
  }

  // Whole runs.

  /** The run so far: the latest redirect target (else the reset PC), packets delivered since, how many redirects there
      have been, and how many there had been when the outstanding request was first offered. */
  datatype FetchHistory = FetchHistory(s: Fetch, base: int, count: nat, redirects: nat, origin: nat, packets: seq<Packet>)

  function Fresh(resetPc: int): FetchHistory {
    FetchHistory(Fetch(resetPc, None, None, None), resetPc, 0, 0, 0, [])
  }

  /** Whether this step is the one that first offers a request. */
  predicate NewOffer(s: Fetch) {
    s.pending.None? && s.offered.None? && s.target.None?
  }

  function Track(h: FetchHistory, i: FetchInput): FetchHistory {
    if Refuses(i) then h
    else
      var e := EventsFor(h.s, i);
      var origin := if NewOffer(h.s) then h.redirects else h.origin;
      var packets := if e.packet.Some? then h.packets + [e.packet.value] else h.packets;
      if i.redirect.Some? then FetchHistory(After(h.s, i), i.redirect.value, 0, h.redirects + 1, origin, packets)
      else FetchHistory(After(h.s, i), h.base, h.count + (if e.packet.Some? then 1 else 0), h.redirects, origin, packets)
  }

  function FetchRun(inputs: seq<FetchInput>, resetPc: int): FetchHistory {
    if inputs == [] then Fresh(resetPc)
    else Track(FetchRun(inputs[..|inputs| - 1], resetPc), inputs[|inputs| - 1])
  }

  /** The PC the next packet must carry. */
  function Due(base: int, count: nat): int {
    if count == 0 then base else (base + 4 * count) % WORD
  }

  ghost predicate Drained(h: FetchHistory) {
    && (h.s.offered.None? || h.s.pending.None?)
    && (h.s.target.Some? ==> h.s.target.value == Due(h.base, h.count) && (h.s.offered.Some? || h.s.pending.Some?))
    && (h.s.target.None? ==>
          && (if h.s.pending.Some? then h.s.pending.value == Due(h.base, h.count)
              else if h.s.offered.Some? then h.s.offered.value == Due(h.base, h.count)
              else h.s.pc == Due(h.base, h.count))
          && (h.s.pending.Some? || h.s.offered.Some? ==> h.origin == h.redirects))
  }

  lemma DueStep(base: int, count: nat)
    ensures (Due(base, count) + 4) % WORD == Due(base, count + 1)
  {
    if count > 0 {
      assert (base + 4 * count) % WORD == base + 4 * count - WORD * ((base + 4 * count) / WORD);
    }
  }

  lemma TrackDrained(h: FetchHistory, i: FetchInput)
    requires Drained(h)
    ensures Drained(Track(h, i))
  {
    hide Due;
    DueStep(h.base, h.count);
    DueStart(h.base);
    if i.redirect.Some? {
      DueStart(i.redirect.value);
    }
  }

  lemma DueStart(base: int)
    ensures Due(base, 0) == base
  {
  }

  lemma {:induction false} RunDrained(inputs: seq<FetchInput>, resetPc: int)
    ensures Drained(FetchRun(inputs, resetPc))
  {
    if inputs != [] {
      RunDrained(inputs[..|inputs| - 1], resetPc);
      TrackDrained(FetchRun(inputs[..|inputs| - 1], resetPc), inputs[|inputs| - 1]);
    }
  }

  /** Main theorem: after any inputs, at most one request is offered or outstanding, and a packet delivered by the next step
      continues the latest redirect target (else the reset PC) by one word per packet since, for a request first offered
      after that redirect. */
  lemma PacketsFollowTarget(inputs: seq<FetchInput>, i: FetchInput, resetPc: int)
    requires !Refuses(i)
    ensures var h := FetchRun(inputs, resetPc);
            && (h.s.offered.None? || h.s.pending.None?)
            && (EventsFor(h.s, i).packet.Some? ==>
                  EventsFor(h.s, i).packet.value.pc == Due(h.base, h.count) && h.origin == h.redirects
                  && i.redirect.None? && EventsFor(h.s, i).packet.value.word == i.response.value % WORD)
  {
    hide Due;
    RunDrained(inputs, resetPc);
  }

  /** An offered request stays offered, unchanged, until it is accepted, whatever redirects arrive. */
  lemma OfferStands(s: Fetch, i: FetchInput, j: FetchInput)
    requires s.offered.None? || s.pending.None?
    requires Request(s).Some? && !i.requestReady
    ensures After(s, i).offered == Request(s) && After(s, i).pending.None?
    ensures EventsFor(After(s, i), j).request == Request(s)
  {
  }

  /** Once accepted, a request is outstanding until its response is consumed, and no other is offered meanwhile. */
  lemma PendingStands(s: Fetch, i: FetchInput)
    requires s.offered.None? || s.pending.None?
    ensures EventsFor(s, i).requestAccepted ==> After(s, i).pending == Request(s) && After(s, i).offered.None?
    ensures s.pending.Some? && !EventsFor(s, i).responseConsumed ==> After(s, i).pending == s.pending
    ensures s.pending.Some? ==> EventsFor(s, i).request.None? && !EventsFor(s, i).requestAccepted
  {
  }

  predicate Cooperative(i: FetchInput) {
    i.requestReady && i.response.Some?
  }

  predicate Installed(s: Fetch, target: int) {
    s.pc == target && s.offered.None? && s.pending.None? && s.target.None?
  }

  /** From any reachable state two cooperative steps install a redirect's target. */
  lemma TwoStepsInstall(inputs: seq<FetchInput>, resetPc: int, i: FetchInput, j: FetchInput, target: int)
    requires !Refuses(i) && Cooperative(i) && Cooperative(j) && j.redirect.None?
    requires i.redirect == Some(target) || (i.redirect.None? && FetchRun(inputs, resetPc).s.target == Some(target))
    ensures var n := After(FetchRun(inputs, resetPc).s, i); Installed(n, target) || Installed(After(n, j), target)
  {
    hide Due;
    RunDrained(inputs, resetPc);
  }

  function Afters(s: Fetch, inputs: seq<FetchInput>): Fetch
    decreases |inputs|
  {
    if inputs == [] then s
    else Afters(if Refuses(inputs[0]) then s else After(s, inputs[0]), inputs[1..])
  }

  /** Over any run that never accepts it, through any redirects, the same request stays offered. */
  lemma {:induction false} OfferWaits(s: Fetch, inputs: seq<FetchInput>)
    requires (s.offered.None? || s.pending.None?) && Request(s).Some?
    requires forall k | 0 <= k < |inputs| :: !inputs[k].requestReady
    ensures Request(Afters(s, inputs)) == Request(s)
    decreases |inputs|
  {
    if inputs != [] {
      if Refuses(inputs[0]) {
        OfferWaits(s, inputs[1..]);
      } else {
        OfferStands(s, inputs[0], inputs[0]);
        OfferWaits(After(s, inputs[0]), inputs[1..]);
      }
    }
  }

  /** The packets since the latest redirect are the consecutive words from its target. */
  lemma {:induction false} PacketStream(inputs: seq<FetchInput>, resetPc: int)
    ensures var h := FetchRun(inputs, resetPc);
            h.count <= |h.packets|
            && forall k | 0 <= k < h.count :: h.packets[|h.packets| - h.count + k].pc == Due(h.base, k)
  {
    hide Due;
    if inputs != [] {
      var before := FetchRun(inputs[..|inputs| - 1], resetPc);
      PacketStream(inputs[..|inputs| - 1], resetPc);
      RunDrained(inputs[..|inputs| - 1], resetPc);
      DueStep(before.base, before.count);
      var h, offset := FetchRun(inputs, resetPc), |before.packets| - before.count;
      forall k | 0 <= k < h.count ensures h.packets[|h.packets| - h.count + k].pc == Due(h.base, k) {
        if k < before.count {
          assert before.packets[offset + k].pc == Due(before.base, k);
        }
      }
    }
  }
}
