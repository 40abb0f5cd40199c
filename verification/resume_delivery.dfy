/** A connection in which the client sends what it has to: exactly when it delivers the source. */
module ResumeDelivery {
  import opened Bytes
  import opened Framing
  import opened ResumeAcceptance
  import opened ResumeCompletion
  import opened ResumeMachine
  import opened ResumeSafety
  import opened ResumeServer
  import opened ResumeTheorems
  import opened ResumeTickets
  import opened TransferFormat

  // What the client sends

  predicate CanSeal(h: Stable, source: seq<byte>, n: nat, at: nat) {
    n < h.frameCount && 0 <= NextLen(h, at) && at + NextLen(h, at) <= |source|
  }

  function FrameAt(source: seq<byte>, session: nat, h: Stable, status: Status, n: nat, at: nat): Sealed
    requires CanSeal(h, source, n, at)
  {
    Frame(session, h, status, n, source[at..at + NextLen(h, at)])
  }

  /** The frames of the source from number n on. */
  function FramesOf(source: seq<byte>, session: nat, h: Stable, status: Status, n: nat, at: nat): seq<Incoming>
    decreases h.frameCount - n
  {
    if !CanSeal(h, source, n, at) then []
    else
      var len := NextLen(h, at);
      [Incoming(n, len, len + GCM_TAG_SIZE, Some(FrameAt(source, session, h, status, n, at)))]
      + FramesOf(source, session, h, status, n + 1, at + len)
  }

  function FinalOf(session: nat, h: Stable, status: Status): IncomingFinal {
    IncomingFinal(NETWORK_FINAL_MAGIC, FINAL_CIPHERTEXT_SIZE, Some(Final(session, h, status, h.sourceHash)))
  }

  ghost function Sealing(s: State, r: Sealed, phase: Phase): State {
    s.(client := s.client.(phase := phase), net := s.net.(sealed := s.net.sealed + {r}))
  }

  /** The states of a client that seals all that is left. */
  ghost function Sends(s: State, session: nat, h: Stable, status: Status, n: nat, at: nat): seq<State>
    decreases h.frameCount - n
  {
    if CanSeal(h, s.client.source, n, at) then
      var len := NextLen(h, at);
      var t := Sealing(s, FrameAt(s.client.source, session, h, status, n, at),
                       Sending(session, h, status, n + 1, at + len));
      [t] + Sends(t, session, h, status, n + 1, at + len)
    else [Sealing(s, Final(session, h, status, h.sourceHash), Awaiting(session, h))]
  }

  ghost function Reading(s: State, q: Request, status: Status): State {
    s.(client := s.client.(saved := Some(Saved(q.header, status.ticket)),
                           phase := Sending(q.session, q.header, status, status.next, status.received)))
  }

  /** The client reads the status, saves the ticket and seals every frame and the final record. */
  ghost function HonestClient(s: State, q: Request): seq<State> {
    if !s.server.Receiving? then []
    else
      var status := s.server.status;
      [Reading(s, q, status)] + Sends(Reading(s, q, status), q.session, q.header, status, status.next, status.received)
  }

  lemma PathFrom(c: Config, s: State, t: State, rest: seq<State>)
    requires ClientStep(c, s, t) && ClientPath(c, t, rest)
    ensures ClientPath(c, s, [t] + rest) && After(s, [t] + rest) == After(t, rest)
  {
    hide ClientStep;
    forall i | 0 <= i < |[t] + rest| ensures ClientStepAt(c, s, [t] + rest, i) {
      if i > 0 {
        assert ClientStepAt(c, t, rest, i - 1);
      }
    }
  }

  /** Frame n is next: the source fits the header, and `at` bytes of it come before. */
  ghost predicate Due(h: Stable, source: seq<byte>, n: nat, at: nat) {
    WellSized(h) && n <= h.frameCount && Expected(h, n) == Some(at) && |source| == h.originalSize
  }

  lemma NextFrame(h: Stable, source: seq<byte>, n: nat, at: nat)
    requires Due(h, source, n, at)
    ensures at <= |source| && n <= h.frameCount && (n == h.frameCount ==> at == |source|)
    ensures CanSeal(h, source, n, at) <==> n < h.frameCount
    ensures n < h.frameCount ==> NextLen(h, at) >= 0 && Due(h, source, n + 1, at + NextLen(h, at))
  {
    hide FrameCount;
    FramesLeft(n, h.frameSize, h.originalSize, h.frameCount);
    if n < h.frameCount {
      ExpectedStep(n, h.frameSize, h.originalSize, h.frameCount);
    }
  }

  lemma SealsFrame(c: Config, s: State, session: nat, h: Stable, status: Status, n: nat, at: nat)
    requires s.client.phase == Sending(session, h, status, n, at) && CanSeal(h, s.client.source, n, at)
    ensures var r := FrameAt(s.client.source, session, h, status, n, at);
            ClientStep(c, s, Sealing(s, r, Sending(session, h, status, n + 1, at + NextLen(h, at))))
  {
    hide WellSized, Expected;
    var r := FrameAt(s.client.source, session, h, status, n, at);
    assert SealFrame(c, s, Sealing(s, r, Sending(session, h, status, n + 1, at + NextLen(h, at))));
  }

  lemma SealsFinal(c: Config, s: State, session: nat, h: Stable, status: Status, n: nat, at: nat)
    requires s.client.phase == Sending(session, h, status, n, at) && n == h.frameCount
    ensures ClientStep(c, s, Sealing(s, Final(session, h, status, h.sourceHash), Awaiting(session, h)))
  {
    hide WellSized, Expected;
    assert SealFinal(c, s, Sealing(s, Final(session, h, status, h.sourceHash), Awaiting(session, h)));
  }

  /** The client can take these steps, and what it has sealed by then is what is sent. */
  lemma {:induction false} SendsAll(c: Config, s: State, session: nat, h: Stable, status: Status, n: nat, at: nat)
    requires s.client.phase == Sending(session, h, status, n, at) && Due(h, s.client.source, n, at)
    ensures var t := After(s, Sends(s, session, h, status, n, at));
            && ClientPath(c, s, Sends(s, session, h, status, n, at))
            && t.client == s.client.(phase := Awaiting(session, h)) && s.net.sealed <= t.net.sealed
            && Arrives(t, FramesOf(s.client.source, session, h, status, n, at), FinalOf(session, h, status))
    decreases h.frameCount - n
  {
    hide Due, ClientStep, ClientPath, CanSeal;
    NextFrame(h, s.client.source, n, at);
    if n < h.frameCount {
      var len := NextLen(h, at);
      var t := Sealing(s, FrameAt(s.client.source, session, h, status, n, at),
                       Sending(session, h, status, n + 1, at + len));
      SealsFrame(c, s, session, h, status, n, at);
      SendsAll(c, t, session, h, status, n + 1, at + len);
      PathFrom(c, s, t, Sends(t, session, h, status, n + 1, at + len));
    } else {
      var t := Sealing(s, Final(session, h, status, h.sourceHash), Awaiting(session, h));
      SealsFinal(c, s, session, h, status, n, at);
      NoPath(c, t);
      PathFrom(c, s, t, []);
      assert [t] + [] == [t];
    }
  }

  lemma NoPath(c: Config, s: State)
    ensures ClientPath(c, s, [])
  {
  }

  lemma FirstAccepted(source: seq<byte>, session: nat, h: Stable, status: Status, n: nat, at: nat)
    requires CanSeal(h, source, n, at)
    ensures var m := FramesOf(source, session, h, status, n, at)[0];
            FrameRefusal(m, session, h, status, n, at).None? && m.sealed.value.data == source[at..at + NextLen(h, at)]
  {
  }

  /** The receiver accepts all of them. */
  lemma {:induction false} AllAccepted(source: seq<byte>, session: nat, h: Stable, status: Status, n: nat, at: nat)
    requires Due(h, source, n, at)
    ensures at <= |source|
    ensures AcceptedCount(FramesOf(source, session, h, status, n, at), session, h, status, n, at) == h.frameCount - n
    ensures AcceptedData(FramesOf(source, session, h, status, n, at), session, h, status, n, at) == source[at..]
    decreases h.frameCount - n
  {
    hide Due, FrameRefusal;
    NextFrame(h, source, n, at);
    if n < h.frameCount {
      var len := NextLen(h, at);
      FirstAccepted(source, session, h, status, n, at);
      AllAccepted(source, session, h, status, n + 1, at + len);
      var frames := FramesOf(source, session, h, status, n, at);
      assert frames[1..] == FramesOf(source, session, h, status, n + 1, at + len);
      assert source[at..] == source[at..at + len] + source[at + len..];
    }
  }

  // The connection

  /** The client of a clean transfer has asked, and its source is this. */
  ghost predicate Asked(c: Config, s: State, q: Request, source: seq<byte>) {
    && CanAccept(s, q) && WellSized(q.header) && s.client.phase == Requested(q) && s.client.source == source
    && Clean(s.history, q.header.transferId)
  }

  /** Once the transfer is open and the status read, both ends are in step. */
  lemma OpenedInStep(c: Config, s: State, t: State, q: Request, source: seq<byte>)
    requires TicketsOk(c, s) && Asked(c, s, q, source) && OpenedFrom(s, t, q) && Inv(c, t)
    ensures var status := t.server.status;
            var u := Reading(t, q, status);
            && ClientStep(c, t, u) && InStep(c, u, q.session, q.header, status, status.next, status.received)
  {
    hide Inv;
    var status := t.server.status;
    var u := Reading(t, q, status);
    OpenedFacts(c, t);
    hide TicketsOk, WellSized, Expected;
    assert q.resume ==> q.ticket == Issued(q.header) by {
      TicketOf(c, s, q);
    }
    assert ReadStatus(c, t, u, status);
    assert Next(c, t, u);
    StepKeeps(c, t, u);
  }

  /** Such a client is reached from every initial state in one step. */
  lemma FirstRequest(c: Config, s: State, id: Id) returns (t: State)
    requires Init(s) && c.frameSize >= 1
    ensures var q := Request(1, HeaderFor(c, s.client.source, id), false, ZeroTicket);
            IsRun(c, [s, t]) && Asked(c, t, q, s.client.source) && t.disk == s.disk
  {
    var h := HeaderFor(c, s.client.source, id);
    var q := Request(1, h, false, ZeroTicket);
    t := s.(client := s.client.(phase := Requested(q), session := 1), net := s.net.(requests := {q}),
            history := s.history.(started := map[id := ResumeMachine.Start(h, s.client.source)]));
    hide FrameCount;
    assert StartNew(c, s, t, id);
    assert StepAt(c, [s, t], 0);
  }

  lemma TicketOf(c: Config, s: State, q: Request)
    requires TicketsOk(c, s) && q in s.net.requests
    ensures q.ticket == if q.resume then Issued(q.header) else ZeroTicket
  {
  }

  lemma OpenedFacts(c: Config, t: State)
    requires Inv(c, t) && t.server.Receiving?
    ensures Known(t.history, t.server.header) && WellSized(t.server.header)
    ensures Expected(t.server.header, t.server.next) == Some(t.server.received)
  {
    hide HistoryOk, SourceOk, ClientOk, NetOk;
    CheckpointHoldsAll(t.history, t.disk, t.server.header, t.server.next, t.server.received);
  }

  lemma HonestIsAble(c: Config, s: State, t: State, q: Request, source: seq<byte>)
    requires TicketsOk(c, s) && Asked(c, s, q, source) && OpenedFrom(s, t, q) && Inv(c, t)
    ensures var status := t.server.status;
            var u := After(t, HonestClient(t, q));
            && ClientPath(c, t, HonestClient(t, q))
            && u.client.phase == Awaiting(q.session, q.header)
            && Arrives(u, FramesOf(source, q.session, q.header, status, status.next, status.received),
                       FinalOf(q.session, q.header, status))
  {
    hide Inv, TicketsOk, InStep, ClientPath, Arrives, ClientStep;
    OpenedInStep(c, s, t, q, source);
    var status := t.server.status;
    var u := Reading(t, q, status);
    InStepFacts(c, u, q.session, q.header, status, status.next, status.received);
    hide WellSized, Expected;
    SendsAll(c, u, q.session, q.header, status, status.next, status.received);
    PathFrom(c, t, u, Sends(u, q.session, q.header, status, status.next, status.received));
  }

  lemma HonestIsAccepted(c: Config, s: State, t: State, q: Request, source: seq<byte>)
    requires TicketsOk(c, s) && Asked(c, s, q, source) && OpenedFrom(s, t, q) && Inv(c, t)
    ensures q.header.transferId in t.disk.partials
    ensures var status := t.server.status;
            var frames := FramesOf(source, q.session, q.header, status, status.next, status.received);
            Outcome(c, q, status, t.disk.partials[q.header.transferId].data, frames,
                    FinalOf(q.session, q.header, status)) == Ok(source)
  {
    hide Inv, TicketsOk, InStep, AcceptedCount, AcceptedData;
    OpenedInStep(c, s, t, q, source);
    var h, status := q.header, t.server.status;
    var u := Reading(t, q, status);
    InStepFacts(c, u, q.session, h, status, status.next, status.received);
    hide WellSized, Expected;
    AllAccepted(source, q.session, h, status, status.next, status.received);
    assert source[..status.received] + source[status.received..] == source;
  }

  /** When a clean transfer's request is refused. */
  lemma RefusedExactly(c: Config, run: seq<State>, i: nat, q: Request, source: seq<byte>)
    requires IsRun(c, run) && i < |run| && Asked(c, run[i], q, source)
    ensures Refusal(c, run[i].disk, q).None?
            <==> DestinationFree(c, run[i], q.header) && (q.resume ==> q.header.transferId in run[i].disk.partials)
  {
    hide Inv, TicketsOk, IsRun, WellSized;
    RunTickets(c, run, i);
    RunOnce(c, run, i);
    TicketOf(c, run[i], q);
    if q.resume && StateRefusal(run[i].disk, q.header).Some? {
      WhyResumeFails(c, run, i, q);
    }
  }

  /**
   A connection of an honest client, from its request to its receipt.  With a source and a partial
   file that nobody altered it fails only if the destination is taken or, for a resumed transfer, the
   partial file is gone; otherwise the destination gets the source and the client its receipt.
   */
  method ServeHonestClient(store: Store, q: Request, source: seq<byte>) returns (r: Result<(), ServerError>)
    requires store.Valid() && Asked(store.config, store.state, q, source)
    modifies store
    ensures store.Valid() && old(store.trace) <= store.trace
    ensures r.Ok? <==> DestinationFree(store.config, old(store.state), q.header)
                       && (q.resume ==> q.header.transferId in old(store.partials))
    ensures r.Err? ==> store.destinations == old(store.destinations)
    ensures r.Ok? ==>
              var h := q.header;
              && store.destinations == old(store.destinations)[h.filename := source]
              && h.transferId !in store.partials && h.transferId !in store.checkpoints
              && h.transferId in store.state.history.receipts && store.state.client.saved == None
  {
    hide Inv, IsRun, TicketsOk, ClientPath, Arrives, Outcome, ClientStep, WellSized;
    ghost var c, s := store.config, store.state;
    NotEmpty(c, store.trace);
    RunTickets(c, store.trace, |store.trace| - 1);
    RefusedExactly(c, store.trace, |store.trace| - 1, q, source);
    forall t: State | Inv(c, t) && OpenedFrom(s, t, q)
      ensures ClientPath(c, t, HonestClient(t, q))
              && var status := t.server.status;
                 Arrives(After(t, HonestClient(t, q)),
                         FramesOf(source, q.session, q.header, status, status.next, status.received),
                         FinalOf(q.session, q.header, status))
    {
      HonestIsAble(c, s, t, q, source);
    }
    ghost var start: State;
    r, start := store.ServeTransfer(
      q,
      (status: Status) => FramesOf(source, q.session, q.header, status, status.next, status.received),
      (status: Status) => FinalOf(q.session, q.header, status),
      t => HonestClient(t, q));
    if Refusal(c, s.disk, q).None? {
      HonestIsAble(c, s, start, q, source);
      HonestIsAccepted(c, s, start, q, source);
      ReadsReceipt(c, store.state, q);
      store.ClientActs([Receipted(store.state, q.header)]);
    }
  }

  /** From an empty server: the file is delivered exactly if its destination is free. */
  method DeliverFirst(c: Config, disk: Disk, source: seq<byte>, id: Id, ghost s: State)
    returns (store: Store, r: Result<(), ServerError>)
    requires Init(s) && s.disk == disk && s.client.source == source && c.frameSize >= 1
    ensures store.Valid() && fresh(store)
    ensures r.Ok? <==> c.overwrite || c.name !in disk.destinations
    ensures store.destinations == if r.Ok? then disk.destinations[c.name := source] else disk.destinations
    ensures r.Ok? ==> id in store.state.history.receipts
  {
    hide Init, IsRun, Inv, Asked;
    ghost var t := FirstRequest(c, s, id);
    store := new Store(c, disk, [s, t]);
    r := ServeHonestClient(store, Request(1, HeaderFor(c, source, id), false, ZeroTicket), source);
  }

  lemma NotEmpty(c: Config, run: seq<State>)
    requires IsRun(c, run)
    ensures run != []
  {
  }

  ghost function Receipted(s: State, h: Stable): State {
    s.(client := s.client.(saved := None, phase := Resting),
       history := s.history.(receipts := s.history.receipts + {h.transferId}))
  }

  lemma ReadsReceipt(c: Config, s: State, q: Request)
    requires WellSized(q.header) && s.client.phase == Awaiting(q.session, q.header)
    requires Ack(q.session, q.header.originalSize, q.header.sourceHash, q.header.transferId) in s.net.acks
    ensures ClientPath(c, s, [Receipted(s, q.header)])
  {
    assert ReadAck(c, s, Receipted(s, q.header));
    assert ClientStepAt(c, s, [Receipted(s, q.header)], 0);
  }
}
