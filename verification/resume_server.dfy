/**
 The receiving side of src/ubin/secure/resume.py on its files.  Every change of a file is one step
 of the machine, so a crash between any two statements is one of the crashes of the machine.
 */
module ResumeServer {
  import opened Bytes
  import opened Framing
  import opened ResumeChecks
  import opened ResumeMachine
  import opened ResumeSafety
  import opened TransferFormat

  datatype ServerError =
    | TicketForbidden
    | StateExists
    | OutputExists
    | InvalidTicket
    | NoState
    | MetadataMismatch
    | FrameRange
    | InconsistentBytes
    | PartialMissing
    | PartialTooShort
    | Closed
    | FrameOrder
    | FrameLength
    | CiphertextLength
    | Authentication
    | FinalMissing
    | FinalLength
    | DigestMismatch
    | ContentMismatch

  /** What arrives as a frame: the numbers in its record, and what was sealed, if anything was. */
  datatype Incoming = Incoming(number: nat, plaintextLen: nat, ciphertextLen: nat, sealed: Option<Sealed>)

  datatype IncomingFinal = IncomingFinal(magic: seq<byte>, length: nat, sealed: Option<Sealed>)

  // What is refused

  function NewRefusal(c: Config, d: Disk, q: Request): Option<ServerError> {
    if q.ticket != ZeroTicket then Some(TicketForbidden)
    else if q.header.transferId in d.checkpoints then Some(StateExists)
    else if q.header.filename in d.destinations && !c.overwrite then Some(OutputExists)
    else None
  }

  /** The checks of a stored checkpoint and its partial file, in order. */
  function StateRefusal(d: Disk, h: Stable): Option<ServerError>
    requires WellSized(h)
  {
    var id := h.transferId;
    if id !in d.checkpoints then Some(NoState)
    else
      var cp := d.checkpoints[id];
      if cp.header != h then Some(MetadataMismatch)
      else match Expected(h, cp.next)
           case None => Some(FrameRange)
           case Some(bytes) =>
             if cp.received != bytes then Some(InconsistentBytes)
             else if id !in d.partials then Some(PartialMissing)
             else if |d.partials[id].data| < cp.received then Some(PartialTooShort)
             else None
  }

  function ResumeRefusal(c: Config, d: Disk, q: Request): Option<ServerError>
    requires WellSized(q.header)
  {
    if q.ticket != Issued(q.header) then Some(InvalidTicket)
    else if StateRefusal(d, q.header).Some? then StateRefusal(d, q.header)
    else if q.header.filename in d.destinations && !c.overwrite then Some(OutputExists)
    else None
  }

  function Refusal(c: Config, d: Disk, q: Request): Option<ServerError>
    requires WellSized(q.header)
  {
    if q.resume then ResumeRefusal(c, d, q) else NewRefusal(c, d, q)
  }

  /** Exactly when a request is accepted: sent, not answered yet, with its state there, and the destination free. */
  lemma AcceptedExactly(c: Config, s: State, q: Request)
    requires WellSized(q.header) && CanAccept(s, q)
    ensures Refusal(c, s.disk, q).None?
            <==> MayOpen(c, s, q) && (c.overwrite || q.header.filename !in s.disk.destinations)
  {
    hide WellSized, Expected;
    var id := q.header.transferId;
    if id in s.disk.checkpoints && s.disk.checkpoints[id].header == q.header {
      var cp := s.disk.checkpoints[id];
      ExpectedIsPosition(q.header, cp.next, cp.received);
    }
  }

  // What arrives

  /** Opens exactly what was sealed for this connection, header, status, number and length. */
  predicate Opens(m: Incoming, session: nat, h: Stable, status: Status, number: nat, len: nat) {
    && m.sealed.Some? && m.sealed.value.Frame?
    && m.sealed.value == Frame(session, h, status, number, m.sealed.value.data) && |m.sealed.value.data| == len
  }

  function FrameRefusal(m: Incoming, session: nat, h: Stable, status: Status, n: nat, received: nat)
    : Option<ServerError>
  {
    if m.number != n then Some(FrameOrder)
    else if m.plaintextLen != NextLen(h, received) then Some(FrameLength)
    else if m.ciphertextLen != m.plaintextLen + GCM_TAG_SIZE then Some(CiphertextLength)
    else if !Opens(m, session, h, status, n, m.plaintextLen) then Some(Authentication)
    else None
  }

  /** A frame is accepted exactly if its numbers are right and it was sealed with them. */
  lemma FrameAcceptedExactly(m: Incoming, session: nat, h: Stable, status: Status, n: nat, received: nat)
    ensures FrameRefusal(m, session, h, status, n, received).None?
            <==> && m.number == n && m.ciphertextLen == m.plaintextLen + 16
                 && m.plaintextLen
                    == (if h.frameSize <= h.originalSize - received then h.frameSize else h.originalSize - received)
                 && exists data :: m.sealed == Some(Frame(session, h, status, n, data)) && |data| == m.plaintextLen
  {
  }

  /** The data of the frames that are accepted before the first that is not. */
  function AcceptedData(incoming: seq<Incoming>, session: nat, h: Stable, status: Status, n: nat, received: nat)
    : seq<byte>
    decreases h.frameCount - n
  {
    if n >= h.frameCount || incoming == [] || FrameRefusal(incoming[0], session, h, status, n, received).Some? then []
    else
      var data := incoming[0].sealed.value.data;
      data + AcceptedData(incoming[1..], session, h, status, n + 1, received + |data|)
  }

  /** How many frames are accepted. */
  function AcceptedCount(incoming: seq<Incoming>, session: nat, h: Stable, status: Status, n: nat, received: nat)
    : (k: nat)
    ensures n <= h.frameCount ==> n + k <= h.frameCount
    decreases h.frameCount - n
  {
    if n >= h.frameCount || incoming == [] || FrameRefusal(incoming[0], session, h, status, n, received).Some? then 0
    else 1 + AcceptedCount(incoming[1..], session, h, status, n + 1, received + |incoming[0].sealed.value.data|)
  }

  ghost predicate AllSealed(incoming: seq<Incoming>, sealed: set<Sealed>) {
    forall m :: m in incoming && m.sealed.Some? ==> m.sealed.value in sealed
  }

  /** The final record opens only as the one sealed for this connection, header and status. */
  function FinalRefusal(m: IncomingFinal, session: nat, h: Stable, status: Status): Option<ServerError> {
    if m.magic != NETWORK_FINAL_MAGIC then Some(FinalMissing)
    else if m.length != FINAL_CIPHERTEXT_SIZE then Some(FinalLength)
    else if m.sealed.None? || !m.sealed.value.Final?
            || m.sealed.value != Final(session, h, status, m.sealed.value.digest)
    then Some(Authentication)
    else if m.sealed.value.digest != h.sourceHash then Some(DigestMismatch)
    else None
  }

  /** A final record is accepted exactly if it is "NEND", 48 and the sealed hash of the header. */
  lemma FinalAcceptedExactly(m: IncomingFinal, session: nat, h: Stable, status: Status)
    ensures FinalRefusal(m, session, h, status).None?
            <==> m == IncomingFinal([78, 69, 78, 68], 48, Some(Final(session, h, status, h.sourceHash)))
  {
  }

  lemma OpenedData(m: Incoming, session: nat, h: Stable, status: Status, n: nat, received: nat)
    requires FrameRefusal(m, session, h, status, n, received).None?
    ensures m.sealed.Some? && m.sealed.value.Frame?
    ensures m.sealed.value == Frame(session, h, status, n, m.sealed.value.data)
            && |m.sealed.value.data| == NextLen(h, received)
  {
  }

  /** The frames from `next` to n have been accepted, and they hold `data`. */
  ghost predicate Taken(incoming: seq<Incoming>, session: nat, h: Stable, status: Status, next: nat, received: nat,
                        n: nat, current: nat, data: seq<byte>) {
    && next <= n <= next + |incoming| && current == received + |data|
    && AcceptedCount(incoming, session, h, status, next, received)
       == n - next + AcceptedCount(incoming[n - next..], session, h, status, n, current)
    && AcceptedData(incoming, session, h, status, next, received)
       == data + AcceptedData(incoming[n - next..], session, h, status, n, current)
  }

  lemma TakenNothing(incoming: seq<Incoming>, session: nat, h: Stable, status: Status, next: nat, received: nat)
    ensures Taken(incoming, session, h, status, next, received, next, received, [])
  {
    assert incoming[0..] == incoming;
  }

  lemma TakenOne(incoming: seq<Incoming>, session: nat, h: Stable, status: Status, next: nat, received: nat,
                 n: nat, current: nat, data: seq<byte>)
    requires Taken(incoming, session, h, status, next, received, n, current, data) && n - next < |incoming|
             && n < h.frameCount
    requires FrameRefusal(incoming[n - next], session, h, status, n, current).None?
    ensures var plaintext := incoming[n - next].sealed.value.data;
            Taken(incoming, session, h, status, next, received, n + 1, current + |plaintext|, data + plaintext)
  {
    hide FrameRefusal;
    var rest := incoming[n - next..];
    assert rest[0] == incoming[n - next] && rest[1..] == incoming[n + 1 - next..];
  }

  lemma TakenAll(incoming: seq<Incoming>, session: nat, h: Stable, status: Status, next: nat, received: nat,
                 n: nat, current: nat, data: seq<byte>)
    requires Taken(incoming, session, h, status, next, received, n, current, data)
    requires n >= h.frameCount || n - next == |incoming|
             || FrameRefusal(incoming[n - next], session, h, status, n, current).Some?
    ensures AcceptedCount(incoming, session, h, status, next, received) == n - next
    ensures AcceptedData(incoming, session, h, status, next, received) == data
  {
    hide FrameRefusal;
    var rest := incoming[n - next..];
    assert n - next < |incoming| ==> rest[0] == incoming[n - next];
  }

  // The client meanwhile

  /** The state after the first i steps. */
  function At(s: State, steps: seq<State>, i: nat): State
    requires i <= |steps|
  {
    if i == 0 then s else steps[i - 1]
  }

  function After(s: State, steps: seq<State>): State {
    At(s, steps, |steps|)
  }

  ghost predicate ClientStepAt(c: Config, s: State, steps: seq<State>, i: nat)
    requires i < |steps|
  {
    ClientStep(c, At(s, steps, i), steps[i])
  }

  /** Steps of the client, one after the other. */
  ghost predicate ClientPath(c: Config, s: State, steps: seq<State>) {
    forall i :: 0 <= i < |steps| ==> ClientStepAt(c, s, steps, i)
  }

  lemma ClientKeepsServer(c: Config, s: State, s': State)
    requires ClientStep(c, s, s')
    ensures Next(c, s, s') && s'.disk == s.disk && s'.server == s.server && s'.served == s.served
    ensures s.net.sealed <= s'.net.sealed && s'.history.publications == s.history.publications
  {
    hide WellSized, Expected, HeaderFor;
  }

  lemma {:induction false} ClientPathKeepsServer(c: Config, s: State, steps: seq<State>, i: nat)
    requires ClientPath(c, s, steps) && i <= |steps|
    ensures var t := At(s, steps, i); t.disk == s.disk && t.server == s.server
  {
    hide ClientStep;
    if i > 0 {
      ClientPathKeepsServer(c, s, steps, i - 1);
      assert ClientStepAt(c, s, steps, i - 1);
      ClientKeepsServer(c, At(s, steps, i - 1), steps[i - 1]);
    }
  }

  lemma ClientKeepsFiles(c: Config, s: State, steps: seq<State>)
    requires ClientPath(c, s, steps)
    ensures After(s, steps).disk == s.disk && After(s, steps).server == s.server
  {
    ClientPathKeepsServer(c, s, steps, |steps|);
  }

  /** What opening the transfer makes of a state: the status is sent, and the client does not know it yet. */
  ghost predicate OpenedFrom(s: State, t: State, q: Request) {
    && t.server.Receiving? && t.client == s.client && t.history == s.history
    && t.net == s.net.(statuses := s.net.statuses + {(q.session, t.server.status)})
    && t.disk.destinations == s.disk.destinations
    && var status := t.server.status;
       t.server == Receiving(q.session, q.header, status.next, status.received, status)
       && status.ticket == Issued(q.header)
  }

  /** Whatever opens was sealed by then. */
  ghost predicate Arrives(s: State, frames: seq<Incoming>, final: IncomingFinal) {
    AllSealed(frames, s.net.sealed) && (final.sealed.Some? ==> final.sealed.value in s.net.sealed)
  }

  // The server

  class Store {
    const config: Config
    var partials: map<Id, File>
    var checkpoints: map<Id, Checkpoint>
    var destinations: map<Name, seq<byte>>
    ghost var state: State
    ghost var trace: seq<State>

    ghost predicate Valid()
      reads this
    {
      && IsRun(config, trace) && trace[|trace| - 1] == state && Inv(config, state)
      && state.disk == Disk(partials, checkpoints, destinations)
    }

    /** The files as some run of the machine has left them. */
    constructor (config: Config, disk: Disk, ghost run: seq<State>)
      requires IsRun(config, run) && run[|run| - 1].disk == disk
      ensures Valid() && trace == run && this.config == config
    {
      this.config := config;
      partials, checkpoints, destinations := disk.partials, disk.checkpoints, disk.destinations;
      state, trace := run[|run| - 1], run;
      new;
      RunKeeps(config, run, |run| - 1);
    }

    /** Records that the files have taken the next step of the machine. */
    ghost method Advance(s: State)
      requires IsRun(config, trace) && trace[|trace| - 1] == state && Inv(config, state)
      requires Next(config, state, s) && s.disk == Disk(partials, checkpoints, destinations)
      modifies this`state, this`trace
      ensures Valid() && state == s && trace == old(trace) + [s]
    {
      StepKeeps(config, state, s);
      ExtendRun(config, trace, s);
      state := s;
      trace := trace + [s];
    }

    /** While the server waits for the network, the client takes steps. */
    ghost method ClientActs(steps: seq<State>)
      requires Valid() && ClientPath(config, state, steps)
      modifies this`state, this`trace
      ensures Valid() && state == After(old(state), steps) && trace == old(trace) + steps
    {
      hide Inv, IsRun, ClientStep;
      for i := 0 to |steps|
        invariant Valid() && state == After(old(state), steps[..i]) && trace == old(trace) + steps[..i]
      {
        assert After(old(state), steps[..i]) == At(old(state), steps, i);
        assert ClientStepAt(config, old(state), steps, i);
        ClientKeepsServer(config, state, steps[i]);
        Advance(steps[i]);
        assert steps[..i] + [steps[i]] == steps[..i + 1];
      }
      assert steps[..|steps|] == steps;
    }

    /** The attempt ends; the files stay as they are. */
    ghost method Stop()
      requires Valid()
      modifies this`state, this`trace
      ensures Valid() && state == old(state).(server := Idle) && trace == old(trace) + [state]
    {
      assert ServerStops(config, state, state.(server := Idle));
      Advance(state.(server := Idle));
    }

    /** Replaces the checkpoint file: the first time after the partial file was made, then after every synced frame. */
    method WriteServerState(h: Stable, nextFrame: nat, bytesReceived: nat)
      requires Valid()
      requires (state.server.Created? && state.server.header == h && nextFrame == 0 && bytesReceived == 0)
            || (state.server.Synced? && state.server.header == h
                && nextFrame == state.server.next + 1 && bytesReceived == state.server.received)
      modifies this
      ensures Valid() && partials == old(partials) && destinations == old(destinations)
      ensures checkpoints == old(checkpoints)[h.transferId := Checkpoint(h, nextFrame, bytesReceived)]
      ensures trace == old(trace) + [state]
      ensures state.net == old(state.net) && state.history == old(state.history) && state.client == old(state.client)
      ensures state.served == old(state.served)
      ensures if old(state.server).Created? then state.server == Replying(old(state.server).session, h, 0, 0)
              else state.server
                   == Receiving(old(state.server).session, h, nextFrame, bytesReceived, old(state.server).status)
    {
      hide Inv, IsRun;
      checkpoints := checkpoints[h.transferId := Checkpoint(h, nextFrame, bytesReceived)];
      ghost var sv := state.server;
      ghost var d := state.disk.(checkpoints := checkpoints);
      ghost var s: State;
      if sv.Created? {
        s := state.(server := Replying(sv.session, h, 0, 0), disk := d);
        assert FirstCheckpoint(config, state, s);
      } else {
        s := state.(server := Receiving(sv.session, h, nextFrame, bytesReceived, sv.status), disk := d);
        assert SaveCheckpoint(config, state, s);
      }
      Advance(s);
    }

    /** Removes the partial file, then the checkpoint. */
    method DiscardServerState(h: Stable)
      requires Valid() && state.server.Verified? && state.server.header == h
      requires h.transferId in partials && config.hash(partials[h.transferId].data) != h.sourceHash
      modifies this
      ensures Valid() && destinations == old(destinations) && old(trace) <= trace && |trace| == |old(trace)| + 2
      ensures partials == old(partials) - {h.transferId} && checkpoints == old(checkpoints) - {h.transferId}
      ensures state.server == Idle && state.net == old(state.net) && state.history == old(state.history)
      ensures state.client == old(state.client)
    {
      hide Inv, IsRun;
      partials := partials - {h.transferId};
      ghost var s :=
        state.(server := Discarding(state.server.session, h), disk := RemoveFile(state.disk, h.transferId));
      assert RejectContent(config, state, s);
      Advance(s);
      checkpoints := checkpoints - {h.transferId};
      ghost var s' := state.(server := Idle, disk := state.disk.(checkpoints := checkpoints));
      assert DropCheckpoint(config, state, s');
      Advance(s');
    }

    // Opening a transfer

    /** Makes the empty partial file and its checkpoint, removing a leftover file first. */
    method OpenNew(q: Request)
      requires Valid() && CanAccept(state, q) && !q.resume
      requires NewRefusal(config, Disk(partials, checkpoints, destinations), q).None?
      modifies this
      ensures Valid() && destinations == old(destinations) && old(trace) <= trace && |trace| == |old(trace)| + 3
      ensures partials == old(partials)[q.header.transferId := File([], 0)]
      ensures checkpoints == old(checkpoints)[q.header.transferId := Checkpoint(q.header, 0, 0)]
      ensures state.server == Replying(q.session, q.header, 0, 0) && state.served == q.session
      ensures state.net == old(state.net) && state.history == old(state.history) && state.client == old(state.client)
    {
      hide Inv, IsRun;
      var id := q.header.transferId;
      partials := partials - {id};
      ghost var s :=
        state.(server := Unlinked(q.session, q.header), served := q.session, disk := RemoveFile(state.disk, id));
      assert AcceptNew(config, state, s, q);
      Advance(s);
      partials := partials[id := File([], 0)];
      s := state.(server := Created(q.session, q.header), disk := SetFile(state.disk, id, File([], 0)));
      assert CreatePartial(config, state, s);
      Advance(s);
      WriteServerState(q.header, 0, 0);
    }

    /** Checks the checkpoint and cuts the partial file back to it. */
    method ValidateServerState(q: Request) returns (r: Result<(nat, nat), ServerError>)
      requires Valid() && CanAccept(state, q) && q.resume && q.ticket == Issued(q.header) && WellSized(q.header)
      modifies this
      ensures Valid() && old(trace) <= trace && checkpoints == old(checkpoints) && destinations == old(destinations)
      ensures state.net == old(state.net) && state.history == old(state.history) && state.client == old(state.client)
      ensures r.Err? <==> StateRefusal(old(state.disk), q.header).Some?
      ensures r.Err? ==>
                Some(r.error) == StateRefusal(old(state.disk), q.header) && state == old(state) && trace == old(trace)
      ensures r.Ok? ==>
                var id := q.header.transferId;
                && id in checkpoints && checkpoints[id] == Checkpoint(q.header, r.value.0, r.value.1)
                && id in old(partials) && r.value.1 <= |old(partials)[id].data|
                && partials.Keys == old(partials).Keys
                && (forall i :: i in partials && i != id ==> partials[i] == old(partials)[i])
                && partials[id].data == old(partials)[id].data[..r.value.1]
                && state.server == Validated(q.session, q.header, r.value.0, r.value.1) && state.served == q.session
    {
      hide Inv, IsRun, WellSized;
      var h, id := q.header, q.header.transferId;
      if id !in checkpoints {
        return Err(NoState);
      }
      var cp := checkpoints[id];
      if cp.header != h {
        return Err(MetadataMismatch);
      }
      var bytes := Expected(h, cp.next);
      if bytes.None? {
        return Err(FrameRange);
      }
      if cp.received != bytes.value {
        return Err(InconsistentBytes);
      }
      if id !in partials {
        return Err(PartialMissing);
      }
      var f := partials[id];
      if |f.data| < cp.received {
        return Err(PartialTooShort);
      }
      assert MayResume(state, q);
      if |f.data| > cp.received {
        CutBack(q, cp, f);
      } else {
        ghost var s := state.(server := Validated(q.session, h, cp.next, cp.received), served := q.session);
        assert AcceptResume(config, state, s, q);
        assert f.data[..cp.received] == f.data;
        Advance(s);
      }
      return Ok((cp.next, cp.received));
    }

    /** Crash recovery: bytes beyond the checkpoint are cut off, and the file is synced. */
    method CutBack(q: Request, cp: Checkpoint, f: File)
      requires Valid() && CanAccept(state, q) && MayResume(state, q)
      requires cp == checkpoints[q.header.transferId] && f == partials[q.header.transferId] && |f.data| > cp.received
      modifies this
      ensures Valid() && old(trace) <= trace && checkpoints == old(checkpoints) && destinations == old(destinations)
      ensures state.net == old(state.net) && state.history == old(state.history) && state.client == old(state.client)
      ensures partials == old(partials)[q.header.transferId := File(f.data[..cp.received], cp.received)]
      ensures state.server == Validated(q.session, q.header, cp.next, cp.received) && state.served == q.session
    {
      hide Inv, IsRun, WellSized, Expected;
      var id := q.header.transferId;
      partials := partials[id := TruncateTo(f, cp.received)];
      ghost var s := state.(server := Truncated(q.session, q.header, cp.next, cp.received), served := q.session,
                            disk := SetFile(state.disk, id, TruncateTo(f, cp.received)));
      assert AcceptResume(config, state, s, q);
      Advance(s);
      partials := partials[id := SyncFile(partials[id])];
      s := state.(server := Validated(q.session, q.header, cp.next, cp.received),
                  disk := SetFile(state.disk, id, partials[id]));
      assert SyncTruncation(config, state, s);
      Advance(s);
    }

    /**
     From the request to the status.  It is refused exactly as the checks say; otherwise the partial
     file holds what the checkpoint in the status counts, and nothing else.
     */
    method OpenTransfer(q: Request) returns (r: Result<Status, ServerError>)
      requires Valid() && CanAccept(state, q) && WellSized(q.header)
      modifies this
      ensures Valid() && old(trace) <= trace && destinations == old(destinations)
      ensures r.Err? <==> Refusal(config, old(state.disk), q).Some?
      ensures r.Err? ==>
                Some(r.error) == Refusal(config, old(state.disk), q) && state.server == Idle
                && checkpoints == old(checkpoints)
      ensures r.Ok? ==>
                var id := q.header.transferId;
                && state.server == Receiving(q.session, q.header, r.value.next, r.value.received, r.value)
                && (q.session, r.value) in state.net.statuses && r.value.ticket == Issued(q.header)
                && id in checkpoints && checkpoints[id] == Checkpoint(q.header, r.value.next, r.value.received)
                && id in partials && |partials[id].data| == r.value.received
                && (q.resume ==> checkpoints == old(checkpoints) && id in old(partials)
                                 && partials[id].data <= old(partials)[id].data)
                && (!q.resume ==> r.value.received == 0 && id !in old(checkpoints))
      ensures r.Ok? ==> OpenedFrom(old(state), state, q) && state.server.status == r.value
      ensures r.Ok? <==> MayOpen(config, old(state), q) && (config.overwrite || q.header.filename !in old(destinations))
    {
      hide Inv, IsRun, MayOpen;
      AcceptedExactly(config, state, q);
      var next, received := 0, 0;
      if !q.resume {
        var refusal := NewRefusal(config, Disk(partials, checkpoints, destinations), q);
        if refusal.Some? {
          return Err(refusal.value);
        }
        OpenNew(q);
      } else {
        if q.ticket != Issued(q.header) {
          return Err(InvalidTicket);
        }
        var valid := ValidateServerState(q);
        if valid.Err? {
          return Err(valid.error);
        }
        next, received := valid.value.0, valid.value.1;
        if q.header.filename in destinations && !config.overwrite {
          Stop();
          return Err(OutputExists);
        }
        ghost var s := state.(server := Replying(q.session, q.header, next, received));
        assert CheckDestination(config, state, s);
        Advance(s);
      }
      var status := Status(next, received, Issued(q.header));
      ghost var s := state.(server := Receiving(q.session, q.header, next, received, status),
                            net := state.net.(statuses := state.net.statuses + {(q.session, status)}));
      assert SendStatus(config, state, s);
      Advance(s);
      return Ok(status);
    }

    // Receiving

    method WritePartial(data: seq<byte>, session: nat, h: Stable, status: Status, n: nat, received: nat)
      requires Valid() && state.server == Receiving(session, h, n, received, status) && n < h.frameCount
      requires Frame(session, h, status, n, data) in state.net.sealed && |data| == NextLen(h, received)
      modifies this
      ensures Valid() && destinations == old(destinations) && checkpoints == old(checkpoints)
              && trace == old(trace) + [state]
      ensures h.transferId in old(partials) && h.transferId in partials
      ensures partials[h.transferId].data == old(partials)[h.transferId].data + data
      ensures state.server == Written(session, h, n, received + |data|, status)
      ensures state.net == old(state.net) && state.history == old(state.history) && state.client == old(state.client)
    {
      hide IsRun, HistoryOk, SourceOk, ClientOk, NetOk, DiskOk, WellSized, Expected;
      var id := h.transferId;
      assert AtCheckpoint(state.disk, h, n, received);
      hide Inv, IsRun;
      ghost var f := partials[id];
      partials := partials[id := WriteAt(partials[id], received, data)];
      assert partials[id].data == f.data + data;
      ghost var s :=
        state.(server := Written(session, h, n, received + |data|, status),
               disk := SetFile(state.disk, id, partials[id]));
      assert WriteFrame(config, state, s, data);
      Advance(s);
    }

    method SyncPartial(session: nat, h: Stable, status: Status, n: nat, received: nat)
      requires Valid() && state.server == Written(session, h, n, received, status) && h.transferId in partials
      modifies this
      ensures Valid() && destinations == old(destinations) && checkpoints == old(checkpoints)
              && trace == old(trace) + [state]
      ensures partials == old(partials)[h.transferId := SyncFile(old(partials)[h.transferId])]
      ensures state.server == Synced(session, h, n, received, status)
      ensures state.net == old(state.net) && state.history == old(state.history) && state.client == old(state.client)
    {
      hide Inv, IsRun;
      var id := h.transferId;
      partials := partials[id := SyncFile(partials[id])];
      ghost var s :=
        state.(server := Synced(session, h, n, received, status), disk := SetFile(state.disk, id, partials[id]));
      assert SyncFrame(config, state, s);
      Advance(s);
    }

    /** One accepted frame: written, then synced, then counted. */
    method StoreFrame(data: seq<byte>, session: nat, h: Stable, status: Status, n: nat, received: nat)
      requires Valid() && state.server == Receiving(session, h, n, received, status) && n < h.frameCount
      requires Frame(session, h, status, n, data) in state.net.sealed && |data| == NextLen(h, received)
      modifies this
      ensures Valid() && destinations == old(destinations) && old(trace) <= trace && |trace| == |old(trace)| + 3
      ensures h.transferId in old(partials) && h.transferId in partials
      ensures partials[h.transferId].data == old(partials)[h.transferId].data + data
      ensures checkpoints == old(checkpoints)[h.transferId := Checkpoint(h, n + 1, received + |data|)]
      ensures state.server == Receiving(session, h, n + 1, received + |data|, status)
      ensures state.net == old(state.net) && state.history == old(state.history) && state.client == old(state.client)
    {
      hide Valid;
      WritePartial(data, session, h, status, n, received);
      SyncPartial(session, h, status, n, received + |data|);
      WriteServerState(h, n + 1, received + |data|);
    }

    /**
     The frame loop.  The frames before the first bad one are stored and counted, in three durable
     steps each; with a bad frame, or too few, the attempt ends and everything stored stays.
     */
    method ReceiveFrames(incoming: seq<Incoming>, session: nat, h: Stable, status: Status, next: nat, received: nat)
      returns (r: Result<nat, ServerError>)
      requires Valid() && state.server == Receiving(session, h, next, received, status)
               && AllSealed(incoming, state.net.sealed)
      modifies this
      ensures Valid() && destinations == old(destinations) && old(trace) <= trace
      ensures state.net == old(state.net) && state.history == old(state.history) && state.client == old(state.client)
      ensures var k := AcceptedCount(incoming, session, h, status, next, received);
              var data := AcceptedData(incoming, session, h, status, next, received);
              && h.transferId in old(partials) && h.transferId in partials && h.transferId in checkpoints
              && partials[h.transferId].data == old(partials)[h.transferId].data + data
              && checkpoints[h.transferId] == Checkpoint(h, next + k, received + |data|)
              && (r.Ok? <==> next + k == h.frameCount)
              && (r.Ok? ==> r.value == k && |trace| == |old(trace)| + 3 * k && received + |data| == h.originalSize
                            && state.server == Receiving(session, h, next + k, received + |data|, status))
              && (r.Err? ==> state.server == Idle && |trace| == |old(trace)| + 3 * k + 1
                             && Some(r.error) == if k < |incoming|
                                                 then FrameRefusal(incoming[k], session, h, status, next + k,
                                                                   received + |data|)
                                                 else Some(Closed))
    {
      hide Valid, FrameRefusal, WellSized, Taken, AcceptedCount, AcceptedData;
      var current: nat := received;
      AtFrame(session, h, status, next, received);
      TakenNothing(incoming, session, h, status, next, received);
      ghost var data: seq<byte> := [];
      ghost var id, was := h.transferId, partials[h.transferId].data;
      for n: nat := next to h.frameCount
        invariant Valid() && state.server == Receiving(session, h, n, current, status)
                  && AllSealed(incoming, state.net.sealed)
        invariant destinations == old(destinations) && old(trace) <= trace && |trace| == |old(trace)| + 3 * (n - next)
        invariant id in partials && partials[id].data == was + data && next <= n <= next + |incoming|
                  && current == received + |data|
        invariant Taken(incoming, session, h, status, next, received, n, current, data)
        invariant state.net == old(state.net) && state.history == old(state.history)
                  && state.client == old(state.client)
      {
        AtFrame(session, h, status, n, current);
        if n - next == |incoming| {
          TakenAll(incoming, session, h, status, next, received, n, current, data);
          Stop();
          return Err(Closed);
        }
        var m := incoming[n - next];
        var refusal := FrameRefusal(m, session, h, status, n, current);
        if refusal.Some? {
          TakenAll(incoming, session, h, status, next, received, n, current, data);
          Stop();
          return Err(refusal.value);
        }
        OpenedData(m, session, h, status, n, current);
        TakenOne(incoming, session, h, status, next, received, n, current, data);
        var plaintext := m.sealed.value.data;
        StoreFrame(plaintext, session, h, status, n, current);
        assert was + data + plaintext == was + (data + plaintext);
        data := data + plaintext;
        current := current + |plaintext|;
      }
      AtFrame(session, h, status, h.frameCount, current);
      TakenAll(incoming, session, h, status, next, received, h.frameCount, current, data);
      return Ok(h.frameCount - next);
    }

    lemma AtFrame(session: nat, h: Stable, status: Status, n: nat, received: nat)
      requires Valid() && state.server == Receiving(session, h, n, received, status)
      ensures WellSized(h) && n <= h.frameCount && received <= h.originalSize
              && (n == h.frameCount ==> received == h.originalSize)
      ensures h.transferId in partials && |partials[h.transferId].data| == received
      ensures h.transferId in checkpoints && checkpoints[h.transferId] == Checkpoint(h, n, received)
    {
      hide IsRun, HistoryOk, SourceOk, ClientOk, NetOk, FrameCount;
      CheckpointHoldsAll(state.history, state.disk, h, n, received);
      FramesLeft(n, h.frameSize, h.originalSize, h.frameCount);
    }

    // Finishing

    /** The final record is checked; the partial file is synced once more. */
    method ReceiveFinal(m: IncomingFinal, session: nat, h: Stable, status: Status, next: nat, received: nat)
      returns (r: Result<(), ServerError>)
      requires Valid() && state.server == Receiving(session, h, next, received, status) && next == h.frameCount
      requires m.sealed.Some? ==> m.sealed.value in state.net.sealed
      modifies this
      ensures Valid() && old(trace) <= trace && checkpoints == old(checkpoints) && destinations == old(destinations)
      ensures r.Err? <==> FinalRefusal(m, session, h, status).Some?
      ensures r.Err? ==>
                Some(r.error) == FinalRefusal(m, session, h, status) && state.server == Idle
                && partials == old(partials)
      ensures r.Ok? ==> h.transferId in old(partials) && state.server == Verified(session, h)
                        && partials == old(partials)[h.transferId := SyncFile(old(partials)[h.transferId])]
      ensures state.net == old(state.net) && state.history == old(state.history) && state.client == old(state.client)
    {
      hide Inv, IsRun, WellSized, Expected;
      AtFrame(session, h, status, next, received);
      var refusal := FinalRefusal(m, session, h, status);
      if refusal.Some? {
        Stop();
        return Err(refusal.value);
      }
      var id := h.transferId;
      partials := partials[id := SyncFile(partials[id])];
      ghost var s := state.(server := Verified(session, h), disk := SetFile(state.disk, id, partials[id]));
      assert AcceptFinal(config, state, s, h.sourceHash);
      Advance(s);
      return Ok(());
    }

    /** The partial file takes the destination's place; the checkpoint goes; the client is told. */
    method PublishPartial(session: nat, h: Stable)
      requires Valid() && state.server == Verified(session, h) && h.originalSize >= 0
      requires h.transferId in partials && config.hash(partials[h.transferId].data) == h.sourceHash
      modifies this
      ensures Valid() && old(trace) <= trace && |trace| == |old(trace)| + 3
      ensures destinations == old(destinations)[h.filename := old(partials)[h.transferId].data]
      ensures partials == old(partials) - {h.transferId} && checkpoints == old(checkpoints) - {h.transferId}
      ensures state.server == Idle && state.client == old(state.client)
      ensures state.net
              == old(state.net).(acks := old(state.net).acks
                                 + {Ack(session, h.originalSize, h.sourceHash, h.transferId)})
      ensures state.history == old(state.history).(publications :=
                old(state.history).publications + {(h.transferId, old(partials)[h.transferId].data)})
    {
      hide Inv, IsRun;
      var id := h.transferId;
      var data := partials[id].data;
      destinations, partials := destinations[h.filename := data], partials - {id};
      ghost var s := state.(server := Published(session, h),
                            disk := RemoveFile(state.disk, id).(destinations := destinations),
                            history := state.history.(publications := state.history.publications + {(id, data)}));
      assert Publish(config, state, s);
      Advance(s);
      checkpoints := checkpoints - {id};
      s := state.(server := Acking(session, h), disk := state.disk.(checkpoints := checkpoints));
      assert DropCheckpoint(config, state, s);
      Advance(s);
      s := state.(server := Idle,
                  net := state.net.(acks := state.net.acks + {Ack(session, h.originalSize, h.sourceHash, id)}));
      assert SendAck(config, state, s);
      Advance(s);
    }

    /**
     The end of an attempt.  A destination is replaced only after the final record was accepted and
     the whole partial file has the hash in the header; with another hash everything stored is discarded.
     */
    method FinishTransfer(m: IncomingFinal, session: nat, h: Stable, status: Status, next: nat, received: nat)
      returns (r: Result<(), ServerError>)
      requires Valid() && state.server == Receiving(session, h, next, received, status) && next == h.frameCount
      requires m.sealed.Some? ==> m.sealed.value in state.net.sealed
      modifies this
      ensures Valid() && old(trace) <= trace && state.server == Idle && h.transferId in old(partials)
      ensures state.client == old(state.client)
      ensures var id, content := h.transferId, old(partials)[h.transferId].data;
              match FinalRefusal(m, session, h, status)
              case Some(e) =>
                && r == Err(e) && checkpoints == old(checkpoints) && destinations == old(destinations)
                && partials == old(partials)
              case None =>
                && partials == old(partials) - {id} && checkpoints == old(checkpoints) - {id}
                && if config.hash(content) == h.sourceHash
                   then r == Ok(()) && destinations == old(destinations)[h.filename := content]
                        && Ack(session, h.originalSize, h.sourceHash, id) in state.net.acks
                   else r == Err(ContentMismatch) && destinations == old(destinations)
    {
      hide Valid, WellSized, FinalRefusal;
      AtFrame(session, h, status, next, received);
      var final := ReceiveFinal(m, session, h, status, next, received);
      if final.Err? {
        return Err(final.error);
      }
      if config.hash(partials[h.transferId].data) != h.sourceHash {
        DiscardServerState(h);
        return Err(ContentMismatch);
      }
      PublishPartial(session, h);
      return Ok(());
    }

    /** What arrives in an open connection: frames, the final record, and the end. */
    method Receive(q: Request, status: Status, frames: seq<Incoming>, final: IncomingFinal)
      returns (r: Result<(), ServerError>)
      requires Valid() && state.server == Receiving(q.session, q.header, status.next, status.received, status)
      requires Arrives(state, frames, final)
      modifies this
      ensures Valid() && old(trace) <= trace && state.server == Idle && state.client == old(state.client)
      ensures q.header.transferId in old(partials)
      ensures var h := q.header;
              match Outcome(config, q, status, old(partials)[h.transferId].data, frames, final)
              case Err(e) => r == Err(e) && destinations == old(destinations)
              case Ok(content) =>
                && r == Ok(()) && destinations == old(destinations)[h.filename := content]
                && h.transferId !in partials && h.transferId !in checkpoints
                && Ack(q.session, h.originalSize, h.sourceHash, h.transferId) in state.net.acks
    {
      hide Valid, WellSized, AcceptedCount, AcceptedData, FinalRefusal, FrameRefusal;
      AtFrame(q.session, q.header, status, status.next, status.received);
      var received := ReceiveFrames(frames, q.session, q.header, status, status.next, status.received);
      if received.Err? {
        return Err(received.error);
      }
      r := FinishTransfer(final, q.session, q.header, status, status.next + received.value, q.header.originalSize);
    }

    /**
     One whole connection: the request is answered, the client acts on the status, and what then
     arrives is received.  Frames and final record depend on the status, and so does the client, in
     whichever state the opening has left.
     */
    method ServeTransfer(q: Request, frames: Status -> seq<Incoming>, final: Status -> IncomingFinal,
                         ghost client: State -> seq<State>)
      returns (r: Result<(), ServerError>, ghost start: State)
      requires Valid() && CanAccept(state, q) && WellSized(q.header)
      requires forall s: State :: Inv(config, s) && OpenedFrom(state, s, q) ==>
                                    ClientPath(config, s, client(s))
                                    && Arrives(After(s, client(s)), frames(s.server.status), final(s.server.status))
      modifies this
      ensures Valid() && old(trace) <= trace && state.server == Idle
      ensures match Refusal(config, old(state.disk), q)
              case Some(e) => r == Err(e) && destinations == old(destinations)
              case None =>
                && Inv(config, start) && OpenedFrom(old(state), start, q) && q.header.transferId in start.disk.partials
                && state.client == After(start, client(start)).client
                && var h, status := q.header, start.server.status;
                   match Outcome(config, q, status, start.disk.partials[h.transferId].data, frames(status),
                                 final(status))
                   case Err(e) => r == Err(e) && destinations == old(destinations)
                   case Ok(content) =>
                     && r == Ok(()) && destinations == old(destinations)[h.filename := content]
                     && h.transferId !in partials && h.transferId !in checkpoints
                     && Ack(q.session, h.originalSize, h.sourceHash, h.transferId) in state.net.acks
    {
      hide Valid, IsRun, Inv, WellSized, Refusal, ClientStep, Arrives, After, ClientPath, Outcome, CanAccept;
      var answer := OpenTransfer(q);
      start := state;
      if answer.Err? {
        return Err(answer.error), start;
      }
      ValidFacts();
      var status := answer.value;
      ClientKeepsFiles(config, start, client(start));
      ClientActs(client(start));
      ValidFacts();
      r := Receive(q, status, frames(status), final(status));
    }

    lemma ValidFacts()
      requires Valid()
      ensures Inv(config, state) && state.disk == Disk(partials, checkpoints, destinations)
    {
    }
  }

  /**
   What comes of a connection once it is open: the content that is published, or the first check that
   fails.  `stored` is what the partial file holds at its beginning.
   */
  function Outcome(c: Config, q: Request, status: Status, stored: seq<byte>, frames: seq<Incoming>,
                   final: IncomingFinal)
    : Result<seq<byte>, ServerError>
  {
    var h := q.header;
    var k := AcceptedCount(frames, q.session, h, status, status.next, status.received);
    var data := AcceptedData(frames, q.session, h, status, status.next, status.received);
    if status.next + k != h.frameCount then
      if k >= |frames| then Err(Closed)
      else match FrameRefusal(frames[k], q.session, h, status, status.next + k, status.received + |data|)
           case Some(e) => Err(e)
           case None => Err(Closed)
    else match FinalRefusal(final, q.session, h, status)
         case Some(e) => Err(e)
         case None => if c.hash(stored + data) == h.sourceHash then Ok(stored + data) else Err(ContentMismatch)
  }
}
