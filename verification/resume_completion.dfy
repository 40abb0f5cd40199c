/** Transfers that nobody alters can always be completed, from a first request or from a checkpoint. */
module ResumeCompletion {
  import opened Bytes
  import opened Framing
  import opened ResumeMachine
  import opened ResumeSafety
  import opened ResumeTheorems
  import opened ResumeTickets
  import opened TransferFormat

  /** A step of the client or the server. */
  ghost predicate Acts(c: Config, s: State, t: State) {
    ClientStep(c, s, t) || OpeningStep(c, s, t) || FrameStep(c, s, t) || ClosingStep(c, s, t)
  }

  lemma ActsKeeps(c: Config, s: State, t: State)
    requires Inv(c, s) && Acts(c, s, t)
    ensures Reaches(c, s, t) && Inv(c, t)
  {
    hide Reaches, ClientStep, OpeningStep, FrameStep, ClosingStep, Inv;
    ReachesOne(c, s, t);
    StepKeeps(c, s, t);
  }

  lemma Then(c: Config, s: State, t: State, u: State)
    requires Reaches(c, s, t) && Inv(c, t) && Acts(c, t, u)
    ensures Reaches(c, s, u) && Inv(c, u)
  {
    hide Reaches, Acts, Inv;
    ActsKeeps(c, t, u);
    ReachesFurther(c, s, t, u);
  }

  // Client and server in step

  /** Both ends agree on the connection, the header, the status and the next frame. */
  ghost predicate InStep(c: Config, s: State, session: nat, h: Stable, status: Status, n: nat, at: nat) {
    && Inv(c, s) && Clean(s.history, h.transferId) && Known(s.history, h)
    && s.server == Receiving(session, h, n, at, status) && s.client.phase == Sending(session, h, status, n, at)
  }

  lemma InStepFacts(c: Config, s: State, session: nat, h: Stable, status: Status, n: nat, at: nat)
    requires InStep(c, s, session, h, status, n, at)
    ensures WellSized(h) && n <= h.frameCount && Expected(h, n) == Some(at) && |s.client.source| == h.originalSize
    ensures h.transferId in s.disk.partials && s.disk.partials[h.transferId].data == s.client.source[..at]
            && at <= |s.client.source|
    ensures s.client.source == Content(s.history, h) && c.hash(s.client.source) == h.sourceHash
    ensures h.transferId in s.disk.checkpoints
    ensures n == h.frameCount ==> at == h.originalSize
  {
    CheckpointHoldsAll(s.history, s.disk, h, n, at);
    assert StartOk(c, h.transferId, s.history.started[h.transferId]);
    FramesLeft(n, h.frameSize, h.originalSize, h.frameCount);
  }

  /** The next frame is sealed. */
  lemma SealOne(c: Config, s: State, session: nat, h: Stable, status: Status, n: nat, at: nat)
    returns (t: State, data: seq<byte>)
    requires InStep(c, s, session, h, status, n, at) && n < h.frameCount
    ensures NextLen(h, at) >= 0 && |data| == NextLen(h, at)
    ensures Reaches(c, s, t) && Inv(c, t) && Frame(session, h, status, n, data) in t.net.sealed
    ensures t.disk == s.disk && t.history == s.history && t.server == s.server
    ensures t.client == s.client.(phase := Sending(session, h, status, n + 1, at + |data|))
    ensures h.transferId in t.disk.partials && |t.disk.partials[h.transferId].data| == at
  {
    hide Inv, Reaches, FrameCount;
    InStepFacts(c, s, session, h, status, n, at);
    ExpectedStep(n, h.frameSize, h.originalSize, h.frameCount);
    hide WellSized, Expected;
    var len := NextLen(h, at);
    data := s.client.source[at..at + len];
    var r := Frame(session, h, status, n, data);
    t := s.(client := s.client.(phase := Sending(session, h, status, n + 1, at + len)),
            net := s.net.(sealed := s.net.sealed + {r}));
    assert SealFrame(c, s, t);
    ActsKeeps(c, s, t);
  }

  /** One frame: sealed, written, synced, counted. */
  lemma OneFrame(c: Config, s: State, session: nat, h: Stable, status: Status, n: nat, at: nat) returns (t: State)
    requires InStep(c, s, session, h, status, n, at) && n < h.frameCount
    ensures NextLen(h, at) >= 0 && InStep(c, t, session, h, status, n + 1, at + NextLen(h, at)) && Reaches(c, s, t)
    ensures t.disk.destinations == s.disk.destinations && t.history == s.history && t.client.source == s.client.source
    ensures t.client.saved == s.client.saved
  {
    hide Inv, Reaches, FrameCount, WellSized, Expected;
    var id, len := h.transferId, NextLen(h, at);
    var s1, data := SealOne(c, s, session, h, status, n, at);
    var f1 := WriteAt(s1.disk.partials[id], at, data);
    var s2 := s1.(server := Written(session, h, n, at + len, status), disk := SetFile(s1.disk, id, f1));
    assert WriteFrame(c, s1, s2, data);
    Then(c, s, s1, s2);
    var s3 := s2.(server := Synced(session, h, n, at + len, status), disk := SetFile(s2.disk, id, SyncFile(f1)));
    assert SyncFrame(c, s2, s3);
    Then(c, s, s2, s3);
    t := s3.(server := Receiving(session, h, n + 1, at + len, status),
             disk := s3.disk.(checkpoints := s3.disk.checkpoints[id := Checkpoint(h, n + 1, at + len)]));
    assert SaveCheckpoint(c, s3, t);
    Then(c, s, s3, t);
  }

  lemma {:induction false} AllFrames(c: Config, s: State, session: nat, h: Stable, status: Status, n: nat, at: nat)
    returns (t: State)
    requires InStep(c, s, session, h, status, n, at)
    ensures h.frameCount >= 0 && h.originalSize >= 0
    ensures InStep(c, t, session, h, status, h.frameCount, h.originalSize) && (t == s || Reaches(c, s, t))
    ensures t.disk.destinations == s.disk.destinations && t.history == s.history && t.client.source == s.client.source
    ensures t.client.saved == s.client.saved
    decreases h.frameCount - n
  {
    hide InStep, Reaches, Expected;
    InStepFacts(c, s, session, h, status, n, at);
    if n == h.frameCount {
      t := s;
    } else {
      var u := OneFrame(c, s, session, h, status, n, at);
      t := AllFrames(c, u, session, h, status, n + 1, at + NextLen(h, at));
      if t != u {
        ReachesFurther(c, s, u, t);
      }
    }
  }

  /** Everything up to the acknowledgement on its way: the destination holds the source. */
  ghost predicate Delivered(c: Config, s: State, t: State, session: nat, h: Stable) {
    && Inv(c, t) && Reaches(c, s, t)
    && t.disk.destinations == s.disk.destinations[h.filename := s.client.source]
    && h.transferId !in t.disk.checkpoints && h.transferId !in t.disk.partials
    && IsPublished(t.history, h.transferId) && t.history.dirty == s.history.dirty
    && t.history.receipts == s.history.receipts
    && t.client.phase == Awaiting(session, h) && t.client.saved == s.client.saved && t.server.Acking?
    && t.server.header == h
    && t.server.session == session
  }

  lemma Deliver(c: Config, s: State, session: nat, h: Stable, status: Status) returns (t: State)
    requires h.frameCount >= 0 && h.originalSize >= 0 && InStep(c, s, session, h, status, h.frameCount, h.originalSize)
    ensures Delivered(c, s, t, session, h)
  {
    hide Inv, Reaches, FrameCount;
    InStepFacts(c, s, session, h, status, h.frameCount, h.originalSize);
    hide WellSized, Expected;
    var id, content := h.transferId, s.client.source;
    assert s.disk.partials[id].data == content;
    var s1 := s.(client := s.client.(phase := Awaiting(session, h)),
                 net := s.net.(sealed := s.net.sealed + {Final(session, h, status, h.sourceHash)}));
    assert SealFinal(c, s, s1);
    ActsKeeps(c, s, s1);
    var s2 := s1.(server := Verified(session, h), disk := SetFile(s1.disk, id, SyncFile(s1.disk.partials[id])));
    assert AcceptFinal(c, s1, s2, h.sourceHash);
    Then(c, s, s1, s2);
    var s3 := s2.(server := Published(session, h),
                  disk := RemoveFile(s2.disk, id).(destinations := s2.disk.destinations[h.filename := content]),
                  history := s2.history.(publications := s2.history.publications + {(id, content)}));
    assert Publish(c, s2, s3);
    Then(c, s, s2, s3);
    t := s3.(server := Acking(session, h), disk := s3.disk.(checkpoints := s3.disk.checkpoints - {id}));
    assert DropCheckpoint(c, s3, t);
    Then(c, s, s3, t);
    assert (id, content) in t.history.publications;
  }

  /** The acknowledgement arrives. */
  lemma Acknowledge(c: Config, s: State, t: State, session: nat, h: Stable) returns (u: State)
    requires Delivered(c, s, t, session, h) && h.originalSize >= 0
    ensures Reaches(c, s, u) && h.transferId in u.history.receipts && u.client.saved == None && u.disk == t.disk
  {
    hide Inv, Reaches;
    var a := Ack(session, h.originalSize, h.sourceHash, h.transferId);
    var v := t.(server := Idle, net := t.net.(acks := t.net.acks + {a}));
    assert SendAck(c, t, v);
    Then(c, s, t, v);
    u := v.(client := v.client.(saved := None, phase := Resting),
            history := v.history.(receipts := v.history.receipts + {h.transferId}));
    assert ReadAck(c, v, u);
    Then(c, s, v, u);
  }

  /** The connection breaks before the acknowledgement: the client keeps its state file. */
  lemma LoseAcknowledgement(c: Config, s: State, t: State, session: nat, h: Stable) returns (u: State)
    requires Delivered(c, s, t, session, h)
    ensures Reaches(c, s, u) && u.client.phase.Resting? && u.server.Idle?
    ensures u.client.saved == t.client.saved && u.disk == t.disk && u.history == t.history
  {
    hide Inv, Reaches;
    var v := t.(server := Idle);
    assert ServerStops(c, t, v);
    Then(c, s, t, v);
    u := v.(client := v.client.(phase := Resting));
    assert ClientStops(c, v, u);
    Then(c, s, v, u);
  }

  // From a checkpoint

  /** An interrupted transfer that nobody altered, with both sides at rest. */
  ghost predicate Interrupted(c: Config, s: State, h: Stable) {
    && Inv(c, s) && OnceOk(s) && TicketsOk(c, s) && KeptOk(s)
    && s.server.Idle? && s.client.phase.Resting? && s.client.saved.Some? && s.client.saved.value.header == h
    && Clean(s.history, h.transferId) && h.transferId in s.disk.partials && DestinationFree(c, s, h)
  }

  /** While its partial file is there, the checkpoint of a saved transfer is there, too. */
  lemma InterruptedHasCheckpoint(c: Config, s: State, h: Stable)
    requires Interrupted(c, s, h)
    ensures h.transferId in s.disk.checkpoints
  {
    hide Inv, RequestsOk, TicketsOk;
  }

  /** The header that the client computes again is the one that it saved. */
  lemma SavedHeaderAgain(c: Config, s: State, h: Stable)
    requires Interrupted(c, s, h)
    ensures c.frameSize >= 1 && h == HeaderFor(c, s.client.source, h.transferId) && Known(s.history, h) && WellSized(h)
  {
    hide DiskOk, NetOk, ServerOk, OnceOk, ExpectedBytes, KeptOk;
    assert StartOk(c, h.transferId, s.history.started[h.transferId]);
  }

  lemma InterruptedFacts(c: Config, s: State, h: Stable)
    requires Interrupted(c, s, h)
    ensures s.served <= s.client.session && s.client.saved.value.ticket == Issued(h)
  {
    hide Inv;
  }

  lemma CheckpointIsUsable(c: Config, s: State, h: Stable)
    requires Interrupted(c, s, h) && Known(s.history, h) && WellSized(h)
    ensures h.transferId in s.disk.checkpoints
    ensures var cp := s.disk.checkpoints[h.transferId];
            cp.header == h && Expected(h, cp.next) == Some(cp.received)
            && |s.disk.partials[h.transferId].data| >= cp.received
  {
    hide HistoryOk, SourceOk, ClientOk, NetOk, ServerOk, OnceOk, WellSized, Expected, KeptOk, TicketsOk;
    InterruptedHasCheckpoint(c, s, h);
    assert CheckpointOk(s.history, s.disk, h.transferId, s.disk.checkpoints[h.transferId]);
  }

  lemma Reopen(c: Config, s: State, h: Stable) returns (t: State, session: nat, status: Status)
    requires Interrupted(c, s, h)
    ensures InStep(c, t, session, h, status, status.next, status.received) && Reaches(c, s, t)
    ensures t.disk.destinations == s.disk.destinations && t.client.source == s.client.source
            && t.client.saved == s.client.saved
    ensures t.history == s.history
  {
    hide Inv, Reaches, FrameCount, TicketsOk, RequestsOk, GoneOk, KeptOk;
    SavedHeaderAgain(c, s, h);
    CheckpointIsUsable(c, s, h);
    var id := h.transferId;
    var cp := s.disk.checkpoints[id];
    session := s.client.session + 1;
    InterruptedFacts(c, s, h);
    hide WellSized, Expected;
    var q := Request(session, h, true, Issued(h));
    var s1 := s.(client := s.client.(phase := Requested(q), session := session),
                 net := s.net.(requests := s.net.requests + {q}));
    assert StartResume(c, s, s1);
    ActsKeeps(c, s, s1);
    var s3 := CutBack(c, s, s1, q, cp);
    var s4 := s3.(server := Replying(session, h, cp.next, cp.received));
    assert CheckDestination(c, s3, s4);
    Then(c, s, s3, s4);
    t, status := Answer(c, s, s4, q, cp.next, cp.received);
  }

  lemma CutBack(c: Config, s: State, s1: State, q: Request, cp: Checkpoint) returns (s3: State)
    requires Reaches(c, s, s1) && Inv(c, s1) && CanAccept(s1, q) && MayResume(s1, q)
             && cp == s1.disk.checkpoints[q.header.transferId]
    ensures Reaches(c, s, s3) && Inv(c, s3) && s3.server == Validated(q.session, q.header, cp.next, cp.received)
    ensures s3.disk.destinations == s1.disk.destinations && s3.client == s1.client && s3.net == s1.net
            && s3.history == s1.history
  {
    hide Inv, Reaches, Expected, WellSized;
    var id := q.header.transferId;
    var f := s1.disk.partials[id];
    if |f.data| == cp.received {
      s3 := s1.(server := Validated(q.session, q.header, cp.next, cp.received), served := q.session);
      assert AcceptResume(c, s1, s3, q);
      Then(c, s, s1, s3);
    } else {
      var s2 := s1.(server := Truncated(q.session, q.header, cp.next, cp.received), served := q.session,
                    disk := SetFile(s1.disk, id, TruncateTo(f, cp.received)));
      assert AcceptResume(c, s1, s2, q);
      Then(c, s, s1, s2);
      s3 := s2.(server := Validated(q.session, q.header, cp.next, cp.received),
                disk := SetFile(s2.disk, id, SyncFile(s2.disk.partials[id])));
      assert SyncTruncation(c, s2, s3);
      Then(c, s, s2, s3);
    }
  }

  /** The status goes out and is accepted. */
  lemma Answer(c: Config, s: State, s1: State, q: Request, next: nat, received: nat) returns (t: State, status: Status)
    requires Reaches(c, s, s1) && Inv(c, s1) && s1.server == Replying(q.session, q.header, next, received)
    requires s1.client.phase == Requested(q) && (q.resume ==> q.ticket == Issued(q.header))
             && Clean(s1.history, q.header.transferId)
    ensures status == Status(next, received, Issued(q.header))
            && InStep(c, t, q.session, q.header, status, next, received) && Reaches(c, s, t)
    ensures t.disk == s1.disk && t.client.source == s1.client.source && t.history == s1.history
    ensures t.client.saved == Some(Saved(q.header, Issued(q.header)))
  {
    hide Inv, Reaches;
    var h := q.header;
    ReplyingFacts(c, s1);
    hide WellSized, Expected;
    status := Status(next, received, Issued(h));
    var s2 := s1.(server := Receiving(q.session, h, next, received, status),
                  net := s1.net.(statuses := s1.net.statuses + {(q.session, status)}));
    assert SendStatus(c, s1, s2);
    Then(c, s, s1, s2);
    t := s2.(client :=
               s2.client.(saved := Some(Saved(h, Issued(h))), phase := Sending(q.session, h, status, next, received)));
    assert ReadStatus(c, s2, t, status);
    Then(c, s, s2, t);
  }

  lemma ReplyingFacts(c: Config, s: State)
    requires Inv(c, s) && s.server.Replying?
    ensures Known(s.history, s.server.header) && WellSized(s.server.header)
    ensures Expected(s.server.header, s.server.next) == Some(s.server.received)
  {
    hide HistoryOk, SourceOk, ClientOk, NetOk;
    CheckpointHoldsAll(s.history, s.disk, s.server.header, s.server.next, s.server.received);
  }

  /**
   While the partial file of a saved transfer that nobody altered is there, some run delivers the
   source and ends with a receipt.
   */
  lemma InterruptedTransferCompletes(c: Config, run: seq<State>, i: nat, h: Stable) returns (t: State)
    requires IsRun(c, run) && i < |run|
    requires var s := run[i];
             && s.server.Idle? && s.client.phase.Resting? && s.client.saved.Some? && s.client.saved.value.header == h
             && Clean(s.history, h.transferId) && h.transferId in s.disk.partials && DestinationFree(c, s, h)
    ensures Reaches(c, run[i], t) && h.transferId in t.history.receipts && t.client.saved == None
    ensures t.disk.destinations == run[i].disk.destinations[h.filename := run[i].client.source]
  {
    hide Inv, OnceOk, TicketsOk, KeptOk, Reaches, InStep;
    RunKeeps(c, run, i);
    RunOnce(c, run, i);
    RunTickets(c, run, i);
    RunKept(c, run, i);
    var s := run[i];
    var s1, session, status := Reopen(c, s, h);
    t := Complete(c, s, s1, session, h, status);
  }

  lemma DeliveredContent(c: Config, s: State, t: State, session: nat, h: Stable)
    requires Delivered(c, s, t, session, h)
    ensures t.disk.destinations == s.disk.destinations[h.filename := s.client.source]
  {
  }

  lemma Complete(c: Config, s: State, s1: State, session: nat, h: Stable, status: Status) returns (t: State)
    requires Reaches(c, s, s1) && InStep(c, s1, session, h, status, status.next, status.received)
    ensures Reaches(c, s, t) && h.transferId in t.history.receipts && t.client.saved == None
    ensures t.disk.destinations == s1.disk.destinations[h.filename := s1.client.source]
  {
    hide InStep, Reaches, Delivered;
    var s2 := AllFrames(c, s1, session, h, status, status.next, status.received);
    if s2 != s1 {
      ReachesFurther(c, s, s1, s2);
    }
    var s3 := Deliver(c, s2, session, h, status);
    DeliveredContent(c, s2, s3, session, h);
    t := Acknowledge(c, s2, s3, session, h);
    ReachesFurther(c, s, s2, t);
  }

  // From a first request

  /** A new transfer of any source to a free destination can complete. */
  lemma NewTransferCompletes(c: Config, run: seq<State>, i: nat, id: Id) returns (t: State)
    requires IsRun(c, run) && i < |run| && c.frameSize >= 1
    requires var s := run[i];
             && s.server.Idle? && s.client.phase.Resting? && s.client.saved.None?
             && id !in s.history.started && Clean(s.history, id) && (c.overwrite || c.name !in s.disk.destinations)
    ensures Reaches(c, run[i], t) && id in t.history.receipts && t.client.saved == None
    ensures t.disk.destinations == run[i].disk.destinations[c.name := run[i].client.source]
  {
    hide Inv, OnceOk, TicketsOk, Reaches, InStep;
    RunKeeps(c, run, i);
    RunOnce(c, run, i);
    var s1, session, status := OpenFirst(c, run[i], id);
    t := Complete(c, run[i], s1, session, HeaderFor(c, run[i].client.source, id), status);
  }

  lemma OpenFirst(c: Config, s: State, id: Id) returns (t: State, session: nat, status: Status)
    requires Inv(c, s) && OnceOk(s) && c.frameSize >= 1
    requires s.server.Idle? && s.client.phase.Resting? && s.client.saved.None?
    requires id !in s.history.started && Clean(s.history, id) && (c.overwrite || c.name !in s.disk.destinations)
    ensures Reaches(c, s, t)
    ensures InStep(c, t, session, HeaderFor(c, s.client.source, id), status, status.next, status.received)
    ensures t.disk.destinations == s.disk.destinations && t.client.source == s.client.source
    ensures t.history.dirty == s.history.dirty && t.history.receipts == s.history.receipts
    ensures var h := HeaderFor(c, s.client.source, id); t.client.saved == Some(Saved(h, Issued(h)))
  {
    hide Inv, Reaches, FrameCount;
    var h := HeaderFor(c, s.client.source, id);
    session := s.client.session + 1;
    assert !Touched(s, id) by {
      if Touched(s, id) {
        TouchedIsStarted(c, s, id);
      }
    }
    var q := Request(session, h, false, ZeroTicket);
    var s1 := s.(client := s.client.(phase := Requested(q), session := session),
                 net := s.net.(requests := s.net.requests + {q}),
                 history := s.history.(started := s.history.started[id := ResumeMachine.Start(h, s.client.source)]));
    assert StartNew(c, s, s1, id);
    ActsKeeps(c, s, s1);
    var s2 := s1.(server := Unlinked(session, h), served := session, disk := RemoveFile(s1.disk, id));
    assert AcceptNew(c, s1, s2, q);
    Then(c, s, s1, s2);
    var s3 := s2.(server := Created(session, h), disk := SetFile(s2.disk, id, File([], 0)));
    assert CreatePartial(c, s2, s3);
    Then(c, s, s2, s3);
    var s4 := s3.(server := Replying(session, h, 0, 0),
                  disk := s3.disk.(checkpoints := s3.disk.checkpoints[id := Checkpoint(h, 0, 0)]));
    assert FirstCheckpoint(c, s3, s4);
    Then(c, s, s3, s4);
    t, status := Answer(c, s, s4, q, 0, 0);
  }
}
