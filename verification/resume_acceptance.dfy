/** Exactly when a saved transfer can go on, why it cannot, and what a lost acknowledgement leaves behind. */
module ResumeAcceptance {
  import opened Bytes
  import opened ResumeCompletion
  import opened ResumeMachine
  import opened ResumeSafety
  import opened ResumeServer
  import opened ResumeTheorems
  import opened ResumeTickets
  import opened TransferFormat

  // Acceptance

  /** The client's state file belongs to a transfer that nobody altered. */
  ghost predicate HasSaved(s: State, v: Saved) {
    s.client.saved == Some(v) && Clean(s.history, v.header.transferId)
  }

  lemma SavedFacts(c: Config, run: seq<State>, i: nat, v: Saved)
    requires IsRun(c, run) && i < |run| && HasSaved(run[i], v)
    ensures v.ticket == Issued(v.header) && WellSized(v.header) && Kept(run[i], v.header.transferId)
            && Known(run[i].history, v.header)
    ensures IsPublished(run[i].history, v.header.transferId) ==> v.header.transferId !in run[i].disk.partials
  {
    hide NetOk, DiskOk, ServerOk, RequestsOk;
    RunKeeps(c, run, i);
    RunOnce(c, run, i);
    RunTickets(c, run, i);
    RunKept(c, run, i);
    assert StartOk(c, v.header.transferId, run[i].history.started[v.header.transferId]);
  }

  lemma StoredFacts(c: Config, run: seq<State>, i: nat, v: Saved)
    requires IsRun(c, run) && i < |run| && HasSaved(run[i], v) && WellSized(v.header)
    requires v.header.transferId in run[i].disk.checkpoints && Known(run[i].history, v.header)
    ensures var s, id := run[i], v.header.transferId;
            var cp := s.disk.checkpoints[id];
            && cp.header == v.header && Expected(v.header, cp.next) == Some(cp.received)
            && (id in s.disk.partials ==> |s.disk.partials[id].data| >= cp.received)
  {
    hide HistoryOk, SourceOk, ClientOk, NetOk, ServerOk;
    RunKeeps(c, run, i);
    assert CheckpointOk(run[i].history, run[i].disk, v.header.transferId, run[i].disk.checkpoints[v.header.transferId]);
  }

  /** The checks of a saved transfer's resume request pass exactly while its partial file is there. */
  lemma ResumableIffPartialIsThere(c: Config, run: seq<State>, i: nat, v: Saved, n: nat)
    requires IsRun(c, run) && i < |run| && HasSaved(run[i], v)
    ensures MayResume(run[i], Request(n, v.header, true, v.ticket)) <==> v.header.transferId in run[i].disk.partials
  {
    hide IsRun, WellSized, Expected;
    SavedFacts(c, run, i, v);
    if v.header.transferId in run[i].disk.partials {
      StoredFacts(c, run, i, v);
    }
  }

  /** Which answer the request gets: gone only after publication, damaged never. */
  lemma AnswerExactly(c: Config, run: seq<State>, i: nat, v: Saved, n: nat)
    requires IsRun(c, run) && i < |run| && HasSaved(run[i], v)
    ensures WellSized(v.header)
    ensures var s, id := run[i], v.header.transferId;
            && Refusal(c, s.disk, Request(n, v.header, true, v.ticket))
               == (if id !in s.disk.checkpoints then Some(NoState)
                   else if id !in s.disk.partials then Some(PartialMissing)
                   else if !DestinationFree(c, s, v.header) then Some(OutputExists)
                   else None)
            && (id !in s.disk.checkpoints ==> IsPublished(s.history, id))
  {
    hide IsRun, WellSized, Expected;
    SavedFacts(c, run, i, v);
    if v.header.transferId in run[i].disk.checkpoints {
      StoredFacts(c, run, i, v);
    }
  }

  /** Any resume request with the right ticket: what its stored state can be refused for. */
  lemma WhyResumeFails(c: Config, run: seq<State>, i: nat, q: Request)
    requires IsRun(c, run) && i < |run| && q in run[i].net.requests && q.resume && WellSized(q.header)
    requires StateRefusal(run[i].disk, q.header).Some?
    ensures var s, e := run[i], StateRefusal(run[i].disk, q.header).value;
            && (e == NoState || e == PartialMissing || e == PartialTooShort)
            && (e == PartialTooShort ==> !Clean(s.history, q.header.transferId))
            && (e == NoState && Clean(s.history, q.header.transferId) ==> IsPublished(s.history, q.header.transferId))
  {
    hide HistoryOk, SourceOk, ClientOk, ServerOk, Expected, IsRun;
    RunKeeps(c, run, i);
    RunKept(c, run, i);
    var s, id := run[i], q.header.transferId;
    if id in s.disk.checkpoints {
      assert CheckpointOk(s.history, s.disk, id, s.disk.checkpoints[id]);
    }
  }

  // How a partial file gets lost

  /** Only publication and a crash take away the partial file of a checkpointed transfer that nobody altered. */
  lemma OnlyPublicationOrCrashRemoves(c: Config, s: State, s': State, id: Id)
    requires Inv(c, s) && Next(c, s, s') && Clean(s'.history, id) && id in s.disk.checkpoints && id in s.disk.partials
    requires id !in s'.disk.partials
    ensures (Publish(c, s, s') && s.server.header.transferId == id) || Crash(c, s, s')
  {
    hide Inv, WellSized, Expected, MayResume, HeaderFor, Survives, DestinationFree;
    if RejectContent(c, s, s') {
      RejectedIsDirty(c, s, s');
    } else if FrameStep(c, s, s') {
      if data :| WriteFrame(c, s, s', data) {
      } else if digest :| AcceptFinal(c, s, s', digest) {
      }
    } else if OpeningStep(c, s, s') {
      if q :| AcceptNew(c, s, s', q) {
      } else if q :| AcceptResume(c, s, s', q) {
      }
    } else if other :| Tamper(c, s, s', other) {
      TamperKeepsOthers(c, s, s', other);
    }
  }

  lemma TamperKeepsOthers(c: Config, s: State, s': State, other: Id)
    requires Tamper(c, s, s', other)
    ensures forall id :: id in s.disk.partials && id != other ==> id in s'.disk.partials
    ensures other in s'.history.dirty
  {
    forall id | id in s.disk.partials && id != other ensures id in s'.disk.partials {
      assert id in s.disk.partials - {other};
    }
  }

  /** The step at which a transfer's partial file went. */
  ghost predicate LostAt(c: Config, run: seq<State>, k: nat, id: Id)
    requires k + 1 < |run|
  {
    && id in run[k].disk.partials && id !in run[k + 1].disk.partials
    && ((Publish(c, run[k], run[k + 1]) && run[k].server.header.transferId == id) || Crash(c, run[k], run[k + 1]))
  }

  /** Only three kinds of steps make a checkpoint, and only the first one makes one for a new id. */
  lemma NewCheckpointIsFirst(c: Config, s: State, s': State, id: Id)
    requires Next(c, s, s') && id !in s.disk.checkpoints && id in s'.disk.checkpoints
    ensures s'.disk.partials == s.disk.partials && s.server.header.transferId == id
    ensures FirstCheckpoint(c, s, s') || SaveCheckpoint(c, s, s')
  {
    hide WellSized, Expected, MayResume, HeaderFor, Survives, DestinationFree;
    if OpeningStep(c, s, s') {
      if q :| AcceptNew(c, s, s', q) {
      } else if q :| AcceptResume(c, s, s', q) {
      }
    } else if data :| WriteFrame(c, s, s', data) {
    } else if digest :| AcceptFinal(c, s, s', digest) {
    }
  }

  /** A step that makes the first checkpoint leaves the partial file there. */
  lemma NewCheckpointHasPartial(c: Config, s: State, s': State, id: Id)
    requires Inv(c, s) && Next(c, s, s') && id !in s.disk.checkpoints && id in s'.disk.checkpoints
    ensures id in s'.disk.partials
  {
    hide HistoryOk, SourceOk, ClientOk, NetOk, DiskOk, HoldsAll, WellSized, Expected, Next;
    NewCheckpointIsFirst(c, s, s', id);
  }

  /** If the partial file of a kept transfer is missing, an earlier step published it or was a crash that lost it. */
  lemma {:induction false} PartialWasLost(c: Config, run: seq<State>, i: nat, id: Id) returns (k: nat)
    requires IsRun(c, run) && i < |run| && Clean(run[i].history, id)
    requires id in run[i].disk.checkpoints || IsPublished(run[i].history, id)
    requires id !in run[i].disk.partials
    ensures k < i && LostAt(c, run, k, id)
  {
    hide Next, Inv, KeptOk, OnceOk, Publish, Crash, PublishedAt;
    if IsPublished(run[i].history, id) {
      var data :| (id, data) in run[i].history.publications;
      k := PublicationHappened(c, run, i, id, data);
      PublicationTakesPartial(c, run, k, id, data);
    } else {
      assert i > 0;
      hide Init;
      RunKeeps(c, run, i - 1);
      assert StepAt(c, run, i - 1);
      HistoryGrows(c, run[i - 1], run[i]);
      if id !in run[i - 1].disk.checkpoints {
        NewCheckpointHasPartial(c, run[i - 1], run[i], id);
      } else if id in run[i - 1].disk.partials {
        OnlyPublicationOrCrashRemoves(c, run[i - 1], run[i], id);
        k := i - 1;
      } else {
        k := PartialWasLost(c, run, i - 1, id);
      }
    }
  }

  lemma PublicationTakesPartial(c: Config, run: seq<State>, k: nat, id: Id, data: seq<byte>)
    requires k + 1 < |run| && PublishedAt(c, run, k, id, data)
    ensures LostAt(c, run, k, id)
  {
  }

  // The lost acknowledgement

  /** The client is at rest with its state file, but the transfer has been published and there is no receipt. */
  ghost predicate Unacknowledged(s: State, v: Saved) {
    && s.client.saved == Some(v) && s.client.phase.Resting?
    && IsPublished(s.history, v.header.transferId) && v.header.transferId !in s.history.receipts
  }

  /** From every initial state with a free destination a run leads there, and the destination holds the source. */
  lemma AcknowledgementCanBeLost(c: Config, s: State, id: Id) returns (run: seq<State>, v: Saved)
    requires Init(s) && c.frameSize >= 1 && (c.overwrite || c.name !in s.disk.destinations)
    ensures IsRun(c, run) && run[0] == s
    ensures var t := run[|run| - 1];
            && Unacknowledged(t, v) && HasSaved(t, v) && v.header == HeaderFor(c, s.client.source, id)
            && t.disk.destinations == s.disk.destinations[c.name := s.client.source]
  {
    hide InStep, Reaches, Delivered;
    InitialFacts(c, s);
    hide Inv, OnceOk, Init;
    var h := HeaderFor(c, s.client.source, id);
    v := Saved(h, Issued(h));
    var s1, session, status := OpenFirst(c, s, id);
    var s2 := AllFrames(c, s1, session, h, status, status.next, status.received);
    if s2 != s1 {
      ReachesFurther(c, s, s1, s2);
    }
    var s3 := Deliver(c, s2, session, h, status);
    DeliveredFacts(c, s2, s3, session, h);
    var t := LoseAcknowledgement(c, s2, s3, session, h);
    ReachesFurther(c, s, s2, t);
    run := RunTo(c, s, t);
  }

  lemma InitialFacts(c: Config, s: State)
    requires Init(s)
    ensures Inv(c, s) && OnceOk(s) && s.server.Idle? && s.client.phase.Resting? && s.client.saved.None?
    ensures s.history.started == map[] && s.history.dirty == {} && s.history.receipts == {}
  {
  }

  lemma DeliveredFacts(c: Config, s: State, t: State, session: nat, h: Stable)
    requires Delivered(c, s, t, session, h)
    ensures IsPublished(t.history, h.transferId) && t.history.dirty == s.history.dirty
            && t.history.receipts == s.history.receipts
    ensures t.client.saved == s.client.saved
            && t.disk.destinations == s.disk.destinations[h.filename := s.client.source]
  {
  }

  lemma RunTo(c: Config, s: State, t: State) returns (run: seq<State>)
    requires Init(s) && Reaches(c, s, t)
    ensures IsRun(c, run) && run[0] == s && run[|run| - 1] == t
  {
    hide Init;
    run :| Leads(c, run, s, t);
  }

  /** The client can only ask to resume, and nobody answers. */
  ghost predicate Stranded(s: State, v: Saved) {
    && s.client.saved == Some(v) && IsPublished(s.history, v.header.transferId)
    && v.header.transferId !in s.history.receipts
    && match s.client.phase
       case Resting => true
       case Requested(q) =>
         && q.resume && q.header == v.header && q in s.net.requests
         && (forall status :: (q.session, status) !in s.net.statuses)
         && (s.server.Idle? || s.server.session != q.session)
       case _ => false
  }

  lemma ClientStaysStranded(c: Config, s: State, s': State, v: Saved)
    requires TicketsOk(c, s) && Stranded(s, v) && ClientStep(c, s, s')
    ensures Stranded(s', v)
  {
    hide WellSized, Expected, HeaderFor;
    if other :| StartNew(c, s, s', other) {
    } else if status :| ReadStatus(c, s, s', status) {
    }
  }

  lemma OpeningStaysStranded(c: Config, s: State, s': State, v: Saved)
    requires TicketsOk(c, s) && OnceOk(s) && Stranded(s, v) && Clean(s.history, v.header.transferId)
             && OpeningStep(c, s, s')
    ensures Stranded(s', v)
  {
    hide WellSized, Expected, DestinationFree, RequestsOk, IsPublished;
    if q :| AcceptNew(c, s, s', q) {
      assert s.client.phase.Requested? && q.session == s.client.phase.request.session ==>
               SameSession(q, s.client.phase.request);
    } else if q :| AcceptResume(c, s, s', q) {
      assert s.client.phase.Requested? && q.session == s.client.phase.request.session ==>
               SameSession(q, s.client.phase.request);
    }
  }

  lemma OthersStayStranded(c: Config, s: State, s': State, v: Saved)
    requires Stranded(s, v) && (FrameStep(c, s, s') || ClosingStep(c, s, s') || EnvironmentStep(c, s, s'))
    requires s.history.publications <= s'.history.publications
    ensures Stranded(s', v)
  {
    hide WellSized, Expected, Survives;
    var data :| (v.header.transferId, data) in s.history.publications;
    assert (v.header.transferId, data) in s'.history.publications;
    hide IsPublished;
    if FrameStep(c, s, s') {
      if plaintext :| WriteFrame(c, s, s', plaintext) {
      } else if digest :| AcceptFinal(c, s, s', digest) {
      }
    }
  }

  lemma {:induction false} StaysStranded(c: Config, run: seq<State>, i: nat, j: nat, v: Saved)
    requires IsRun(c, run) && i <= j < |run| && Stranded(run[i], v) && Clean(run[j].history, v.header.transferId)
    ensures Stranded(run[j], v)
    decreases j - i
  {
    hide Inv, Init, TicketsOk, OnceOk, Stranded, ClientStep, OpeningStep, FrameStep, ClosingStep, EnvironmentStep;
    if i < j {
      assert StepAt(c, run, j - 1);
      var s, s' := run[j - 1], run[j];
      HistoryGrows(c, s, s');
      StaysStranded(c, run, i, j - 1, v);
      RunTickets(c, run, j - 1);
      RunOnce(c, run, j - 1);
      if ClientStep(c, s, s') {
        ClientStaysStranded(c, s, s', v);
      } else if OpeningStep(c, s, s') {
        OpeningStaysStranded(c, s, s', v);
      } else {
        OthersStayStranded(c, s, s', v);
      }
    }
  }

  /**
   An acknowledgement that was lost is lost for good: as long as nobody alters source or partial
   file, no later state has a receipt, the state file stays, and no request with it can be resumed.
   */
  lemma NoReceiptAfterLoss(c: Config, run: seq<State>, i: nat, j: nat, v: Saved, n: nat)
    requires IsRun(c, run) && i <= j < |run| && Unacknowledged(run[i], v) && Clean(run[j].history, v.header.transferId)
    ensures v.header.transferId !in run[j].history.receipts && run[j].client.saved == Some(v)
    ensures !MayResume(run[j], Request(n, v.header, true, v.ticket))
  {
    hide IsRun, RequestsOk;
    StaysStranded(c, run, i, j, v);
    RunOnce(c, run, j);
  }
}
