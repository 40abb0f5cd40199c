/** Tickets, and what is kept for a client that can resume. */
module ResumeTickets {
  import opened Framing
  import opened ResumeMachine
  import opened ResumeSafety

  // Tickets

  ghost predicate SameSession(q: Request, q': Request) {
    q.session == q'.session
  }

  /** The server answers the request of its connection, and every ticket names the transfer that it was issued for. */
  ghost predicate TicketsOk(c: Config, s: State) {
    && (forall id :: id in s.history.started ==>
          s.history.started[id].header.filename == c.name && s.history.started[id].header.frameSize == c.frameSize)
    && (s.client.saved.Some? ==> s.client.saved.value.ticket == Issued(s.client.saved.value.header))
    && (forall q, q' :: q in s.net.requests && q' in s.net.requests && SameSession(q, q') ==> q == q')
    && (forall q :: q in s.net.requests ==> q.session <= s.client.session)
    && (forall q :: q in s.net.requests ==> q.ticket == if q.resume then Issued(q.header) else ZeroTicket)
    && (forall n, status, q :: (n, status) in s.net.statuses && q in s.net.requests && q.session == n ==>
          status.ticket == Issued(q.header))
    && (s.client.phase.Requested? ==> s.client.phase.request in s.net.requests)
    && (!s.server.Idle? ==> s.server.session <= s.client.session)
    && (forall q :: q in s.net.requests && !s.server.Idle? && s.server.session == q.session ==>
          s.server.header == q.header)
    && (forall n, status :: (n, status) in s.net.statuses ==> n <= s.client.session)
  }

  lemma StartNewTickets(c: Config, s: State, s': State, id: Id)
    requires TicketsOk(c, s) && StartNew(c, s, s', id)
    ensures TicketsOk(c, s')
  {
    hide FrameCount;
  }

  lemma StartResumeTickets(c: Config, s: State, s': State)
    requires TicketsOk(c, s) && StartResume(c, s, s')
    ensures TicketsOk(c, s')
  {
    hide FrameCount;
  }

  lemma ClientTickets(c: Config, s: State, s': State)
    requires TicketsOk(c, s) && ClientStep(c, s, s')
    ensures TicketsOk(c, s')
  {
    hide WellSized, Expected, FrameCount, StartNew, StartResume;
    if id :| StartNew(c, s, s', id) {
      StartNewTickets(c, s, s', id);
    } else if StartResume(c, s, s') {
      StartResumeTickets(c, s, s');
    } else if status :| ReadStatus(c, s, s', status) {
    }
  }

  /** A step of the server that neither accepts a request nor sends a status. */
  ghost predicate Unheard(s: State, s': State) {
    && s'.client == s.client && s'.net.requests == s.net.requests && s'.net.statuses == s.net.statuses
    && s'.history.started == s.history.started
    && (s'.server.Idle?
        || (!s.server.Idle? && s'.server.session == s.server.session && s'.server.header == s.server.header))
  }

  lemma UnheardTickets(c: Config, s: State, s': State)
    requires TicketsOk(c, s) && Unheard(s, s')
    ensures TicketsOk(c, s')
  {
  }

  lemma AcceptTickets(c: Config, s: State, s': State, q: Request)
    requires TicketsOk(c, s) && (AcceptNew(c, s, s', q) || AcceptResume(c, s, s', q))
    ensures TicketsOk(c, s')
  {
    hide WellSized, Expected, MayResume, DestinationFree;
  }

  lemma OpeningTickets(c: Config, s: State, s': State)
    requires TicketsOk(c, s) && OpeningStep(c, s, s')
    ensures TicketsOk(c, s')
  {
    hide AcceptNew, AcceptResume, DestinationFree;
    if q :| AcceptNew(c, s, s', q) {
      AcceptTickets(c, s, s', q);
    } else if q :| AcceptResume(c, s, s', q) {
      AcceptTickets(c, s, s', q);
    } else if !SendStatus(c, s, s') {
      hide TicketsOk;
      assert Unheard(s, s');
      UnheardTickets(c, s, s');
    }
  }

  lemma ServerTickets(c: Config, s: State, s': State)
    requires TicketsOk(c, s) && (OpeningStep(c, s, s') || FrameStep(c, s, s') || ClosingStep(c, s, s'))
    ensures TicketsOk(c, s')
  {
    hide WellSized, Expected, OpeningStep, TicketsOk;
    if OpeningStep(c, s, s') {
      OpeningTickets(c, s, s');
    } else {
      assert Unheard(s, s') by {
        if FrameStep(c, s, s') {
          if data :| WriteFrame(c, s, s', data) {
          } else if digest :| AcceptFinal(c, s, s', digest) {
          }
        }
      }
      UnheardTickets(c, s, s');
    }
  }

  lemma EnvironmentTickets(c: Config, s: State, s': State)
    requires TicketsOk(c, s) && EnvironmentStep(c, s, s')
    ensures TicketsOk(c, s')
  {
    hide Survives;
  }

  lemma {:induction false} RunTickets(c: Config, run: seq<State>, i: nat)
    requires IsRun(c, run) && i < |run|
    ensures TicketsOk(c, run[i])
  {
    if i == 0 {
      assert TicketsOk(c, run[0]);
    } else {
      hide ClientStep, OpeningStep, FrameStep, ClosingStep, EnvironmentStep, TicketsOk, Init;
      RunTickets(c, run, i - 1);
      assert StepAt(c, run, i - 1);
      var s, s' := run[i - 1], run[i];
      if ClientStep(c, s, s') {
        ClientTickets(c, s, s');
      } else if EnvironmentStep(c, s, s') {
        EnvironmentTickets(c, s, s');
      } else {
        ServerTickets(c, s, s');
      }
    }
  }

  // What is kept for a client that can resume

  /** Unless something was altered, the transfer's checkpoint is there, or it was published. */
  ghost predicate Kept(s: State, id: Id) {
    Clean(s.history, id) ==> id in s.disk.checkpoints || IsPublished(s.history, id)
  }

  /** Every transfer that a status was sent for, that a client has saved, or that it asks to resume, is kept. */
  ghost predicate KeptOk(s: State) {
    && (s.client.saved.Some? ==> Kept(s, s.client.saved.value.header.transferId))
    && (forall n, status :: (n, status) in s.net.statuses && status.ticket.Issued? ==>
          Kept(s, status.ticket.header.transferId))
    && (forall q :: q in s.net.requests && q.resume ==> Kept(s, q.header.transferId))
    && (s.server.Discarding? ==> !Clean(s.history, s.server.header.transferId))
  }

  lemma HistoryGrows(c: Config, s: State, s': State)
    requires Next(c, s, s')
    ensures s.history.dirty <= s'.history.dirty && s.history.publications <= s'.history.publications
  {
    hide WellSized, Expected, HeaderFor, MayResume, Survives, DestinationFree;
    if FrameStep(c, s, s') {
      if data :| WriteFrame(c, s, s', data) {
      } else if digest :| AcceptFinal(c, s, s', digest) {
      }
    }
  }

  lemma CheckpointsStay(c: Config, s: State, s': State)
    requires Next(c, s, s') && !DropCheckpoint(c, s, s')
    ensures s.disk.checkpoints.Keys <= s'.disk.checkpoints.Keys
  {
    hide WellSized, Expected, HeaderFor, MayResume, Survives, DestinationFree;
    if FrameStep(c, s, s') {
      if data :| WriteFrame(c, s, s', data) {
      } else if digest :| AcceptFinal(c, s, s', digest) {
      }
    }
  }

  /** A checkpoint goes only after publication, or after content was altered and rejected. */
  lemma StaysKept(c: Config, s: State, s': State, id: Id)
    requires Inv(c, s) && KeptOk(s) && Next(c, s, s') && Kept(s, id)
    ensures Kept(s', id)
  {
    hide Next, HistoryOk, SourceOk, ClientOk, NetOk, DiskOk, WellSized;
    HistoryGrows(c, s, s');
    if IsPublished(s.history, id) {
      var data :| (id, data) in s.history.publications;
      assert (id, data) in s'.history.publications;
    }
    if !DropCheckpoint(c, s, s') {
      CheckpointsStay(c, s, s');
    }
  }

  /** The hash rejects only what was altered. */
  lemma RejectedIsDirty(c: Config, s: State, s': State)
    requires Inv(c, s) && RejectContent(c, s, s')
    ensures !Clean(s.history, s.server.header.transferId)
  {
    hide SourceOk, ClientOk, NetOk, DiskOk, WellSized;
    var h := s.server.header;
    assert StartOk(c, h.transferId, s.history.started[h.transferId]);
    var content := Content(s.history, h);
    assert content[..|content|] == content;
  }

  /** New requests, statuses and saved states belong to kept transfers. */
  ghost predicate NewOnesKept(s: State, s': State) {
    && (s'.client.saved.Some? && s'.client.saved != s.client.saved ==>
          Kept(s', s'.client.saved.value.header.transferId))
    && (forall n, status ::
          (n, status) in s'.net.statuses && (n, status) !in s.net.statuses && status.ticket.Issued? ==>
          Kept(s', status.ticket.header.transferId))
    && (forall q :: q in s'.net.requests && q !in s.net.requests && q.resume ==> Kept(s', q.header.transferId))
    && (s'.server.Discarding? && !s.server.Discarding? ==> !Clean(s'.history, s'.server.header.transferId))
    && (s'.server.Discarding? && s.server.Discarding? ==> s'.server == s.server)
  }

  lemma KeptStep(c: Config, s: State, s': State)
    requires Inv(c, s) && KeptOk(s) && Next(c, s, s') && NewOnesKept(s, s')
    ensures KeptOk(s')
  {
    hide Inv, Next, Kept;
    HistoryGrows(c, s, s');
    forall id | Kept(s, id) ensures Kept(s', id) {
      StaysKept(c, s, s', id);
    }
  }

  lemma ClientKept(c: Config, s: State, s': State)
    requires Inv(c, s) && TicketsOk(c, s) && KeptOk(s) && ClientStep(c, s, s')
    ensures KeptOk(s')
  {
    hide Inv, WellSized, Expected, HeaderFor;
    forall id | Kept(s, id) ensures Kept(s', id) {
      StaysKept(c, s, s', id);
    }
    hide Kept;
    if id :| StartNew(c, s, s', id) {
    } else if status :| ReadStatus(c, s, s', status) {
      assert status.ticket == Issued(s.client.phase.request.header);
    }
    assert NewOnesKept(s, s');
    KeptStep(c, s, s');
  }

  lemma SendStatusKept(c: Config, s: State, s': State)
    requires Inv(c, s) && SendStatus(c, s, s')
    ensures Kept(s', s.server.header.transferId)
  {
    hide HistoryOk, SourceOk, ClientOk, NetOk, DiskOk;
  }

  lemma OpeningKept(c: Config, s: State, s': State)
    requires Inv(c, s) && KeptOk(s) && OpeningStep(c, s, s')
    ensures KeptOk(s')
  {
    hide Inv, Kept, WellSized, Expected, MayResume, DestinationFree;
    if SendStatus(c, s, s') {
      SendStatusKept(c, s, s');
    } else if q :| AcceptNew(c, s, s', q) {
    } else if q :| AcceptResume(c, s, s', q) {
    }
    assert NewOnesKept(s, s');
    KeptStep(c, s, s');
  }

  lemma OtherKept(c: Config, s: State, s': State)
    requires Inv(c, s) && KeptOk(s) && (FrameStep(c, s, s') || ClosingStep(c, s, s') || EnvironmentStep(c, s, s'))
    ensures KeptOk(s')
  {
    hide Inv, Kept, WellSized, Expected, Survives;
    if RejectContent(c, s, s') {
      RejectedIsDirty(c, s, s');
    } else if FrameStep(c, s, s') {
      if data :| WriteFrame(c, s, s', data) {
      } else if digest :| AcceptFinal(c, s, s', digest) {
      }
    }
    assert NewOnesKept(s, s');
    KeptStep(c, s, s');
  }

  lemma {:induction false} RunKept(c: Config, run: seq<State>, i: nat)
    requires IsRun(c, run) && i < |run|
    ensures KeptOk(run[i])
  {
    if i == 0 {
      assert KeptOk(run[0]);
    } else {
      hide ClientStep, OpeningStep, FrameStep, ClosingStep, EnvironmentStep, TicketsOk, KeptOk, Inv, Init;
      RunKept(c, run, i - 1);
      RunKeeps(c, run, i - 1);
      RunTickets(c, run, i - 1);
      assert StepAt(c, run, i - 1);
      var s, s' := run[i - 1], run[i];
      if ClientStep(c, s, s') {
        ClientKept(c, s, s');
      } else if OpeningStep(c, s, s') {
        OpeningKept(c, s, s');
      } else {
        OtherKept(c, s, s');
      }
    }
  }
}
