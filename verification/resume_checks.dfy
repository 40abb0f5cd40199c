/** What each side has checked before it goes on, read off the states of a run (src/ubin/secure/resume.py). */
module ResumeChecks {
  import opened Bytes
  import opened ResumeMachine
  import opened TransferFormat

  /** The bytes before frame n. */
  ghost predicate IsPosition(h: Stable, n: nat, at: nat) {
    h.frameSize >= 1 && n <= h.frameCount && at == if n == h.frameCount then h.originalSize else n * h.frameSize
  }

  lemma ExpectedIsPosition(h: Stable, n: nat, at: nat)
    requires WellSized(h)
    ensures Expected(h, n) == Some(at) <==> IsPosition(h, n, at)
  {
  }

  /**
   A request is taken up only when it was sent and never answered, with the right ticket, and if all of
   its state is there.
   */
  ghost predicate MayOpen(c: Config, s: State, q: Request) {
    && q in s.net.requests && q.session > s.served
    && if !q.resume then q.ticket == ZeroTicket && q.header.transferId !in s.disk.checkpoints
                         && (c.overwrite || q.header.filename !in s.disk.destinations)
       else
         var id := q.header.transferId;
         && q.ticket == Issued(q.header) && id in s.disk.checkpoints && id in s.disk.partials
         && s.disk.checkpoints[id].header == q.header
         && IsPosition(q.header, s.disk.checkpoints[id].next, s.disk.checkpoints[id].received)
         && s.disk.checkpoints[id].received <= |s.disk.partials[id].data|
  }

  lemma OpensOnlyChecked(c: Config, run: seq<State>, i: nat)
    requires IsRun(c, run) && i + 1 < |run| && run[i].server.Idle? && !run[i + 1].server.Idle?
    ensures exists q ::
              MayOpen(c, run[i], q) && run[i + 1].server.session == q.session && run[i + 1].server.header == q.header
                        && run[i + 1].served == q.session
  {
    hide Init, WellSized, Expected, HeaderFor, Survives;
    assert StepAt(c, run, i);
    var s, t := run[i], run[i + 1];
    if q :| AcceptNew(c, s, t, q) {
      assert MayOpen(c, s, q);
    } else if q :| AcceptResume(c, s, t, q) {
      ExpectedIsPosition(q.header, s.disk.checkpoints[q.header.transferId].next,
                         s.disk.checkpoints[q.header.transferId].received);
      assert MayOpen(c, s, q);
    }
  }

  /** The client goes on with a status only if it belongs to its connection, is consistent, and keeps the ticket. */
  lemma StatusIsChecked(c: Config, run: seq<State>, i: nat)
    requires IsRun(c, run) && i + 1 < |run| && run[i].client.phase.Requested? && run[i + 1].client.phase.Sending?
    ensures var q, p := run[i].client.phase.request, run[i + 1].client.phase;
            && (q.session, p.status) in run[i].net.statuses && p.session == q.session && p.header == q.header
            && p.next == p.status.next && p.offset == p.status.received && IsPosition(q.header, p.next, p.offset)
            && (q.resume ==> p.status.ticket == q.ticket)
            && run[i + 1].client.saved == Some(Saved(q.header, p.status.ticket))
  {
    hide Init, WellSized, Expected, HeaderFor, Survives, MayResume, DestinationFree;
    assert StepAt(c, run, i);
    var s, t := run[i], run[i + 1];
    if status :| ReadStatus(c, s, t, status) {
      ExpectedIsPosition(s.client.phase.request.header, status.next, status.received);
    }
  }

  /**
   A frame is written only if the client has sealed it for this connection, header, status and number,
   and has the right length.
   */
  lemma FrameIsChecked(c: Config, run: seq<State>, i: nat) returns (data: seq<byte>)
    requires IsRun(c, run) && i + 1 < |run| && run[i].server.Receiving? && run[i + 1].server.Written?
    ensures var p := run[i].server;
            && p.next < p.header.frameCount
            && Frame(p.session, p.header, p.status, p.next, data) in run[i].net.sealed
            && |data| == (if p.header.frameSize <= p.header.originalSize - p.received then p.header.frameSize
                          else p.header.originalSize - p.received)
            && run[i + 1].server == Written(p.session, p.header, p.next, p.received + |data|, p.status)
  {
    hide Init, WellSized, Expected, HeaderFor, Survives, MayResume, DestinationFree;
    assert StepAt(c, run, i);
    data :| WriteFrame(c, run[i], run[i + 1], data);
  }

  /** The final record is accepted only after every frame, and only the client's, with the hash in the header. */
  lemma FinalIsChecked(c: Config, run: seq<State>, i: nat)
    requires IsRun(c, run) && i + 1 < |run| && run[i].server.Receiving? && run[i + 1].server.Verified?
    ensures var p := run[i].server;
            && p.next >= p.header.frameCount && p.received == p.header.originalSize
            && Final(p.session, p.header, p.status, p.header.sourceHash) in run[i].net.sealed
  {
    hide Init, WellSized, Expected, HeaderFor, Survives, MayResume, DestinationFree;
    assert StepAt(c, run, i);
    var digest :| AcceptFinal(c, run[i], run[i + 1], digest);
  }

  /**
   The client seals frame after frame of its source, each with its number for this connection, header
   and status.
   */
  lemma FramesAreSealedInOrder(c: Config, run: seq<State>, i: nat)
    requires IsRun(c, run) && i + 1 < |run| && run[i].client.phase.Sending?
    requires run[i + 1].client.phase.Sending? && run[i + 1].client.phase != run[i].client.phase
    ensures var p := run[i].client.phase;
            var len := if p.header.frameSize <= p.header.originalSize - p.offset then p.header.frameSize
                       else p.header.originalSize - p.offset;
            && p.next < p.header.frameCount && 0 <= len && p.offset + len <= |run[i].client.source|
            && run[i + 1].client.phase == p.(next := p.next + 1, offset := p.offset + len)
            && run[i + 1].net.sealed == run[i].net.sealed
                 + {Frame(p.session, p.header, p.status, p.next, run[i].client.source[p.offset..p.offset + len])}
  {
    hide Init, WellSized, Expected, HeaderFor, Survives, MayResume, DestinationFree;
    assert StepAt(c, run, i);
  }

  /** The client seals its final record after all frames, with the hash in the header. */
  lemma FinalIsSealedLast(c: Config, run: seq<State>, i: nat)
    requires IsRun(c, run) && i + 1 < |run| && run[i].client.phase.Sending? && run[i + 1].client.phase.Awaiting?
    ensures var p := run[i].client.phase;
            && p.next == p.header.frameCount
            && run[i + 1].client.phase == Awaiting(p.session, p.header)
            && run[i + 1].net.sealed
               == run[i].net.sealed + {Final(p.session, p.header, p.status, p.header.sourceHash)}
  {
    hide Init, WellSized, Expected, HeaderFor, Survives, MayResume, DestinationFree;
    assert StepAt(c, run, i);
  }

  /** The client takes a receipt only for the acknowledgement of its connection, size, hash and transfer. */
  lemma AcknowledgementIsChecked(c: Config, run: seq<State>, i: nat)
    requires IsRun(c, run) && i + 1 < |run| && run[i + 1].history.receipts != run[i].history.receipts
    ensures run[i].client.phase.Awaiting? && run[i].client.phase.header.originalSize >= 0
    ensures var p := run[i].client.phase;
            && Ack(p.session, p.header.originalSize, p.header.sourceHash, p.header.transferId) in run[i].net.acks
            && run[i + 1].history.receipts == run[i].history.receipts + {p.header.transferId}
            && run[i + 1].client.saved == None
  {
    hide Init, WellSized, Expected, HeaderFor, Survives, MayResume, DestinationFree;
    assert StepAt(c, run, i);
  }

  // What may happen meanwhile

  /** A crash at any moment: each file keeps its synced bytes, whatever comes behind them, or is lost. */
  lemma AnyCrash(c: Config, s: State, after: map<Id, File>)
    requires forall id :: id in after ==>
               && id in s.disk.partials && after[id].durable == s.disk.partials[id].durable
               && s.disk.partials[id].durable <= |s.disk.partials[id].data|
               && s.disk.partials[id].durable <= |after[id].data|
               && after[id].data[..after[id].durable] == s.disk.partials[id].data[..after[id].durable]
    ensures Next(c, s, s.(server := Idle, disk := s.disk.(partials := after)))
  {
    assert Crash(c, s, s.(server := Idle, disk := s.disk.(partials := after)));
  }

  /** Either side may give up at any moment, and the source may change at any moment. */
  lemma AnyStop(c: Config, s: State, source: seq<byte>)
    ensures Next(c, s, s.(server := Idle)) && Next(c, s, s.(client := s.client.(phase := Resting)))
    ensures Next(c, s, s.(client := s.client.(source := source),
                          history := s.history.(dirty := s.history.dirty + s.history.started.Keys)))
  {
    assert ServerStops(c, s, s.(server := Idle));
    assert ClientStops(c, s, s.(client := s.client.(phase := Resting)));
    assert EditSource(c, s, s.(client := s.client.(source := source),
                               history := s.history.(dirty := s.history.dirty + s.history.started.Keys)));
  }

  /** Between attempts a partial file may become anything. */
  lemma AnyTampering(c: Config, s: State, id: Id, f: File)
    requires s.server.Idle? && id in s.history.started && f.durable <= |f.data|
    ensures Next(c, s, s.(disk := s.disk.(partials := s.disk.partials[id := f]),
                          history := s.history.(dirty := s.history.dirty + {id})))
    ensures Next(c, s, s.(disk := s.disk.(partials := s.disk.partials - {id}),
                          history := s.history.(dirty := s.history.dirty + {id})))
  {
    var t := s.(disk := s.disk.(partials := s.disk.partials[id := f]),
                history := s.history.(dirty := s.history.dirty + {id}));
    assert t.disk.partials - {id} == s.disk.partials - {id};
    assert Tamper(c, s, t, id);
    var u := s.(disk := s.disk.(partials := s.disk.partials - {id}),
                history := s.history.(dirty := s.history.dirty + {id}));
    assert u.disk.partials - {id} == s.disk.partials - {id};
    assert Tamper(c, s, u, id);
  }
}
