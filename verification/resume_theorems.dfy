/** What a resumable transfer promises over whole runs. */
module ResumeTheorems {
  import opened Bytes
  import opened Framing
  import opened ResumeMachine
  import opened ResumeSafety
  import opened TransferFormat

  // Checkpoints and partial files

  /** In every reachable state a checkpoint counts whole frames of the transfer that it belongs to. */
  lemma CheckpointsCountFrames(c: Config, run: seq<State>, i: nat, id: Id)
    requires IsRun(c, run) && i < |run| && id in run[i].disk.checkpoints
    ensures var cp := run[i].disk.checkpoints[id];
            && id in run[i].history.started && cp.header == run[i].history.started[id].header && WellSized(cp.header)
            && Expected(cp.header, cp.next) == Some(cp.received)
  {
    RunKeeps(c, run, i);
    assert CheckpointOk(run[i].history, run[i].disk, id, run[i].disk.checkpoints[id]);
  }

  /**
   In every reachable state, whatever crashes came before, the partial file of a transfer that
   nobody altered starts with exactly the bytes of the source that its checkpoint counts.
   */
  lemma PartialStartsWithSource(c: Config, run: seq<State>, i: nat, id: Id)
    requires IsRun(c, run) && i < |run| && Clean(run[i].history, id)
    requires id in run[i].disk.checkpoints && id in run[i].disk.partials
    ensures id in run[i].history.started
    ensures var n := run[i].disk.checkpoints[id].received;
            var data := run[i].disk.partials[id].data;
            var content := run[i].history.started[id].content;
            n <= |data| && n <= |content| && data[..n] == content[..n]
  {
    RunKeeps(c, run, i);
    assert CheckpointOk(run[i].history, run[i].disk, id, run[i].disk.checkpoints[id]);
  }

  predicate Recovered(sv: Server) {
    sv.Truncated? || sv.Validated? || sv.Replying? || sv.Receiving?
  }

  /** After recovery, and whenever the next frame is awaited, the partial file is exactly that part of the source. */
  lemma RecoveryLeavesExactlyThat(c: Config, run: seq<State>, i: nat)
    requires IsRun(c, run) && i < |run| && Recovered(run[i].server)
             && Clean(run[i].history, run[i].server.header.transferId)
    ensures var h := run[i].server.header;
            var n := run[i].server.received;
            && Known(run[i].history, h) && h.transferId in run[i].disk.partials && n <= |Content(run[i].history, h)|
            && run[i].disk.partials[h.transferId].data == Content(run[i].history, h)[..n]
  {
    RunKeeps(c, run, i);
    var s := run[i];
    CheckpointHoldsAll(s.history, s.disk, s.server.header, s.server.next, s.server.received);
  }

  /** A step leaves a checkpoint as it is, advances it by one frame, or removes it. */
  lemma StepAdvances(c: Config, s: State, s': State, id: Id)
    requires Inv(c, s) && Next(c, s, s') && id in s.disk.checkpoints && id in s'.disk.checkpoints
    ensures var cp, cp' := s.disk.checkpoints[id], s'.disk.checkpoints[id];
            cp' == cp || (cp'.header == cp.header && cp'.next == cp.next + 1)
  {
    hide HistoryOk, SourceOk, ClientOk, NetOk, DiskOk, WellSized, HoldsAll, Expected, MayResume, HeaderFor, Survives,
         DestinationFree;
    if ClientStep(c, s, s') || ClosingStep(c, s, s') || EnvironmentStep(c, s, s') {
    } else if OpeningStep(c, s, s') {
      if q :| AcceptNew(c, s, s', q) {
      } else if q :| AcceptResume(c, s, s', q) {
      }
    }
  }

  // Publication

  ghost predicate Collision(c: Config, a: seq<byte>, b: seq<byte>) {
    a != b && c.hash(a) == c.hash(b)
  }

  /**
   Whatever was altered between attempts, a step of a run changes a destination only by putting there,
   whole, content with the hash in the header of a transfer, which is its source or collides with it.
   */
  lemma OnlyVerifiedContentIsPublished(c: Config, run: seq<State>, i: nat)
    requires IsRun(c, run) && i + 1 < |run| && run[i + 1].disk.destinations != run[i].disk.destinations
    ensures var s := run[i];
            s.server.Verified? && Known(s.history, s.server.header) && s.server.header.transferId in s.disk.partials
    ensures var s, s' := run[i], run[i + 1];
            var h := s.server.header;
            var data := s.disk.partials[h.transferId].data;
            var content := Content(s.history, h);
            && s'.disk.destinations == s.disk.destinations[h.filename := data] && c.hash(data) == h.sourceHash
            && (data == content || Collision(c, data, content)) && (Clean(s.history, h.transferId) ==> data == content)
  {
    hide Inv, Next, WellSized, Init;
    RunKeeps(c, run, i);
    assert StepAt(c, run, i);
    if Publish(c, run[i], run[i + 1]) {
      PublishedContentIsVerified(c, run[i], run[i + 1]);
    } else {
      OtherStepsPublishNothing(c, run[i], run[i + 1]);
    }
  }

  lemma OtherStepsPublishNothing(c: Config, s: State, s': State)
    requires Next(c, s, s') && !Publish(c, s, s')
    ensures s'.disk.destinations == s.disk.destinations && s'.history.publications == s.history.publications
  {
    hide WellSized, Expected, HeaderFor, MayResume;
    if FrameStep(c, s, s') {
      if data :| WriteFrame(c, s, s', data) {
      } else if digest :| AcceptFinal(c, s, s', digest) {
      }
    }
  }

  lemma PublishedContentIsVerified(c: Config, s: State, s': State)
    requires Inv(c, s) && Publish(c, s, s')
    ensures Known(s.history, s.server.header)
    ensures var h := s.server.header;
            var data := s.disk.partials[h.transferId].data;
            var content := Content(s.history, h);
            && s'.disk.destinations == s.disk.destinations[h.filename := data] && c.hash(data) == h.sourceHash
            && (data == content || Collision(c, data, content)) && (Clean(s.history, h.transferId) ==> data == content)
  {
    hide DiskOk, NetOk, ClientOk, WellSized;
    StepKeepsPublications(c, s, s', s.server.header.transferId);
  }

  lemma StepKeepsPublications(c: Config, s: State, s': State, id: Id)
    requires Inv(c, s) && Publish(c, s, s') && id == s.server.header.transferId
    ensures PublicationOk(c, s'.history, id, s.disk.partials[id].data) && s'.history.started == s.history.started
    ensures StartOk(c, id, s.history.started[id]) && s'.history.dirty == s.history.dirty
  {
    hide DiskOk, NetOk, ClientOk, WellSized, SourceOk;
    PublishKeeps(c, s, s');
    assert (id, s.disk.partials[id].data) in s'.history.publications;
  }

  /** The step that published the data of a transfer at index j. */
  ghost predicate PublishedAt(c: Config, run: seq<State>, j: nat, id: Id, data: seq<byte>)
    requires j + 1 < |run|
  {
    && Publish(c, run[j], run[j + 1]) && run[j].server.header.transferId == id && run[j].disk.partials[id].data == data
    && run[j].server.header.filename in run[j + 1].disk.destinations
    && run[j + 1].disk.destinations[run[j].server.header.filename] == data
  }

  lemma PublicationsComeFromPublishing(c: Config, s: State, s': State, id: Id, data: seq<byte>)
    requires Next(c, s, s') && (id, data) in s'.history.publications && (id, data) !in s.history.publications
    ensures Publish(c, s, s') && s.server.header.transferId == id && s.disk.partials[id].data == data
  {
    hide Next;
    if !Publish(c, s, s') {
      OtherStepsPublishNothing(c, s, s');
    }
  }

  lemma PublishedHere(c: Config, run: seq<State>, j: nat, id: Id, data: seq<byte>)
    requires j + 1 < |run| && Publish(c, run[j], run[j + 1])
    requires run[j].server.header.transferId == id && run[j].disk.partials[id].data == data
    ensures PublishedAt(c, run, j, id, data)
  {
  }

  lemma {:induction false} PublicationHappened(c: Config, run: seq<State>, i: nat, id: Id, data: seq<byte>)
    returns (j: nat)
    requires IsRun(c, run) && i < |run| && (id, data) in run[i].history.publications
    ensures j < i && PublishedAt(c, run, j, id, data)
  {
    hide Next, Publish;
    assert i > 0;
    hide Init;
    if (id, data) in run[i - 1].history.publications {
      j := PublicationHappened(c, run, i - 1, id, data);
    } else {
      j := i - 1;
      assert StepAt(c, run, j);
      PublicationsComeFromPublishing(c, run[j], run[i], id, data);
      PublishedHere(c, run, j, id, data);
    }
  }

  /**
   A receipt means that the destination got the source: at some earlier step it was replaced by
   content that is the source of the transfer, or collides with it.
   */
  lemma ReceiptMeansDelivered(c: Config, run: seq<State>, i: nat, id: Id) returns (j: nat, data: seq<byte>)
    requires IsRun(c, run) && i < |run| && id in run[i].history.receipts
    ensures j < i && PublishedAt(c, run, j, id, data)
    ensures id in run[i].history.started
    ensures var content := run[i].history.started[id].content;
            (data == content || Collision(c, data, content)) && (Clean(run[i].history, id) ==> data == content)
  {
    hide Next, Publish, PublishedAt;
    RunKeeps(c, run, i);
    assert IsPublished(run[i].history, id);
    data :| (id, data) in run[i].history.publications;
    assert PublicationOk(c, run[i].history, id, data) && StartOk(c, id, run[i].history.started[id]);
    j := PublicationHappened(c, run, i, id, data);
  }

  /** The final hash never throws away a transfer that nobody altered. */
  lemma CleanTransfersAreNotRejected(c: Config, run: seq<State>, i: nat)
    requires IsRun(c, run) && i < |run| && run[i].server.Verified?
             && Clean(run[i].history, run[i].server.header.transferId)
    ensures forall s' :: !RejectContent(c, run[i], s')
    ensures var h := run[i].server.header;
            Known(run[i].history, h) && h.transferId in run[i].disk.partials
            && run[i].disk.partials[h.transferId].data == Content(run[i].history, h)
  {
    RunKeeps(c, run, i);
    var h := run[i].server.header;
    assert StartOk(c, h.transferId, run[i].history.started[h.transferId]);
    var content := Content(run[i].history, h);
    assert content[..|content|] == content;
  }

  // Published once

  ghost predicate Touched(s: State, id: Id) {
    || id in s.disk.checkpoints || IsPublished(s.history, id)
    || (!s.server.Idle? && s.server.header.transferId == id)
  }

  predicate SameNew(q: Request, q': Request) {
    !q.resume && !q'.resume && q.header.transferId == q'.header.transferId
  }

  /** A first request that has not been answered yet has left no trace, and its id is its own. */
  ghost predicate RequestsOk(s: State) {
    && (forall q :: q in s.net.requests ==> q.session <= s.client.session)
    && (forall q, q' :: q in s.net.requests && q' in s.net.requests && SameNew(q, q') ==> q == q')
    && (forall q :: q in s.net.requests && !q.resume && q.session > s.served ==> !Touched(s, q.header.transferId))
    && s.served <= s.client.session
  }

  ghost predicate GoneOk(s: State) {
    && (forall id :: IsPublished(s.history, id) && Clean(s.history, id) ==> id !in s.disk.partials)
    && (s.server.Unlinked? ==> !IsPublished(s.history, s.server.header.transferId))
  }

  ghost predicate OnceOk(s: State) {
    RequestsOk(s) && GoneOk(s)
  }

  lemma TouchedIsStarted(c: Config, s: State, id: Id)
    requires Inv(c, s) && Touched(s, id)
    ensures id in s.history.started
  {
    hide SourceOk, ClientOk, NetOk, WellSized, Expected, Keeps;
    if id in s.disk.checkpoints {
      assert CheckpointOk(s.history, s.disk, id, s.disk.checkpoints[id]);
    } else if IsPublished(s.history, id) {
      var data :| (id, data) in s.history.publications;
      assert PublicationOk(c, s.history, id, data);
    }
  }

  lemma StartNewOnce(c: Config, s: State, s': State, id: Id)
    requires Inv(c, s) && OnceOk(s) && StartNew(c, s, s', id)
    ensures OnceOk(s')
  {
    hide HistoryOk, SourceOk, ClientOk, DiskOk, ServerOk, FrameCount;
    assert !Touched(s, id) by {
      if Touched(s, id) {
        TouchedIsStarted(c, s, id);
      }
    }
    assert forall i :: IsPublished(s'.history, i) <==> IsPublished(s.history, i);
    hide IsPublished;
    assert forall i :: Touched(s', i) <==> Touched(s, i);
  }

  lemma SamePublications(hi: History, hi': History)
    requires hi'.publications == hi.publications
    ensures forall i :: IsPublished(hi', i) <==> IsPublished(hi, i)
  {
  }

  lemma ClientOnce(c: Config, s: State, s': State)
    requires Inv(c, s) && OnceOk(s) && ClientStep(c, s, s')
    ensures OnceOk(s')
  {
    hide Inv, Expected, WellSized, IsPublished;
    if id :| StartNew(c, s, s', id) {
      StartNewOnce(c, s, s', id);
    } else {
      assert s'.history.publications == s.history.publications && s'.history.dirty == s.history.dirty;
      assert s'.disk == s.disk && s'.server == s.server && s'.served == s.served;
      SamePublications(s.history, s'.history);
      assert forall i :: Touched(s', i) <==> Touched(s, i);
    }
  }

  /** The server's steps touch only the transfer of the connection that it serves. */
  ghost predicate TouchesOnly(s: State, s': State, id: Id) {
    && s'.client == s.client && s'.net.requests == s.net.requests && s'.served >= s.served
    && s'.history.dirty == s.history.dirty
    && forall i :: i != id && Touched(s', i) ==> Touched(s, i)
  }

  lemma AcceptNewOnce(c: Config, s: State, s': State, q: Request)
    requires OnceOk(s) && AcceptNew(c, s, s', q)
    ensures OnceOk(s')
  {
    hide IsPublished;
    assert !Touched(s, q.header.transferId);
    assert TouchesOnly(s, s', q.header.transferId);
  }

  lemma AcceptResumeOnce(c: Config, s: State, s': State, q: Request)
    requires OnceOk(s) && AcceptResume(c, s, s', q)
    ensures OnceOk(s')
  {
    hide IsPublished, Expected, WellSized;
    assert Touched(s, q.header.transferId);
    assert forall i :: Touched(s', i) ==> Touched(s, i);
  }

  /** All other steps of the server touch what was touched already. */
  ghost predicate Continues(s: State, s': State) {
    && !s.server.Idle?
    && s'.client == s.client && s'.net.requests == s.net.requests && s'.served == s.served
    && s'.history.dirty == s.history.dirty && s'.history.publications == s.history.publications
    && (s'.server.Idle? || s'.server.header == s.server.header) && !s'.server.Unlinked?
    && (forall i :: i in s'.disk.checkpoints ==> i in s.disk.checkpoints || i == s.server.header.transferId)
    && (forall i :: i in s'.disk.partials ==>
          i in s.disk.partials || (i == s.server.header.transferId && s.server.Unlinked?))
  }

  lemma ContinuesOnce(s: State, s': State)
    requires OnceOk(s) && Continues(s, s')
    ensures OnceOk(s')
  {
    assert forall i :: IsPublished(s'.history, i) <==> IsPublished(s.history, i);
    hide IsPublished;
    assert forall i :: Touched(s', i) ==> Touched(s, i);
  }

  lemma PublishOnce(c: Config, s: State, s': State)
    requires OnceOk(s) && Publish(c, s, s')
    ensures OnceOk(s')
  {
    var id := s.server.header.transferId;
    assert forall i :: i != id ==> (IsPublished(s'.history, i) <==> IsPublished(s.history, i));
    hide IsPublished;
    assert Touched(s, id);
    assert forall i :: Touched(s', i) ==> Touched(s, i);
  }

  lemma OpeningOnce(c: Config, s: State, s': State)
    requires OnceOk(s) && OpeningStep(c, s, s')
    ensures OnceOk(s')
  {
    hide OnceOk, AcceptNew, AcceptResume;
    if q :| AcceptNew(c, s, s', q) {
      AcceptNewOnce(c, s, s', q);
    } else if q :| AcceptResume(c, s, s', q) {
      AcceptResumeOnce(c, s, s', q);
    } else {
      assert Continues(s, s');
      ContinuesOnce(s, s');
    }
  }

  lemma FrameOnce(c: Config, s: State, s': State)
    requires OnceOk(s) && FrameStep(c, s, s')
    ensures OnceOk(s')
  {
    hide OnceOk;
    assert Continues(s, s') by {
      if data :| WriteFrame(c, s, s', data) {
      } else if digest :| AcceptFinal(c, s, s', digest) {
      }
    }
    ContinuesOnce(s, s');
  }

  lemma ClosingOnce(c: Config, s: State, s': State)
    requires OnceOk(s) && ClosingStep(c, s, s')
    ensures OnceOk(s')
  {
    hide OnceOk;
    if Publish(c, s, s') {
      PublishOnce(c, s, s');
    } else if s.server.Idle? {
      assert ServerStops(c, s, s') && s' == s;
    } else {
      assert Continues(s, s');
      ContinuesOnce(s, s');
    }
  }

  lemma EnvironmentOnce(c: Config, s: State, s': State)
    requires OnceOk(s) && EnvironmentStep(c, s, s')
    ensures OnceOk(s')
  {
    assert forall i :: IsPublished(s'.history, i) <==> IsPublished(s.history, i);
    hide IsPublished;
    if id :| Tamper(c, s, s', id) {
      forall i | i in s'.disk.partials && i != id ensures i in s.disk.partials {
        assert i in s'.disk.partials - {id};
      }
    }
    assert forall i :: Touched(s', i) ==> Touched(s, i);
  }

  lemma {:induction false} RunOnce(c: Config, run: seq<State>, i: nat)
    requires IsRun(c, run) && i < |run|
    ensures OnceOk(run[i])
  {
    if i == 0 {
      assert OnceOk(run[0]);
    } else {
      hide ClientStep, OpeningStep, FrameStep, ClosingStep, EnvironmentStep, OnceOk, Inv, Init;
      RunOnce(c, run, i - 1);
      RunKeeps(c, run, i - 1);
      assert StepAt(c, run, i - 1);
      var s, s' := run[i - 1], run[i];
      if ClientStep(c, s, s') {
        ClientOnce(c, s, s');
      } else if OpeningStep(c, s, s') {
        OpeningOnce(c, s, s');
      } else if FrameStep(c, s, s') {
        FrameOnce(c, s, s');
      } else if ClosingStep(c, s, s') {
        ClosingOnce(c, s, s');
      } else {
        EnvironmentOnce(c, s, s');
      }
    }
  }

  /** A transfer that nobody altered is published at most once, even if the acknowledgement is lost. */
  lemma PublishedAtMostOnce(c: Config, run: seq<State>, i: nat)
    requires IsRun(c, run) && i + 1 < |run| && Publish(c, run[i], run[i + 1])
    requires Clean(run[i].history, run[i].server.header.transferId)
    ensures !IsPublished(run[i].history, run[i].server.header.transferId)
  {
    RunOnce(c, run, i);
  }

  /** Once published, it is gone from the server: every later resume request for it is refused. */
  lemma PublishedIsNotResumed(c: Config, run: seq<State>, i: nat, q: Request)
    requires IsRun(c, run) && i < |run| && IsPublished(run[i].history, q.header.transferId)
    requires Clean(run[i].history, q.header.transferId)
    ensures !MayResume(run[i], q)
  {
    RunOnce(c, run, i);
  }

  // Checkpoints over whole runs

  /** No first request for this transfer is open any more, so no checkpoint can be made for it. */
  ghost predicate Spent(s: State, id: Id) {
    && id in s.history.started
    && (forall q :: q in s.net.requests && !q.resume && q.header.transferId == id ==> q.session <= s.served)
    && !((s.server.Unlinked? || s.server.Created?) && s.server.header.transferId == id)
  }

  lemma CheckpointIsSpent(c: Config, s: State, id: Id)
    requires Inv(c, s) && OnceOk(s) && id in s.disk.checkpoints
    ensures Spent(s, id)
  {
    hide HistoryOk, SourceOk, ClientOk, NetOk, Keeps, WellSized, Expected;
    assert CheckpointOk(s.history, s.disk, id, s.disk.checkpoints[id]);
  }

  lemma ClientStaysSpent(c: Config, s: State, s': State, id: Id)
    requires Inv(c, s) && ClientStep(c, s, s') && Spent(s, id)
    ensures Spent(s', id) && s'.disk == s.disk
  {
    hide Inv, WellSized, Expected, FrameCount;
    if other :| StartNew(c, s, s', other) {
      assert HeaderFor(c, s.client.source, other).transferId == other;
    }
  }

  lemma OpeningStaysSpent(c: Config, s: State, s': State, id: Id)
    requires OpeningStep(c, s, s') && Spent(s, id)
    ensures Spent(s', id) && (id in s'.disk.checkpoints ==> id in s.disk.checkpoints)
  {
    hide WellSized, Expected, MayResume, DestinationFree;
    if q :| AcceptNew(c, s, s', q) {
    } else if q :| AcceptResume(c, s, s', q) {
    }
  }

  lemma FrameStaysSpent(c: Config, s: State, s': State, id: Id)
    requires Inv(c, s) && FrameStep(c, s, s') && Spent(s, id)
    ensures Spent(s', id) && (id in s'.disk.checkpoints ==> id in s.disk.checkpoints)
  {
    hide HistoryOk, SourceOk, ClientOk, NetOk, DiskOk, HoldsAll, WellSized, Expected;
    if data :| WriteFrame(c, s, s', data) {
    } else if digest :| AcceptFinal(c, s, s', digest) {
    }
  }

  /** What is spent stays spent, and gets no checkpoint. */
  lemma SpentStep(c: Config, s: State, s': State, id: Id)
    requires Inv(c, s) && Next(c, s, s') && Spent(s, id)
    ensures Spent(s', id) && (id in s'.disk.checkpoints ==> id in s.disk.checkpoints)
  {
    hide Inv, ClientStep, OpeningStep, FrameStep, Survives;
    if ClientStep(c, s, s') {
      ClientStaysSpent(c, s, s', id);
    } else if OpeningStep(c, s, s') {
      OpeningStaysSpent(c, s, s', id);
    } else if FrameStep(c, s, s') {
      FrameStaysSpent(c, s, s', id);
    }
  }

  lemma {:induction false} SpentStays(c: Config, run: seq<State>, i: nat, j: nat, id: Id)
    requires IsRun(c, run) && i <= j < |run| && Spent(run[i], id)
    ensures Spent(run[j], id) && (id in run[j].disk.checkpoints ==> id in run[i].disk.checkpoints)
    decreases j - i
  {
    hide Next, Inv, Init, Spent;
    if i < j {
      SpentStays(c, run, i, j - 1, id);
      RunKeeps(c, run, j - 1);
      assert StepAt(c, run, j - 1);
      SpentStep(c, run[j - 1], run[j], id);
    }
  }

  /** A checkpoint that has been dropped never returns. */
  lemma DroppedNeverReturns(c: Config, run: seq<State>, i: nat, k: nat, j: nat, id: Id)
    requires IsRun(c, run) && i <= k <= j < |run|
    requires id in run[i].disk.checkpoints && id !in run[k].disk.checkpoints
    ensures id !in run[j].disk.checkpoints
  {
    hide Next, Inv, Init, OnceOk, Spent;
    RunKeeps(c, run, i);
    RunOnce(c, run, i);
    CheckpointIsSpent(c, run[i], id);
    SpentStays(c, run, i, k, id);
    SpentStays(c, run, k, j, id);
  }

  /** From any state of a run to any later one, a checkpoint never goes back, and its bytes grow with its frames. */
  lemma {:induction false} CheckpointsOnlyAdvance(c: Config, run: seq<State>, i: nat, j: nat, id: Id)
    requires IsRun(c, run) && i <= j < |run|
    requires id in run[i].disk.checkpoints && id in run[j].disk.checkpoints
    ensures var cp, cp' := run[i].disk.checkpoints[id], run[j].disk.checkpoints[id];
            && cp'.header == cp.header && cp.next <= cp'.next && cp.received <= cp'.received
            && (cp.next < cp'.next ==> cp.received < cp'.received)
    decreases j - i
  {
    hide Next, Expected, Inv, Init;
    CheckpointsCountFrames(c, run, i, id);
    CheckpointsCountFrames(c, run, j, id);
    if i < j {
      if id !in run[j - 1].disk.checkpoints {
        DroppedNeverReturns(c, run, i, j - 1, j, id);
      }
      CheckpointsOnlyAdvance(c, run, i, j - 1, id);
      RunKeeps(c, run, j - 1);
      assert StepAt(c, run, j - 1);
      StepAdvances(c, run[j - 1], run[j], id);
      var h, cp, cp' := run[i].disk.checkpoints[id].header, run[i].disk.checkpoints[id], run[j].disk.checkpoints[id];
      MoreFramesMoreBytes(h, cp.next, cp.received, cp'.next, cp'.received);
    }
  }

  lemma MoreFramesMoreBytes(h: Stable, next: nat, received: nat, next': nat, received': nat)
    requires WellSized(h) && next <= next' && Expected(h, next) == Some(received)
             && Expected(h, next') == Some(received')
    ensures received <= received' && (next < next' ==> received < received')
  {
    if next < next' {
      ExpectedGrows(next, next', h.frameSize, h.originalSize, h.frameCount);
    }
  }
}
